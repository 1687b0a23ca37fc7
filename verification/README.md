# BitSocket in Dafny

A model of BitSocket, a binary framing and schema protocol over one multiplexed connection, with
proofs of what its two ends promise each other. `dafny verify dfyconfig.toml` checks everything.

The parts, in the order in which they build on each other:

- **The positional payload codec** (`Positional`, `PositionalLaws`, `CanonicalForms`, `PayloadLaws`,
  `SchemaCodec`). A pure specification of the encoding, the canonical form that coercion leads to,
  and the decoding; its laws; and the program: two passes over a shared queue, offset and buffer,
  proved to agree with each other and with the specification byte for byte.
- **Schema definitions on the wire** (`DefWire`, `DefWireLaws`, `DefWireCodec`, `SchemaTables`,
  `TableCodec`, `DefGrammar`). The MessagePack printer and parser of definition trees, and the tables
  that hold them, written in whatever order a Go map yields; and the grammar that the parser accepts.
- **Frames** (`Frame`), and **how a client learns the server's schemas** (`SchemaSync`,
  `EndToEnd`), down to a session that connects, absorbs and emits.
- **The server** (`Registration`, `Middleware`, `ServerReplies`, `ServerObjects`,
  `ServerRegistry`). A state machine whose actions are the blocks of code that run under one lock,
  with theorems over all its runs, and the objects with their methods, each proved to perform
  actions of that machine.
- **The client** (`ClientNamespace`, `AckTable`, `Heartbeat`, `ClientLifecycle`, `ClientObjects`),
  in the same style, and both programs together: **a request and its answer** (`Requests`), and
  **what one side sends through the other's handleMessage to its handlers** (`Delivery`).

Conventions. A Go string is a sequence of bytes. `Platform` holds what libraries and hardware do
but the repository does not define: float conversions, generic MessagePack, DEFLATE. Two properties
of it are assumed where they are named: `Unpacks` (what packs can be unpacked) and `Inflates`
(inflating undoes deflating). Reads of a Go slice are checked against its capacity, so decoders take
the memory behind the slice as an argument. Sockets and connections carry numbers that stand for
their addresses. In the machines an action that is not possible changes nothing, so every sequence
of actions is a run. Every class method that changes the server appends the actions it performed to
a ghost `run`, and `Valid` ties the fields to the machine's state after that run.

Where the code differs from what its comments and documentation say, the model follows the code:

- A schema decode of a malformed message can read past its buffer into spare capacity
  (`PositionalLaws.StaysInside`, `PositionalLaws.ReadsSpareCapacity`).
- Frame names longer than 255 bytes are sent with a truncated length (`Frame.FrameRoundTrip`), and
  counts of 2^32 and more with a truncated count (`CanonicalForms.RoundTripExactly`).
- Namespaces that differ by a leading slash export under one key (`SchemaTables.KeyCollisions`,
  `SchemaTables.SlashClash`).
- A message shorter than its schema says makes the decoder panic, and nothing recovers from that: it
  ends the server or the client (`PositionalLaws.PanicsExactly`,
  `ServerRegistry.Server.CrashesExactly`, `ClientObjects.Client.CrashesExactly`).
- Acknowledgements use the default codec but are decoded by event schema
  (`EndToEnd.AckAgreement`).
- A second CONNECT, or admission after the close, leaves a socket in its namespace for good
  (`Registration.Bijection`, `Registration.CleanClose` and the two concrete runs).
- Nothing stops a middleware from calling next twice (`Middleware.OnceOnlyIf`,
  `Middleware.CompletionsMultiply`).
- Acknowledgement ids are reused after 2^32 emits, which loses a callback that still waits
  (`AckTable.DisplacedExactly`, `AckTable.FirstDisplaced`).
- `Client.Close` does not stop a pending reconnect timer or a dial in flight
  (`ClientLifecycle.CloseLeaves`).
- A pong timer can outlive the heartbeat that armed it (`Heartbeat.StaleTimer`).
- A client made for a namespace other than "/" drops every frame for "/", PONG included
  (`ClientObjects.DeafToPong`).

## Model

| member | source | states |
|---|---|---|
| SchemaTypes.NewSchema | protocol/schema.go:35-42 | a schema is made exactly for an empty name, which becomes a valid one, and for a name of letters, digits and underscores, which is kept; so is the definition |
| SchemaTypes.NameBytes | protocol/schema.go:32-38 | the bytes a name may hold are the ten digits, the 26 letters in either case and the underscore |
| Coerce.ToUint64 | protocol/coerce.go:8-39 | every value coerces into the range of a uint64, a number already in range is kept, and what is not a number is 0 |
| Coerce.ToInt64 | protocol/coerce.go:41-72 | every value coerces into the range of an int64, a number already in range is kept, and what is not a number is 0 |
| Coerce.SameBits | protocol/coerce.go:8-72 | floats aside, both integer coercions keep the same 64 bits of every value, whatever its Go type |
| SchemaCodec.ComputeSize | protocol/schema.go:80-139 | succeeds exactly on encodable values; the size is the length of the specified encoding; even on an error the queue has grown by exactly the blobs pushed up to the failure |
| SchemaCodec.ComputeLeafSize | protocol/schema.go:82-109 | the same for one tag: strings and dynamic leaves push a blob, byte strings do not |
| SchemaCodec.ComputeItemsSize | protocol/schema.go:110-120 | the same for the element loop, which stops at the first element that fails |
| SchemaCodec.ComputeFieldsSize | protocol/schema.go:121-135 | the same for the field loop, a missing object or field counting as nil |
| SchemaCodec.EncodeValue | protocol/schema.go:141-206 | never leaves the buffer or the queue: overwrites exactly the bytes of the specified encoding at the shared offset, leaves all others alone, and moves offset and queue index by exactly what the size pass counted |
| SchemaCodec.EncodeLeaf | protocol/schema.go:143-181 | the same for one tag; the silent fall-through for unknown tags is unreachable |
| SchemaCodec.EncodeItems | protocol/schema.go:182-191 | the same for the element loop |
| SchemaCodec.EncodeFields | protocol/schema.go:192-203 | the same for the field loop, in declaration order |
| SchemaCodec.EncodePayload | protocol/schema.go:55-69 | fails exactly when the size pass does; otherwise both passes agree and the whole buffer is the specified encoding |
| SchemaCodec.DecodeValue | protocol/schema.go:208-287 | computes the specified decoding, telling errors from panics, and leaves the shared offset right behind what it read |
| SchemaCodec.DecodeLeaf | protocol/schema.go:210-261 | the same for one tag, with slices checked against the capacity of the buffer |
| SchemaCodec.DecodeItems | protocol/schema.go:262-273 | the same for the element loop |
| SchemaCodec.DecodeFields | protocol/schema.go:274-283 | the same for the field loop; a repeated key keeps its last value |
| SchemaCodec.DecodePayload | protocol/schema.go:72-75 | decodes from offset zero by the specification |
| PositionalLaws.RoundTrip | protocol/schema.go:141-287 | for every definition, every accepted value with lengths below 2^32 and every tail, decoding gives the canonical form and stops at the end of the encoding |
| PositionalLaws.DecOfEnc | protocol/schema.go:141-287 | the same anywhere inside any buffer |
| PositionalLaws.PrefixFree | protocol/schema.go:141-206 | two encodings that agree with tails attached are equal, and so are the canonical values |
| PositionalLaws.DecLocal | protocol/schema.go:208-287 | a decode that completes at k gives the same result on any buffer with the same first k bytes |
| PositionalLaws.DecBounds | protocol/schema.go:208-287 | a decode never moves the offset backwards or past the memory it was given |
| PositionalLaws.StaysInside | protocol/schema.go:236-258 | a decode that completes stays within the length of its buffer if and only if every length announced in it ends within the buffer |
| PositionalLaws.CutToLength | protocol/schema.go:236-258 | under exactly that condition the decode also completes on the buffer cut to its length, with the same result |
| PositionalLaws.ReadsSpareCapacity | protocol/schema.go:236-241 | a concrete buffer on which the decoder reads past the length into spare capacity, and on which it panics if there is none |
| PositionalLaws.PanicsExactly | protocol/schema.go:208-287 | for every definition and every buffer, the decoder panics if and only if some read it comes to leaves the buffer: a number or a length prefix that does not fit the length, or an announced length that points past the capacity |
| PayloadLaws.MissingIsNil | protocol/schema.go:121-135 | a payload without some field is sized, encoded and read exactly as the same payload with nil in that field |
| PayloadLaws.NoMapIsEmpty | protocol/coerce.go:133-136 | under an object a payload that is no map is sized, encoded and read as the empty map |
| PayloadLaws.OneField | protocol/schema.go:192-203 | an object of one field is what the map holds under its key, or nil |
| PayloadLaws.FieldsInOrder | protocol/schema.go:192-203 | fields are encoded one behind the other in the order of the definition, and of two with one key the later one stays |
| PayloadLaws.NoListIsEmpty | protocol/coerce.go:128-131 | under an array a payload that is no list is four zero bytes and is read as the empty list |
| PayloadLaws.ListInOrder | protocol/schema.go:182-191 | a list is its count in four bytes and then its elements in order |
| PayloadLaws.ZeroLeaf | protocol/coerce.go:8-126 | nil and a value of a wrong type are sent as zero bytes, as many as the leaf is wide, and as a zero length for strings and byte strings |
| PayloadLaws.ZeroRead | protocol/coerce.go:8-126 | and are read as 0, false, the empty string and the empty byte string |
| PayloadLaws.BooleanLeaf | protocol/schema.go:148-154 | true is sent as 1 and false as 0, and each is read as itself |
| PayloadLaws.BooleanByte | protocol/schema.go:216-219 | any byte but 0 is read as true |
| PayloadLaws.TextLeaf | protocol/schema.go:167-179 | a string, and a byte string, is its length in four bytes and its bytes, and is read as itself |
| PayloadLaws.UnsignedLeaf | protocol/schema.go:145-160 | a whole number of any Go type is sent under an unsigned leaf as its low 8, 16 or 32 bits, big-endian, and read as that unsigned number |
| PayloadLaws.SignedLeaf | protocol/schema.go:161-163 | under int32 it is sent as its low 32 bits and read as the number between -2^31 and 2^31 with those bits |
| PayloadLaws.FloatLeaf | protocol/schema.go:164-166 | a float64 is sent as its own bits, a float32 and a whole number of any type each through its own conversion |
| PayloadLaws.FloatUnderInteger | protocol/coerce.go:8-72 | a float under an integer leaf is what its own conversion to an unsigned or signed 64-bit number gives |
| PayloadLaws.DynamicLeaf | protocol/schema.go:99-106 | a dynamic leaf takes what generic MessagePack packs, and sends it behind its length |
| PayloadLaws.TakesEverything | protocol/schema.go:80-139 | a valid definition without dynamic leaves accepts every payload there is |
| PayloadLaws.TakesNothing | protocol/schema.go:107-108 | an unknown type name, and a foreign node, accept none |
| PayloadLaws.FailsExactly | protocol/schema.go:208-287 | a decode ends with an error if and only if it comes to an unknown type name, a foreign node, or dynamic bytes that do not unpack |
| CanonicalForms.CanonFixed | protocol/coerce.go:8-136 | with distinct keys and no dynamic leaves, coercion is idempotent and a canonical value encodes to the same bytes |
| CanonicalForms.DecCanonical | protocol/schema.go:208-287 | for definitions with distinct keys and no dynamic leaves, whatever is decoded is canonical and can be encoded again |
| CanonicalForms.ReEncode | protocol/schema.go:141-287 | for the same definitions, re-encoding a decoded value reproduces its length, and its bytes if and only if every boolean byte was 0 or 1 |
| CanonicalForms.RoundTripExactly | protocol/schema.go:141-287 | for the same definitions, a value the size pass accepts arrives in canonical form if and only if its lengths and counts are below 2^32 |
| CanonicalForms.CompletesExactly | protocol/schema.go:208-287 | for the same definitions, a decode completes within its buffer, on boolean bytes 0 and 1, if and only if the buffer begins with the encoding of some value |
| CanonicalForms.NeverFails | protocol/schema.go:208-287 | a decode by a valid definition without dynamic leaves never reports an error: it completes or panics |
| CanonicalForms.PanicsOtherwise | protocol/schema.go:208-287 | for valid definitions with distinct keys and no dynamic leaves, a buffer begins with no encoding if and only if its decode panics, ends past the length, or completes over a boolean byte above 1 |
| CanonicalForms.ShortOtherwise | protocol/schema.go:208-287 | for the same definitions, on a buffer without spare capacity: it begins with no encoding if and only if some read leaves it or a boolean byte is above 1 |
| DefWireLaws.TagOfName | protocol/types.go:17-29 | the eleven type names are told apart, and any other name stays itself |
| DefWireLaws.NameOfTag | protocol/types.go:17-29 | every string names one tag and is that tag's name |
| DefWireLaws.NamedTags | protocol/types.go:17-29 | the eleven names, letter by letter, and their tags |
| DefWireLaws.HeadBytes | protocol/schema_wire.go:35-60 | the header bytes of strings, maps and lists of one, as MessagePack defines them, for every length |
| DefWireLaws.ReadHeadOfHead | protocol/schema_wire.go:35-60 | the smallest header of each MessagePack family reads back as its number, on both sides of every size boundary |
| DefWireLaws.ParseOfPrint | protocol/schema_wire.go:35-105 | a printed definition anywhere in a message parses to itself and ends where it ends |
| DefWireLaws.DefRoundTrip | protocol/schema_wire.go:35-105 | printing then parsing, with any tail, gives the same tree with fields in order and duplicates kept, if and only if all names and counts are below 2^32 and nothing is invalid |
| DefWireLaws.ParseLocal | protocol/schema_wire.go:63-105 | on arbitrary bytes the parsed definition depends only on the bytes consumed |
| DefWireLaws.Reprint | protocol/schema_wire.go:63-105 | whatever parses can be printed, never longer than what was consumed |
| DefWireLaws.DefNormalise | protocol/schema_wire.go:35-105 | any input that parses can be replaced by its canonical printing |
| DefWireLaws.StartsExactly | protocol/schema_wire.go:68-104 | which first bytes begin a type name, a list and a map |
| DefGrammar.ParsesExactly | protocol/schema_wire.go:63-105 | the parser accepts exactly the byte strings of a grammar, and reads the definition spelled: headers of any size, names in the string or the binary family, lists that announce one element, maps in order |
| DefGrammar.TableParsesExactly | protocol/schema_wire.go:109-127 | the same for a table of definitions |
| DefGrammar.RootParsesExactly | protocol/schema_wire.go:149-166 | the same for the table of tables |
| DefWireCodec.Encoder.WriteSchemaDef | protocol/schema_wire.go:35-60 | succeeds exactly on valid trees and appends the specified bytes |
| DefWireCodec.Encoder.WriteFields | protocol/schema_wire.go:48-56 | the field loop, in declaration order |
| DefWireCodec.Decoder.DecodeSchemaDef | protocol/schema_wire.go:63-105 | terminates on every input and computes the specified parse, leaving the position behind it |
| DefWireCodec.Decoder.DecodeFields | protocol/schema_wire.go:89-101 | the field loop, stopping at the first pair that does not parse |
| SchemaTables.TableRoundTrip | protocol/schema_wire.go:109-127 | a table written in any enumeration of its keys reads back as the same map if and only if its names and counts fit |
| SchemaTables.RootRoundTrip | protocol/schema_wire.go:144-167 | the two-level table reads back as the same map, whatever the enumeration of either level and the tail, if and only if its names and counts fit |
| SchemaTables.TableOfSnoc | protocol/schema_wire.go:115-125 | a name that comes twice in a table keeps its later definition |
| SchemaTables.KeysAgree | client/types.go:30-38 | the client computes the key the server exports under |
| SchemaTables.KeyOf | server/server.go:263-268 | the key of "/" is "root", and that of any other namespace its name without one leading slash |
| SchemaTables.KeyCollisions | server/server.go:263-268 | two different namespaces share a key exactly when one is the other, which has no leading slash of its own, behind a slash, neither being "/", or one is "/" and the other "root" or "/root"; "//x" and "/x" do not |
| SchemaTables.ExportFaithful | server/server.go:253-261 | every namespace finds its own table under its key, for every map order, if and only if namespaces that share a key share their table |
| SchemaTables.SlashClash | server/server.go:263-268 | it fails whenever "/a" and "a" have different tables, for every name a without a leading slash |
| TableCodec.EncodeTable | server/namespace.go:58-66 | writes the table in whatever order the map yields, failing exactly on an invalid definition |
| TableCodec.EncodeRoot | server/server.go:253-261 | the same for the table of tables |
| TableCodec.DecodeTable | protocol/schema_wire.go:109-127 | computes the specified parse of a table |
| TableCodec.DecodeRoot | protocol/schema_wire.go:149-166 | computes the specified parse of the table of tables |
| TableCodec.DecodeNamespaceSchemaPayload | protocol/schema_wire.go:132-139 | inflates and parses one table; trailing bytes are ignored |
| TableCodec.DecodeRootSchemaPayload | protocol/schema_wire.go:144-167 | inflates and parses the table of tables |
| TableCodec.EncodeNamespaceSchemaPayload | protocol/protocol.go:20-26 | fails exactly on an invalid definition; it produces the deflated table in some order of its keys, which decodes to the same table if and only if that fits |
| TableCodec.EncodeRootSchemaPayload | protocol/protocol.go:20-26 | fails exactly on an invalid definition; it produces the deflated table of tables in some order of both levels, which decodes to the same if and only if that fits |
| Frame.EncodeFrame | protocol/encoder.go:39-64 | fills a buffer of the exact size with the specified frame |
| Frame.DecodeFrameHeader | protocol/decoder.go:31-68 | computes the specified parse, every read inside the input |
| Frame.FrameRoundTrip | protocol/encoder.go:19-64 | a frame arrives as sent, an empty namespace read as "/", if and only if both names have at most 255 bytes |
| Frame.FrameReprint | protocol/decoder.go:31-68 | printing a parsed frame reproduces the input if and only if its namespace is not empty |
| Frame.FrameLayout | protocol/encoder.go:39-64 | where every field of a frame stands, byte by byte, if both names fit |
| Frame.RefusedExactly | protocol/decoder.go:31-68 | a message is refused if and only if it ends before its names and its id do |
| Frame.ParsedBounds | protocol/decoder.go:31-68 | parsed names and ids stay within what the layout can carry |
| SchemaSync.EncodeEventPayload | client/client.go:561-573 | nil sends nothing, a schema event its positional form, any other event the default codec |
| SchemaSync.DecodeEventPayload | server/hub.go:57-67 | the reverse choice, by the schema of the event |
| SchemaSync.ExportAllSchemas | server/server.go:253-261 | the loop over the namespaces exports the specified table for the order in which it ran |
| SchemaSync.SchemaStore.RegisterSchemas | client/client.go:162-172 | adds the given schemas, one by one, to the bucket of the namespace and changes no other |
| SchemaSync.AddingKeepsLast | client/client.go:169-171 | of the schemas with one name the last stays, and other names keep what they had |
| SchemaSync.SchemaStore.AbsorbDefs | client/client.go:409-422 | adds exactly the acceptable entries of one table, over what was known, in any map order |
| SchemaSync.SchemaStore.AbsorbAll | client/client.go:387-401 | the same for every table of a root payload, the flattened table included |
| SchemaSync.SchemaStore.AbsorbSchemaPayload | client/client.go:381-423 | a payload that does not decode changes nothing; otherwise the client knows exactly the old and the absorbed schemas, and its flattened table holds for each event taught the schema of some namespace that teaches it, and what it held for any other |
| SchemaSync.AbsorbedTable | client/client.go:405-422 | after absorbing a table the client knows, for each event, the definition in it if the name is acceptable, and otherwise what it knew |
| SchemaSync.AbsorbedRoot | client/client.go:382-403 | the same for every key of a root payload |
| SchemaSync.SchemaStore.DecodeAppPayload | client/client.go:364-375 | an empty payload is nil; any other is decoded by the schema known for the namespace and event |
| SchemaSync.PayloadPanicsExactly | protocol/schema.go:72-75 | the receiver's choice of codec panics exactly for a payload that is not empty, whose event has a schema, and that some read by it leaves |
| EndToEnd.RootTeaches | client/client.go:382-403 | after the root CONNECT the client knows every acceptable schema of every namespace, in any map order |
| EndToEnd.NamespaceTeaches | client/client.go:405-422 | the same for the CONNECT of one namespace |
| EndToEnd.EmitAnnounces | server/namespace.go:120-126 | an emit sends an event frame for the namespace without an id, its payload nothing for nil, the positional form under a schema and deflated MessagePack without one; and nothing exactly if the payload cannot be encoded |
| EndToEnd.EventDelivered | protocol/schema.go:55-287 | an encodable event of a known schema arrives, as the canonical form of what was emitted or as nil if its encoding is empty |
| EndToEnd.SeenExactly | protocol/decoder.go:81-91 | except under a bare dynamic definition, what arrives is the canonical form if and only if the payload was not nil and its encoding not empty |
| EndToEnd.RootAgreement | server/server.go:253-268 | server and client end up with the same codec: every encodable payload of every schema event of every namespace arrives in canonical form |
| EndToEnd.NamespaceAgreement | server/namespace.go:58-66 | the same for a client that sees only one namespace's CONNECT |
| EndToEnd.AckWithoutSchemaRead | client/client.go:344-375 | for an event without a schema on the client, nil is read back as nil, and any other answer is sent exactly if it packs and arrives as generic MessagePack gives it back |
| EndToEnd.AckAgreement | server/socket.go:273-279 | every answer that generic MessagePack preserves is read back by the client if and only if it has no schema for the event, bare dynamic definitions aside |
| EndToEnd.AckWithSchemaMisread | client/client.go:364-375 | with a schema, a boolean or a string that the schema does not describe is never read back, whatever its bytes |
| EndToEnd.NilAckAlwaysRead | client/client.go:364-367 | an answer of nil is always read back, even with a schema |
| EndToEnd.ConnectRoot | server/server.go:174-179 | export, encode, frame, parse and absorb, composed: the store becomes the specified one unless a definition cannot be written |
| EndToEnd.ConnectNamespace | server/hub.go:117-129 | the same for the CONNECT of a sub-namespace |
| EndToEnd.Session | server/socket.go:117-129 | connecting and then emitting, executed on both sides, delivers the canonical value |
| EndToEnd.NamespaceSession | server/socket.go:117-129 | the same over the CONNECT of a sub-namespace |
| Registration.Always | server/hub.go:107-149 | in every interleaving every socket is in one stage, and the namespace sets hold exactly the sockets being admitted, registered, being closed, or displaced |
| Registration.RoutingHolds | server/socket.go:194-197 | the guard at the top of dispatch never drops a frame; a frame reaches a socket of its own connection and namespace or none |
| Registration.MembersExactly | server/namespace.go:95-105 | a namespace set holds the registered socket of each connection and those it displaced, nothing else |
| Registration.Bijection | server/hub.go:107-115 | table and namespace set of an open connection agree if and only if it was admitted to the namespace at most once |
| Registration.CleanClose | server/hub.go:132-149 | a closed connection leaves nothing in a namespace if and only if it was admitted at most once and not after the close |
| Registration.LeftForGood | server/hub.go:107-149 | a displaced or late socket stays in its namespace set in every continuation |
| Registration.SecondConnectLeaks | server/hub.go:107-115 | a concrete run: a second CONNECT leaves the first socket behind for ever |
| Registration.LateAdmissionLeaks | server/server.go:163-172 | a concrete run: root middleware that passes after the close leaves its socket behind for ever |
| Registration.Isolation | server/hub.go:132-149 | whatever other connections do, including their closes, a connection's sockets are those it would have alone |
| Middleware.RunnerIsFold | server/socket.go:235-258 | when each middleware calls next at most once, the recursive runner is the left-to-right fold |
| Middleware.OneOutcome | server/namespace.go:172-195 | when each calls it exactly once, exactly one thing comes out |
| Middleware.RefusedAt | server/namespace.go:178-191 | a chain refuses with a message if and only if some middleware passes it on after all before it let the packet through |
| Middleware.ChangesAddUp | server/socket.go:235-258 | each middleware sees what those before it made of the packet, and what completes is what the last one made of it |
| Middleware.RefusalStops | server/socket.go:241-254 | behind a refusal nothing runs and its message comes out; a middleware that changes the packet hands the change on |
| Middleware.CompletionsMultiply | server/socket.go:236-256 | a chain that refuses nothing, and whose middlewares each call next a fixed number of times, completes as often as the product of those numbers |
| Middleware.OnceOnlyIf | server/socket.go:236-256 | when every middleware calls next at least once, with or without an error, exactly one thing comes out of the chain if and only if each of those the packet reaches calls it once |
| Middleware.Doubled | server/socket.go:236-256 | a concrete middleware that calls next twice completes every event twice |
| Middleware.DeliveredByFinalName | client/namespace.go:118-133 | an event whose middleware call next once each calls at most one handler, once: the one registered for its name after all changes, with its payload after all changes, and none if refused |
| Middleware.DeliveredAsIs | client/namespace.go:105-117 | without middleware it is the handler of the event as it came, with its payload as it came |
| Middleware.DeliverExactly | client/namespace.go:118-133 | each completed packet calls the handler of its name with its payload, and nothing else calls any |
| ClientNamespace.Namespace.TriggerEvent | client/namespace.go:105-134 | the handlers are called exactly as the chain's outcomes say; without middleware that is the handler of the event, with its payload, or none |
| ClientNamespace.Namespace.Run | client/namespace.go:118-133 | the recursive closure over the shared packet produces the outcomes of the rest of the chain |
| ServerReplies.RejectedOnce | server/socket.go:241-253 | a rejected event is answered by one error frame with its id and a map holding the message, deflated, if and only if its id is not zero and that map can be packed |
| ServerReplies.RepliesEcho | server/socket.go:261-287 | every frame sent back for a request is an ACK on its namespace with its id |
| ServerReplies.SilentWithoutId | server/socket.go:269-286 | nothing is sent back for an event without an id |
| ServerReplies.AnswersAre | server/socket.go:269-284 | each answer goes out as one frame, in order: without payload for nil, and else deflated MessagePack |
| ServerReplies.ReplyIs | server/socket.go:261-287 | what a request is sent back are the answers of the handler of its event, in ACK frames on its namespace, with its event and its id |
| ServerObjects.Socket.Join | server/socket.go:159-163 | adds the room and no other |
| ServerObjects.Socket.Leave | server/socket.go:166-170 | removes the room and no other |
| ServerObjects.Socket.Send | server/socket.go:74-82 | a closed socket sends nothing, an open one exactly the given message |
| ServerObjects.Socket.InvokeHandler | server/socket.go:261-287 | calls the handler of the packet's name, with its payload, and no other; its acknowledgements are sent as ACK frames with the id if that is not zero and the socket open |
| ServerObjects.Socket.Run | server/socket.go:235-257 | the recursive closure over the shared packet: handler calls and replies are those of the chain's outcomes |
| ServerObjects.Socket.ProcessEvent | server/socket.go:228-259 | the same from the start of the chain; without middleware the handler of the event is called with its payload |
| ServerObjects.Socket.Dispatch | server/socket.go:194-215 | an event runs the chain; JOIN adds the room named under "room" and LEAVE removes it, if it is a string; PING is answered by PONG; nothing else changes anything, nor does a frame for another namespace |
| ServerObjects.Namespace.AddSocket | server/namespace.go:95-99 | adds the socket and no other |
| ServerObjects.Namespace.RemoveSocket | server/namespace.go:101-105 | removes the socket and no other |
| ServerObjects.Namespace.SendToAll | server/namespace.go:151-160 | writes to each connection once for each of its open sockets in the room, except the excluded one |
| ServerObjects.Namespace.ToExcluding | server/namespace.go:144-161 | the sockets of the room, except the excluded and the closed ones, are sent one copy each; every copy is an event frame of the namespace without an id and with the encoded payload; an event that cannot be encoded goes to nobody |
| ServerObjects.Namespace.EmitExcluding | server/namespace.go:120-135 | the same for the whole namespace |
| ServerRegistry.Server.constructor | server/server.go:66-122 | a new server has exactly the root namespace |
| ServerRegistry.Server.Of | server/server.go:189-199 | returns the existing namespace or adds an empty one |
| ServerRegistry.Server.Admission | server/hub.go:112-129 | performs admission and registration of the machine and sends an open socket one CONNECT frame with the exported schemas, unless a definition cannot be written |
| ServerRegistry.Server.ConnectPayload | server/server.go:174-179 | the CONNECT payload decodes to all schemas for the root and to its own for a namespace |
| ServerRegistry.Server.Gate | server/namespace.go:167-196 | for middleware that depends on the socket and calls next any number of times: every outcome of the chain takes effect in turn, each completion admitting the socket, each refusal closing it, and an open socket is told of each |
| ServerRegistry.Server.Run | server/namespace.go:173-194 | the recursive closure over the socket does this for the rest of the chain |
| ServerRegistry.Server.Next | server/namespace.go:178-193 | the closure handed to a middleware does it for one call |
| ServerRegistry.OneDecision | server/server.go:165-187 | with middlewares that each call next exactly once there is one decision, that of the left-to-right fold: the socket is admitted and registered, and told by a CONNECT, or rejected and closed, and told why |
| ServerRegistry.Server.HandleConnection | server/server.go:152-187 | performs the machine's opening of a connection, and then, in order, the admission or rejection of its root socket for each outcome of the root middleware on this visitor; what is sent is the CONNECT with all schemas or the refusal for each, and nothing once the socket is closed |
| ServerRegistry.Server.HandleNamespaceConnect | server/hub.go:91-130 | a missing namespace is reported by an error frame that names it and changes nothing; any other gets a socket, which the outcomes of that namespace's middleware admit or reject as for a new connection |
| ServerRegistry.Server.StartClose | server/hub.go:133-139 | empties the table into the snapshot, which is what the machine is closing |
| ServerRegistry.Server.RemoveAll | server/hub.go:141-148 | the loop takes each socket of the snapshot out of its own namespace |
| ServerRegistry.Server.HandleClose | server/hub.go:132-149 | takes the registered sockets of this connection out of their namespaces and nothing else out of any |
| ServerRegistry.Server.Routes | server/hub.go:82-88 | the table leads a frame to a socket of this connection in the set of the namespace it names, or to none |
| ServerRegistry.Server.HandleMessage | server/hub.go:55-89 | a payload that some read by its schema leaves, and no other, ends the server; what does not decode is dropped before its type is looked at; a CONNECT does what HandleNamespaceConnect states; any other frame changes the handler calls and rooms of the socket registered for its namespace, and what is written, as Dispatch states, and nothing of any other socket of the connection |
| ServerRegistry.Server.CrashesExactly | protocol/schema.go:208-287 | a message ends the server if and only if it parses, its payload is not empty, its event has a schema, and some read by that schema leaves the payload |
| ServerRegistry.Server.SchemaEventRead | server/hub.go:56-70 | a payload in the positional form of the event's schema in the namespace of its frame, the root included, is read as the canonical value |
| ServerRegistry.Server.OtherEventRead | server/hub.go:56-70 | a payload of any other event or namespace is read as inflating and unpacking give it, or dropped, and one without bytes as nil |
| ServerRegistry.Server.OneByteCrashes | protocol/schema.go:221-223 | one payload byte for an event with schema uint16 is such a message, whatever its frame type |
| ServerRegistry.Server.Forward | server/hub.go:82-88 | a frame reaches the socket registered for its namespace and no other, or none |
| ServerRegistry.Server.CleanlyClosed | server/hub.go:132-149 | the objects of a closed connection are gone from a namespace if and only if it was admitted at most once and in time |
| ServerRegistry.Server.OneSocket | server/hub.go:112-115 | an open connection admitted at most once has exactly its registered socket in the namespace |
| ServerRegistry.Server.OncePerConnection | server/namespace.go:151-160 | then a broadcast writes to it once, if its socket is open, in the room and not excluded, and otherwise not at all |
| AckTable.OnlyItsOwn | client/client.go:350-358 | in every run a callback is called at most once, and only by a frame with the id of its own emit |
| AckTable.IdsUnambiguous | client/client.go:553-559 | ids are non-zero and never reused if and only if fewer than 2^32 were issued |
| AckTable.NothingLost | client/client.go:551-559 | until then every callback waits under an id between 1 and the number of emits, or has been called |
| AckTable.WrapDisplaces | client/client.go:554-557 | whenever a callback waits under the id that the next emit is given, on whichever wrap, it is never called, in any continuation |
| AckTable.DisplacedExactly | client/client.go:551-559 | one step loses a callback that waits or was called if and only if it is an emit with a callback that is given the id this one waits under |
| AckTable.FirstDisplaced | client/client.go:553-557 | a concrete run: 2^32 unanswered emits and one more lose the first callback for good |
| AckTable.CalledExactly | client/client.go:344-358 | before the ids wrap, the callback of an emit is called if and only if a frame with its id arrives and decodes, whatever else is emitted or arrives |
| AckTable.OneCall | client/client.go:344-358 | any number of answers with one id call the callback waiting for it once and no other |
| AckTable.RequestCallsItsOwn | server/socket.go:261-287 | whatever the server sends back for a request calls at most that request's callback, once |
| AckTable.Acks.DoEmit | client/client.go:551-581 | enters the callback before encoding, and produces the frame with its id |
| AckTable.Acks.HandleAck | client/client.go:344-358 | decodes first; a payload whose decode panics ends the client; calls and removes the callback exactly when the payload decodes and the id waits |
| Heartbeat.LiveExactly | client/client.go:460-501 | a pong timer is pending exactly when it was armed after the last pong, expiry and close |
| Heartbeat.StaleTimer | client/client.go:446-455 | a ping sent just before a close leaves a timer pending across the next heartbeat |
| Heartbeat.Heartbeat.SetupHeartbeat | client/client.go:425-438 | never closes a channel twice; afterwards the only open channel and running ticker are the new, stored ones |
| Heartbeat.Heartbeat.ArmPongTimeout | client/client.go:460-475 | afterwards the only pending timer is the new, stored one |
| Heartbeat.Heartbeat.ClearPongTimeout | client/client.go:477-484 | afterwards no timer is pending |
| Heartbeat.Heartbeat.CleanupHeartbeat | client/client.go:486-501 | afterwards every channel is closed, once, and no ticker runs and no timer is pending |
| Heartbeat.Heartbeat.AllClosedButOne | client/client.go:425-501 | every stop channel ever made has been closed, once, except the stored one, and the counts of both are those of the machine |
| ClientLifecycle.OneAtATime | client/client.go:273-303 | in every reachable state exactly one of dialling, reading, closing, waiting and stopped holds, and the attempts stay within their limit |
| ClientLifecycle.GivesUp | client/client.go:520-527 | a client that never connects stops if and only if maxAttempts + 1 dials have failed, and never makes more |
| ClientLifecycle.GivesUpAgain | client/client.go:520-527 | after a lost connection it stops after maxAttempts failed dials |
| ClientLifecycle.CloseDecides | client/client.go:520-527 | a close that finds reconnection on, no close by the user and attempts left leaves exactly one timer pending; any other leaves the client stopped |
| ClientLifecycle.NeverReconnects | client/client.go:524-526 | a client told not to reconnect never waits and never dials again, in any run, and is stopped exactly when its dial failed, or its connection ended, and the close was handled |
| ClientLifecycle.TotalWait | client/client.go:529-535 | the waits since the last success sum to between the sums of min(base 1.5^k, cap) without and with the largest jitter |
| ClientLifecycle.TotalWaitCapped | client/client.go:529-535 | and to at most maxAttempts times the cap |
| ClientLifecycle.StaysAtCap | client/client.go:532-535 | once the backoff reaches the cap it stays there whatever the jitter |
| ClientLifecycle.Backoff | client/client.go:529-535 | the first wait is 1.5 times the base and the jitter, each further one 1.5 times the one before but for the jitter, always under the cap |
| ClientLifecycle.FirstWait | client/client.go:529-535 | in every run the first wait lies between 1.5 times the base and 300 milliseconds more, under the cap |
| ClientLifecycle.AtMostOneMoreDial | client/client.go:605-616 | at most one dial begins after the user's Close |
| ClientLifecycle.CloseLeaves | client/client.go:605-616 | after Close the client can still become connected if and only if a dial was in flight or a timer pending |
| ClientLifecycle.Client.Connect | client/client.go:273-303 | resets the attempts and joins every namespace but the root again, once each |
| ClientLifecycle.RejoinsAsk | client/client.go:286-300 | each message sent after a dial is a CONNECT for its namespace, without payload |
| ClientLifecycle.Client.Schedule | client/client.go:520-535 | sets a timer exactly if reconnection is on, the user has not closed and attempts are left, and then with the delay of that attempt |
| ClientObjects.Client.constructor | client/client.go:98-152 | a new client has exactly its own namespace, the root if none is named |
| ClientObjects.Client.HandleMessage | client/client.go:316-362 | a message that does not parse, or is for a namespace the client lacks, changes nothing; an event or answer whose payload some read by its schema leaves, and no other, ends the client; any other changes the schemas, the handler calls of its namespace, the callbacks or the heartbeat as its type says, nothing in any other namespace, and calls a callback exactly as HandleAck states; a PONG leaves no timer pending, and a CONNECT for the client's own namespace a running ticker |
| ClientObjects.Client.CrashesExactly | client/client.go:364-375 | decoding a payload ends the client if and only if it is not empty, its event has a schema for its namespace, and some read by that schema leaves it |
| ClientObjects.Client.OnConnect | client/client.go:329-336 | learns the schemas, then fires connect, then starts the heartbeat for the client's own namespace |
| ClientObjects.Client.HandleClose | client/client.go:503-527 | the connection and the heartbeat go, every namespace hears "disconnect" once, and a timer is set exactly if reconnection is on, the user has not closed and attempts are left; schemas and waiting callbacks stay |
| ClientObjects.Client.Reconnect | client/client.go:537-548 | every namespace hears "reconnecting" with the attempt once, then the client dials and, if that succeeds, joins every namespace but the root again |
| ClientObjects.AllTold | client/client.go:510-518 | hearing an event means, without middleware, one call of its handler with its payload |
| ClientObjects.Client.Emit | client/client.go:551-581 | the callback is entered first; the frame is written if the payload can be encoded and there is a connection, and otherwise lost |
| ClientObjects.DeafToPong | client/client.go:316-325 | a client without the namespace "/" never takes the server's PONG: it parses, and is for a namespace the client does not have |
| Requests.TransferBySchema | client/client.go:561-573 | with one definition for the event on both sides, the server reads what the client emits in canonical form |
| Requests.TransferByDefault | server/hub.go:57-67 | without a schema on either side, the server reads every payload that generic MessagePack preserves as it was |
| Requests.AnsweredExactly | server/socket.go:228-287 | whatever the middleware and the handler do, when all that was sent for a request arrives, in any order and among anything else, before the ids wrap, its callback is called if and only if one of those frames decodes |
| Requests.AnswerReturned | server/socket.go:261-287 | where each middleware calls next once and lets the event through, and the handler answers once, the callback is called if and only if the client reads the frame of that answer |
| Requests.HearAll | client/client.go:344-358 | of the answers to one request, taken in order, the first that decodes calls the callback, once, unless one before it ends the client |
| Requests.Ask | server/socket.go:228-287 | executed on both sides, for any payload, schemas, middleware and handler: the handlers see what the server reads of the payload, once for each completion of the middleware; the callback of the emit is called with the first answer the client reads, and no other is called; either side is ended exactly by a payload whose decode panics |
| Requests.AskPlainly | server/socket.go:261-287 | under one schema, and without middleware, the handler of the event is called once, with the canonical form of what was emitted |
| Delivery.AnnouncedRead | client/client.go:364-375 | what a server emits is read by a client with the same schema in canonical form, and with none as generic MessagePack preserves it |
| Delivery.HearEvent | client/client.go:337-343 | one event message raises that event with that payload in the client's namespace, and nothing in any other |
| Delivery.Broadcast | server/namespace.go:120-135 | executed on both sides: a broadcast is heard by the client of a connection once for each of its sockets that is meant |
| Delivery.BroadcastHeard | server/namespace.go:120-135 | where one socket is meant and the client has no middleware there, its handler for the event is called once, with the value, and no other namespace hears anything |
| Delivery.EmittedRead | server/hub.go:55-73 | what a client emits is read by the server, with the schema of the namespace or with none, as the same value and under the same id |
| Delivery.Send | client/client.go:551-581 | an emit on a live connection sends exactly that message, with the id its callback waits under |
| Delivery.EmitHeard | server/hub.go:82-88 | executed by the server's HandleMessage: the handler for the event of the socket registered for the namespace is called once with the value, and its answers are written under the id |
| Delivery.Accept | server/server.go:152-187 | a connection without root middleware has its root socket in the root namespace and in its table, and the CONNECT as its first message |
| Delivery.Rejoined | server/hub.go:107-129 | a CONNECT frame for a namespace without middleware puts a new socket into the namespace and the table, and is answered by a CONNECT |
| Delivery.ExportedTeaches | server/server.go:174-179 | with schemas on and definitions that fit, the payload of a CONNECT teaches the client every acceptable schema of all namespaces, or of the one joined |
| Delivery.NothingExported | server/server.go:174-177 | with schemas off the CONNECT is empty |
| Delivery.Welcomed | client/client.go:328-336 | a CONNECT reaching a client makes it know what the payload teaches, calls its "connect" handler with nil, and starts the heartbeat in its own namespace |
| Delivery.AnswerHeard | client/client.go:344-358 | the frame of an answer that generic MessagePack preserves, for an event without a schema, makes HandleMessage call the callback waiting under its id with that answer |

## Left out

- DEFLATE and generic MessagePack values: library code; dynamic leaves and default payloads go through the functions of `Platform`, so nothing is claimed about their bytes.
- MessagePack decoding of nil, and of extension types, where a string, array or map length is expected: the decoder in `DefWire` accepts the str, bin, array and map families only.
- Floating point: a float is its bit pattern, conversions are functions of `Platform`; backoff delays are reals, without the truncation to whole nanoseconds.
- Go's `int` is taken to have 64 bits, so sizes never wrap; running out of memory on an announced count is not modelled.
- Nil pointers to definitions, and definitions changed while in use.
- The shared offset and queue index after a decoding error: every caller abandons them.
- EndToEnd.Session: assumes definitions that fit, so that the CONNECT frame is always sent.
- EndToEnd.NamespaceSession: assumes the same of its one namespace.
- Requests.Ask: assumes an open socket, and names of the namespace, the event and the handlers that fit a frame; nothing else happens on the client between the emit and the answers, which `Requests.AnsweredExactly` allows.
- EndToEnd.AckAgreement: says nothing of bare dynamic definitions, under which what the client makes of an answer depends on its compressed bytes.
- ServerRegistry.Server.HandleConnection: runs on one thread; the interleavings with the read loop that the program allows are those of `Registration`.
- Registration.Always: admits each socket once. A middleware may call next again while its socket is registered, which changes nothing; one that calls it again after its socket was displaced or its connection closed makes the program add the socket and write the table once more, which neither the machine nor the object methods model.
- ServerRegistry.Server.Gate: runs each chain to its end and takes a call of next that has not come yet, from another thread, for one that never comes; the machine allows it at any time. A middleware that looks at the packet again after next returned, or a connection middleware that changes fields of its socket other than the name and the handshake data, is not modelled.
- Connection handlers (`fireConnection`), and middleware and handlers that register listeners, join rooms or close sockets while an event is being processed.
- Handshake time, socket names from `crypto/rand`, origin checks, HTTP and WebSocket: what they deliver is a parameter, and messages sent are logs.
- Data races on `reconnectAttempts`, and writes that fail: a message handed to the connection counts as written.
- `Client.Of`, `doJoin` and `doLeave`, the fluent delegators, option defaults and `Emitter`: no state of their own.
