// The whole path of an event: the server exports its schemas in a CONNECT frame, the client
// absorbs them, and from then on a schema payload crosses the wire in its positional form and is
// decoded to the canonical form of what was emitted.
module EndToEnd {
  import opened Bytes
  import opened SchemaTypes
  import opened Positional
  import opened PositionalLaws
  import opened Frame
  import opened DefWire
  import opened SchemaTables
  import opened TableCodec
  import opened SchemaSync
  import opened ServerReplies

  // ---------------------------------------------------------------- what the client knows

  // The client would decode `event` on `nsp` with `def`.
  ghost predicate Knows(known: Known, nsp: GoString, event: GoString, def: SchemaDef) {
    var bucket := BucketOf(known, SchemaKey(nsp));
    event in bucket && bucket[event].definition == def
  }

  predicate EventName(event: GoString) {
    event == [] || ValidName(event)
  }

  // After absorbing a root CONNECT the client knows every acceptable schema of every namespace,
  // whatever it knew before and in whatever order the server's maps were enumerated.
  lemma RootTeaches(spaces: map<GoString, Bucket>, order: seq<GoString>, known: Known, nsp: GoString, event: GoString)
    requires Enumerates(order, spaces.Keys) && KeysDetermineTables(AllDefinitions(spaces))
    requires nsp in spaces && event in spaces[nsp] && EventName(event)
    ensures Knows(AbsorbRoot(known, ExportAll(AllDefinitions(spaces), order)), nsp, event, spaces[nsp][event].definition)
  {
    var tables := AllDefinitions(spaces);
    assert tables.Keys == spaces.Keys;
    ExportFaithful(tables);
    assert AlwaysFaithful(tables) && Enumerates(order, tables.Keys);
    var all := ExportAll(tables, order);
    assert Faithful(tables, all);
    KeysAgree(nsp);
    assert event in Learned(all[SchemaKey(nsp)]);
  }

  // After absorbing a sub-namespace CONNECT it knows those of that namespace.
  lemma NamespaceTeaches(schemas: Bucket, known: Known, nsp: GoString, event: GoString)
    requires event in schemas && EventName(event)
    ensures Knows(AbsorbTable(known, SchemaKey(nsp), Definitions(schemas)), nsp, event, schemas[event].definition)
  {
    assert event in Learned(Definitions(schemas));
  }

  // ---------------------------------------------------------------- one event

  // The frame an emit produces, if its payload can be encoded.
  ghost function EventFrame(p: Platform, schemas: Bucket, nsp: GoString, event: GoString, v: Val): Option<seq<byte>> {
    match PayloadBytes(p, schemas, event, v)
    case None => None
    case Some(b) => Some(PrintFrame(Packet(Header(FRAME_EVENT, nsp, event, 0), b)))
  }

  // What a client makes of a received event frame; `spare` is memory behind the frame.
  ghost function EventValue(p: Platform, known: Known, raw: seq<byte>, spare: seq<byte>): Outcome<Val> {
    match ParseFrame(raw)
    case None => Failed
    case Some(f) => PayloadValue(p, BucketOf(known, SchemaKey(f.header.nsp)), f.header.event, f.payload, spare)
  }

  predicate Addressable(nsp: GoString, event: GoString) {
    nsp != [] && |nsp| <= 0xFF && |event| <= 0xFF
  }

  // A nil payload, and one whose encoding has no bytes, both arrive as nil.
  ghost function Seen(p: Platform, def: SchemaDef, v: Val): Val {
    if v == Nil || Enc(p, def, v) == [] then Nil else Canon(p, def, v)
  }

  // The message is an event frame for the namespace, without an id, and its payload is nothing for
  // nil, the positional form under the event's schema, and deflated MessagePack without one.
  ghost predicate Announces(p: Platform, schemas: Bucket, nsp: GoString, event: GoString, v: Val, raw: seq<byte>) {
    var f := ParseFrame(raw);
    && f.Some? && f.value.header == Header(FRAME_EVENT, nsp, event, 0)
    && (v == Nil ==> f.value.payload == [])
    && (v != Nil && event in schemas ==> f.value.payload == Enc(p, schemas[event].definition, v))
    && (v != Nil && event !in schemas ==> p.marshal(v).Some? && f.value.payload == p.deflate(p.marshal(v).value))
  }

  // That is what an emit sends, unless the payload cannot be encoded.
  lemma EmitAnnounces(p: Platform, schemas: Bucket, nsp: GoString, event: GoString, v: Val)
    requires Addressable(nsp, event)
    ensures var raw := EventFrame(p, schemas, nsp, event, v);
            && (raw.None? <==> v != Nil && if event in schemas then !Encodable(p, schemas[event].definition, v) else p.marshal(v).None?)
            && (raw.Some? ==> Announces(p, schemas, nsp, event, v, raw.value))
  {
    var b := PayloadBytes(p, schemas, event, v);
    if b.Some? { FrameRoundTrip(Packet(Header(FRAME_EVENT, nsp, event, 0), b.value)); }
  }

  // Two sides with one definition for the event: what one packs the other reads.
  lemma PayloadDelivered(p: Platform, from: Bucket, to: Bucket, event: GoString, v: Val, spare: seq<byte>)
    requires Unpacks(p) && event in from && event in to && from[event].definition == to[event].definition
    requires Sendable(p, from[event].definition, v)
    ensures PayloadBytes(p, from, event, v).Some?
    ensures var r := PayloadValue(p, to, event, PayloadBytes(p, from, event, v).value, spare);
            r.Done? && r.value == Seen(p, from[event].definition, v)
  {
    var def := from[event].definition;
    var b := PayloadBytes(p, from, event, v).value;
    if b != [] { DecOfEnc(p, def, v, b + spare, |b|, 0); }
  }

  lemma EventDelivered(p: Platform, schemas: Bucket, known: Known, nsp: GoString, event: GoString, v: Val, spare: seq<byte>)
    requires Unpacks(p) && Addressable(nsp, event)
    requires event in schemas && Sendable(p, schemas[event].definition, v)
    requires Knows(known, nsp, event, schemas[event].definition)
    ensures EventFrame(p, schemas, nsp, event, v).Some?
    ensures var r := EventValue(p, known, EventFrame(p, schemas, nsp, event, v).value, spare);
            r.Done? && r.value == Seen(p, schemas[event].definition, v)
  {
    PayloadDelivered(p, schemas, BucketOf(known, SchemaKey(nsp)), event, v, spare);
    hide PayloadBytes, PayloadValue, Seen;
    FrameRoundTrip(Packet(Header(FRAME_EVENT, nsp, event, 0), PayloadBytes(p, schemas, event, v).value));
  }

  // Only a dynamic leaf at the top can have nil for its canonical form.
  lemma CanonNotNil(p: Platform, def: SchemaDef, v: Val)
    requires Encodable(p, def, v) && !(def.Prim? && Dynamic(def.tag))
    ensures Canon(p, def, v) != Nil
  {}

  // For every other definition the client sees the canonical form exactly when the payload was
  // not nil and its encoding not empty.
  lemma SeenExactly(p: Platform, def: SchemaDef, v: Val)
    requires Encodable(p, def, v) && !(def.Prim? && Dynamic(def.tag))
    ensures Seen(p, def, v) == Canon(p, def, v) <==> v != Nil && Enc(p, def, v) != []
  {
    CanonNotNil(p, def, v);
  }

  // Server and client end up with the same codec: once the root CONNECT has been absorbed, every
  // encodable payload of every schema event of every namespace arrives in canonical form.
  lemma RootAgreement(p: Platform, spaces: map<GoString, Bucket>, order: seq<GoString>, known: Known,
                      nsp: GoString, event: GoString, v: Val, spare: seq<byte>)
    requires Unpacks(p) && Addressable(nsp, event) && EventName(event)
    requires Enumerates(order, spaces.Keys) && KeysDetermineTables(AllDefinitions(spaces))
    requires nsp in spaces && event in spaces[nsp] && Sendable(p, spaces[nsp][event].definition, v)
    ensures var known' := AbsorbRoot(known, ExportAll(AllDefinitions(spaces), order));
            && EventFrame(p, spaces[nsp], nsp, event, v).Some?
            && var r := EventValue(p, known', EventFrame(p, spaces[nsp], nsp, event, v).value, spare);
               r.Done? && r.value == Seen(p, spaces[nsp][event].definition, v)
  {
    RootTeaches(spaces, order, known, nsp, event);
    EventDelivered(p, spaces[nsp], AbsorbRoot(known, ExportAll(AllDefinitions(spaces), order)), nsp, event, v, spare);
  }

  // The same for a client that only ever sees the CONNECT of a sub-namespace.
  lemma NamespaceAgreement(p: Platform, schemas: Bucket, known: Known, nsp: GoString, event: GoString, v: Val, spare: seq<byte>)
    requires Unpacks(p) && Addressable(nsp, event) && EventName(event)
    requires event in schemas && Sendable(p, schemas[event].definition, v)
    ensures var known' := AbsorbTable(known, SchemaKey(nsp), Definitions(schemas));
            && EventFrame(p, schemas, nsp, event, v).Some?
            && var r := EventValue(p, known', EventFrame(p, schemas, nsp, event, v).value, spare);
               r.Done? && r.value == Seen(p, schemas[event].definition, v)
  {
    NamespaceTeaches(schemas, known, nsp, event);
    EventDelivered(p, schemas, AbsorbTable(known, SchemaKey(nsp), Definitions(schemas)), nsp, event, v, spare);
  }

  // ---------------------------------------------------------------- acknowledgements

  // What the client makes of the frame the server sends to acknowledge with `resp`, if it sends one.
  ghost function AckSeen(p: Platform, known: Known, header: Header, resp: Val, spare: seq<byte>): Option<Outcome<Val>> {
    var sent := DefaultFrame(p, header, resp);
    if sent == [] then None else Some(EventValue(p, known, sent[0], spare))
  }

  ghost predicate ReadBack(p: Platform, known: Known, header: Header, resp: Val, spare: seq<byte>) {
    var r := AckSeen(p, known, header, resp, spare);
    r.Some? && r.value.Done? && r.value.value == resp
  }

  // Generic MessagePack gives the value back as it was; nil is not sent at all.
  ghost predicate Preserved(p: Platform, v: Val) {
    v == Nil || (p.marshal(v).Some? && p.unmarshal(p.marshal(v).value) == Some(v))
  }

  predicate AckHeader(h: Header) {
    h.typ == FRAME_ACK && Addressable(h.nsp, h.event) && h.ackID < TWO_32
  }

  // The client reads the payload of the frame that was sent.
  lemma AckArrives(p: Platform, known: Known, header: Header, resp: Val, spare: seq<byte>)
    requires AckHeader(header)
    ensures var b := PayloadBytes(p, map[], header.event, resp);
            AckSeen(p, known, header, resp, spare) ==
              if b.None? then None
              else Some(PayloadValue(p, BucketOf(known, SchemaKey(header.nsp)), header.event, b.value, spare))
  {
    var b := PayloadBytes(p, map[], header.event, resp);
    if b.Some? { FrameRoundTrip(Packet(header, b.value)); }
  }

  // Without a schema for the event it arrives as generic MessagePack gives it back.
  lemma AckWithoutSchemaRead(p: Platform, known: Known, header: Header, resp: Val, spare: seq<byte>)
    requires Inflates(p) && AckHeader(header) && header.event !in BucketOf(known, SchemaKey(header.nsp))
    ensures resp == Nil ==> ReadBack(p, known, header, resp, spare)
    ensures resp != Nil ==>
              var packed := p.marshal(resp);
              && (AckSeen(p, known, header, resp, spare).None? <==> packed.None?)
              && (packed.Some? ==>
                    var r := AckSeen(p, known, header, resp, spare).value;
                    && (r.Done? <==> p.unmarshal(packed.value).Some?)
                    && (r.Done? ==> Some(r.value) == p.unmarshal(packed.value)))
  {
    AckArrives(p, known, header, resp, spare);
    if resp != Nil && p.marshal(resp).Some? { DeflateNotEmpty(p, p.marshal(resp).value); }
  }

  lemma DeflateNotEmpty(p: Platform, b: seq<byte>)
    requires Inflates(p)
    ensures p.deflate(b) != []
  {
    assert p.inflate(p.deflate(b)) == Some(b);
  }

  // A decoded value has the shape of its definition: only a boolean definition yields a boolean and
  // only a string definition a string, generic MessagePack aside.
  lemma ShapeOfDecoded(p: Platform, def: SchemaDef, mem: seq<byte>, len: nat, off: nat)
    requires len <= |mem| && Dec(p, def, mem, len, off).Done? && !(def.Prim? && Dynamic(def.tag))
    ensures var v := Dec(p, def, mem, len, off).value;
            (v.Bool? <==> def == Prim(BooleanTag)) && (v.Str? <==> def == Prim(StringTag)) && v != Nil
  {}

  // With a schema for the event, the answer is decoded by it: a boolean or a string that the schema
  // does not describe is never read back, whatever its bytes.
  lemma AckWithSchemaMisread(p: Platform, known: Known, header: Header, resp: Val, spare: seq<byte>)
    requires Inflates(p) && AckHeader(header) && header.event in BucketOf(known, SchemaKey(header.nsp))
    requires var def := BucketOf(known, SchemaKey(header.nsp))[header.event].definition;
             !(def.Prim? && Dynamic(def.tag)) && ((resp.Bool? && def != Prim(BooleanTag)) || (resp.Str? && def != Prim(StringTag)))
    ensures !ReadBack(p, known, header, resp, spare)
  {
    var def := BucketOf(known, SchemaKey(header.nsp))[header.event].definition;
    AckArrives(p, known, header, resp, spare);
    if p.marshal(resp).Some? {
      var b := p.deflate(p.marshal(resp).value);
      DeflateNotEmpty(p, p.marshal(resp).value);
      if Dec(p, def, b + spare, |b|, 0).Done? { ShapeOfDecoded(p, def, b + spare, |b|, 0); }
    }
  }

  // So the two sides agree about acknowledgements of an event, that is, every answer that generic
  // MessagePack preserves is read back, exactly when the client has no schema for it. The server
  // always answers with the default codec, while the client decodes by event schema.
  lemma AckAgreement(p: Platform, known: Known, header: Header, spare: seq<byte>, b: bool, s: GoString)
    requires Inflates(p) && AckHeader(header) && Preserved(p, Bool(b)) && Preserved(p, Str(s))
    requires var bucket := BucketOf(known, SchemaKey(header.nsp));
             header.event in bucket ==>
               var def := bucket[header.event].definition; !(def.Prim? && Dynamic(def.tag))
    ensures (forall resp :: Preserved(p, resp) ==> ReadBack(p, known, header, resp, spare))
            <==> header.event !in BucketOf(known, SchemaKey(header.nsp))
  {
    var bucket := BucketOf(known, SchemaKey(header.nsp));
    hide ReadBack, EventValue, PayloadValue;
    if header.event !in bucket {
      forall resp | Preserved(p, resp) ensures ReadBack(p, known, header, resp, spare) {
        PreservedReadBack(p, known, header, resp, spare);
      }
    } else if bucket[header.event].definition == Prim(BooleanTag) {
      AckWithSchemaMisread(p, known, header, Str(s), spare);
    } else {
      AckWithSchemaMisread(p, known, header, Bool(b), spare);
    }
  }

  lemma PreservedReadBack(p: Platform, known: Known, header: Header, resp: Val, spare: seq<byte>)
    requires Inflates(p) && AckHeader(header) && header.event !in BucketOf(known, SchemaKey(header.nsp)) && Preserved(p, resp)
    ensures ReadBack(p, known, header, resp, spare)
  {
    AckWithoutSchemaRead(p, known, header, resp, spare);
  }

  // An answer of nil is always read as nil, even under a schema: its payload is empty.
  lemma NilAckAlwaysRead(p: Platform, known: Known, header: Header, spare: seq<byte>)
    requires AckHeader(header)
    ensures ReadBack(p, known, header, Nil, spare)
  {
    AckArrives(p, known, header, Nil, spare);
  }

  // ---------------------------------------------------------------- a session, executed

  // The server's half of emit, down to the bytes on the socket.
  method EmitEvent(p: Platform, schemas: Bucket, nsp: GoString, event: GoString, v: Val) returns (raw: Option<seq<byte>>)
    ensures raw == EventFrame(p, schemas, nsp, event, v)
  {
    var payload := EncodeEventPayload(p, schemas, event, v);
    if payload.None? { return None; }
    var buf := EncodeFrame(Header(FRAME_EVENT, nsp, event, 0), payload.value);
    return Some(buf[..]);
  }

  // The client's half.
  method ReceiveEvent(p: Platform, store: SchemaStore, raw: seq<byte>, spare: seq<byte>) returns (r: Outcome<Val>)
    ensures r == EventValue(p, store.schemas, raw, spare)
  {
    var f := DecodeFrameHeader(raw);
    if f.None? { return Failed; }
    r := store.DecodeAppPayload(p, f.value.payload, spare, f.value.header.event, f.value.header.nsp);
  }

  // The root CONNECT: export, encode, frame, parse, absorb. The server sends nothing when a
  // definition cannot be written.
  method ConnectRoot(p: Platform, spaces: map<GoString, Bucket>, store: SchemaStore) returns (sent: bool, ghost order: seq<GoString>)
    requires Inflates(p)
    modifies store
    ensures Enumerates(order, spaces.Keys)
    ensures var all := ExportAll(AllDefinitions(spaces), order);
            && (sent <==> RootWritable(all))
            && (sent && RootPrintable(all) ==> store.schemas == AbsorbRoot(old(store.schemas), all))
            && (!sent ==> store.schemas == old(store.schemas))
  {
    var out;
    out, order := ExportAllSchemas(spaces);
    var payload := EncodeRootSchemaPayload(p, out);
    if payload.None? { return false, order; }
    var header := Header(FRAME_CONNECT, Ascii("/"), [], 0);
    var buf := EncodeFrame(header, payload.value);
    FrameRoundTrip(Packet(header, payload.value));
    var f := DecodeFrameHeader(buf[..]);
    assert f == Some(Packet(header, payload.value));
    if |f.value.payload| > 0 {
      store.AbsorbSchemaPayload(p, f.value.header.nsp, f.value.payload);
    }
    return true, order;
  }

  // The CONNECT of a sub-namespace.
  method ConnectNamespace(p: Platform, schemas: Bucket, nsp: GoString, store: SchemaStore) returns (sent: bool)
    requires Inflates(p) && nsp != [] && nsp != Ascii("/") && |nsp| <= 0xFF
    modifies store
    ensures var defs := Definitions(schemas);
            && (sent <==> TableWritable(defs))
            && (sent && TablePrintable(defs) ==> store.schemas == AbsorbTable(old(store.schemas), SchemaKey(nsp), defs))
            && (!sent ==> store.schemas == old(store.schemas))
  {
    var payload := EncodeNamespaceSchemaPayload(p, map e | e in schemas :: schemas[e].definition);
    if payload.None? { return false; }
    hide *;
    var header := Header(FRAME_CONNECT, nsp, [], 0);
    var buf := EncodeFrame(header, payload.value);
    FrameRoundTrip(Packet(header, payload.value));
    var f := DecodeFrameHeader(buf[..]);
    assert f == Some(Packet(header, payload.value));
    if |f.value.payload| > 0 {
      store.AbsorbSchemaPayload(p, f.value.header.nsp, f.value.payload);
    }
    return true;
  }

  // Every schema of every namespace is valid, and all names and counts fit.
  ghost predicate SpacesFit(spaces: map<GoString, Bucket>) {
    && |spaces| < TWO_32
    && forall n <- spaces :: |n| < TWO_32 && TablePrintable(Definitions(spaces[n]))
  }

  lemma {:induction false} ExportBounded(tables: map<GoString, Table>, order: seq<GoString>)
    requires forall n <- tables :: |n| < TWO_32 && TablePrintable(tables[n])
    ensures var all := ExportAll(tables, order);
            |all| <= |order| && forall k <- all :: |k| < TWO_32 && TablePrintable(all[k])
  {
    if order != [] {
      var last := order[|order| - 1];
      ExportBounded(tables, order[..|order| - 1]);
      var rest := ExportAll(tables, order[..|order| - 1]);
      if last in tables {
        assert rest[ExportKey(last) := tables[last]].Keys == rest.Keys + {ExportKey(last)};
        assert |ExportKey(last)| <= |last| || ExportKey(last) == Ascii("root");
      }
    }
  }

  lemma {:induction false} PrintableWritable(def: SchemaDef)
    requires Printable(def)
    ensures Writable(def)
    decreases def, 0
  {
    match def
    case Arr(e) => PrintableWritable(e);
    case Obj(fs) => FieldsPrintableWritable(fs);
    case _ =>
  }

  lemma {:induction false} FieldsPrintableWritable(fs: seq<FieldDef>)
    requires forall f <- fs :: Printable(f.typ)
    ensures FieldsWritable(fs)
    decreases fs, 1
  {
    forall f <- fs ensures Writable(f.typ) { PrintableWritable(f.typ); }
  }

  lemma TablePrintableWritable(t: Table)
    requires TablePrintable(t)
    ensures TableWritable(t)
  {
    forall e <- t ensures Writable(t[e]) { PrintableWritable(t[e]); }
  }

  // Then the export is sent, whatever the map order.
  lemma ExportFits(spaces: map<GoString, Bucket>, order: seq<GoString>)
    requires SpacesFit(spaces) && Enumerates(order, spaces.Keys)
    ensures var all := ExportAll(AllDefinitions(spaces), order); RootPrintable(all) && RootWritable(all)
  {
    var all := ExportAll(AllDefinitions(spaces), order);
    ExportBounded(AllDefinitions(spaces), order);
    EnumerationSize(order, spaces.Keys);
    assert |spaces.Keys| == |spaces|;
    forall k <- all ensures TableWritable(all[k]) { TablePrintableWritable(all[k]); }
  }

  // Connect, then emit: the two programs, composed, deliver canonical values.
  method Session(p: Platform, spaces: map<GoString, Bucket>, store: SchemaStore,
                 nsp: GoString, event: GoString, v: Val, spare: seq<byte>) returns (r: Outcome<Val>)
    requires Unpacks(p) && Inflates(p) && Addressable(nsp, event) && EventName(event)
    requires KeysDetermineTables(AllDefinitions(spaces)) && SpacesFit(spaces)
    requires nsp in spaces && event in spaces[nsp] && Sendable(p, spaces[nsp][event].definition, v)
    modifies store
    ensures r.Done? && r.value == Seen(p, spaces[nsp][event].definition, v)
  {
    ghost var known := store.schemas;
    ghost var order;
    var sent;
    sent, order := ConnectRoot(p, spaces, store);
    ExportFits(spaces, order);
    RootAgreement(p, spaces, order, known, nsp, event, v, spare);
    var raw := EmitEvent(p, spaces[nsp], nsp, event, v);
    r := ReceiveEvent(p, store, raw.value, spare);
  }

  // The same for a client that joins a sub-namespace, when the definitions of that one fit.
  method NamespaceSession(p: Platform, schemas: Bucket, store: SchemaStore,
                          nsp: GoString, event: GoString, v: Val, spare: seq<byte>) returns (r: Outcome<Val>)
    requires Unpacks(p) && Inflates(p) && Addressable(nsp, event) && EventName(event) && nsp != Ascii("/")
    requires TablePrintable(Definitions(schemas))
    requires event in schemas && Sendable(p, schemas[event].definition, v)
    modifies store
    ensures r.Done? && r.value == Seen(p, schemas[event].definition, v)
  {
    assert nsp != [] && |nsp| <= 0xFF;
    TablePrintableWritable(Definitions(schemas));
    hide *;
    NamespaceAgreement(p, schemas, store.schemas, nsp, event, v, spare);
    var sent := ConnectNamespace(p, schemas, nsp, store);
    var raw := EmitEvent(p, schemas, nsp, event, v);
    r := ReceiveEvent(p, store, raw.value, spare);
  }
}
