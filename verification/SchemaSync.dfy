// How a client learns a server's schemas, and what each side then does with an event payload
// (server/server.go, server/namespace.go, client/client.go).
module SchemaSync {
  import opened Bytes
  import opened SchemaTypes
  import opened Positional
  import opened PositionalLaws
  import opened SchemaCodec
  import opened SchemaTables
  import opened TableCodec

  // Schemas by event name; on the client, by namespace key and event name.
  type Bucket = map<GoString, Schema>
  type Known = map<GoString, Bucket>

  // ---------------------------------------------------------------- what is exported and learned

  ghost function Definitions(schemas: Bucket): Table {
    map e | e in schemas :: schemas[e].definition
  }

  // The server's tables, one per namespace.
  ghost function AllDefinitions(spaces: map<GoString, Bucket>): map<GoString, Table> {
    map n | n in spaces :: Definitions(spaces[n])
  }

  // The entries whose event name is acceptable as a schema name; the others are skipped.
  function Learned(defs: Table): Bucket {
    map e | e in defs && NewSchema(e, defs[e]).Some? :: NewSchema(e, defs[e]).value
  }

  function BucketOf(known: Known, key: GoString): Bucket {
    if key in known then known[key] else map[]
  }

  // The bucket after adding schemas one by one under their names.
  function Adding(bucket: Bucket, added: seq<Schema>): Bucket {
    if added == [] then bucket else
      var last := added[|added| - 1];
      Adding(bucket, added[..|added| - 1])[last.name := last]
  }

  // Where names repeat, the last schema of the name stays; other names keep what they had.
  lemma {:induction false} AddingKeepsLast(bucket: Bucket, added: seq<Schema>, name: GoString)
    ensures var b := Adding(bucket, added);
            || (exists i :: 0 <= i < |added| && added[i].name == name && name in b && b[name] == added[i]
                            && forall j :: i < j < |added| ==> added[j].name != name)
            || ((forall i :: 0 <= i < |added| ==> added[i].name != name)
                && (name in b <==> name in bucket) && (name in b ==> b[name] == bucket[name]))
  {
    if added != [] {
      var n := |added| - 1;
      AddingKeepsLast(bucket, added[..n], name);
      if added[n].name == name {
        assert Adding(bucket, added)[name] == added[n];
      } else if i :| 0 <= i < n && added[i].name == name && name in Adding(bucket, added[..n]) && Adding(bucket, added[..n])[name] == added[i]
                       && forall j :: i < j < n ==> added[..n][j].name != name {
        assert added[i].name == name;
      }
    }
  }

  // What the client knows after absorbing one table under `key`: it overwrites, never forgets.
  function AbsorbTable(known: Known, key: GoString, defs: Table): Known {
    known[key := BucketOf(known, key) + Learned(defs)]
  }

  function AbsorbRoot(known: Known, all: Root): Known {
    map key | key in known.Keys + all.Keys ::
      if key in all then BucketOf(known, key) + Learned(all[key]) else known[key]
  }

  // What the client knows for an event afterwards: the new definition, under the event's own name, if
  // the table has one and the name is acceptable, and otherwise what it knew.
  lemma AbsorbedTable(known: Known, key: GoString, defs: Table, other: GoString, event: GoString)
    ensures var before, after := BucketOf(known, other), BucketOf(AbsorbTable(known, key, defs), other);
            if other == key && event in defs && ValidName(event)
            then event in after && after[event] == Schema(event, defs[event])
            else if other == key && event in defs && event == []
            then event in after && after[event].definition == defs[event]
            else (event in after <==> event in before) && (event in after ==> after[event] == before[event])
  {}

  lemma AbsorbedRoot(known: Known, all: Root, other: GoString, event: GoString)
    ensures var before, after := BucketOf(known, other), BucketOf(AbsorbRoot(known, all), other);
            if other in all && event in all[other] && ValidName(event)
            then event in after && after[event] == Schema(event, all[other][event])
            else if other in all && event in all[other] && event == []
            then event in after && after[event].definition == all[other][event]
            else (event in after <==> event in before) && (event in after ==> after[event] == before[event])
  {}

  ghost predicate Teaches(all: Root, key: GoString, event: GoString) {
    key in all && event in Learned(all[key])
  }

  ghost predicate SomeTeaches(all: Root, event: GoString) {
    exists key :: Teaches(all, key, event)
  }

  // What the flattened table can hold after absorbing `all`: for each event name taught, the schema
  // of some namespace that teaches it, which one depending on map order; nothing else changes.
  ghost predicate Flattened(before: Bucket, all: Root, after: Bucket) {
    && (forall e :: e in after <==> e in before || SomeTeaches(all, e))
    && forall e <- after ::
         if SomeTeaches(all, e) then exists key :: Teaches(all, key, e) && after[e] == Learned(all[key])[e]
         else e in before && after[e] == before[e]
  }

  lemma FlattenedNone(flat: Bucket)
    ensures Flattened(flat, map[], flat)
  {}

  lemma FlattenedOne(before: Bucket, got: Root, flat: Bucket, key: GoString, defs: Table)
    requires Flattened(before, got, flat) && key !in got
    ensures Flattened(before, got[key := defs], flat + Learned(defs))
  {
    var all, after := got[key := defs], flat + Learned(defs);
    hide Learned;
    forall e
      ensures SomeTeaches(all, e) <==> SomeTeaches(got, e) || e in Learned(defs)
    {
      if k :| Teaches(all, k, e) { assert k == key || Teaches(got, k, e); }
      if k :| Teaches(got, k, e) { assert Teaches(all, k, e); }
      if e in Learned(defs) { assert Teaches(all, key, e); }
    }
    forall e <- after | SomeTeaches(all, e)
      ensures exists k :: Teaches(all, k, e) && after[e] == Learned(all[k])[e]
    {
      if e in Learned(defs) {
        assert Teaches(all, key, e) && after[e] == Learned(all[key])[e];
      } else {
        var k :| Teaches(got, k, e) && flat[e] == Learned(got[k])[e];
        assert Teaches(all, k, e) && after[e] == Learned(all[k])[e];
      }
    }
  }

  // ---------------------------------------------------------------- payload codecs

  // How the sender turns a payload into bytes: nothing for nil, the schema of the event if there
  // is one, and otherwise MessagePack and deflate.
  ghost function PayloadBytes(p: Platform, schemas: Bucket, event: GoString, payload: Val): Option<seq<byte>> {
    if payload == Nil then Some([])
    else if event in schemas then
      var def := schemas[event].definition;
      if Encodable(p, def, payload) then Some(Enc(p, def, payload)) else None
    else
      match p.marshal(payload)
      case Some(b) => Some(p.deflate(b))
      case None => None
  }

  // How the receiver reads them; `spare` is the memory behind the received bytes.
  ghost function PayloadValue(p: Platform, schemas: Bucket, event: GoString, bytes: seq<byte>, spare: seq<byte>): Outcome<Val> {
    if bytes == [] then Done(Nil, 0)
    else if event in schemas then Dec(p, schemas[event].definition, bytes + spare, |bytes|, 0)
    else
      match p.inflate(bytes)
      case None => Failed
      case Some(b) =>
        match p.unmarshal(b)
        case None => Failed
        case Some(v) => Done(v, |bytes|)
  }

  // The payload has bytes, the event a schema, and some read by that schema leaves the bytes.
  ghost predicate ShortPayload(p: Platform, schemas: Bucket, event: GoString, bytes: seq<byte>, spare: seq<byte>) {
    bytes != [] && event in schemas && Short(p, schemas[event].definition, bytes + spare, |bytes|, 0)
  }

  lemma PayloadPanicsExactly(p: Platform, schemas: Bucket, event: GoString, bytes: seq<byte>, spare: seq<byte>)
    ensures PayloadValue(p, schemas, event, bytes, spare).Panicked? <==> ShortPayload(p, schemas, event, bytes, spare)
  {
    if event in schemas { PanicsExactly(p, schemas[event].definition, bytes + spare, |bytes|, 0); }
  }

  method EncodeEventPayload(p: Platform, schemas: Bucket, event: GoString, payload: Val) returns (r: Option<seq<byte>>)
    ensures r == PayloadBytes(p, schemas, event, payload)
  {
    if payload.Nil? { return Some([]); }
    if event in schemas {
      r := EncodePayload(p, schemas[event], payload);
    } else {
      var packed := p.marshal(payload);
      if packed.None? { return None; }
      r := Some(p.deflate(packed.value));
    }
  }

  method DecodeEventPayload(p: Platform, schemas: Bucket, event: GoString, bytes: seq<byte>, spare: seq<byte>) returns (r: Outcome<Val>)
    ensures r == PayloadValue(p, schemas, event, bytes, spare)
  {
    if |bytes| == 0 { return Done(Nil, 0); }
    if event in schemas {
      r := DecodePayload(p, schemas[event], bytes + spare, |bytes|);
    } else {
      var raw := p.inflate(bytes);
      if raw.None? { return Failed; }
      var v := p.unmarshal(raw.value);
      if v.None? { return Failed; }
      return Done(v.value, |bytes|);
    }
  }

  // ---------------------------------------------------------------- the server's export

  lemma OneExported(tables: map<GoString, Table>, order: seq<GoString>, rest: set<GoString>, nsp: GoString)
    requires rest <= tables.Keys && nsp in rest && Enumerates(order, tables.Keys - rest)
    ensures Enumerates(order + [nsp], tables.Keys - (rest - {nsp}))
    ensures ExportAll(tables, order + [nsp]) == ExportAll(tables, order)[ExportKey(nsp) := tables[nsp]]
  {
    EnumeratesSnoc(order, tables.Keys - rest, nsp);
    assert tables.Keys - (rest - {nsp}) == tables.Keys - rest + {nsp};
    assert (order + [nsp])[..|order|] == order;
  }

  // out[schemaExportKey(nsp)] for every namespace, in whatever order the map yields them.
  method ExportAllSchemas(spaces: map<GoString, Bucket>) returns (out: Root, ghost order: seq<GoString>)
    ensures Enumerates(order, spaces.Keys) && out == ExportAll(AllDefinitions(spaces), order)
  {
    out := map[];
    order := [];
    var rest := spaces.Keys;
    ghost var tables := AllDefinitions(spaces);
    assert tables.Keys - rest == {};
    assert Enumerates(order, {}) && ExportAll(tables, order) == map[];
    hide Enumerates, ExportAll;
    while rest != {}
      invariant rest <= spaces.Keys && Enumerates(order, tables.Keys - rest)
      invariant out == ExportAll(tables, order)
      decreases |rest|
    {
      var nsp :| nsp in rest;
      var defs := map e | e in spaces[nsp] :: spaces[nsp][e].definition;
      out := out[ExportKey(nsp) := defs];
      OneExported(tables, order, rest, nsp);
      assert tables[nsp] == defs;
      order := order + [nsp];
      rest := rest - {nsp};
    }
    assert tables.Keys - rest == spaces.Keys;
  }

  // ---------------------------------------------------------------- the client's store

  class SchemaStore {
    var schemas: Known
    var flatSchemas: Bucket

    constructor ()
      ensures schemas == map[] && flatSchemas == map[]
    {
      schemas := map[];
      flatSchemas := map[];
    }

    // Registering local schemas keeps whatever else the bucket holds.
    method RegisterSchemas(nsp: GoString, added: seq<Schema>)
      modifies this
      ensures schemas == old(schemas)[SchemaKey(nsp) := Adding(BucketOf(old(schemas), SchemaKey(nsp)), added)]
      ensures flatSchemas == old(flatSchemas)
    {
      var key := SchemaKey(nsp);
      var bucket := BucketOf(schemas, key);
      var i := 0;
      while i < |added|
        invariant 0 <= i <= |added|
        invariant bucket == Adding(BucketOf(schemas, key), added[..i])
      {
        assert added[..i + 1][..i] == added[..i];
        bucket := bucket[added[i].name := added[i]];
        i := i + 1;
      }
      assert added[..i] == added;
      schemas := schemas[key := bucket];
    }

    // The definitions outside `rest` have been absorbed.
    static ghost predicate DefsAbsorbed(before: Known, flatBefore: Bucket, key: GoString, defs: Table, rest: set<GoString>,
                                        known: Known, flat: Bucket)
    {
      && rest <= defs.Keys && key in before
      && known == before[key := before[key] + Learned(defs - rest)]
      && flat == flatBefore + Learned(defs - rest)
    }

    static lemma DefsStart(before: Known, flatBefore: Bucket, key: GoString, defs: Table)
      requires key in before
      ensures DefsAbsorbed(before, flatBefore, key, defs, defs.Keys, before, flatBefore)
    {
      assert Learned(defs - defs.Keys) == map[];
      assert before[key] + map[] == before[key];
    }

    static lemma DefsStep(before: Known, flatBefore: Bucket, key: GoString, defs: Table, rest: set<GoString>,
                          known: Known, flat: Bucket, event: GoString)
      requires DefsAbsorbed(before, flatBefore, key, defs, rest, known, flat) && event in rest
      ensures var schema := NewSchema(event, defs[event]);
              if schema.Some? then
                DefsAbsorbed(before, flatBefore, key, defs, rest - {event},
                             known[key := known[key][event := schema.value]], flat[event := schema.value])
              else DefsAbsorbed(before, flatBefore, key, defs, rest - {event}, known, flat)
    {
      LearnedStep(defs, rest, event);
      var got := Learned(defs - rest);
      if NewSchema(event, defs[event]).Some? {
        PutStep(before[key], got, event, NewSchema(event, defs[event]).value);
        PutStep(flatBefore, got, event, NewSchema(event, defs[event]).value);
      }
    }

    static lemma LearnedStep(defs: Table, rest: set<GoString>, event: GoString)
      requires rest <= defs.Keys && event in rest
      ensures Learned(defs - (rest - {event})) ==
                if NewSchema(event, defs[event]).Some?
                then Learned(defs - rest)[event := NewSchema(event, defs[event]).value]
                else Learned(defs - rest)
    {}

    static lemma PutStep(m: Bucket, got: Bucket, event: GoString, s: Schema)
      ensures (m + got)[event := s] == m + got[event := s]
    {}

    static lemma DefsFinished(start: Known, before: Known, flatBefore: Bucket, key: GoString, defs: Table, known: Known, flat: Bucket)
      requires before == if key in start then start else start[key := map[]]
      requires DefsAbsorbed(before, flatBefore, key, defs, {}, known, flat)
      ensures known == AbsorbTable(start, key, defs) && flat == flatBefore + Learned(defs)
    {
      assert defs - {} == defs;
      assert before[key] == BucketOf(start, key);
      var got := before[key] + Learned(defs);
      assert before[key := got] == start[key := got];
    }

    // The inner loop of absorbSchemaPayload: one namespace's definitions.
    method AbsorbDefs(key: GoString, defs: Table)
      modifies this
      ensures schemas == AbsorbTable(old(schemas), key, defs)
      ensures flatSchemas == old(flatSchemas) + Learned(defs)
    {
      if key !in schemas { schemas := schemas[key := map[]]; }
      ghost var before, flatBefore := schemas, flatSchemas;
      var rest := defs.Keys;
      DefsStart(before, flatBefore, key, defs);
      while rest != {}
        invariant DefsAbsorbed(before, flatBefore, key, defs, rest, schemas, flatSchemas)
        decreases |rest|
      {
        var event :| event in rest;
        var schema := NewSchema(event, defs[event]);
        DefsStep(before, flatBefore, key, defs, rest, schemas, flatSchemas, event);
        if schema.Some? {
          schemas := schemas[key := schemas[key][event := schema.value]];
          flatSchemas := flatSchemas[event := schema.value];
        }
        rest := rest - {event};
      }
      DefsFinished(old(schemas), before, flatBefore, key, defs, schemas, flatSchemas);
    }

    // absorbSchemaPayload: a payload that does not decode changes nothing.
    method AbsorbSchemaPayload(p: Platform, nsp: GoString, raw: seq<byte>)
      modifies this
      ensures nsp == Ascii("/") ==>
                schemas == match RootPayload(p, raw) case Some(all) => AbsorbRoot(old(schemas), all) case None => old(schemas)
      ensures nsp != Ascii("/") ==>
                schemas == match NamespacePayload(p, raw)
                           case Some(defs) => AbsorbTable(old(schemas), SchemaKey(nsp), defs)
                           case None => old(schemas)
      ensures nsp == Ascii("/") ==>
                Flattened(old(flatSchemas), match RootPayload(p, raw) case Some(all) => all case None => map[], flatSchemas)
      ensures nsp != Ascii("/") ==>
                flatSchemas == match NamespacePayload(p, raw)
                               case Some(defs) => old(flatSchemas) + Learned(defs)
                               case None => old(flatSchemas)
    {
      FlattenedNone(flatSchemas);
      hide Flattened, Learned;
      if nsp == Ascii("/") {
        var all := DecodeRootSchemaPayload(p, raw);
        if all.None? { return; }
        AbsorbAll(all.value);
      } else {
        var defs := DecodeNamespaceSchemaPayload(p, raw);
        if defs.None? { return; }
        AbsorbDefs(SchemaKey(nsp), defs.value);
      }
    }

    method AbsorbAll(all: Root)
      modifies this
      ensures schemas == AbsorbRoot(old(schemas), all)
      ensures Flattened(old(flatSchemas), all, flatSchemas)
    {
      hide *;
      AbsorbEnds(schemas, flatSchemas, all);
      var rest := all.Keys;
      while rest != {}
        invariant rest <= all.Keys
        invariant schemas == AbsorbRoot(old(schemas), all - rest)
        invariant Flattened(old(flatSchemas), all - rest, flatSchemas)
        decreases |rest|
      {
        var key :| key in rest;
        AbsorbStep(old(schemas), all, rest, key);
        OneMoreKey(all, rest, key);
        FlattenedOne(old(flatSchemas), all - rest, flatSchemas, key, all[key]);
        AbsorbDefs(key, all[key]);
        rest := rest - {key};
      }
    }

    static lemma AbsorbEnds(known: Known, flat: Bucket, all: Root)
      ensures AbsorbRoot(known, all - all.Keys) == known && Flattened(flat, all - all.Keys, flat)
      ensures all - {} == all
    {
      assert all - all.Keys == map[];
      FlattenedNone(flat);
    }

    static lemma AbsorbStep(known: Known, all: Root, rest: set<GoString>, key: GoString)
      requires rest <= all.Keys && key in rest
      ensures AbsorbTable(AbsorbRoot(known, all - rest), key, all[key]) == AbsorbRoot(known, all - (rest - {key}))
    {
      hide *;
      AbsorbOne(known, all - rest, key, all[key]);
      OneMoreKey(all, rest, key);
    }

    static lemma OneMoreKey(all: Root, rest: set<GoString>, key: GoString)
      requires rest <= all.Keys && key in rest
      ensures key !in all - rest && all - (rest - {key}) == (all - rest)[key := all[key]]
    {}

    static lemma AbsorbOne(known: Known, got: Root, key: GoString, defs: Table)
      ensures key !in got ==> AbsorbTable(AbsorbRoot(known, got), key, defs) == AbsorbRoot(known, got[key := defs])
    {
      if key !in got {
        var before, after := AbsorbRoot(known, got), AbsorbRoot(known, got[key := defs]);
        hide Learned;
        assert BucketOf(before, key) == BucketOf(known, key) && after[key] == BucketOf(known, key) + Learned(defs);
        OtherKeysKept(known, got, key, defs);
        hide AbsorbRoot, BucketOf;
        RowAdded(before, after, key);
      }
    }

    static lemma OtherKeysKept(known: Known, got: Root, key: GoString, defs: Table)
      ensures var before, after := AbsorbRoot(known, got), AbsorbRoot(known, got[key := defs]);
              after.Keys == before.Keys + {key} && forall k <- before :: k != key ==> after[k] == before[k]
    {
      hide Learned;
    }

    static lemma RowAdded(before: Known, after: Known, key: GoString)
      requires after.Keys == before.Keys + {key} && forall k <- before :: k != key ==> after[k] == before[k]
      ensures after == before[key := after[key]]
    {}

    // decodeAppPayload
    method DecodeAppPayload(p: Platform, bytes: seq<byte>, spare: seq<byte>, event: GoString, nsp: GoString) returns (r: Outcome<Val>)
      ensures r == PayloadValue(p, BucketOf(schemas, SchemaKey(nsp)), event, bytes, spare)
    {
      r := DecodeEventPayload(p, BucketOf(schemas, SchemaKey(nsp)), event, bytes, spare);
    }
  }
}
