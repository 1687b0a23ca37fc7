// Writing and reading whole schema tables (protocol/schema_wire.go, and the generic map encoder
// that visits a Go map in an arbitrary order).
module TableCodec {
  import opened Bytes
  import opened SchemaTypes
  import opened DefWire
  import opened DefWireCodec
  import opened SchemaTables

  ghost predicate TableWritable(t: Table) {
    forall k <- t :: Writable(t[k])
  }

  ghost predicate RootWritable(t: Root) {
    forall k <- t :: TableWritable(t[k])
  }

  lemma EntriesSnoc(t: Table, order: seq<GoString>, k: GoString)
    requires k in t
    ensures PrintFields(Entries(t, order + [k])) == PrintFields(Entries(t, order)) + PrintStr(k) + Print(t[k])
  {
    var fs := Entries(t, order + [k]);
    assert fs[..|order|] == Entries(t, order);
    assert fs[|order|] == FieldDef(k, t[k]);
    assert PrintFields(fs) == PrintFields(Entries(t, order)) + PrintField(FieldDef(k, t[k]));
  }

  // The keys outside `rest` have been written, in the order `order`.
  ghost predicate TableDone(t: Table, rest: set<GoString>, order: seq<GoString>, start: seq<byte>, out: seq<byte>) {
    && rest <= t.Keys && Enumerates(order, t.Keys - rest)
    && (forall k <- t.Keys - rest :: Writable(t[k]))
    && out == start + PrintFields(Entries(t, order))
  }

  lemma TableStep(t: Table, rest: set<GoString>, order: seq<GoString>, start: seq<byte>, out: seq<byte>, k: GoString)
    requires TableDone(t, rest, order, start, out) && k in rest && Writable(t[k])
    ensures TableDone(t, rest - {k}, order + [k], start, out + PrintStr(k) + Print(t[k]))
  {
    EntriesSnoc(t, order, k);
    EnumeratesSnoc(order, t.Keys - rest, k);
    assert t.Keys - (rest - {k}) == t.Keys - rest + {k};
    Assoc(start, PrintFields(Entries(t, order)), PrintStr(k));
    Assoc(start, PrintFields(Entries(t, order)) + PrintStr(k), Print(t[k]));
  }

  lemma TableFinished(t: Table, order: seq<GoString>, before: seq<byte>, out: seq<byte>)
    requires TableDone(t, {}, order, before + Head(MAP, |t|), out)
    ensures TableWritable(t) && Enumerates(order, t.Keys) && out == before + PrintTable(t, order)
  {
    assert t.Keys - {} == t.Keys;
    EnumerationSize(order, t.Keys);
    assert |t| == |t.Keys|;
    Assoc(before, Head(MAP, |t|), PrintFields(Entries(t, order)));
  }

  // The table is written in whatever order the map yields its keys; `order` records it.
  method EncodeTable(enc: Encoder, t: Table) returns (ok: bool, ghost order: seq<GoString>)
    modifies enc
    ensures ok <==> TableWritable(t)
    ensures ok ==> Enumerates(order, t.Keys) && enc.out == old(enc.out) + PrintTable(t, order)
    ensures old(enc.out) <= enc.out
  {
    order := [];
    enc.EncodeMapLen(|t|);
    ghost var start := enc.out;
    var rest := t.Keys;
    while rest != {}
      invariant TableDone(t, rest, order, start, enc.out)
      decreases |rest|
    {
      var k :| k in rest;
      if Writable(t[k]) { TableStep(t, rest, order, start, enc.out, k); }
      enc.EncodeString(k);
      var written := enc.WriteSchemaDef(t[k]);
      if !written { return false, order; }
      order := order + [k];
      rest := rest - {k};
    }
    TableFinished(t, order, old(enc.out), enc.out);
    return true, order;
  }

  lemma ListsSnoc(ss: seq<Section>, t: Root, s: Section)
    requires Lists(ss, t) && s.key !in t && Enumerates(s.order, s.table.Keys)
    ensures Lists(ss + [s], t[s.key := s.table])
  {
    assert (ss + [s])[..|ss|] == ss;
    assert t[s.key := s.table] - {s.key} == t;
  }

  lemma SectionsSnoc(ss: seq<Section>, s: Section)
    ensures PrintSections(ss + [s]) == PrintSections(ss) + PrintStr(s.key) + PrintTable(s.table, s.order)
  {
    assert (ss + [s])[..|ss|] == ss;
    assert PrintSections(ss + [s]) == PrintSections(ss) + PrintSection(s);
  }

  ghost predicate RootDone(t: Root, rest: set<GoString>, ss: seq<Section>, start: seq<byte>, out: seq<byte>) {
    && rest <= t.Keys && Lists(ss, t - rest)
    && (forall k <- t.Keys - rest :: TableWritable(t[k]))
    && out == start + PrintSections(ss)
  }

  lemma RootStep(t: Root, rest: set<GoString>, ss: seq<Section>, start: seq<byte>, out: seq<byte>, s: Section)
    requires RootDone(t, rest, ss, start, out) && s.key in rest && s.table == t[s.key]
    requires TableWritable(s.table) && Enumerates(s.order, s.table.Keys)
    ensures RootDone(t, rest - {s.key}, ss + [s], start, out + PrintStr(s.key) + PrintTable(s.table, s.order))
  {
    SectionsSnoc(ss, s);
    ListsSnoc(ss, t - rest, s);
    assert t - (rest - {s.key}) == (t - rest)[s.key := s.table];
    Assoc(start, PrintSections(ss), PrintStr(s.key));
    Assoc(start, PrintSections(ss) + PrintStr(s.key), PrintTable(s.table, s.order));
  }

  lemma RootFinished(t: Root, ss: seq<Section>, before: seq<byte>, out: seq<byte>)
    requires RootDone(t, {}, ss, before + Head(MAP, |t|), out)
    ensures RootWritable(t) && Lists(ss, t) && out == before + PrintRoot(ss)
  {
    assert t - {} == t;
    RootOfListed(ss, t);
    Assoc(before, Head(MAP, |t|), PrintSections(ss));
  }

  method EncodeRoot(enc: Encoder, t: Root) returns (ok: bool, ghost ss: seq<Section>)
    modifies enc
    ensures ok <==> RootWritable(t)
    ensures ok ==> Lists(ss, t) && enc.out == old(enc.out) + PrintRoot(ss)
    ensures old(enc.out) <= enc.out
  {
    ss := [];
    enc.EncodeMapLen(|t|);
    ghost var start := enc.out;
    var rest := t.Keys;
    assert t - rest == map[];
    while rest != {}
      invariant RootDone(t, rest, ss, start, enc.out)
      decreases |rest|
    {
      var k :| k in rest;
      ghost var before := enc.out;
      enc.EncodeString(k);
      ghost var order;
      var written;
      written, order := EncodeTable(enc, t[k]);
      if !written { return false, ss; }
      RootStep(t, rest, ss, start, before, Section(k, t[k], order));
      ss := ss + [Section(k, t[k], order)];
      rest := rest - {k};
    }
    RootFinished(t, ss, old(enc.out), enc.out);
    return true, ss;
  }

  // decodeSchemaDefMap: the pairs go into a map as they are read.
  method DecodeTable(dec: Decoder) returns (r: Parse<Table>)
    requires dec.Valid()
    modifies dec
    ensures dec.Valid() && r == ParseTable(dec.mem, old(dec.pos))
    ensures r.Got? ==> dec.pos == r.next
  {
    var n := dec.DecodeMapLen();
    if n.Bad? { return Bad; }
    ghost var start := dec.pos;
    var out: Table := map[];
    ghost var fs: seq<FieldDef> := [];
    var i := 0;
    while i < n.value
      invariant 0 <= i <= n.value && dec.Valid()
      invariant ParseFields(dec.mem, start, i) == Got(fs, dec.pos)
      invariant out == TableOf(fs)
    {
      ghost var at := dec.pos;
      var key := dec.DecodeString();
      if key.Bad? {
        assert ParseField(dec.mem, at).Bad?;
        ParseFieldsStop(dec.mem, start, i, n.value);
        return Bad;
      }
      var val := dec.DecodeSchemaDef();
      if val.Bad? {
        assert ParseField(dec.mem, at).Bad?;
        ParseFieldsStop(dec.mem, start, i, n.value);
        return Bad;
      }
      assert ParseField(dec.mem, at) == Got(FieldDef(key.value, val.value), dec.pos);
      TableOfSnoc(fs, FieldDef(key.value, val.value));
      fs := fs + [FieldDef(key.value, val.value)];
      out := out[key.value := val.value];
      i := i + 1;
    }
    return Got(out, dec.pos);
  }

  lemma {:induction false} ParseSectionsStop(mem: seq<byte>, pos: nat, i: nat, n: nat)
    requires i < n && ParseSections(mem, pos, i).Got?
    requires ParseSection(mem, ParseSections(mem, pos, i).next).Bad?
    ensures ParseSections(mem, pos, n).Bad?
    decreases n
  {
    hide ParseSection;
    if i + 1 < n { ParseSectionsStop(mem, pos, i, n - 1); }
  }

  // One key and the table behind it.
  method DecodeSection(dec: Decoder) returns (r: Parse<(GoString, Table)>)
    requires dec.Valid()
    modifies dec
    ensures dec.Valid() && r == ParseSection(dec.mem, old(dec.pos))
    ensures r.Got? ==> dec.pos == r.next
  {
    var key := dec.DecodeString();
    if key.Bad? { return Bad; }
    var inner := DecodeTable(dec);
    if inner.Bad? { return Bad; }
    return Got((key.value, inner.value), dec.pos);
  }

  method DecodeRoot(dec: Decoder) returns (r: Parse<Root>)
    requires dec.Valid()
    modifies dec
    ensures dec.Valid() && r == ParseRoot(dec.mem, old(dec.pos))
    ensures r.Got? ==> dec.pos == r.next
  {
    var n := dec.DecodeMapLen();
    if n.Bad? { return Bad; }
    ghost var start := dec.pos;
    var out: Root := map[];
    var i := 0;
    while i < n.value
      invariant 0 <= i <= n.value && dec.Valid()
      invariant ParseSections(dec.mem, start, i) == Got(out, dec.pos)
    {
      ghost var at := dec.pos;
      var section := DecodeSection(dec);
      if section.Bad? {
        ParseSectionsStop(dec.mem, start, i, n.value);
        return Bad;
      }
      ParseSectionsStep(dec.mem, start, i, out, at, section.value.0, section.value.1, dec.pos);
      out := out[section.value.0 := section.value.1];
      i := i + 1;
    }
    return Got(out, dec.pos);
  }

  // ---------------------------------------------------------------- CONNECT payloads

  // Whatever follows the table in the inflated stream is ignored.
  ghost function NamespacePayload(p: Platform, raw: seq<byte>): Option<Table> {
    match p.inflate(raw)
    case None => None
    case Some(b) => match ParseTable(b, 0) case Got(t, _) => Some(t) case Bad => None
  }

  ghost function RootPayload(p: Platform, raw: seq<byte>): Option<Root> {
    match p.inflate(raw)
    case None => None
    case Some(b) => match ParseRoot(b, 0) case Got(t, _) => Some(t) case Bad => None
  }

  method DecodeNamespaceSchemaPayload(p: Platform, raw: seq<byte>) returns (r: Option<Table>)
    ensures r == NamespacePayload(p, raw)
    ensures forall t :: r == Some(t) <==>
              p.inflate(raw).Some? && ParseTable(p.inflate(raw).value, 0).Got? && ParseTable(p.inflate(raw).value, 0).value == t
  {
    var inflated := p.inflate(raw);
    if inflated.None? { return None; }
    var dec := new Decoder(inflated.value);
    var t := DecodeTable(dec);
    if t.Bad? { return None; }
    return Some(t.value);
  }

  method DecodeRootSchemaPayload(p: Platform, raw: seq<byte>) returns (r: Option<Root>)
    ensures r == RootPayload(p, raw)
    ensures forall t :: r == Some(t) <==>
              p.inflate(raw).Some? && ParseRoot(p.inflate(raw).value, 0).Got? && ParseRoot(p.inflate(raw).value, 0).value == t
  {
    var inflated := p.inflate(raw);
    if inflated.None? { return None; }
    var dec := new Decoder(inflated.value);
    var t := DecodeRoot(dec);
    if t.Bad? { return None; }
    return Some(t.value);
  }

  // The default codec applied to an exported table: MessagePack, then deflate.
  method EncodeNamespaceSchemaPayload(p: Platform, t: Table) returns (r: Option<seq<byte>>)
    ensures r.Some? <==> TableWritable(t)
    ensures r.Some? && Inflates(p) ==> (NamespacePayload(p, r.value) == Some(t) <==> TablePrintable(t))
    ensures r.Some? ==> exists order :: Enumerates(order, t.Keys) && r.value == p.deflate(PrintTable(t, order))
  {
    var enc := new Encoder();
    ghost var order;
    var ok;
    ok, order := EncodeTable(enc, t);
    if !ok { return None; }
    ghost var printed := PrintTable(t, order);
    assert enc.out == printed;
    assert printed + [] == printed;
    TableRoundTrip(t, order, []);
    if ParseTable(printed, 0).Got? { ParsedTablePrintable(printed, 0); }
    return Some(p.deflate(enc.out));
  }

  method EncodeRootSchemaPayload(p: Platform, t: Root) returns (r: Option<seq<byte>>)
    ensures r.Some? <==> RootWritable(t)
    ensures r.Some? && Inflates(p) ==> (RootPayload(p, r.value) == Some(t) <==> RootPrintable(t))
    ensures r.Some? ==> exists ss :: Lists(ss, t) && r.value == p.deflate(PrintRoot(ss))
  {
    var enc := new Encoder();
    ghost var ss;
    var ok;
    ok, ss := EncodeRoot(enc, t);
    if !ok { return None; }
    ghost var printed := PrintRoot(ss);
    assert enc.out == printed;
    assert printed + [] == printed;
    RootRoundTrip(t, ss, []);
    if ParseRoot(printed, 0).Got? { ParsedRootPrintable(printed, 0); }
    return Some(p.deflate(enc.out));
  }
}
