// Tables of schema definitions on the wire. Go enumerates its maps in an arbitrary order, so a
// table prints differently from run to run; the order of the fields inside a definition is fixed
// (protocol/schema_wire.go, server/namespace.go, server/server.go, client/types.go).
module SchemaTables {
  import opened Bytes
  import opened SchemaTypes
  import opened DefWire
  import opened DefWireLaws

  type Table = map<GoString, SchemaDef>

  // One of the orders in which `range` may visit the keys: each of them once.
  ghost predicate Enumerates<T>(order: seq<T>, keys: set<T>) {
    if order == [] then keys == {} else
      var last := order[|order| - 1];
      last in keys && Enumerates(order[..|order| - 1], keys - {last})
  }

  lemma EnumeratesSnoc<T>(order: seq<T>, keys: set<T>, k: T)
    requires Enumerates(order, keys) && k !in keys
    ensures Enumerates(order + [k], keys + {k})
  {
    assert (order + [k])[..|order|] == order;
    assert keys + {k} - {k} == keys;
  }

  lemma {:induction false} EnumerationSize<T>(order: seq<T>, keys: set<T>)
    requires Enumerates(order, keys)
    ensures |order| == |keys|
    decreases |order|
  {
    if order != [] { EnumerationSize(order[..|order| - 1], keys - {order[|order| - 1]}); }
  }

  lemma {:induction false} EnumerationMembers<T>(order: seq<T>, keys: set<T>)
    requires Enumerates(order, keys)
    ensures forall i :: 0 <= i < |order| ==> order[i] in keys
    ensures forall k <- keys :: k in order
    decreases |order|
  {
    if order != [] {
      var init, last := order[..|order| - 1], order[|order| - 1];
      EnumerationMembers(init, keys - {last});
      assert order == init + [last];
    }
  }

  lemma {:induction false} SomeEnumeration<T>(keys: set<T>) returns (order: seq<T>)
    ensures Enumerates(order, keys)
    decreases |keys|
  {
    if keys == {} {
      order := [];
    } else {
      var k :| k in keys;
      var rest := SomeEnumeration(keys - {k});
      order := rest + [k];
      assert order[..|order| - 1] == rest;
    }
  }

  // ---------------------------------------------------------------- one namespace's table

  // The table as the field list in which it is written.
  ghost function Entries(t: Table, order: seq<GoString>): (r: seq<FieldDef>)
    ensures |r| == |order|
  {
    seq(|order|, i requires 0 <= i < |order| => FieldDef(order[i], if order[i] in t then t[order[i]] else Invalid))
  }

  ghost function PrintTable(t: Table, order: seq<GoString>): seq<byte> {
    Head(MAP, |order|) + PrintFields(Entries(t, order))
  }

  // Filling a Go map from a list of pairs: a repeated key keeps its last value.
  ghost function TableOf(fs: seq<FieldDef>): Table {
    if fs == [] then map[] else TableOf(fs[..|fs| - 1])[fs[|fs| - 1].key := fs[|fs| - 1].typ]
  }

  lemma EntriesInit(t: Table, order: seq<GoString>)
    requires order != [] && Enumerates(order, t.Keys)
    ensures var init, last := order[..|order| - 1], order[|order| - 1];
            && last in t && Enumerates(init, (t - {last}).Keys)
            && Entries(t, order) == Entries(t - {last}, init) + [FieldDef(last, t[last])]
  {
    var init, last := order[..|order| - 1], order[|order| - 1];
    assert (t - {last}).Keys == t.Keys - {last};
    EnumerationMembers(init, t.Keys - {last});
    forall i | 0 <= i < |init|
      ensures Entries(t, order)[i] == Entries(t - {last}, init)[i]
    {
      assert init[i] in t.Keys - {last};
    }
  }

  lemma {:induction false} TableOfEntries(t: Table, order: seq<GoString>)
    requires Enumerates(order, t.Keys)
    ensures TableOf(Entries(t, order)) == t
    decreases |order|
  {
    if order == [] {
      assert t.Keys == {};
    } else {
      var last := order[|order| - 1];
      var rest := t - {last};
      EntriesInit(t, order);
      TableOfEntries(rest, order[..|order| - 1]);
      TableOfSnoc(Entries(rest, order[..|order| - 1]), FieldDef(last, t[last]));
      assert t == rest[last := t[last]];
    }
  }

  // A name that comes again takes its later definition.
  lemma TableOfSnoc(fs: seq<FieldDef>, f: FieldDef)
    ensures TableOf(fs + [f]) == TableOf(fs)[f.key := f.typ]
  {
    assert (fs + [f])[..|fs|] == fs;
  }

  ghost function ParseTable(mem: seq<byte>, pos: nat): (r: Parse<Table>)
    ensures r.Got? ==> pos < r.next <= |mem|
  {
    match ReadHead(MAP, mem, pos)
    case Bad => Bad
    case Got(n, k) =>
      match ParseFields(mem, k, n)
      case Bad => Bad
      case Got(fs, k') => Got(TableOf(fs), k')
  }

  // What a table must satisfy to survive.
  ghost predicate TablePrintable(t: Table) {
    |t| < TWO_32 && forall k <- t :: |k| < TWO_32 && Printable(t[k])
  }

  lemma EntriesPrintable(t: Table, order: seq<GoString>)
    requires TablePrintable(t) && Enumerates(order, t.Keys)
    ensures FieldsPrintable(Entries(t, order)) && |order| < TWO_32
  {
    EnumerationSize(order, t.Keys);
    EnumerationMembers(order, t.Keys);
    assert |t| == |t.Keys|;
    var fs := Entries(t, order);
    forall f | f in fs
      ensures |f.key| < TWO_32 && Printable(f.typ)
    {
      var i :| 0 <= i < |fs| && fs[i] == f;
      assert order[i] in t.Keys;
    }
  }

  lemma ParseEntriesOfPrint(fs: seq<FieldDef>, mem: seq<byte>, pos: nat)
    requires FieldsPrintable(fs) && |fs| < TWO_32 && Holds(mem, pos, Head(MAP, |fs|) + PrintFields(fs))
    ensures ParseTable(mem, pos) == Got(TableOf(fs), pos + |Head(MAP, |fs|)| + |PrintFields(fs)|)
  {
    assert MAP.fix + MAP.span <= 0x100 && Known(MAP);
    hide *;
    var head, body := Head(MAP, |fs|), PrintFields(fs);
    var mid: nat := pos + |head|;
    HoldsSplit(mem, pos, head, body);
    assert ReadHead(MAP, mem, pos) == Got(|fs|, mid) by { ReadHeadOfHead(MAP, mem, pos, |fs|); }
    assert ParseFields(mem, mid, |fs|) == Got(fs, mid + |body|) by { ParseFieldsOfPrint(fs, mem, mid); }
    ParseTableStep(mem, pos, mid, fs, mid + |body|);
  }

  // Whatever order the table was written in, reading it gives the table back.
  lemma ParseTableOfPrint(t: Table, order: seq<GoString>, mem: seq<byte>, pos: nat)
    requires TablePrintable(t) && Enumerates(order, t.Keys) && Holds(mem, pos, PrintTable(t, order))
    ensures ParseTable(mem, pos) == Got(t, pos + |PrintTable(t, order)|)
  {
    EntriesPrintable(t, order);
    TableOfEntries(t, order);
    ParseEntriesOfPrint(Entries(t, order), mem, pos);
  }

  lemma ParseTableStep(mem: seq<byte>, pos: nat, mid: nat, fs: seq<FieldDef>, end: nat)
    requires ReadHead(MAP, mem, pos) == Got(|fs|, mid) && ParseFields(mem, mid, |fs|) == Got(fs, end)
    ensures ParseTable(mem, pos) == Got(TableOf(fs), end)
  {}

  lemma {:induction false} TableOfPrintable(fs: seq<FieldDef>)
    requires FieldsPrintable(fs)
    ensures |TableOf(fs)| <= |fs| && forall k <- TableOf(fs) :: |k| < TWO_32 && Printable(TableOf(fs)[k])
  {
    if fs != [] {
      var init, last := fs[..|fs| - 1], fs[|fs| - 1];
      TableOfPrintable(init);
      var t := TableOf(init);
      assert t[last.key := last.typ].Keys == t.Keys + {last.key};
      assert |t.Keys + {last.key}| <= |t.Keys| + 1;
    }
  }

  lemma ParsedTablePrintable(mem: seq<byte>, pos: nat)
    requires ParseTable(mem, pos).Got?
    ensures TablePrintable(ParseTable(mem, pos).value)
  {
    var head := ReadHead(MAP, mem, pos);
    HeadSmallest(MAP, mem, pos);
    ReprintFields(mem, head.next, head.value);
    TableOfPrintable(ParseFields(mem, head.next, head.value).value);
  }

  // A table crosses the wire, in any enumeration and with anything behind it, exactly when it is
  // printable.
  lemma TableRoundTrip(t: Table, order: seq<GoString>, tail: seq<byte>)
    requires Enumerates(order, t.Keys)
    ensures ParseTable(PrintTable(t, order) + tail, 0) == Got(t, |PrintTable(t, order)|) <==> TablePrintable(t)
  {
    var mem := PrintTable(t, order) + tail;
    if TablePrintable(t) {
      assert Holds(mem, 0, PrintTable(t, order));
      ParseTableOfPrint(t, order, mem, 0);
    } else if ParseTable(mem, 0).Got? {
      ParsedTablePrintable(mem, 0);
    }
  }

  // ---------------------------------------------------------------- the table of tables

  type Root = map<GoString, Table>

  // One entry of the outer table, with the order in which Go happened to enumerate the inner one.
  datatype Section = Section(key: GoString, table: Table, order: seq<GoString>)

  // The sections in the order in which Go happened to enumerate the outer table.
  ghost predicate Lists(ss: seq<Section>, t: Root) {
    if ss == [] then t == map[] else
      var last := ss[|ss| - 1];
      && last.key in t && t[last.key] == last.table && Enumerates(last.order, last.table.Keys)
      && Lists(ss[..|ss| - 1], t - {last.key})
  }

  ghost function PrintSection(s: Section): seq<byte> {
    PrintStr(s.key) + PrintTable(s.table, s.order)
  }

  ghost function PrintSections(ss: seq<Section>): seq<byte> {
    if ss == [] then [] else PrintSections(ss[..|ss| - 1]) + PrintSection(ss[|ss| - 1])
  }

  ghost function PrintRoot(ss: seq<Section>): seq<byte> {
    Head(MAP, |ss|) + PrintSections(ss)
  }

  // Filling the outer map section by section.
  ghost function RootOf(ss: seq<Section>): Root {
    if ss == [] then map[] else RootOf(ss[..|ss| - 1])[ss[|ss| - 1].key := ss[|ss| - 1].table]
  }

  lemma {:induction false} RootOfListed(ss: seq<Section>, t: Root)
    requires Lists(ss, t)
    ensures RootOf(ss) == t && |ss| == |t|
    decreases |ss|
  {
    if ss != [] {
      var last := ss[|ss| - 1];
      var rest := t - {last.key};
      RootOfListed(ss[..|ss| - 1], rest);
      assert t == rest[last.key := last.table];
      assert t.Keys == rest.Keys + {last.key};
    }
  }

  ghost function ParseSections(mem: seq<byte>, pos: nat, n: nat): (r: Parse<Root>)
    ensures r.Got? ==> pos <= r.next
  {
    if n == 0 then Got(map[], pos) else
      match ParseSections(mem, pos, n - 1)
      case Bad => Bad
      case Got(t, k) =>
        match ParseSection(mem, k)
        case Bad => Bad
        case Got((key, inner), end) => Got(t[key := inner], end)
  }

  ghost function ParseSection(mem: seq<byte>, pos: nat): (r: Parse<(GoString, Table)>)
    ensures r.Got? ==> pos < r.next
  {
    match ReadStr(mem, pos)
    case Bad => Bad
    case Got(key, k) =>
      match ParseTable(mem, k)
      case Bad => Bad
      case Got(inner, end) => Got((key, inner), end)
  }

  ghost function ParseRoot(mem: seq<byte>, pos: nat): Parse<Root> {
    match ReadHead(MAP, mem, pos)
    case Bad => Bad
    case Got(n, k) => ParseSections(mem, k, n)
  }

  ghost predicate RootPrintable(t: Root) {
    |t| < TWO_32 && forall k <- t :: |k| < TWO_32 && TablePrintable(t[k])
  }

  ghost predicate SectionPrintable(s: Section) {
    |s.key| < TWO_32 && TablePrintable(s.table) && Enumerates(s.order, s.table.Keys)
  }

  ghost predicate SectionsPrintable(ss: seq<Section>) {
    forall s <- ss :: SectionPrintable(s)
  }

  lemma SectionsPrintableInit(ss: seq<Section>)
    requires ss != [] && SectionsPrintable(ss)
    ensures SectionsPrintable(ss[..|ss| - 1]) && SectionPrintable(ss[|ss| - 1])
  {}

  lemma ParseSectionOfPrint(s: Section, mem: seq<byte>, pos: nat)
    ensures SectionPrintable(s) && Holds(mem, pos, PrintSection(s)) ==>
              ParseSection(mem, pos) == Got((s.key, s.table), pos + |PrintSection(s)|)
  {
    if SectionPrintable(s) && Holds(mem, pos, PrintSection(s)) {
      hide ParseSection, ParseTable, PrintTable, TablePrintable, Enumerates, ReadStr, PrintStr, Holds;
      var a, b := PrintStr(s.key), PrintTable(s.table, s.order);
      var mid: nat := pos + |a|;
      HoldsSplit(mem, pos, a, b);
      assert ReadStr(mem, pos) == Got(s.key, mid) by { ReadStrOfPrint(s.key, mem, pos); }
      assert ParseTable(mem, mid) == Got(s.table, mid + |b|) by { ParseTableOfPrint(s.table, s.order, mem, mid); }
      ParseSectionStep(mem, pos, s.key, mid, s.table, mid + |b|);
    }
  }

  lemma ParseSectionStep(mem: seq<byte>, pos: nat, key: GoString, mid: nat, t: Table, end: nat)
    requires ReadStr(mem, pos) == Got(key, mid) && ParseTable(mem, mid) == Got(t, end)
    ensures ParseSection(mem, pos) == Got((key, t), end)
  {}

  lemma ParseSectionsStep(mem: seq<byte>, pos: nat, n: nat, t: Root, mid: nat, key: GoString, inner: Table, end: nat)
    requires ParseSections(mem, pos, n) == Got(t, mid) && ParseSection(mem, mid) == Got((key, inner), end)
    ensures ParseSections(mem, pos, n + 1) == Got(t[key := inner], end)
  {}

  lemma OneMoreSection(mem: seq<byte>, pos: nat, n: nat, t: Root, mid: nat, s: Section)
    requires ParseSections(mem, pos, n) == Got(t, mid) && SectionPrintable(s) && Holds(mem, mid, PrintSection(s))
    ensures ParseSections(mem, pos, n + 1) == Got(t[s.key := s.table], mid + |PrintSection(s)|)
  {
    hide ParseSections, PrintSection, SectionPrintable, Holds;
    ParseSectionOfPrint(s, mem, mid);
    ParseSectionsStep(mem, pos, n, t, mid, s.key, s.table, mid + |PrintSection(s)|);
  }

  lemma SectionsUnfold(ss: seq<Section>)
    requires ss != []
    ensures var init, last := ss[..|ss| - 1], ss[|ss| - 1];
            PrintSections(ss) == PrintSections(init) + PrintSection(last) && RootOf(ss) == RootOf(init)[last.key := last.table]
  {}

  lemma NoSections(mem: seq<byte>, pos: nat)
    ensures ParseSections(mem, pos, 0) == Got(RootOf([]), pos) && PrintSections([]) == []
  {}

  lemma {:induction false} ParseSectionsOfPrint(ss: seq<Section>, mem: seq<byte>, pos: nat)
    requires SectionsPrintable(ss) && Holds(mem, pos, PrintSections(ss))
    ensures ParseSections(mem, pos, |ss|) == Got(RootOf(ss), pos + |PrintSections(ss)|)
    decreases |ss|
  {
    hide *;
    if ss == [] {
      NoSections(mem, pos);
    } else {
      var init, last := ss[..|ss| - 1], ss[|ss| - 1];
      var a, b := PrintSections(init), PrintSection(last);
      SectionsUnfold(ss);
      SectionsPrintableInit(ss);
      HoldsSplit(mem, pos, a, b);
      ParseSectionsOfPrint(init, mem, pos);
      OneMoreSection(mem, pos, |init|, RootOf(init), pos + |a|, last);
    }
  }

  lemma {:induction false} ListedPrintable(ss: seq<Section>, t: Root)
    requires Lists(ss, t) && forall k <- t :: |k| < TWO_32 && TablePrintable(t[k])
    ensures SectionsPrintable(ss)
    decreases |ss|
  {
    if ss != [] {
      var last := ss[|ss| - 1];
      ListedPrintable(ss[..|ss| - 1], t - {last.key});
      assert forall s <- ss :: s in ss[..|ss| - 1] || s == last;
    }
  }

  lemma ParseRootStep(mem: seq<byte>, pos: nat, n: nat, mid: nat, t: Root, end: nat)
    requires ReadHead(MAP, mem, pos) == Got(n, mid) && ParseSections(mem, mid, n) == Got(t, end)
    ensures ParseRoot(mem, pos) == Got(t, end)
  {}

  lemma ParseListedOfPrint(ss: seq<Section>, mem: seq<byte>, pos: nat)
    requires |ss| < TWO_32 && SectionsPrintable(ss) && Holds(mem, pos, Head(MAP, |ss|) + PrintSections(ss))
    ensures ParseRoot(mem, pos) == Got(RootOf(ss), pos + |Head(MAP, |ss|)| + |PrintSections(ss)|)
  {
    assert MAP.fix + MAP.span <= 0x100 && Known(MAP);
    hide *;
    var head, body, t := Head(MAP, |ss|), PrintSections(ss), RootOf(ss);
    var mid: nat := pos + |head|;
    HoldsSplit(mem, pos, head, body);
    assert ReadHead(MAP, mem, pos) == Got(|ss|, mid) by { ReadHeadOfHead(MAP, mem, pos, |ss|); }
    assert ParseSections(mem, mid, |ss|) == Got(t, mid + |body|) by { ParseSectionsOfPrint(ss, mem, mid); }
    ParseRootStep(mem, pos, |ss|, mid, t, mid + |body|);
  }

  // Both levels of enumeration are arbitrary and neither matters: the printed root table reads
  // back as itself, whatever follows it.
  lemma ParseRootOfPrint(t: Root, ss: seq<Section>, mem: seq<byte>, pos: nat)
    requires RootPrintable(t) && Lists(ss, t) && Holds(mem, pos, PrintRoot(ss))
    ensures ParseRoot(mem, pos) == Got(t, pos + |PrintRoot(ss)|)
  {
    RootOfListed(ss, t);
    ListedPrintable(ss, t);
    ParseListedOfPrint(ss, mem, pos);
  }

  lemma {:induction false} SectionsParsed(mem: seq<byte>, pos: nat, n: nat)
    requires ParseSections(mem, pos, n).Got?
    ensures var t := ParseSections(mem, pos, n).value;
            |t| <= n && forall k <- t :: |k| < TWO_32 && TablePrintable(t[k])
  {
    if n > 0 {
      SectionsParsed(mem, pos, n - 1);
      var head := ParseSections(mem, pos, n - 1);
      var key := ReadStr(mem, head.next);
      StrSmallest(mem, head.next);
      ParsedTablePrintable(mem, key.next);
      var inner := ParseTable(mem, key.next).value;
      hide TablePrintable, ReadStr, ParseTable;
      assert head.value[key.value := inner].Keys == head.value.Keys + {key.value};
    }
  }

  lemma ParsedRootPrintable(mem: seq<byte>, pos: nat)
    requires ParseRoot(mem, pos).Got?
    ensures RootPrintable(ParseRoot(mem, pos).value)
  {
    HeadSmallest(MAP, mem, pos);
    var head := ReadHead(MAP, mem, pos);
    SectionsParsed(mem, head.next, head.value);
  }

  // The table of tables crosses the wire, in any enumeration of both levels and with anything
  // behind it, exactly when it is printable.
  lemma RootRoundTrip(t: Root, ss: seq<Section>, tail: seq<byte>)
    requires Lists(ss, t)
    ensures ParseRoot(PrintRoot(ss) + tail, 0) == Got(t, |PrintRoot(ss)|) <==> RootPrintable(t)
  {
    var mem := PrintRoot(ss) + tail;
    if RootPrintable(t) {
      assert Holds(mem, 0, PrintRoot(ss));
      ParseRootOfPrint(t, ss, mem, 0);
    } else if ParseRoot(mem, 0).Got? {
      ParsedRootPrintable(mem, 0);
    }
  }

  // ---------------------------------------------------------------- namespace keys

  // The server's key for a namespace: "root", or the path without its leading slash.
  function ExportKey(nsp: GoString): GoString {
    if nsp == Ascii("/") then Ascii("root")
    else if |nsp| >= 1 && nsp[..1] == Ascii("/") then nsp[1..]
    else nsp
  }

  // The client's key for the same namespace.
  function SchemaKey(nsp: GoString): GoString {
    if nsp == Ascii("/") then Ascii("root")
    else if |nsp| > 0 && nsp[0] == 0x2F then nsp[1..]
    else nsp
  }

  lemma KeysAgree(nsp: GoString)
    ensures SchemaKey(nsp) == ExportKey(nsp)
  {
    if |nsp| >= 1 {
      assert nsp[..1] == [nsp[0]];
      assert Ascii("/") == [0x2F];
    }
  }

  // The root's key is "root"; any other namespace's is its name without the leading slash it may have.
  lemma KeyOf(name: GoString)
    ensures ExportKey(Ascii("/")) == Ascii("root")
    ensures name != [] ==> ExportKey(Ascii("/") + name) == name
    ensures name == [] || name[0] != 0x2F ==> ExportKey(name) == name
  {
    assert Ascii("/") == [0x2F];
    if name != [] {
      var slashed := Ascii("/") + name;
      assert slashed[..1] == Ascii("/") && slashed[1..] == name;
      assert name[..1] == [name[0]];
    }
  }

  // Two namespaces share a key exactly when they differ by a leading slash alone, or one is the
  // root and the other is called "root".
  lemma KeyCollisions(a: GoString, b: GoString)
    requires a != b
    ensures ExportKey(a) == ExportKey(b) <==>
            || (a != Ascii("/") && b != Ascii("/") && (a == Ascii("/") + b || b == Ascii("/") + a) && !(b != [] && b[0] == 0x2F && a != [] && a[0] == 0x2F))
            || (a == Ascii("/") && (b == Ascii("root") || b == Ascii("/root")))
            || (b == Ascii("/") && (a == Ascii("root") || a == Ascii("/root")))
  {
    assert Ascii("/") == [0x2F];
    KeysAgree(a);
    KeysAgree(b);
    Stripped(a);
    Stripped(b);
    assert Ascii("/root") == [0x2F] + Ascii("root");
    assert Ascii("root")[0] == 0x72;
  }

  lemma Stripped(a: GoString)
    ensures a != [] && a[0] == 0x2F ==> a == [0x2F] + a[1..]
    ensures ([0x2F] + a)[1..] == a
  {}

  // Exporting every namespace, in the order in which the server's map was enumerated.
  ghost function ExportAll(tables: map<GoString, Table>, order: seq<GoString>): Root {
    if order == [] then map[] else
      var last := order[|order| - 1];
      var rest := ExportAll(tables, order[..|order| - 1]);
      if last in tables then rest[ExportKey(last) := tables[last]] else rest
  }

  // Namespaces that share a key share their table.
  ghost predicate KeysDetermineTables(tables: map<GoString, Table>) {
    forall a, b :: a in tables && b in tables && ExportKey(a) == ExportKey(b) ==> tables[a] == tables[b]
  }

  lemma {:induction false} ExportedUnderKey(tables: map<GoString, Table>, order: seq<GoString>)
    requires KeysDetermineTables(tables)
    ensures forall n <- order :: n in tables ==>
              ExportKey(n) in ExportAll(tables, order) && ExportAll(tables, order)[ExportKey(n)] == tables[n]
  {
    if order != [] {
      var init, last := order[..|order| - 1], order[|order| - 1];
      ExportedUnderKey(tables, init);
      assert forall n <- order :: n in init || n == last;
    }
  }

  // The namespace n finds its own table under its key.
  ghost predicate Faithful(tables: map<GoString, Table>, exported: Root) {
    forall n <- tables :: ExportKey(n) in exported && exported[ExportKey(n)] == tables[n]
  }

  ghost predicate AlwaysFaithful(tables: map<GoString, Table>) {
    forall order :: Enumerates(order, tables.Keys) ==> Faithful(tables, ExportAll(tables, order))
  }

  // It fails for two namespaces that differ by the leading slash and have different tables.
  lemma SlashClash(a: GoString, t: Table, u: Table)
    requires a != [] && a[0] != 0x2F && t != u
    ensures !AlwaysFaithful(map[Ascii("/") + a := t, a := u])
  {
    var tables := map[Ascii("/") + a := t, a := u];
    var slashed := Ascii("/") + a;
    assert slashed[0] == 0x2F && a != slashed && slashed != Ascii("/");
    KeyCollisions(slashed, a);
    assert tables[slashed] == t && tables[a] == u;
    ExportFaithful(tables);
  }

  // Every namespace's table is exported under its own key, in every enumeration, if and only if
  // namespaces that share a key share their table.
  lemma ExportFaithful(tables: map<GoString, Table>)
    ensures AlwaysFaithful(tables) <==> KeysDetermineTables(tables)
  {
    if KeysDetermineTables(tables) {
      forall order | Enumerates(order, tables.Keys)
        ensures Faithful(tables, ExportAll(tables, order))
      {
        ExportedUnderKey(tables, order);
        EnumerationMembers(order, tables.Keys);
      }
    }
    if AlwaysFaithful(tables) {
      var order := SomeEnumeration(tables.Keys);
      var exported := ExportAll(tables, order);
      assert Faithful(tables, exported);
      assert forall a <- tables :: exported[ExportKey(a)] == tables[a];
    }
  }
}
