// The wire format of schema definitions as a grammar, and the parser proved to accept exactly it
// (protocol/schema_wire.go; the header sizes are those of the MessagePack specification).
module DefGrammar {
  import opened Bytes
  import opened SchemaTypes
  import opened DefWire
  import opened DefWireLaws
  import opened SchemaTables

  // ---------------------------------------------------------------- the grammar

  // The number n in `width` big-endian bytes from pos to end.
  ghost predicate NumberAt(mem: seq<byte>, pos: nat, width: nat, n: nat, end: nat) {
    end == pos + width && n < Pow256(width) && Holds(mem, pos, BE(n, width))
  }

  // A header announcing n, in any of the sizes of its family, minimal or not.
  ghost predicate HeadAt(f: Family, mem: seq<byte>, pos: nat, n: nat, end: nat) {
    pos < |mem| &&
      (|| (n < f.span && mem[pos] == f.fix + n && end == pos + 1)
       || (f.one == Some(mem[pos]) && NumberAt(mem, pos + 1, 1, n, end))
       || (mem[pos] == f.two && NumberAt(mem, pos + 1, 2, n, end))
       || (mem[pos] == f.four && NumberAt(mem, pos + 1, 4, n, end)))
  }

  // A string, in the text or in the binary family.
  ghost predicate StrAt(mem: seq<byte>, pos: nat, s: GoString, end: nat) {
    exists mid: nat ::
      (HeadAt(STR, mem, pos, |s|, mid) || HeadAt(BIN, mem, pos, |s|, mid)) && Holds(mem, mid, s) && end == mid + |s|
  }

  // A definition: a type name; a list of one definition; or a map from keys to definitions, in order.
  ghost predicate DefAt(mem: seq<byte>, pos: nat, def: SchemaDef, end: nat)
    decreases def, 0
  {
    match def
    case Prim(tag) => StrAt(mem, pos, TagName(tag), end) && TagOf(TagName(tag)) == tag
    case Arr(e) => exists mid: nat :: HeadAt(ARRAY, mem, pos, 1, mid) && DefAt(mem, mid, e, end)
    case Obj(fs) => exists mid: nat :: HeadAt(MAP, mem, pos, |fs|, mid) && FieldsAt(mem, mid, fs, end)
    case Invalid => false
  }

  ghost predicate FieldsAt(mem: seq<byte>, pos: nat, fs: seq<FieldDef>, end: nat)
    decreases fs, 0
  {
    if fs == [] then end == pos else
      var init, last := fs[..|fs| - 1], fs[|fs| - 1];
      exists mid: nat :: FieldsAt(mem, pos, init, mid) && FieldAt(mem, mid, last, end)
  }

  ghost predicate FieldAt(mem: seq<byte>, pos: nat, f: FieldDef, end: nat)
    decreases f, 0
  {
    exists mid: nat :: StrAt(mem, pos, f.key, mid) && DefAt(mem, mid, f.typ, end)
  }

  // ---------------------------------------------------------------- headers and strings

  lemma NumberExactly(mem: seq<byte>, pos: nat, width: nat, n: nat, end: nat)
    ensures ReadN(mem, pos, width) == Got(n, end) <==> NumberAt(mem, pos, width, n, end)
  {
    if pos + width <= |mem| {
      BEofFromBE(mem[pos..pos + width]);
      HoldsSlice(mem, pos, BE(n, width));
      if n < Pow256(width) { FromBEofBE(n, width); }
    }
  }

  predicate Wire(f: Family) {
    f == STR || f == BIN || f == ARRAY || f == MAP
  }

  lemma HeadExactly(f: Family, mem: seq<byte>, pos: nat, n: nat, end: nat)
    requires Wire(f)
    ensures ReadHead(f, mem, pos) == Got(n, end) <==> HeadAt(f, mem, pos, n, end)
    ensures HeadAt(f, mem, pos, n, end) ==> pos < |mem| && Codes(f, mem[pos]) && pos < end <= |mem|
  {
    NumberExactly(mem, pos + 1, 1, n, end);
    NumberExactly(mem, pos + 1, 2, n, end);
    NumberExactly(mem, pos + 1, 4, n, end);
  }

  lemma StrExactly(mem: seq<byte>, pos: nat, s: GoString, end: nat)
    ensures ReadStr(mem, pos) == Got(s, end) <==> StrAt(mem, pos, s, end)
    ensures StrAt(mem, pos, s, end) ==> IsStr(mem, pos) && pos < end <= |mem|
  {
    if ReadStr(mem, pos) == Got(s, end) {
      var mid: nat := end - |s|;
      HeadExactly(STR, mem, pos, |s|, mid);
      HeadExactly(BIN, mem, pos, |s|, mid);
      HoldsSlice(mem, mid, s);
    }
    if mid: nat :| (HeadAt(STR, mem, pos, |s|, mid) || HeadAt(BIN, mem, pos, |s|, mid)) && Holds(mem, mid, s) && end == mid + |s| {
      HeadExactly(STR, mem, pos, |s|, mid);
      HeadExactly(BIN, mem, pos, |s|, mid);
      HoldsSlice(mem, mid, s);
      CodesDisjoint(mem[pos]);
    }
  }

  // ---------------------------------------------------------------- what is spelled is parsed

  lemma {:induction false} DefSpelled(mem: seq<byte>, pos: nat, def: SchemaDef, end: nat)
    requires DefAt(mem, pos, def, end)
    ensures ParseDef(mem, pos) == Got(def, end)
    decreases def, 0
  {
    match def
    case Prim(tag) => StrExactly(mem, pos, TagName(tag), end);
    case Arr(e) =>
      var mid: nat :| HeadAt(ARRAY, mem, pos, 1, mid) && DefAt(mem, mid, e, end);
      HeadExactly(ARRAY, mem, pos, 1, mid);
      DefSpelled(mem, mid, e, end);
      ParseArr(mem, pos, mid, e, end);
    case Obj(fs) =>
      var mid: nat :| HeadAt(MAP, mem, pos, |fs|, mid) && FieldsAt(mem, mid, fs, end);
      HeadExactly(MAP, mem, pos, |fs|, mid);
      FieldsSpelled(mem, mid, fs, end);
      ParseObj(mem, pos, mid, fs, end);
  }

  lemma {:induction false} FieldsSpelled(mem: seq<byte>, pos: nat, fs: seq<FieldDef>, end: nat)
    requires pos <= |mem| && FieldsAt(mem, pos, fs, end)
    ensures ParseFields(mem, pos, |fs|) == Got(fs, end) && end <= |mem|
    decreases fs, 0
  {
    if fs != [] {
      var mid: nat :| FieldsAt(mem, pos, fs[..|fs| - 1], mid) && FieldAt(mem, mid, fs[|fs| - 1], end);
      FieldsSpelled(mem, pos, fs[..|fs| - 1], mid);
      FieldSpelled(mem, mid, fs[|fs| - 1], end);
      hide *;
      ParseFieldsStep(mem, pos, fs, mid, end);
    }
  }

  lemma {:induction false} FieldSpelled(mem: seq<byte>, pos: nat, f: FieldDef, end: nat)
    requires pos <= |mem| && FieldAt(mem, pos, f, end)
    ensures ParseField(mem, pos) == Got(f, end) && end <= |mem|
    decreases f, 0
  {
    var mid: nat :| StrAt(mem, pos, f.key, mid) && DefAt(mem, mid, f.typ, end);
    StrExactly(mem, pos, f.key, mid);
    DefSpelled(mem, mid, f.typ, end);
    ParseFieldStep(mem, pos, f.key, mid, f.typ, end);
  }

  // ---------------------------------------------------------------- what is parsed is spelled

  lemma {:induction false} DefParsed(mem: seq<byte>, pos: nat)
    requires ParseDef(mem, pos).Got?
    ensures DefAt(mem, pos, ParseDef(mem, pos).value, ParseDef(mem, pos).next)
    decreases |mem| - pos, 0
  {
    CodesDisjoint(mem[pos]);
    if IsStr(mem, pos) {
      var r := ReadStr(mem, pos);
      StrExactly(mem, pos, r.value, r.next);
      NameOfTag(r.value);
    } else if Codes(ARRAY, mem[pos]) {
      var head := ReadHead(ARRAY, mem, pos);
      HeadExactly(ARRAY, mem, pos, head.value, head.next);
      DefParsed(mem, head.next);
    } else {
      var head := ReadHead(MAP, mem, pos);
      HeadExactly(MAP, mem, pos, head.value, head.next);
      FieldsParsed(mem, head.next, head.value);
    }
  }

  lemma {:induction false} FieldsParsed(mem: seq<byte>, pos: nat, n: nat)
    requires pos <= |mem| && ParseFields(mem, pos, n).Got?
    ensures FieldsAt(mem, pos, ParseFields(mem, pos, n).value, ParseFields(mem, pos, n).next)
    decreases |mem| - pos, n + 1
  {
    if n > 0 {
      var head := ParseFields(mem, pos, n - 1);
      FieldsParsed(mem, pos, n - 1);
      FieldParsed(mem, head.next);
      var last := ParseField(mem, head.next);
      assert ParseFields(mem, pos, n) == Got(head.value + [last.value], last.next);
      hide *;
      FieldsGrow(mem, pos, head.value, head.next, last.value, last.next);
    }
  }

  lemma FieldsGrow(mem: seq<byte>, pos: nat, init: seq<FieldDef>, mid: nat, last: FieldDef, end: nat)
    requires FieldsAt(mem, pos, init, mid) && FieldAt(mem, mid, last, end)
    ensures FieldsAt(mem, pos, init + [last], end)
  {
    assert (init + [last])[..|init + [last]| - 1] == init;
  }

  lemma {:induction false} FieldParsed(mem: seq<byte>, pos: nat)
    requires pos <= |mem| && ParseField(mem, pos).Got?
    ensures FieldAt(mem, pos, ParseField(mem, pos).value, ParseField(mem, pos).next)
    decreases |mem| - pos, 0
  {
    var key := ReadStr(mem, pos);
    StrExactly(mem, pos, key.value, key.next);
    DefParsed(mem, key.next);
  }

  // The parser accepts exactly what the grammar spells, and reads it as the definition spelled: every
  // header size, text or binary strings, any name, and lists of one.
  lemma ParsesExactly(mem: seq<byte>, pos: nat, def: SchemaDef, end: nat)
    ensures ParseDef(mem, pos) == Got(def, end) <==> DefAt(mem, pos, def, end)
  {
    if ParseDef(mem, pos) == Got(def, end) { DefParsed(mem, pos); }
    if DefAt(mem, pos, def, end) { DefSpelled(mem, pos, def, end); }
  }

  // A table is a map header and as many keys with definitions; repeated keys are the reader's business.
  lemma TableParsesExactly(mem: seq<byte>, pos: nat, t: Table, end: nat)
    ensures ParseTable(mem, pos) == Got(t, end) <==>
              exists mid: nat, fs :: HeadAt(MAP, mem, pos, |fs|, mid) && FieldsAt(mem, mid, fs, end) && TableOf(fs) == t
  {
    if ParseTable(mem, pos) == Got(t, end) {
      var head := ReadHead(MAP, mem, pos);
      var fs := ParseFields(mem, head.next, head.value);
      HeadExactly(MAP, mem, pos, head.value, head.next);
      FieldsParsed(mem, head.next, head.value);
      assert HeadAt(MAP, mem, pos, |fs.value|, head.next) && FieldsAt(mem, head.next, fs.value, end) && TableOf(fs.value) == t;
    }
    if mid: nat, fs :| HeadAt(MAP, mem, pos, |fs|, mid) && FieldsAt(mem, mid, fs, end) && TableOf(fs) == t {
      HeadExactly(MAP, mem, pos, |fs|, mid);
      FieldsSpelled(mem, mid, fs, end);
      hide *;
      ParseTableStep(mem, pos, mid, fs, end);
    }
  }

  // ---------------------------------------------------------------- the table of tables

  // One namespace's key, and its table.
  datatype Row = Row(key: GoString, table: Table)

  ghost predicate RowAt(mem: seq<byte>, pos: nat, row: Row, end: nat) {
    exists mid: nat :: StrAt(mem, pos, row.key, mid) && ParseTable(mem, mid) == Got(row.table, end)
  }

  ghost predicate RowsAt(mem: seq<byte>, pos: nat, rows: seq<Row>, end: nat) {
    if rows == [] then end == pos else
      var init, last := rows[..|rows| - 1], rows[|rows| - 1];
      exists mid: nat :: RowsAt(mem, pos, init, mid) && RowAt(mem, mid, last, end)
  }

  // A key that comes again takes its later table.
  ghost function Filled(rows: seq<Row>): Root {
    if rows == [] then map[] else Filled(rows[..|rows| - 1])[rows[|rows| - 1].key := rows[|rows| - 1].table]
  }

  lemma RowExactly(mem: seq<byte>, pos: nat, row: Row, end: nat)
    ensures ParseSection(mem, pos) == Got((row.key, row.table), end) <==> RowAt(mem, pos, row, end)
  {
    if ParseSection(mem, pos) == Got((row.key, row.table), end) {
      var key := ReadStr(mem, pos);
      StrExactly(mem, pos, row.key, key.next);
    }
    if mid: nat :| StrAt(mem, pos, row.key, mid) && ParseTable(mem, mid) == Got(row.table, end) {
      StrExactly(mem, pos, row.key, mid);
    }
  }

  lemma RowsGrow(mem: seq<byte>, pos: nat, init: seq<Row>, mid: nat, last: Row, end: nat)
    requires RowsAt(mem, pos, init, mid) && RowAt(mem, mid, last, end)
    ensures RowsAt(mem, pos, init + [last], end) && Filled(init + [last]) == Filled(init)[last.key := last.table]
  {
    assert (init + [last])[..|init + [last]| - 1] == init;
  }

  lemma {:induction false} RowsParsed(mem: seq<byte>, pos: nat, n: nat) returns (rows: seq<Row>)
    requires ParseSections(mem, pos, n).Got?
    ensures |rows| == n && RowsAt(mem, pos, rows, ParseSections(mem, pos, n).next) && Filled(rows) == ParseSections(mem, pos, n).value
  {
    if n == 0 {
      rows := [];
    } else {
      var init := RowsParsed(mem, pos, n - 1);
      var head := ParseSections(mem, pos, n - 1);
      var one := ParseSection(mem, head.next);
      var last := Row(one.value.0, one.value.1);
      assert ParseSections(mem, pos, n) == Got(head.value[last.key := last.table], one.next);
      RowExactly(mem, head.next, last, one.next);
      hide *;
      RowsGrow(mem, pos, init, head.next, last, one.next);
      rows := init + [last];
    }
  }

  lemma {:induction false} RowsSpelled(mem: seq<byte>, pos: nat, rows: seq<Row>, end: nat)
    requires RowsAt(mem, pos, rows, end)
    ensures ParseSections(mem, pos, |rows|) == Got(Filled(rows), end)
  {
    if rows != [] {
      var init, last := rows[..|rows| - 1], rows[|rows| - 1];
      var mid: nat :| RowsAt(mem, pos, init, mid) && RowAt(mem, mid, last, end);
      RowsSpelled(mem, pos, init, mid);
      RowExactly(mem, mid, last, end);
      hide RowsAt, RowAt, ParseSection;
    }
  }

  // The table of tables is a map header and as many keys with tables.
  lemma RootParsesExactly(mem: seq<byte>, pos: nat, t: Root, end: nat)
    ensures ParseRoot(mem, pos) == Got(t, end) <==>
              exists mid: nat, rows :: HeadAt(MAP, mem, pos, |rows|, mid) && RowsAt(mem, mid, rows, end) && Filled(rows) == t
  {
    if ParseRoot(mem, pos) == Got(t, end) {
      var head := ReadHead(MAP, mem, pos);
      HeadExactly(MAP, mem, pos, head.value, head.next);
      var rows := RowsParsed(mem, head.next, head.value);
      assert HeadAt(MAP, mem, pos, |rows|, head.next) && RowsAt(mem, head.next, rows, end) && Filled(rows) == t;
    }
    if mid: nat, rows :| HeadAt(MAP, mem, pos, |rows|, mid) && RowsAt(mem, mid, rows, end) && Filled(rows) == t {
      HeadExactly(MAP, mem, pos, |rows|, mid);
      RowsSpelled(mem, mid, rows, end);
      hide *;
      ParseRootStep(mem, pos, |rows|, mid, t, end);
    }
  }
}
