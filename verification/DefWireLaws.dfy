// Laws of the definition printer and parser: round trip, locality, canonical re-printing.
module DefWireLaws {
  import opened Bytes
  import opened SchemaTypes
  import opened DefWire

  // ---------------------------------------------------------------- tag names

  lemma NamesDistinct(i: nat, j: nat)
    requires i < j < 11
    ensures TagName(NamedTag(i)) != TagName(NamedTag(j))
  {
    SketchOf(i);
    SketchOf(j);
  }

  // Length, first and fifth byte tell the eleven names apart.
  function Sketch(k: nat): (nat, nat, nat)
    requires k < 11
  {
    if k == 0 then (5, 0x75, 0x38) else if k == 1 then (6, 0x75, 0x31) else if k == 2 then (6, 0x75, 0x33)
    else if k == 3 then (5, 0x69, 0x32) else if k == 4 then (7, 0x66, 0x74) else if k == 5 then (7, 0x62, 0x65)
    else if k == 6 then (6, 0x73, 0x6E) else if k == 7 then (5, 0x62, 0x73) else if k == 8 then (6, 0x6F, 0x63)
    else if k == 9 then (5, 0x61, 0x79) else (3, 0x61, 0)
  }

  lemma SketchOf(k: nat)
    requires k < 11
    ensures var name := TagName(NamedTag(k));
            Sketch(k) == (|name|, name[0] as nat, if |name| > 4 then name[4] as nat else 0)
  {}

  lemma {:induction false} FindTagHit(n: nat, k: nat)
    requires k < n <= 11
    ensures FindTag(TagName(NamedTag(k)), n) == NamedTag(k)
  {
    if k < n - 1 {
      NamesDistinct(k, n - 1);
      FindTagHit(n - 1, k);
    }
  }

  // A named tag is found again under its own name.
  lemma TagOfName(tag: Tag)
    requires !tag.UnknownTag?
    ensures TagOf(TagName(tag)) == tag
  {
    FindTagHit(11, TagIndex(tag));
  }

  // These are the eleven names.
  lemma NamedTags()
    ensures TagOf(Ascii("uint8")) == Uint8Tag && TagOf(Ascii("uint16")) == Uint16Tag && TagOf(Ascii("uint32")) == Uint32Tag
    ensures TagOf(Ascii("int32")) == Int32Tag && TagOf(Ascii("float64")) == Float64Tag && TagOf(Ascii("boolean")) == BooleanTag
    ensures TagOf(Ascii("string")) == StringTag && TagOf(Ascii("bytes")) == BytesTag
    ensures TagOf(Ascii("object")) == ObjectTag && TagOf(Ascii("array")) == ArrayTag && TagOf(Ascii("any")) == AnyTag
  {
    TagOfName(Uint8Tag);
    TagOfName(Uint16Tag);
    TagOfName(Uint32Tag);
    TagOfName(Int32Tag);
    TagOfName(Float64Tag);
    TagOfName(BooleanTag);
    TagOfName(StringTag);
    TagOfName(BytesTag);
    TagOfName(ObjectTag);
    TagOfName(ArrayTag);
    TagOfName(AnyTag);
    hide TagOf, Ascii;
  }

  // The bytes in front of a string of n bytes, a list of one and a map of n entries.
  lemma HeadBytes(n: nat)
    ensures Head(STR, n) == if n < 32 then [0xA0 + n] else if n < 0x100 then [0xD9, n]
                            else if n < 0x1_0000 then [0xDA] + BE(n, 2) else [0xDB] + BE(n, 4)
    ensures Head(MAP, n) == if n < 16 then [0x80 + n] else if n < 0x1_0000 then [0xDE] + BE(n, 2) else [0xDF] + BE(n, 4)
    ensures Head(ARRAY, 1) == [0x91]
  {
    if n < 0x100 { assert BE(n, 1) == [n]; }
  }

  // What a definition may begin with: a string header, of text or of bytes; a list header, which must
  // announce one element; or a map header. Anything else is refused.
  lemma StartsExactly(mem: seq<byte>, pos: nat)
    requires ParseDef(mem, pos).Got?
    ensures pos < |mem|
    ensures var c, d := mem[pos], ParseDef(mem, pos).value;
            && (d.Prim? <==> 0xA0 <= c < 0xC0 || 0xD9 <= c <= 0xDB || 0xC4 <= c <= 0xC6)
            && (d.Arr? <==> 0x90 <= c < 0xA0 || 0xDC <= c <= 0xDD)
            && (d.Obj? <==> 0x80 <= c < 0x90 || 0xDE <= c <= 0xDF)
            && (d.Arr? ==> ReadHead(ARRAY, mem, pos).Got? && ReadHead(ARRAY, mem, pos).value == 1)
            && d != Invalid
  {}

  function TagIndex(tag: Tag): (k: nat)
    requires !tag.UnknownTag?
    ensures k < 11 && NamedTag(k) == tag
  {
    match tag
    case Uint8Tag => 0
    case Uint16Tag => 1
    case Uint32Tag => 2
    case Int32Tag => 3
    case Float64Tag => 4
    case BooleanTag => 5
    case StringTag => 6
    case BytesTag => 7
    case ObjectTag => 8
    case ArrayTag => 9
    case AnyTag => 10
  }

  lemma {:induction false} NameOfFound(name: GoString, n: nat)
    requires n <= 11
    ensures TagName(FindTag(name, n)) == name
  {
    if n > 0 { NameOfFound(name, n - 1); }
  }

  // Reading a name and writing the tag gives the name back, so tags and strings correspond.
  lemma NameOfTag(name: GoString)
    ensures TagName(TagOf(name)) == name
  {
    NameOfFound(name, 11);
  }

  // ---------------------------------------------------------------- reading back what was printed

  lemma ReadNOfBE(mem: seq<byte>, pos: nat, n: nat, width: nat)
    requires Holds(mem, pos, BE(n, width)) && n < Pow256(width)
    ensures ReadN(mem, pos, width) == Got(n, pos + width)
  {
    FromBEofBE(n, width);
    HoldsSlice(mem, pos, BE(n, width));
  }

  predicate Known(f: Family) {
    f == STR || f == ARRAY || f == MAP
  }

  // Every length below 2^32 is read back across all header sizes.
  lemma ReadHeadOfHead(f: Family, mem: seq<byte>, pos: nat, n: nat)
    requires Known(f) && n < TWO_32 && Holds(mem, pos, Head(f, n))
    ensures ReadHead(f, mem, pos) == Got(n, pos + |Head(f, n)|)
    ensures pos < |mem| && Codes(f, mem[pos])
  {
    Widths();
    var h := Head(f, n);
    assert mem[pos + 0] == h[0];
    if n >= f.span {
      var width := |h| - 1;
      assert h == [h[0]] + BE(n, width);
      HoldsSplit(mem, pos, [h[0]], BE(n, width));
      ReadNOfBE(mem, pos + 1, n, width);
    }
  }

  // The families occupy disjoint codes, so the first byte settles what follows.
  lemma CodesDisjoint(c: byte)
    ensures Codes(STR, c) ==> !Codes(BIN, c) && !Codes(ARRAY, c) && !Codes(MAP, c)
    ensures Codes(BIN, c) ==> !Codes(ARRAY, c) && !Codes(MAP, c)
    ensures Codes(ARRAY, c) ==> !Codes(MAP, c)
  {}

  lemma ReadStrOfPrint(s: GoString, mem: seq<byte>, pos: nat)
    requires |s| < TWO_32 && Holds(mem, pos, PrintStr(s))
    ensures ReadStr(mem, pos) == Got(s, pos + |PrintStr(s)|)
    ensures pos < |mem| && Codes(STR, mem[pos])
  {
    HoldsSplit(mem, pos, Head(STR, |s|), s);
    HoldsSlice(mem, pos + |Head(STR, |s|)|, s);
    ReadHeadOfHead(STR, mem, pos, |s|);
    CodesDisjoint(mem[pos]);
  }

  // Wherever a printed definition lies in memory, parsing from its first byte gives the same tree,
  // fields in declaration order and duplicates kept, and stops right after its last byte.
  lemma {:induction false} ParseOfPrint(def: SchemaDef, mem: seq<byte>, pos: nat)
    requires Printable(def) && Holds(mem, pos, Print(def))
    ensures ParseDef(mem, pos) == Got(def, pos + |Print(def)|)
    decreases def, 0
  {
    match def
    case Prim(tag) =>
      ReadStrOfPrint(TagName(tag), mem, pos);
    case Arr(e) =>
      var mid: nat := pos + |Head(ARRAY, 1)|;
      HoldsSplit(mem, pos, Head(ARRAY, 1), Print(e));
      ReadHeadOfHead(ARRAY, mem, pos, 1);
      ParseOfPrint(e, mem, mid);
      ParseArr(mem, pos, mid, e, mid + |Print(e)|);
    case Obj(fs) =>
      var mid: nat := pos + |Head(MAP, |fs|)|;
      HoldsSplit(mem, pos, Head(MAP, |fs|), PrintFields(fs));
      ReadHeadOfHead(MAP, mem, pos, |fs|);
      ParseFieldsOfPrint(fs, mem, mid);
      ParseObj(mem, pos, mid, fs, mid + |PrintFields(fs)|);
  }

  lemma ParseArr(mem: seq<byte>, pos: nat, mid: nat, e: SchemaDef, end: nat)
    requires pos < |mem| && Codes(ARRAY, mem[pos])
    requires ReadHead(ARRAY, mem, pos) == Got(1, mid) && ParseDef(mem, mid) == Got(e, end)
    ensures ParseDef(mem, pos) == Got(Arr(e), end)
  {
    CodesDisjoint(mem[pos]);
  }

  lemma ParseObj(mem: seq<byte>, pos: nat, mid: nat, fs: seq<FieldDef>, end: nat)
    requires pos < |mem| && Codes(MAP, mem[pos])
    requires ReadHead(MAP, mem, pos) == Got(|fs|, mid) && ParseFields(mem, mid, |fs|) == Got(fs, end)
    ensures ParseDef(mem, pos) == Got(Obj(fs), end)
  {
    CodesDisjoint(mem[pos]);
  }

  ghost predicate FieldsPrintable(fs: seq<FieldDef>) {
    forall f <- fs :: |f.key| < TWO_32 && Printable(f.typ)
  }

  lemma FieldsPrintSplit(fs: seq<FieldDef>, mem: seq<byte>, pos: nat)
    requires fs != [] && FieldsPrintable(fs) && Holds(mem, pos, PrintFields(fs))
    ensures var init, last := fs[..|fs| - 1], fs[|fs| - 1];
            && FieldsPrintable(init) && |last.key| < TWO_32 && Printable(last.typ)
            && Holds(mem, pos, PrintFields(init)) && Holds(mem, pos + |PrintFields(init)|, PrintField(last))
            && |PrintFields(fs)| == |PrintFields(init)| + |PrintField(last)|
            && pos + |PrintFields(fs)| <= |mem|
  {
    HoldsSplit(mem, pos, PrintFields(fs[..|fs| - 1]), PrintField(fs[|fs| - 1]));
  }

  lemma {:induction false} ParseFieldsOfPrint(fs: seq<FieldDef>, mem: seq<byte>, pos: nat)
    requires FieldsPrintable(fs) && Holds(mem, pos, PrintFields(fs))
    ensures ParseFields(mem, pos, |fs|) == Got(fs, pos + |PrintFields(fs)|)
    decreases fs, 0
  {
    hide *;
    if fs == [] {
      ParseNoFields(mem, pos);
    } else {
      var init, last := fs[..|fs| - 1], fs[|fs| - 1];
      var mid: nat := pos + |PrintFields(init)|;
      FieldsPrintSplit(fs, mem, pos);
      ParseFieldsOfPrint(init, mem, pos);
      ParseFieldOfPrint(last, mem, mid);
      ParseFieldsStep(mem, pos, fs, mid, mid + |PrintField(last)|);
    }
  }

  lemma {:induction false} ParseFieldOfPrint(f: FieldDef, mem: seq<byte>, pos: nat)
    requires |f.key| < TWO_32 && Printable(f.typ) && Holds(mem, pos, PrintField(f))
    ensures ParseField(mem, pos) == Got(f, pos + |PrintField(f)|)
    decreases f, 0
  {
    hide Holds, ReadStr, ParseDef, ParseField, Print, PrintStr, Printable;
    HoldsSplit(mem, pos, PrintStr(f.key), Print(f.typ));
    ReadStrOfPrint(f.key, mem, pos);
    var mid: nat := pos + |PrintStr(f.key)|;
    ParseOfPrint(f.typ, mem, mid);
    ParseFieldStep(mem, pos, f.key, mid, f.typ, mid + |Print(f.typ)|);
  }

  lemma ParseFieldStep(mem: seq<byte>, pos: nat, key: GoString, mid: nat, typ: SchemaDef, end: nat)
    requires pos <= |mem| && ReadStr(mem, pos) == Got(key, mid) && ParseDef(mem, mid) == Got(typ, end)
    ensures ParseField(mem, pos) == Got(FieldDef(key, typ), end)
  {}

  lemma ParseNoFields(mem: seq<byte>, pos: nat)
    requires Holds(mem, pos, PrintFields([]))
    ensures pos <= |mem| && ParseFields(mem, pos, 0) == Got([], pos) && PrintFields([]) == []
  {}

  lemma ParseFieldsStep(mem: seq<byte>, pos: nat, fs: seq<FieldDef>, mid: nat, end: nat)
    requires fs != [] && pos <= |mem| && mid <= |mem|
    requires ParseFields(mem, pos, |fs| - 1) == Got(fs[..|fs| - 1], mid) && ParseField(mem, mid) == Got(fs[|fs| - 1], end)
    ensures ParseFields(mem, pos, |fs|) == Got(fs, end)
  {
    assert fs == fs[..|fs| - 1] + [fs[|fs| - 1]];
  }

  // ---------------------------------------------------------------- arbitrary input

  lemma ReadNLocal(mem: seq<byte>, mem': seq<byte>, k: nat, pos: nat, width: nat)
    requires Same(mem, mem', k) && pos + width <= k
    ensures ReadN(mem', pos, width) == ReadN(mem, pos, width)
  {
    SameWindow(mem, mem', k, pos, pos + width);
  }

  // The two inputs share their first k bytes.
  ghost predicate Same(mem: seq<byte>, mem': seq<byte>, k: nat) {
    k <= |mem| && k <= |mem'| && mem[..k] == mem'[..k]
  }

  lemma SameAt(mem: seq<byte>, mem': seq<byte>, k: nat, i: nat)
    requires Same(mem, mem', k) && i < k
    ensures mem[i] == mem'[i]
  {
    assert mem[i] == mem[..k][i] == mem'[..k][i];
  }

  lemma ReadHeadLocal(f: Family, mem: seq<byte>, mem': seq<byte>, k: nat, pos: nat)
    requires Same(mem, mem', k) && ReadHead(f, mem, pos).Got? && ReadHead(f, mem, pos).next <= k
    ensures ReadHead(f, mem', pos) == ReadHead(f, mem, pos)
  {
    SameAt(mem, mem', k, pos);
    ReadNLocal(mem, mem', k, pos + 1, ReadHead(f, mem, pos).next - (pos + 1));
  }

  lemma ReadStrLocal(mem: seq<byte>, mem': seq<byte>, k: nat, pos: nat)
    requires Same(mem, mem', k) && ReadStr(mem, pos).Got? && ReadStr(mem, pos).next <= k
    ensures ReadStr(mem', pos) == ReadStr(mem, pos)
  {
    SameAt(mem, mem', k, pos);
    var f := if Codes(BIN, mem[pos]) then BIN else STR;
    ReadHeadLocal(f, mem, mem', k, pos);
    SameWindow(mem, mem', k, ReadHead(f, mem, pos).next, ReadStr(mem, pos).next);
  }

  // A successful parse depends on the bytes it consumed and on nothing after them.
  lemma {:induction false} ParseLocal(mem: seq<byte>, mem': seq<byte>, k: nat, pos: nat)
    requires ParseDef(mem, pos).Got? && ParseDef(mem, pos).next <= k && Same(mem, mem', k)
    ensures ParseDef(mem', pos) == ParseDef(mem, pos)
    decreases |mem| - pos, 0
  {
    SameAt(mem, mem', k, pos);
    if IsStr(mem, pos) {
      ReadStrLocal(mem, mem', k, pos);
    } else if Codes(ARRAY, mem[pos]) {
      var head := ReadHead(ARRAY, mem, pos);
      ReadHeadLocal(ARRAY, mem, mem', k, pos);
      ParseLocal(mem, mem', k, head.next);
    } else {
      var head := ReadHead(MAP, mem, pos);
      ReadHeadLocal(MAP, mem, mem', k, pos);
      ParseFieldsLocal(mem, mem', k, head.next, head.value);
    }
  }

  lemma {:induction false} ParseFieldsLocal(mem: seq<byte>, mem': seq<byte>, k: nat, pos: nat, n: nat)
    requires pos <= |mem| && pos <= k && ParseFields(mem, pos, n).Got? && ParseFields(mem, pos, n).next <= k
    requires Same(mem, mem', k)
    ensures ParseFields(mem', pos, n) == ParseFields(mem, pos, n)
    decreases |mem| - pos, n + 1
  {
    if n > 0 {
      var head := ParseFields(mem, pos, n - 1);
      var key := ReadStr(mem, head.next);
      ParseFieldsLocal(mem, mem', k, pos, n - 1);
      ReadStrLocal(mem, mem', k, head.next);
      ParseLocal(mem, mem', k, key.next);
    }
  }

  // ---------------------------------------------------------------- re-printing

  lemma ReadNBound(mem: seq<byte>, pos: nat, width: nat)
    requires ReadN(mem, pos, width).Got?
    ensures ReadN(mem, pos, width).value < Pow256(width)
  {
    BEofFromBE(mem[pos..pos + width]);
  }

  // No header of the family is shorter than the one the printer would have chosen.
  lemma HeadSmallest(f: Family, mem: seq<byte>, pos: nat)
    requires (Known(f) || f == BIN) && ReadHead(f, mem, pos).Got?
    ensures var r := ReadHead(f, mem, pos);
            r.value < TWO_32 && |Head(if f == BIN then STR else f, r.value)| <= r.next - pos
  {
    Widths();
    if !(f.fix <= mem[pos] < f.fix + f.span) {
      ReadNBound(mem, pos + 1, ReadHead(f, mem, pos).next - (pos + 1));
    }
  }

  lemma StrSmallest(mem: seq<byte>, pos: nat)
    requires ReadStr(mem, pos).Got?
    ensures var r := ReadStr(mem, pos); |r.value| < TWO_32 && |PrintStr(r.value)| <= r.next - pos
  {
    HeadSmallest(if Codes(BIN, mem[pos]) then BIN else STR, mem, pos);
  }

  // Whatever parses is printable, and its printed form is never longer than what was consumed.
  lemma {:induction false} Reprint(mem: seq<byte>, pos: nat)
    requires ParseDef(mem, pos).Got?
    ensures var r := ParseDef(mem, pos); Printable(r.value) && pos + |Print(r.value)| <= r.next
    decreases |mem| - pos, 0
  {
    if IsStr(mem, pos) {
      StrSmallest(mem, pos);
      NameOfTag(ReadStr(mem, pos).value);
    } else if Codes(ARRAY, mem[pos]) {
      HeadSmallest(ARRAY, mem, pos);
      Reprint(mem, ReadHead(ARRAY, mem, pos).next);
    } else {
      var head := ReadHead(MAP, mem, pos);
      HeadSmallest(MAP, mem, pos);
      ReprintFields(mem, head.next, head.value);
    }
  }

  lemma {:induction false} ReprintFields(mem: seq<byte>, pos: nat, n: nat)
    requires pos <= |mem| && ParseFields(mem, pos, n).Got?
    ensures var r := ParseFields(mem, pos, n); FieldsPrintable(r.value) && pos + |PrintFields(r.value)| <= r.next
    decreases |mem| - pos, n + 1
  {
    if n > 0 {
      var head := ParseFields(mem, pos, n - 1);
      var key := ReadStr(mem, head.next);
      ReprintFields(mem, pos, n - 1);
      StrSmallest(mem, head.next);
      Reprint(mem, key.next);
      var fs := ParseFields(mem, pos, n).value;
      assert fs[..|fs| - 1] == head.value;
    }
  }

  // ---------------------------------------------------------------- as the two ends use them

  // Printing and parsing are inverse, with any bytes behind the definition, exactly for the
  // printable definitions.
  lemma DefRoundTrip(def: SchemaDef, tail: seq<byte>)
    ensures ParseDef(Print(def) + tail, 0) == Got(def, |Print(def)|) <==> Printable(def)
  {
    var mem := Print(def) + tail;
    if Printable(def) {
      assert Holds(mem, 0, Print(def));
      ParseOfPrint(def, mem, 0);
    } else if ParseDef(mem, 0) == Got(def, |Print(def)|) {
      Reprint(mem, 0);
    }
  }

  // Any input that parses can be replaced by its canonical printing, whatever follows either.
  lemma DefNormalise(mem: seq<byte>, tail: seq<byte>)
    requires ParseDef(mem, 0).Got?
    ensures var r := ParseDef(mem, 0);
            && ParseDef(mem[..r.next] + tail, 0) == r
            && ParseDef(Print(r.value) + tail, 0) == Got(r.value, |Print(r.value)|)
            && |Print(r.value)| <= r.next
  {
    var r := ParseDef(mem, 0);
    var cut := mem[..r.next] + tail;
    assert cut[..r.next] == mem[..r.next];
    ParseLocal(mem, cut, r.next, 0);
    Reprint(mem, 0);
    DefRoundTrip(r.value, tail);
  }
}
