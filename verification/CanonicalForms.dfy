// What coercion leaves behind: canonical values are fixed points, they encode to the bytes of the
// value they came from, and decoded buffers are canonical.
module CanonicalForms {
  import opened Bytes
  import opened SchemaTypes
  import opened Coerce
  import opened Positional
  import opened PositionalLaws

  // The definitions for which a decoded value can stand in for the original: every object names
  // its fields once and nothing is left to generic MessagePack.
  ghost predicate Static(def: SchemaDef) {
    DistinctKeys(def) && NoDynamic(def)
  }

  ghost predicate StaticFields(fs: seq<FieldDef>) {
    && (forall i, j :: 0 <= i < j < |fs| ==> fs[i].key != fs[j].key)
    && forall f <- fs :: Static(f.typ)
  }

  // ---------------------------------------------------------------- reading fields back

  // w answers every field of fs as m does.
  ghost predicate Answers(fs: seq<FieldDef>, w: Val, m: map<GoString, Val>) {
    forall f <- fs :: f.key in m && FieldOf(w, f.key) == m[f.key]
  }

  lemma AnswersInit(fs: seq<FieldDef>, w: Val, m: map<GoString, Val>, x: Val)
    requires fs != [] && StaticFields(fs)
    requires Answers(fs, w, m[fs[|fs| - 1].key := x])
    ensures Answers(fs[..|fs| - 1], w, m) && StaticFields(fs[..|fs| - 1])
    ensures FieldOf(w, fs[|fs| - 1].key) == x && Static(fs[|fs| - 1].typ)
  {
    var init, last := fs[..|fs| - 1], fs[|fs| - 1];
    forall f | f in init
      ensures f.key in m && FieldOf(w, f.key) == m[f.key]
    {
      var i :| 0 <= i < |init| && init[i] == f;
      assert fs[i] == f && fs[i].key != last.key;
      assert f in fs;
    }
  }

  lemma {:induction false} CanonFieldsRead(p: Platform, fs: seq<FieldDef>, v: Val)
    requires StaticFields(fs)
    ensures forall f <- fs :: f.key in CanonFields(p, fs, v)
              && CanonFields(p, fs, v)[f.key] == Canon(p, f.typ, FieldOf(v, f.key))
    decreases fs
  {
    if fs != [] {
      var init, last := fs[..|fs| - 1], fs[|fs| - 1];
      CanonFieldsRead(p, init, v);
      forall f | f in fs
        ensures f.key in CanonFields(p, fs, v) && CanonFields(p, fs, v)[f.key] == Canon(p, f.typ, FieldOf(v, f.key))
      {
        var i :| 0 <= i < |fs| && fs[i] == f;
        if i < |init| { assert init[i] == f && fs[i].key != last.key; }
      }
    }
  }

  // ---------------------------------------------------------------- idempotence

  // An int32 fits the wider integers it is read through.
  lemma WrapInside(i: int)
    ensures Wrap64(Wrap32(i)) == Wrap32(i) && Wrap32(Wrap32(i)) == Wrap32(i)
  {}

  lemma LowFixed(u: nat, width: nat)
    requires width in {1, 2, 4, 8}
    ensures var low := u % Pow256(width);
            low % TWO_64 == low && low % Pow256(width) == low && BE(low, width) == BE(u, width)
  {
    BELow(u, width);
    Widths();
    var low := u % Pow256(width);
    SmallMod(low, TWO_64);
    SmallMod(low, Pow256(width));
  }

  lemma SmallMod(r: nat, q: nat)
    requires r < q
    ensures r % q == r
  {}

  lemma CanonUintFixed(p: Platform, tag: Tag, v: Val)
    requires tag in {Uint8Tag, Uint16Tag, Uint32Tag}
    ensures CanonLeaf(p, tag, CanonLeaf(p, tag, v)) == CanonLeaf(p, tag, v)
    ensures EncLeaf(p, tag, CanonLeaf(p, tag, v)) == EncLeaf(p, tag, v)
  {
    Widths();
    LowFixed(ToUint64(p, v), match tag case Uint8Tag => 1 case Uint16Tag => 2 case _ => 4);
  }

  lemma CanonInt32Fixed(p: Platform, v: Val)
    ensures CanonLeaf(p, Int32Tag, CanonLeaf(p, Int32Tag, v)) == CanonLeaf(p, Int32Tag, v)
    ensures EncLeaf(p, Int32Tag, CanonLeaf(p, Int32Tag, v)) == EncLeaf(p, Int32Tag, v)
  {
    WrapInside(ToInt64(p, v));
  }

  lemma CanonLeafFixed(p: Platform, tag: Tag, v: Val)
    requires !Dynamic(tag)
    ensures CanonLeaf(p, tag, CanonLeaf(p, tag, v)) == CanonLeaf(p, tag, v)
    ensures EncLeaf(p, tag, CanonLeaf(p, tag, v)) == EncLeaf(p, tag, v)
  {
    if tag in {Uint8Tag, Uint16Tag, Uint32Tag} {
      CanonUintFixed(p, tag, v);
    } else if tag == Int32Tag {
      CanonInt32Fixed(p, v);
    } else if tag == Float64Tag {
      Widths();
      LowFixed(ToFloat64(p, v), 8);
    }
  }

  // Coercing twice is coercing once, and a canonical value goes on the wire as the original did.
  lemma {:induction false} CanonFixed(p: Platform, def: SchemaDef, v: Val)
    requires Static(def)
    ensures Canon(p, def, Canon(p, def, v)) == Canon(p, def, v)
    ensures Enc(p, def, Canon(p, def, v)) == Enc(p, def, v)
    decreases def, 0
  {
    match def
    case Prim(tag) => CanonLeafFixed(p, tag, v);
    case Arr(e) => CanonItemsFixed(p, e, ToSlice(v));
    case Obj(fs) =>
      CanonFieldsRead(p, fs, v);
      CanonFieldsFixed(p, fs, v, Canon(p, def, v));
    case Invalid =>
  }

  lemma {:induction false} CanonItemsFixed(p: Platform, e: SchemaDef, xs: seq<Val>)
    requires Static(e)
    ensures CanonItems(p, e, CanonItems(p, e, xs)) == CanonItems(p, e, xs)
    ensures EncItems(p, e, CanonItems(p, e, xs)) == EncItems(p, e, xs)
    decreases e, |xs| + 1
  {
    if xs != [] {
      var init, last := xs[..|xs| - 1], xs[|xs| - 1];
      CanonItemsFixed(p, e, init);
      CanonFixed(p, e, last);
      var ys := CanonItems(p, e, xs);
      assert ys[..|ys| - 1] == CanonItems(p, e, init) && ys[|ys| - 1] == Canon(p, e, last);
    }
  }

  // w answers every field with the canonical form of v's answer.
  ghost predicate CanonAnswers(p: Platform, fs: seq<FieldDef>, v: Val, w: Val) {
    forall f <- fs :: FieldOf(w, f.key) == Canon(p, f.typ, FieldOf(v, f.key))
  }

  lemma CanonAnswersInit(p: Platform, fs: seq<FieldDef>, v: Val, w: Val)
    requires fs != [] && StaticFields(fs) && CanonAnswers(p, fs, v, w)
    ensures StaticFields(fs[..|fs| - 1]) && CanonAnswers(p, fs[..|fs| - 1], v, w)
    ensures var last := fs[|fs| - 1];
            Static(last.typ) && FieldOf(w, last.key) == Canon(p, last.typ, FieldOf(v, last.key))
  {}

  lemma CanonFieldsLast(p: Platform, fs: seq<FieldDef>, v: Val)
    requires fs != []
    ensures var init, last := fs[..|fs| - 1], fs[|fs| - 1];
            && CanonFields(p, fs, v) == CanonFields(p, init, v)[last.key := Canon(p, last.typ, FieldOf(v, last.key))]
            && EncFields(p, fs, v) == EncFields(p, init, v) + Enc(p, last.typ, FieldOf(v, last.key))
  {}

  lemma {:induction false} CanonFieldsFixed(p: Platform, fs: seq<FieldDef>, v: Val, w: Val)
    requires StaticFields(fs) && CanonAnswers(p, fs, v, w)
    ensures CanonFields(p, fs, w) == CanonFields(p, fs, v)
    ensures EncFields(p, fs, w) == EncFields(p, fs, v)
    decreases fs, 0
  {
    if fs != [] {
      hide *;
      CanonAnswersInit(p, fs, v, w);
      CanonFieldsLast(p, fs, v);
      CanonFieldsLast(p, fs, w);
      CanonFieldsFixed(p, fs[..|fs| - 1], v, w);
      CanonFixed(p, fs[|fs| - 1].typ, FieldOf(v, fs[|fs| - 1].key));
    }
  }

  // ---------------------------------------------------------------- decoded values

  lemma FromBELow(mem: seq<byte>, len: nat, off: nat, width: nat)
    requires len <= |mem| && ReadUint(mem, len, off, width).Some?
    ensures var n := ReadUint(mem, len, off, width).value;
            n < Pow256(width) && BE(n, width) == mem[off..off + width]
  {
    BEofFromBE(mem[off..off + width]);
  }

  lemma DecUintCanonical(p: Platform, tag: Tag, mem: seq<byte>, len: nat, off: nat)
    requires tag in {Uint8Tag, Uint16Tag, Uint32Tag} && len <= |mem| && DecLeaf(p, tag, mem, len, off).Done?
    ensures var r := DecLeaf(p, tag, mem, len, off);
            && CanonLeaf(p, tag, r.value) == r.value
            && r.next <= |mem| && EncLeaf(p, tag, r.value) == mem[off..r.next]
  {
    var width := match tag case Uint8Tag => 1 case Uint16Tag => 2 case _ => 4;
    FromBELow(mem, len, off, width);
    Widths();
    SmallFixed(ReadUint(mem, len, off, width).value, width);
  }

  lemma SmallFixed(n: nat, width: nat)
    requires width in {1, 2, 4, 8} && n < Pow256(width)
    ensures n % TWO_64 == n && n % Pow256(width) == n
  {
    Widths();
  }

  lemma DecInt32Canonical(p: Platform, mem: seq<byte>, len: nat, off: nat)
    requires len <= |mem| && DecLeaf(p, Int32Tag, mem, len, off).Done?
    ensures var r := DecLeaf(p, Int32Tag, mem, len, off);
            && CanonLeaf(p, Int32Tag, r.value) == r.value
            && r.next <= |mem| && EncLeaf(p, Int32Tag, r.value) == mem[off..r.next]
  {
    FromBELow(mem, len, off, 4);
    Widths();
    WrapBack(ReadUint(mem, len, off, 4).value);
  }

  lemma WrapBack(n: nat)
    requires n < TWO_32
    ensures Wrap64(Wrap32(n)) == Wrap32(n) && Wrap32(Wrap32(n)) == Wrap32(n) && Wrap32(n) % TWO_32 == n
  {}

  lemma DecLeafCanonical(p: Platform, tag: Tag, mem: seq<byte>, len: nat, off: nat)
    requires !Dynamic(tag) && len <= |mem| && DecLeaf(p, tag, mem, len, off).Done?
    ensures var w := DecLeaf(p, tag, mem, len, off).value;
            && !tag.UnknownTag?
            && CanonLeaf(p, tag, w) == w
            && (tag == BytesTag ==> |ToBytesVal(w)| < TWO_32)
            && (tag == StringTag ==> |Queued(p, tag, w)| < TWO_32)
  {
    if tag in {Uint8Tag, Uint16Tag, Uint32Tag} {
      DecUintCanonical(p, tag, mem, len, off);
    } else if tag == Int32Tag {
      DecInt32Canonical(p, mem, len, off);
    } else if tag != BooleanTag {
      FromBELow(mem, len, off, if tag == Float64Tag then 8 else 4);
      Widths();
    }
  }

  // A decoded value is canonical, and the size pass accepts it with every length in range.
  lemma {:induction false} DecCanonical(p: Platform, def: SchemaDef, mem: seq<byte>, len: nat, off: nat)
    requires Static(def) && len <= |mem| && off <= |mem| && Dec(p, def, mem, len, off).Done?
    ensures var w := Dec(p, def, mem, len, off).value;
            Sendable(p, def, w) && Canon(p, def, w) == w
    decreases def, 0
  {
    match def
    case Prim(tag) => DecLeafCanonical(p, tag, mem, len, off);
    case Arr(e) =>
      var n := ReadUint(mem, len, off, 4).value;
      Widths();
      FromBELow(mem, len, off, 4);
      DecItemsCanonical(p, e, mem, len, off + 4, n);
    case Obj(fs) =>
      var m := DecFields(p, fs, mem, len, off).value;
      DecFieldsKeys(p, fs, mem, len, off);
      DecFieldsCanonical(p, fs, mem, len, off, Map(m));
  }

  lemma {:induction false} DecItemsCanonical(p: Platform, e: SchemaDef, mem: seq<byte>, len: nat, off: nat, n: nat)
    requires Static(e) && len <= |mem| && off <= |mem| && DecItems(p, e, mem, len, off, n).Done?
    ensures var xs := DecItems(p, e, mem, len, off, n).value;
            AllSendable(p, e, xs) && CanonItems(p, e, xs) == xs
    decreases e, n + 1
  {
    hide *;
    if n == 0 {
      NoItemsCanonical(p, e, mem, len, off);
    } else {
      var head, last := DecItemsUnstep(p, e, mem, len, off, n);
      DecItemsCanonical(p, e, mem, len, off, n - 1);
      DecCanonical(p, e, mem, len, head.next);
      CanonItemsSnoc(p, e, head.value, last.value);
    }
  }

  lemma NoItemsCanonical(p: Platform, e: SchemaDef, mem: seq<byte>, len: nat, off: nat)
    requires len <= |mem| && off <= |mem|
    ensures DecItems(p, e, mem, len, off, 0) == Done([], off)
    ensures AllSendable(p, e, []) && CanonItems(p, e, []) == []
  {}

  lemma CanonItemsSnoc(p: Platform, e: SchemaDef, xs: seq<Val>, x: Val)
    ensures CanonItems(p, e, xs + [x]) == CanonItems(p, e, xs) + [Canon(p, e, x)]
    ensures AllSendable(p, e, xs + [x]) <==> AllSendable(p, e, xs) && Sendable(p, e, x)
  {
    assert (xs + [x])[..|xs|] == xs;
    assert forall y <- xs + [x] :: y in xs || y == x;
    assert forall y <- xs :: y in xs + [x];
    assert x in xs + [x];
  }

  lemma {:induction false} DecFieldsKeys(p: Platform, fs: seq<FieldDef>, mem: seq<byte>, len: nat, off: nat)
    requires len <= |mem| && off <= |mem| && DecFields(p, fs, mem, len, off).Done?
    ensures var m := DecFields(p, fs, mem, len, off).value; Answers(fs, Map(m), m)
    decreases fs
  {
    if fs != [] {
      var head, last := DecFieldsUnstep(p, fs, mem, len, off);
      DecFieldsKeys(p, fs[..|fs| - 1], mem, len, off);
      assert forall f <- fs :: f in fs[..|fs| - 1] || f == fs[|fs| - 1];
    }
  }

  lemma {:induction false} DecFieldsCanonical(p: Platform, fs: seq<FieldDef>, mem: seq<byte>, len: nat, off: nat, w: Val)
    requires StaticFields(fs) && len <= |mem| && off <= |mem| && DecFields(p, fs, mem, len, off).Done?
    requires Answers(fs, w, DecFields(p, fs, mem, len, off).value)
    ensures FieldsSendable(p, fs, w) && CanonFields(p, fs, w) == DecFields(p, fs, mem, len, off).value
    decreases fs, 0
  {
    if fs != [] {
      var head, last := DecFieldsUnstep(p, fs, mem, len, off);
      AnswersInit(fs, w, head.value, last.value);
      DecFieldsCanonical(p, fs[..|fs| - 1], mem, len, off, w);
      DecCanonical(p, fs[|fs| - 1].typ, mem, len, head.next);
      assert forall f <- fs :: f in fs[..|fs| - 1] || f == fs[|fs| - 1];
    }
  }

  // ---------------------------------------------------------------- re-encoding a decoded buffer

  // Every byte read as a boolean is 0 or 1.
  ghost predicate Clean(p: Platform, def: SchemaDef, mem: seq<byte>, len: nat, off: nat)
    requires len <= |mem|
    decreases def, 0
  {
    match def
    case Prim(tag) => tag == BooleanTag && off < |mem| ==> mem[off] <= 1
    case Arr(e) =>
      var n := ReadUint(mem, len, off, 4);
      n.Some? ==> CleanItems(p, e, mem, len, off + 4, n.value)
    case Obj(fs) => CleanFields(p, fs, mem, len, off)
    case Invalid => true
  }

  ghost predicate CleanItems(p: Platform, e: SchemaDef, mem: seq<byte>, len: nat, off: nat, n: nat)
    requires len <= |mem|
    decreases e, n + 1
  {
    n > 0 ==>
      && CleanItems(p, e, mem, len, off, n - 1)
      && match DecItems(p, e, mem, len, off, n - 1)
         case Done(_, k) => Clean(p, e, mem, len, k)
         case _ => true
  }

  ghost predicate CleanFields(p: Platform, fs: seq<FieldDef>, mem: seq<byte>, len: nat, off: nat)
    requires len <= |mem|
    decreases fs, 0
  {
    fs != [] ==>
      && CleanFields(p, fs[..|fs| - 1], mem, len, off)
      && match DecFields(p, fs[..|fs| - 1], mem, len, off)
         case Done(_, k) => Clean(p, fs[|fs| - 1].typ, mem, len, k)
         case _ => true
  }

  lemma DecPrefixedBytes(mem: seq<byte>, len: nat, off: nat)
    requires len <= |mem| && DecPrefixed(mem, len, off).Done?
    ensures var r := DecPrefixed(mem, len, off); Prefixed(r.value) == mem[off..r.next]
  {
    FromBELow(mem, len, off, 4);
    var r := DecPrefixed(mem, len, off);
    assert mem[off..r.next] == mem[off..off + 4] + mem[off + 4..r.next];
  }

  lemma DecBooleanBytes(p: Platform, mem: seq<byte>, len: nat, off: nat)
    requires len <= |mem| && DecLeaf(p, BooleanTag, mem, len, off).Done?
    ensures var r := DecLeaf(p, BooleanTag, mem, len, off);
            EncLeaf(p, BooleanTag, r.value) == mem[off..off + 1] <==> mem[off] <= 1
  {
    FromBELow(mem, len, off, 1);
    assert mem[off..off + 1] == [mem[off]];
    assert FromBE([mem[off]]) == mem[off] by { assert [mem[off]][..0] == []; }
  }

  lemma DecLeafBytes(p: Platform, tag: Tag, mem: seq<byte>, len: nat, off: nat)
    requires !Dynamic(tag) && len <= |mem| && DecLeaf(p, tag, mem, len, off).Done?
    ensures var r := DecLeaf(p, tag, mem, len, off);
            && off + |EncLeaf(p, tag, r.value)| == r.next <= |mem|
            && (EncLeaf(p, tag, r.value) == mem[off..r.next] <==> (tag == BooleanTag ==> mem[off] <= 1))
  {
    if tag in {Uint8Tag, Uint16Tag, Uint32Tag} {
      DecUintCanonical(p, tag, mem, len, off);
    } else if tag == Int32Tag {
      DecInt32Canonical(p, mem, len, off);
    } else if tag == Float64Tag {
      FromBELow(mem, len, off, 8);
    } else if tag == BooleanTag {
      DecBooleanBytes(p, mem, len, off);
    } else {
      DecPrefixedBytes(mem, len, off);
    }
  }

  // b has the length of mem[off..end], and equals it exactly when `clean` holds.
  ghost predicate Reproduces(b: seq<byte>, mem: seq<byte>, off: nat, end: nat, clean: bool) {
    off + |b| == end <= |mem| && (b == mem[off..end] <==> clean)
  }

  lemma ReproducesAppend(a: seq<byte>, b: seq<byte>, mem: seq<byte>, off: nat, mid: nat, end: nat, c: bool, d: bool)
    requires Reproduces(a, mem, off, mid, c) && Reproduces(b, mem, mid, end, d)
    ensures Reproduces(a + b, mem, off, end, c && d)
  {
    assert mem[off..end] == mem[off..mid] + mem[mid..end];
    SplitEqual(a, b, mem[off..mid], mem[mid..end]);
  }

  // Encoding a decoded value reproduces exactly the bytes it was read from if, and only if, every
  // boolean byte among them is 0 or 1. The length is reproduced in any case.
  lemma {:induction false} ReEncode(p: Platform, def: SchemaDef, mem: seq<byte>, len: nat, off: nat)
    requires Static(def) && len <= |mem| && off <= |mem| && Dec(p, def, mem, len, off).Done?
    ensures var r := Dec(p, def, mem, len, off);
            Reproduces(Enc(p, def, r.value), mem, off, r.next, Clean(p, def, mem, len, off))
    decreases def, 0
  {
    match def
    case Prim(tag) => DecLeafBytes(p, tag, mem, len, off);
    case Arr(e) =>
      var n := ReadUint(mem, len, off, 4).value;
      FromBELow(mem, len, off, 4);
      ReEncodeItems(p, e, mem, len, off + 4, n);
      var r := DecItems(p, e, mem, len, off + 4, n);
      ReproducesAppend(BE(n, 4), EncItems(p, e, r.value), mem, off, off + 4, r.next,
                       true, CleanItems(p, e, mem, len, off + 4, n));
    case Obj(fs) =>
      DecFieldsKeys(p, fs, mem, len, off);
      ReEncodeFields(p, fs, mem, len, off, Dec(p, def, mem, len, off).value);
  }

  lemma {:induction false} ReEncodeItems(p: Platform, e: SchemaDef, mem: seq<byte>, len: nat, off: nat, n: nat)
    requires Static(e) && len <= |mem| && off <= |mem| && DecItems(p, e, mem, len, off, n).Done?
    ensures var r := DecItems(p, e, mem, len, off, n);
            Reproduces(EncItems(p, e, r.value), mem, off, r.next, CleanItems(p, e, mem, len, off, n))
    decreases e, n + 1
  {
    if n > 0 {
      var head, last := DecItemsUnstep(p, e, mem, len, off, n);
      ReEncodeItems(p, e, mem, len, off, n - 1);
      ReEncode(p, e, mem, len, head.next);
      EncItemsAppend(p, e, head.value, last.value);
      CleanItemsStep(p, e, mem, len, off, n, head.value, head.next);
      ReproducesAppend(EncItems(p, e, head.value), Enc(p, e, last.value), mem, off, head.next, last.next,
                       CleanItems(p, e, mem, len, off, n - 1), Clean(p, e, mem, len, head.next));
    }
  }

  lemma CleanItemsStep(p: Platform, e: SchemaDef, mem: seq<byte>, len: nat, off: nat, n: nat, xs: seq<Val>, k: nat)
    requires n > 0 && len <= |mem| && DecItems(p, e, mem, len, off, n - 1) == Done(xs, k)
    ensures CleanItems(p, e, mem, len, off, n) <==> CleanItems(p, e, mem, len, off, n - 1) && Clean(p, e, mem, len, k)
  {}

  lemma EncItemsAppend(p: Platform, e: SchemaDef, xs: seq<Val>, x: Val)
    ensures EncItems(p, e, xs + [x]) == EncItems(p, e, xs) + Enc(p, e, x)
  {
    assert (xs + [x])[..|xs|] == xs;
  }

  lemma {:induction false} ReEncodeFields(p: Platform, fs: seq<FieldDef>, mem: seq<byte>, len: nat, off: nat, w: Val)
    requires StaticFields(fs) && len <= |mem| && off <= |mem| && DecFields(p, fs, mem, len, off).Done?
    requires Answers(fs, w, DecFields(p, fs, mem, len, off).value)
    ensures var r := DecFields(p, fs, mem, len, off);
            Reproduces(EncFields(p, fs, w), mem, off, r.next, CleanFields(p, fs, mem, len, off))
    decreases fs, 0
  {
    if fs != [] {
      var init, typ := fs[..|fs| - 1], fs[|fs| - 1].typ;
      var head, last := DecFieldsUnstep(p, fs, mem, len, off);
      AnswersInit(fs, w, head.value, last.value);
      ReEncodeFields(p, init, mem, len, off, w);
      ReEncode(p, typ, mem, len, head.next);
      CleanFieldsStep(p, fs, mem, len, off, head.value, head.next);
      ReproducesAppend(EncFields(p, init, w), Enc(p, typ, last.value), mem, off, head.next, last.next,
                       CleanFields(p, init, mem, len, off), Clean(p, typ, mem, len, head.next));
    }
  }

  lemma CleanFieldsStep(p: Platform, fs: seq<FieldDef>, mem: seq<byte>, len: nat, off: nat, m: map<GoString, Val>, k: nat)
    requires fs != [] && len <= |mem| && DecFields(p, fs[..|fs| - 1], mem, len, off) == Done(m, k)
    ensures CleanFields(p, fs, mem, len, off)
            <==> CleanFields(p, fs[..|fs| - 1], mem, len, off) && Clean(p, fs[|fs| - 1].typ, mem, len, k)
  {}

  // ---------------------------------------------------------------- exactly when the trip is faithful

  lemma {:induction false} FitsCanon(p: Platform, def: SchemaDef, v: Val)
    requires Static(def)
    ensures Fits(p, def, Canon(p, def, v)) <==> Fits(p, def, v)
    decreases def, 0
  {
    match def
    case Prim(_) =>
    case Invalid =>
    case Arr(e) =>
      var xs, ys := ToSlice(v), CanonItems(p, e, ToSlice(v));
      CanonItemsAt(p, e, xs);
      forall i | 0 <= i < |xs|
        ensures Fits(p, e, ys[i]) <==> Fits(p, e, xs[i])
      {
        FitsCanon(p, e, xs[i]);
      }
      assert (forall x <- xs :: Fits(p, e, x)) <==> forall i :: 0 <= i < |xs| ==> Fits(p, e, xs[i]);
      assert (forall y <- ys :: Fits(p, e, y)) <==> forall i :: 0 <= i < |ys| ==> Fits(p, e, ys[i]);
    case Obj(fs) =>
      CanonFieldsRead(p, fs, v);
      forall f | f in fs
        ensures Fits(p, f.typ, FieldOf(Canon(p, def, v), f.key)) <==> Fits(p, f.typ, FieldOf(v, f.key))
      {
        FitsCanon(p, f.typ, FieldOf(v, f.key));
      }
  }

  lemma {:induction false} CanonItemsAt(p: Platform, e: SchemaDef, xs: seq<Val>)
    ensures forall i :: 0 <= i < |xs| ==> CanonItems(p, e, xs)[i] == Canon(p, e, xs[i])
  {
    if xs != [] { CanonItemsAt(p, e, xs[..|xs| - 1]); }
  }

  // A value the size pass accepts arrives as its canonical form if, and only if, each of its
  // lengths and counts is below 2^32.
  lemma RoundTripExactly(p: Platform, def: SchemaDef, v: Val, tail: seq<byte>)
    requires Unpacks(p) && Static(def) && Encodable(p, def, v)
    ensures var buf := Enc(p, def, v) + tail;
            Dec(p, def, buf, |buf|, 0) == Done(Canon(p, def, v), |Enc(p, def, v)|) <==> Fits(p, def, v)
  {
    var buf := Enc(p, def, v) + tail;
    if Fits(p, def, v) {
      RoundTrip(p, def, v, tail);
    } else if Dec(p, def, buf, |buf|, 0) == Done(Canon(p, def, v), |Enc(p, def, v)|) {
      DecCanonical(p, def, buf, |buf|, 0);
      FitsCanon(p, def, v);
      assert false;
    }
  }

  // ---------------------------------------------------------------- when a decode completes

  // The buffer begins with the encoding of some value.
  ghost predicate BeginsWithEncoding(p: Platform, def: SchemaDef, b: seq<byte>) {
    exists v :: Sendable(p, def, v) && Enc(p, def, v) <= b
  }

  // A decode completes within its buffer, on boolean bytes 0 and 1, exactly when the buffer begins
  // with the encoding of some value.
  lemma CompletesExactly(p: Platform, def: SchemaDef, mem: seq<byte>, len: nat)
    requires Unpacks(p) && Static(def) && len <= |mem|
    ensures Dec(p, def, mem, len, 0).Done? && Clean(p, def, mem, len, 0) && Contained(p, def, mem, len, 0)
            <==> BeginsWithEncoding(p, def, mem[..len])
  {
    var r := Dec(p, def, mem, len, 0);
    if r.Done? && Clean(p, def, mem, len, 0) && Contained(p, def, mem, len, 0) {
      DecCanonical(p, def, mem, len, 0);
      ReEncode(p, def, mem, len, 0);
      StaysInside(p, def, mem, len, 0);
      hide *;
      WholePrefix(mem, len, r.next);
    }
    if v :| Sendable(p, def, v) && Enc(p, def, v) <= mem[..len] {
      EncodingCompletes(p, def, v, mem, len);
    }
  }

  lemma WholePrefix(mem: seq<byte>, len: nat, k: nat)
    requires k <= len <= |mem|
    ensures mem[0..k] <= mem[..len]
  {}

  lemma EncodingCompletes(p: Platform, def: SchemaDef, v: Val, mem: seq<byte>, len: nat)
    requires Unpacks(p) && Static(def) && len <= |mem| && Sendable(p, def, v) && Enc(p, def, v) <= mem[..len]
    ensures Dec(p, def, mem, len, 0).Done? && Clean(p, def, mem, len, 0) && Contained(p, def, mem, len, 0)
  {
    var b := Enc(p, def, v);
    assert Holds(mem, 0, b) && mem[0..|b|] == b;
    hide Dec, Enc, Canon, Clean, Contained, Static, Sendable;
    DecOfEnc(p, def, v, mem, len, 0);
    StaysInside(p, def, mem, len, 0);
    ReEncode(p, def, mem, len, 0);
    CanonFixed(p, def, v);
  }

  // Every node is one the decoder knows, and no leaf is dynamic.
  ghost predicate Recognised(def: SchemaDef) {
    match def
    case Prim(tag) => !tag.UnknownTag? && !Dynamic(tag)
    case Arr(e) => Recognised(e)
    case Obj(fs) => forall f <- fs :: Recognised(f.typ)
    case Invalid => false
  }

  // Then there are no decoding errors: a decode completes or panics.
  lemma {:induction false} NeverFails(p: Platform, def: SchemaDef, mem: seq<byte>, len: nat, off: nat)
    requires Recognised(def) && len <= |mem|
    ensures !Dec(p, def, mem, len, off).Failed?
    decreases def, 0
  {
    match def
    case Prim(tag) =>
    case Arr(e) =>
      var n := ReadUint(mem, len, off, 4);
      if n.Some? { ItemsNeverFail(p, e, mem, len, off + 4, n.value); }
    case Obj(fs) => FieldsNeverFail(p, fs, mem, len, off);
  }

  lemma {:induction false} ItemsNeverFail(p: Platform, e: SchemaDef, mem: seq<byte>, len: nat, off: nat, n: nat)
    requires Recognised(e) && len <= |mem|
    ensures !DecItems(p, e, mem, len, off, n).Failed?
    decreases e, n + 1
  {
    if n > 0 {
      ItemsNeverFail(p, e, mem, len, off, n - 1);
      var head := DecItems(p, e, mem, len, off, n - 1);
      if head.Done? { NeverFails(p, e, mem, len, head.next); }
    }
  }

  lemma {:induction false} FieldsNeverFail(p: Platform, fs: seq<FieldDef>, mem: seq<byte>, len: nat, off: nat)
    requires (forall f <- fs :: Recognised(f.typ)) && len <= |mem|
    ensures !DecFields(p, fs, mem, len, off).Failed?
    decreases fs, 0
  {
    if fs != [] {
      var init := fs[..|fs| - 1];
      FieldsNeverFail(p, init, mem, len, off);
      var head := DecFields(p, init, mem, len, off);
      if head.Done? { NeverFails(p, fs[|fs| - 1].typ, mem, len, head.next); }
    }
  }

  // So on a message that begins with no encoding the decoder panics, reads past the message, or takes
  // some boolean byte above 1 for true; and on one that begins with an encoding it does none of these.
  lemma PanicsOtherwise(p: Platform, def: SchemaDef, mem: seq<byte>, len: nat)
    requires Unpacks(p) && Static(def) && Recognised(def) && len <= |mem|
    ensures var r := Dec(p, def, mem, len, 0);
            (r.Panicked? || (r.Done? && (r.next > len || !Clean(p, def, mem, len, 0))))
            <==> !BeginsWithEncoding(p, def, mem[..len])
  {
    CompletesExactly(p, def, mem, len);
    NeverFails(p, def, mem, len, 0);
    if Dec(p, def, mem, len, 0).Done? { StaysInside(p, def, mem, len, 0); }
  }

  // Without spare capacity, and with boolean bytes 0 and 1, the messages that end the program are
  // those that begin with no encoding.
  lemma ShortOtherwise(p: Platform, def: SchemaDef, mem: seq<byte>)
    requires Unpacks(p) && Static(def) && Recognised(def)
    ensures Short(p, def, mem, |mem|, 0) || !Clean(p, def, mem, |mem|, 0) <==> !BeginsWithEncoding(p, def, mem)
  {
    assert mem[..|mem|] == mem;
    PanicsOtherwise(p, def, mem, |mem|);
    PanicsExactly(p, def, mem, |mem|, 0);
    NeverFails(p, def, mem, |mem|, 0);
    if Dec(p, def, mem, |mem|, 0).Done? { DecBounds(p, def, mem, |mem|, 0); }
  }
}
