// Laws of the positional layout: round trip, unique readability, locality, canonical forms.
module PositionalLaws {
  import opened Bytes
  import opened SchemaTypes
  import opened Coerce
  import opened Positional

  // ---------------------------------------------------------------- round trip

  lemma ReadBE(mem: seq<byte>, len: nat, off: nat, n: nat, width: nat)
    requires len <= |mem| && Holds(mem, off, BE(n, width)) && off + width <= len && n < Pow256(width)
    ensures ReadUint(mem, len, off, width) == Some(n)
  {
    hide BE, FromBE, Pow256, Holds;
    FromBEofBE(n, width);
    HoldsSlice(mem, off, BE(n, width));
  }

  lemma {:induction false} BELow(n: nat, width: nat)
    ensures BE(n, width) == BE(n % Pow256(width), width)
  {
    if width > 0 {
      var q := Pow256(width - 1);
      ModTower(n, q);
      BELow(n / 0x100, width - 1);
    }
  }

  lemma ModTower(n: nat, q: nat)
    requires q >= 1
    ensures n % (0x100 * q) / 0x100 == (n / 0x100) % q
    ensures n % (0x100 * q) % 0x100 == n % 0x100
  {
    var a, d := n / 0x100, n % 0x100;
    var b, r := a / q, a % q;
    assert n == 0x100 * (q * b + r) + d;
    assert n == (0x100 * q) * b + (0x100 * r + d) by { assert 0x100 * (q * b) == (0x100 * q) * b; }
    assert 0 <= 0x100 * r + d < 0x100 * q;
    ModUnique(n, 0x100 * q, b, 0x100 * r + d);
  }

  lemma ModUnique(n: nat, m: nat, b: nat, r: nat)
    requires m >= 1 && n == m * b + r && r < m
    ensures n % m == r
  {
    var c, s := n / m, n % m;
    assert n == m * c + s;
    MulApart(m, b - c);
    assert m * (b - c) == m * b - m * c;
  }

  lemma MulApart(m: int, k: int)
    requires m >= 1
    ensures k >= 1 ==> m * k >= m
    ensures k <= -1 ==> m * k <= -m
  {
    if k >= 1 { assert m * k == m + m * (k - 1); }
    if k <= -1 { assert m * k == -m + m * (k + 1); }
  }

  // A number written with `width` bytes is read back modulo 256^width.
  lemma ReadTruncated(mem: seq<byte>, len: nat, off: nat, n: nat, width: nat)
    requires len <= |mem| && Holds(mem, off, BE(n, width)) && off + width <= len
    ensures ReadUint(mem, len, off, width) == Some(n % Pow256(width))
  {
    BELow(n, width);
    ReadBE(mem, len, off, n % Pow256(width), width);
  }

  lemma DecFixedOfEnc(p: Platform, tag: Tag, v: Val, mem: seq<byte>, len: nat, off: nat)
    requires tag in {Uint8Tag, Uint16Tag, Uint32Tag, Int32Tag, Float64Tag, BooleanTag}
    requires len <= |mem| && off + |EncLeaf(p, tag, v)| <= len && Holds(mem, off, EncLeaf(p, tag, v))
    ensures DecLeaf(p, tag, mem, len, off) == Done(CanonLeaf(p, tag, v), off + |EncLeaf(p, tag, v)|)
  {
    Widths();
    match tag
    case Uint8Tag => ReadTruncated(mem, len, off, ToUint64(p, v), 1);
    case Uint16Tag => ReadTruncated(mem, len, off, ToUint64(p, v), 2);
    case Uint32Tag => ReadTruncated(mem, len, off, ToUint64(p, v), 4);
    case Int32Tag => ReadTruncated(mem, len, off, Wrap32(ToInt64(p, v)) % TWO_32, 4); WrapTwice(ToInt64(p, v));
    case Float64Tag => ReadTruncated(mem, len, off, ToFloat64(p, v), 8);
    case BooleanTag =>
      var bit := if ToBool(v) then 1 else 0;
      assert BE(bit, 1) == [bit];
      ReadTruncated(mem, len, off, bit, 1);
  }

  // An int32 survives the trip through its unsigned image.
  lemma WrapTwice(i: int)
    ensures Wrap32(Wrap32(i) % TWO_32 % TWO_32) == Wrap32(i)
  {}

  lemma DecLeafOfEnc(p: Platform, tag: Tag, v: Val, mem: seq<byte>, len: nat, off: nat)
    requires len <= |mem| && off + |EncLeaf(p, tag, v)| <= len && Holds(mem, off, EncLeaf(p, tag, v))
    requires !tag.UnknownTag? && (Dynamic(tag) ==> p.marshal(v).Some? && p.unmarshal(p.marshal(v).value).Some?)
    requires tag == BytesTag ==> |ToBytesVal(v)| < TWO_32
    requires tag == StringTag || Dynamic(tag) ==> |Queued(p, tag, v)| < TWO_32
    ensures DecLeaf(p, tag, mem, len, off) == Done(CanonLeaf(p, tag, v), off + |EncLeaf(p, tag, v)|)
  {
    match tag
    case BytesTag => DecPrefixedOfEnc(ToBytesVal(v), mem, len, off);
    case StringTag => DecPrefixedOfEnc(Queued(p, tag, v), mem, len, off);
    case ObjectTag | ArrayTag | AnyTag => DecPrefixedOfEnc(Queued(p, tag, v), mem, len, off);
    case _ => DecFixedOfEnc(p, tag, v, mem, len, off);
  }

  lemma DecPrefixedOfEnc(b: seq<byte>, mem: seq<byte>, len: nat, off: nat)
    requires |b| < TWO_32 && len <= |mem| && off + 4 + |b| <= len && Holds(mem, off, Prefixed(b))
    ensures DecPrefixed(mem, len, off) == Done(b, off + 4 + |b|)
  {
    Widths();
    HoldsSplit(mem, off, BE(|b|, 4), b);
    HoldsSlice(mem, off + 4, b);
    ReadBE(mem, len, off, |b|, 4);
  }

  // The size pass succeeds and every length is representable.
  ghost predicate Sendable(p: Platform, def: SchemaDef, v: Val) {
    Encodable(p, def, v) && Fits(p, def, v)
  }

  ghost predicate AllSendable(p: Platform, e: SchemaDef, xs: seq<Val>) {
    forall x <- xs :: Sendable(p, e, x)
  }

  ghost predicate FieldsSendable(p: Platform, fs: seq<FieldDef>, v: Val) {
    forall f <- fs :: Sendable(p, f.typ, FieldOf(v, f.key))
  }

  lemma SendableInit(p: Platform, e: SchemaDef, xs: seq<Val>)
    requires xs != [] && AllSendable(p, e, xs)
    ensures AllSendable(p, e, xs[..|xs| - 1]) && Sendable(p, e, xs[|xs| - 1])
  {}

  lemma FieldsSendableInit(p: Platform, fs: seq<FieldDef>, v: Val)
    requires fs != [] && FieldsSendable(p, fs, v)
    ensures FieldsSendable(p, fs[..|fs| - 1], v)
    ensures Sendable(p, fs[|fs| - 1].typ, FieldOf(v, fs[|fs| - 1].key))
  {}

  // Wherever an encoding lies in memory, decoding from its first byte gives the canonical value
  // and stops right after its last byte.
  lemma {:induction false} DecOfEnc(p: Platform, def: SchemaDef, v: Val, mem: seq<byte>, len: nat, off: nat)
    requires Unpacks(p) && Sendable(p, def, v)
    requires len <= |mem| && off + |Enc(p, def, v)| <= len && Holds(mem, off, Enc(p, def, v))
    ensures Dec(p, def, mem, len, off) == Done(Canon(p, def, v), off + |Enc(p, def, v)|)
    decreases def, 0
  {
    match def
    case Prim(tag) => DecLeafOfEnc(p, tag, v, mem, len, off);
    case Arr(e) =>
      var xs := ToSlice(v);
      Widths();
      HoldsSplit(mem, off, BE(|xs|, 4), EncItems(p, e, xs));
      ReadBE(mem, len, off, |xs|, 4);
      assert AllEncodable(p, e, xs);
      DecItemsOfEnc(p, e, xs, mem, len, off + 4);
    case Obj(fs) =>
      assert FieldsEncodable(p, fs, v);
      DecFieldsOfEnc(p, fs, v, mem, len, off);
  }

  lemma {:induction false} DecItemsOfEnc(p: Platform, e: SchemaDef, xs: seq<Val>, mem: seq<byte>, len: nat, off: nat)
    requires Unpacks(p) && AllSendable(p, e, xs)
    requires len <= |mem| && off + |EncItems(p, e, xs)| <= len && Holds(mem, off, EncItems(p, e, xs))
    ensures DecItems(p, e, mem, len, off, |xs|) == Done(CanonItems(p, e, xs), off + |EncItems(p, e, xs)|)
    decreases e, |xs| + 1
  {
    hide *;
    if xs == [] {
      NoItemsOfEnc(p, e, mem, len, off);
    } else {
      var init, last := xs[..|xs| - 1], xs[|xs| - 1];
      ItemsUnfold(p, e, xs);
      SendableInit(p, e, xs);
      var mid: nat := off + |EncItems(p, e, init)|;
      HoldsSplit(mem, off, EncItems(p, e, init), Enc(p, e, last));
      DecItemsOfEnc(p, e, init, mem, len, off);
      DecOfEnc(p, e, last, mem, len, mid);
      DecItemsStep(p, e, mem, len, off, |init|, CanonItems(p, e, init), mid, Canon(p, e, last), mid + |Enc(p, e, last)|);
    }
  }

  lemma NoItemsOfEnc(p: Platform, e: SchemaDef, mem: seq<byte>, len: nat, off: nat)
    requires len <= |mem|
    ensures DecItems(p, e, mem, len, off, 0) == Done([], off) && CanonItems(p, e, []) == [] && EncItems(p, e, []) == []
  {}

  lemma ItemsUnfold(p: Platform, e: SchemaDef, xs: seq<Val>)
    requires xs != []
    ensures var init, last := xs[..|xs| - 1], xs[|xs| - 1];
            EncItems(p, e, xs) == EncItems(p, e, init) + Enc(p, e, last) &&
            CanonItems(p, e, xs) == CanonItems(p, e, init) + [Canon(p, e, last)]
  {}

  lemma DecItemsStep(p: Platform, e: SchemaDef, mem: seq<byte>, len: nat, off: nat,
                     n: nat, xs: seq<Val>, mid: nat, x: Val, end: nat)
    requires len <= |mem|
    requires DecItems(p, e, mem, len, off, n) == Done(xs, mid)
    requires Dec(p, e, mem, len, mid) == Done(x, end)
    ensures DecItems(p, e, mem, len, off, n + 1) == Done(xs + [x], end)
  {}

  lemma {:induction false} DecFieldsOfEnc(p: Platform, fs: seq<FieldDef>, v: Val, mem: seq<byte>, len: nat, off: nat)
    requires Unpacks(p) && FieldsSendable(p, fs, v)
    requires len <= |mem| && off + |EncFields(p, fs, v)| <= len && Holds(mem, off, EncFields(p, fs, v))
    ensures DecFields(p, fs, mem, len, off) == Done(CanonFields(p, fs, v), off + |EncFields(p, fs, v)|)
    decreases fs, 0
  {
    hide *;
    if fs == [] {
      NoFieldsOfEnc(p, fs, v, mem, len, off);
    } else {
      var init, last := fs[..|fs| - 1], fs[|fs| - 1];
      FieldsUnfold(p, fs, v);
      FieldsSendableInit(p, fs, v);
      var x := FieldOf(v, last.key);
      var mid: nat := off + |EncFields(p, init, v)|;
      HoldsSplit(mem, off, EncFields(p, init, v), Enc(p, last.typ, x));
      DecFieldsOfEnc(p, init, v, mem, len, off);
      DecOfEnc(p, last.typ, x, mem, len, mid);
      DecFieldsStep(p, fs, mem, len, off, CanonFields(p, init, v), mid, Canon(p, last.typ, x), mid + |Enc(p, last.typ, x)|);
    }
  }

  lemma NoFieldsOfEnc(p: Platform, fs: seq<FieldDef>, v: Val, mem: seq<byte>, len: nat, off: nat)
    requires len <= |mem| && fs == []
    ensures DecFields(p, fs, mem, len, off) == Done(map[], off) && CanonFields(p, fs, v) == map[] && EncFields(p, fs, v) == []
  {}

  lemma FieldsUnfold(p: Platform, fs: seq<FieldDef>, v: Val)
    requires fs != []
    ensures var init, last := fs[..|fs| - 1], fs[|fs| - 1];
            var x := FieldOf(v, last.key);
            && EncFields(p, fs, v) == EncFields(p, init, v) + Enc(p, last.typ, x)
            && CanonFields(p, fs, v) == CanonFields(p, init, v)[last.key := Canon(p, last.typ, x)]
  {}

  lemma DecFieldsStep(p: Platform, fs: seq<FieldDef>, mem: seq<byte>, len: nat, off: nat,
                      m: map<GoString, Val>, mid: nat, x: Val, end: nat)
    requires len <= |mem| && fs != []
    requires DecFields(p, fs[..|fs| - 1], mem, len, off) == Done(m, mid)
    requires Dec(p, fs[|fs| - 1].typ, mem, len, mid) == Done(x, end)
    ensures DecFields(p, fs, mem, len, off) == Done(m[fs[|fs| - 1].key := x], end)
  {}

  // The round trip as the two ends use it: the encoding, then anything at all.
  lemma RoundTrip(p: Platform, def: SchemaDef, v: Val, tail: seq<byte>)
    requires Unpacks(p) && Sendable(p, def, v)
    ensures var buf := Enc(p, def, v) + tail;
            Dec(p, def, buf, |buf|, 0) == Done(Canon(p, def, v), |Enc(p, def, v)|)
  {
    var buf := Enc(p, def, v) + tail;
    assert Holds(buf, 0, Enc(p, def, v));
    DecOfEnc(p, def, v, buf, |buf|, 0);
  }

  // No encoding is a proper prefix of another: what follows never changes what is read.
  lemma PrefixFree(p: Platform, def: SchemaDef, v: Val, w: Val, t: seq<byte>, u: seq<byte>)
    requires Unpacks(p) && Sendable(p, def, v)
    requires Sendable(p, def, w)
    requires Enc(p, def, v) + t == Enc(p, def, w) + u
    ensures Enc(p, def, v) == Enc(p, def, w) && t == u
    ensures Canon(p, def, v) == Canon(p, def, w)
  {
    RoundTrip(p, def, v, t);
    RoundTrip(p, def, w, u);
    SplitEqual(Enc(p, def, v), t, Enc(p, def, w), u);
  }

  // ---------------------------------------------------------------- locality

  lemma {:induction false} DecBounds(p: Platform, def: SchemaDef, mem: seq<byte>, len: nat, off: nat)
    requires len <= |mem| && off <= |mem|
    ensures Dec(p, def, mem, len, off).Done? ==> off <= Dec(p, def, mem, len, off).next <= |mem|
    decreases def, 0
  {
    match def
    case Prim(_) =>
    case Invalid =>
    case Arr(e) =>
      var n := ReadUint(mem, len, off, 4);
      if n.Some? { DecItemsBounds(p, e, mem, len, off + 4, n.value); }
    case Obj(fs) => DecFieldsBounds(p, fs, mem, len, off);
  }

  lemma {:induction false} DecItemsBounds(p: Platform, e: SchemaDef, mem: seq<byte>, len: nat, off: nat, n: nat)
    requires len <= |mem| && off <= |mem|
    ensures DecItems(p, e, mem, len, off, n).Done? ==> off <= DecItems(p, e, mem, len, off, n).next <= |mem|
    decreases e, n + 1
  {
    if n > 0 {
      DecItemsBounds(p, e, mem, len, off, n - 1);
      var head := DecItems(p, e, mem, len, off, n - 1);
      if head.Done? { DecBounds(p, e, mem, len, head.next); }
    }
  }

  lemma {:induction false} DecFieldsBounds(p: Platform, fs: seq<FieldDef>, mem: seq<byte>, len: nat, off: nat)
    requires len <= |mem| && off <= |mem|
    ensures DecFields(p, fs, mem, len, off).Done? ==> off <= DecFields(p, fs, mem, len, off).next <= |mem|
    decreases fs, 0
  {
    if fs != [] {
      DecFieldsBounds(p, fs[..|fs| - 1], mem, len, off);
      var head := DecFields(p, fs[..|fs| - 1], mem, len, off);
      if head.Done? { DecBounds(p, fs[|fs| - 1].typ, mem, len, head.next); }
    }
  }

  // Two buffers look alike up to k, and k is within the length of the second.
  ghost predicate Agree(mem: seq<byte>, mem': seq<byte>, len': nat, k: nat) {
    k <= |mem| && k <= len' <= |mem'| && mem[..k] == mem'[..k]
  }

  lemma ReadLocal(mem: seq<byte>, len: nat, mem': seq<byte>, len': nat, k: nat, off: nat, width: nat)
    requires len <= |mem| && Agree(mem, mem', len', k) && off + width <= k
    requires ReadUint(mem, len, off, width).Some?
    ensures ReadUint(mem', len', off, width) == ReadUint(mem, len, off, width)
  {
    SameWindow(mem, mem', k, off, off + width);
  }

  lemma DecPrefixedLocal(mem: seq<byte>, len: nat, mem': seq<byte>, len': nat, k: nat, off: nat)
    requires len <= |mem| && Agree(mem, mem', len', k)
    requires DecPrefixed(mem, len, off).Done? && DecPrefixed(mem, len, off).next <= k
    ensures DecPrefixed(mem', len', off) == DecPrefixed(mem, len, off)
  {
    var end := DecPrefixed(mem, len, off).next;
    ReadLocal(mem, len, mem', len', k, off, 4);
    SameWindow(mem, mem', k, off + 4, end);
  }

  lemma DecLeafLocal(p: Platform, tag: Tag, mem: seq<byte>, len: nat, mem': seq<byte>, len': nat, k: nat, off: nat)
    requires len <= |mem| && Agree(mem, mem', len', k)
    requires DecLeaf(p, tag, mem, len, off).Done? && DecLeaf(p, tag, mem, len, off).next <= k
    ensures DecLeaf(p, tag, mem', len', off) == DecLeaf(p, tag, mem, len, off)
  {
    if tag in {StringTag, BytesTag} || Dynamic(tag) {
      DecPrefixedLocal(mem, len, mem', len', k, off);
    } else {
      ReadLocal(mem, len, mem', len', k, off, DecLeaf(p, tag, mem, len, off).next - off);
    }
  }

  // A decode that ends by k gives the same result on every buffer that shares its first k bytes
  // and is at least k bytes long.
  lemma {:induction false} DecLocal(p: Platform, def: SchemaDef, mem: seq<byte>, len: nat, mem': seq<byte>, len': nat, k: nat, off: nat)
    requires len <= |mem| && off <= |mem| && Agree(mem, mem', len', k)
    requires Dec(p, def, mem, len, off).Done? && Dec(p, def, mem, len, off).next <= k
    ensures Dec(p, def, mem', len', off) == Dec(p, def, mem, len, off)
    decreases def, 0
  {
    match def
    case Prim(tag) => DecLeafLocal(p, tag, mem, len, mem', len', k, off);
    case Arr(e) =>
      var n := ReadUint(mem, len, off, 4).value;
      DecItemsBounds(p, e, mem, len, off + 4, n);
      ReadLocal(mem, len, mem', len', k, off, 4);
      DecItemsLocal(p, e, mem, len, mem', len', k, off + 4, n);
    case Obj(fs) => DecFieldsLocal(p, fs, mem, len, mem', len', k, off);
  }

  lemma {:induction false} DecItemsLocal(p: Platform, e: SchemaDef, mem: seq<byte>, len: nat, mem': seq<byte>, len': nat, k: nat, off: nat, n: nat)
    requires len <= |mem| && off <= |mem| && Agree(mem, mem', len', k)
    requires DecItems(p, e, mem, len, off, n).Done? && DecItems(p, e, mem, len, off, n).next <= k
    ensures DecItems(p, e, mem', len', off, n) == DecItems(p, e, mem, len, off, n)
    decreases e, n + 1
  {
    if n > 0 {
      var head, last := DecItemsUnstep(p, e, mem, len, off, n);
      DecItemsLocal(p, e, mem, len, mem', len', k, off, n - 1);
      DecLocal(p, e, mem, len, mem', len', k, head.next);
      DecItemsStep(p, e, mem', len', off, n - 1, head.value, head.next, last.value, last.next);
    }
  }

  lemma DecItemsUnstep(p: Platform, e: SchemaDef, mem: seq<byte>, len: nat, off: nat, n: nat)
    returns (head: Outcome<seq<Val>>, last: Outcome<Val>)
    requires len <= |mem| && off <= |mem| && n > 0 && DecItems(p, e, mem, len, off, n).Done?
    ensures head == DecItems(p, e, mem, len, off, n - 1) && head.Done?
    ensures last == Dec(p, e, mem, len, head.next) && last.Done?
    ensures DecItems(p, e, mem, len, off, n) == Done(head.value + [last.value], last.next)
    ensures off <= head.next <= last.next <= |mem|
  {
    head := DecItems(p, e, mem, len, off, n - 1);
    last := Dec(p, e, mem, len, head.next);
    DecItemsBounds(p, e, mem, len, off, n - 1);
    DecBounds(p, e, mem, len, head.next);
  }

  lemma {:induction false} DecFieldsLocal(p: Platform, fs: seq<FieldDef>, mem: seq<byte>, len: nat, mem': seq<byte>, len': nat, k: nat, off: nat)
    requires len <= |mem| && off <= |mem| && Agree(mem, mem', len', k)
    requires DecFields(p, fs, mem, len, off).Done? && DecFields(p, fs, mem, len, off).next <= k
    ensures DecFields(p, fs, mem', len', off) == DecFields(p, fs, mem, len, off)
    decreases fs, 0
  {
    if fs != [] {
      var head, last := DecFieldsUnstep(p, fs, mem, len, off);
      DecFieldsLocal(p, fs[..|fs| - 1], mem, len, mem', len', k, off);
      DecLocal(p, fs[|fs| - 1].typ, mem, len, mem', len', k, head.next);
      DecFieldsStep(p, fs, mem', len', off, head.value, head.next, last.value, last.next);
    }
  }

  lemma DecFieldsUnstep(p: Platform, fs: seq<FieldDef>, mem: seq<byte>, len: nat, off: nat)
    returns (head: Outcome<map<GoString, Val>>, last: Outcome<Val>)
    requires len <= |mem| && off <= |mem| && fs != [] && DecFields(p, fs, mem, len, off).Done?
    ensures head == DecFields(p, fs[..|fs| - 1], mem, len, off) && head.Done?
    ensures last == Dec(p, fs[|fs| - 1].typ, mem, len, head.next) && last.Done?
    ensures DecFields(p, fs, mem, len, off) == Done(head.value[fs[|fs| - 1].key := last.value], last.next)
    ensures off <= head.next <= last.next <= |mem|
  {
    head := DecFields(p, fs[..|fs| - 1], mem, len, off);
    last := Dec(p, fs[|fs| - 1].typ, mem, len, head.next);
    DecFieldsBounds(p, fs[..|fs| - 1], mem, len, off);
    DecBounds(p, fs[|fs| - 1].typ, mem, len, head.next);
  }

  // Every announced length ends within the buffer.
  ghost predicate Contained(p: Platform, def: SchemaDef, mem: seq<byte>, len: nat, off: nat)
    requires len <= |mem|
    decreases def, 0
  {
    match def
    case Prim(tag) =>
      var n := ReadUint(mem, len, off, 4);
      tag in {StringTag, BytesTag, ObjectTag, ArrayTag, AnyTag} && n.Some? ==> off + 4 + n.value <= len
    case Arr(e) =>
      var n := ReadUint(mem, len, off, 4);
      n.Some? ==> ContainedItems(p, e, mem, len, off + 4, n.value)
    case Obj(fs) => ContainedFields(p, fs, mem, len, off)
    case Invalid => true
  }

  ghost predicate ContainedItems(p: Platform, e: SchemaDef, mem: seq<byte>, len: nat, off: nat, n: nat)
    requires len <= |mem|
    decreases e, n + 1
  {
    n > 0 ==>
      && ContainedItems(p, e, mem, len, off, n - 1)
      && match DecItems(p, e, mem, len, off, n - 1)
         case Done(_, k) => Contained(p, e, mem, len, k)
         case _ => true
  }

  ghost predicate ContainedFields(p: Platform, fs: seq<FieldDef>, mem: seq<byte>, len: nat, off: nat)
    requires len <= |mem|
    decreases fs, 0
  {
    fs != [] ==>
      && ContainedFields(p, fs[..|fs| - 1], mem, len, off)
      && match DecFields(p, fs[..|fs| - 1], mem, len, off)
         case Done(_, k) => Contained(p, fs[|fs| - 1].typ, mem, len, k)
         case _ => true
  }

  // Slicing is checked against the capacity, so a decode may read past the length of its buffer.
  // It stays within the length exactly when no announced length points past it.
  lemma {:induction false} StaysInside(p: Platform, def: SchemaDef, mem: seq<byte>, len: nat, off: nat)
    requires off <= len <= |mem| && Dec(p, def, mem, len, off).Done?
    ensures Dec(p, def, mem, len, off).next <= len <==> Contained(p, def, mem, len, off)
    decreases def, 0
  {
    match def
    case Prim(tag) =>
    case Arr(e) => ItemsStayInside(p, e, mem, len, off + 4, ReadUint(mem, len, off, 4).value);
    case Obj(fs) => FieldsStayInside(p, fs, mem, len, off);
  }

  lemma {:induction false} ItemsStayInside(p: Platform, e: SchemaDef, mem: seq<byte>, len: nat, off: nat, n: nat)
    requires off <= len <= |mem| && DecItems(p, e, mem, len, off, n).Done?
    ensures DecItems(p, e, mem, len, off, n).next <= len <==> ContainedItems(p, e, mem, len, off, n)
    decreases e, n + 1
  {
    if n > 0 {
      var head, last := DecItemsUnstep(p, e, mem, len, off, n);
      ItemsStayInside(p, e, mem, len, off, n - 1);
      if head.next <= len { StaysInside(p, e, mem, len, head.next); }
    }
  }

  lemma {:induction false} FieldsStayInside(p: Platform, fs: seq<FieldDef>, mem: seq<byte>, len: nat, off: nat)
    requires off <= len <= |mem| && DecFields(p, fs, mem, len, off).Done?
    ensures DecFields(p, fs, mem, len, off).next <= len <==> ContainedFields(p, fs, mem, len, off)
    decreases fs, 0
  {
    if fs != [] {
      var head, last := DecFieldsUnstep(p, fs, mem, len, off);
      FieldsStayInside(p, fs[..|fs| - 1], mem, len, off);
      if head.next <= len { StaysInside(p, fs[|fs| - 1].typ, mem, len, head.next); }
    }
  }

  // Then it also completes on a buffer cut to that length, with the same result, and otherwise not.
  lemma CutToLength(p: Platform, def: SchemaDef, mem: seq<byte>, len: nat, off: nat)
    requires off <= len <= |mem|
    ensures var r := Dec(p, def, mem, len, off);
            Dec(p, def, mem[..len], len, off) == r && r.Done?
            <==> r.Done? && Contained(p, def, mem, len, off)
    ensures Dec(p, def, mem[..len], len, off).Done? ==> Dec(p, def, mem[..len], len, off) == Dec(p, def, mem, len, off)
  {
    var cut := mem[..len];
    if Dec(p, def, mem, len, off).Done? { StaysInside(p, def, mem, len, off); }
    hide Dec, Contained;
    if Dec(p, def, cut, len, off).Done? {
      DecBounds(p, def, cut, len, off);
      var k := Dec(p, def, cut, len, off).next;
      assert cut[..k] == mem[..k];
      DecLocal(p, def, cut, len, mem, len, k, off);
    }
    if Dec(p, def, mem, len, off).Done? && Dec(p, def, mem, len, off).next <= len {
      var k := Dec(p, def, mem, len, off).next;
      assert cut[..k] == mem[..k];
      DecLocal(p, def, mem, len, cut, len, k, off);
    }
  }

  // ---------------------------------------------------------------- when a decode panics

  // Some read leaves the buffer: a number or a length prefix does not fit the length, or an announced
  // length points past the capacity. Reads behind a decoding error do not happen.
  ghost predicate Short(p: Platform, def: SchemaDef, mem: seq<byte>, len: nat, off: nat)
    requires len <= |mem|
    decreases def, 0
  {
    match def
    case Prim(tag) => ShortLeaf(tag, mem, len, off)
    case Arr(e) => off + 4 > len || ShortItems(p, e, mem, len, off + 4, FromBE(mem[off..off + 4]))
    case Obj(fs) => ShortFields(p, fs, mem, len, off)
    case Invalid => false
  }

  predicate ShortLeaf(tag: Tag, mem: seq<byte>, len: nat, off: nat)
    requires len <= |mem|
  {
    match tag
    case Uint8Tag | BooleanTag => off + 1 > len
    case Uint16Tag => off + 2 > len
    case Uint32Tag | Int32Tag => off + 4 > len
    case Float64Tag => off + 8 > len
    case StringTag | BytesTag | ObjectTag | ArrayTag | AnyTag =>
      off + 4 > len || off + 4 + FromBE(mem[off..off + 4]) > |mem|
    case UnknownTag(_) => false
  }

  ghost predicate ShortItems(p: Platform, e: SchemaDef, mem: seq<byte>, len: nat, off: nat, n: nat)
    requires len <= |mem|
    decreases e, n + 1
  {
    n > 0 &&
      (ShortItems(p, e, mem, len, off, n - 1) ||
       match DecItems(p, e, mem, len, off, n - 1)
       case Done(_, k) => Short(p, e, mem, len, k)
       case _ => false)
  }

  ghost predicate ShortFields(p: Platform, fs: seq<FieldDef>, mem: seq<byte>, len: nat, off: nat)
    requires len <= |mem|
    decreases fs, 0
  {
    fs != [] &&
      (ShortFields(p, fs[..|fs| - 1], mem, len, off) ||
       match DecFields(p, fs[..|fs| - 1], mem, len, off)
       case Done(_, k) => Short(p, fs[|fs| - 1].typ, mem, len, k)
       case _ => false)
  }

  // For every definition and every buffer, the decoder panics exactly then.
  lemma {:induction false} PanicsExactly(p: Platform, def: SchemaDef, mem: seq<byte>, len: nat, off: nat)
    requires len <= |mem|
    ensures Dec(p, def, mem, len, off).Panicked? <==> Short(p, def, mem, len, off)
    decreases def, 0
  {
    match def
    case Prim(tag) =>
    case Arr(e) =>
      if off + 4 <= len { ItemsPanicExactly(p, e, mem, len, off + 4, FromBE(mem[off..off + 4])); }
    case Obj(fs) => FieldsPanicExactly(p, fs, mem, len, off);
    case Invalid =>
  }

  lemma {:induction false} ItemsPanicExactly(p: Platform, e: SchemaDef, mem: seq<byte>, len: nat, off: nat, n: nat)
    requires len <= |mem|
    ensures DecItems(p, e, mem, len, off, n).Panicked? <==> ShortItems(p, e, mem, len, off, n)
    decreases e, n + 1
  {
    if n > 0 {
      ItemsPanicExactly(p, e, mem, len, off, n - 1);
      var head := DecItems(p, e, mem, len, off, n - 1);
      if head.Done? { PanicsExactly(p, e, mem, len, head.next); }
    }
  }

  lemma {:induction false} FieldsPanicExactly(p: Platform, fs: seq<FieldDef>, mem: seq<byte>, len: nat, off: nat)
    requires len <= |mem|
    ensures DecFields(p, fs, mem, len, off).Panicked? <==> ShortFields(p, fs, mem, len, off)
    decreases fs, 0
  {
    if fs != [] {
      var init := fs[..|fs| - 1];
      FieldsPanicExactly(p, init, mem, len, off);
      var head := DecFields(p, init, mem, len, off);
      if head.Done? { PanicsExactly(p, fs[|fs| - 1].typ, mem, len, head.next); }
    }
  }

  // ---------------------------------------------------------------- reading past the length

  // It really happens: a five-byte buffer announcing a two-byte string, with one spare byte of
  // capacity behind it, decodes to two bytes.
  lemma ReadsSpareCapacity(p: Platform)
    ensures Dec(p, Prim(StringTag), [0, 0, 0, 2, 0x61, 0x7A], 5, 0) == Done(Str([0x61, 0x7A]), 6)
    ensures Dec(p, Prim(StringTag), [0, 0, 0, 2, 0x61], 5, 0) == Panicked
  {
    var mem: seq<byte> := [0, 0, 0, 2, 0x61, 0x7A];
    var cut: seq<byte> := [0, 0, 0, 2, 0x61];
    Widths();
    assert BE(2, 4) == [0, 0, 0, 2] by { assert BE(0, 3) == [0, 0, 0] by { assert BE(0, 2) == [0, 0]; } }
    FromBEofBE(2, 4);
    assert mem[0..4] == cut[0..4] == [0, 0, 0, 2];
    assert mem[4..6] == [0x61, 0x7A];
  }
}
