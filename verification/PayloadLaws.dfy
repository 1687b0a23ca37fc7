// What each kind of payload value is on the wire, and what a receiver makes of it, stated in bytes
// (protocol/schema.go, protocol/coerce.go).
module PayloadLaws {
  import opened Bytes
  import opened SchemaTypes
  import opened Coerce
  import opened Positional
  import opened PositionalLaws
  import opened CanonicalForms

  // Two payloads a sender and a receiver cannot tell apart under a definition.
  ghost predicate Alike(p: Platform, def: SchemaDef, v: Val, w: Val) {
    && (Encodable(p, def, v) <==> Encodable(p, def, w))
    && Enc(p, def, v) == Enc(p, def, w) && Canon(p, def, v) == Canon(p, def, w)
  }

  // ---------------------------------------------------------------- missing fields

  lemma LastField(p: Platform, fs: seq<FieldDef>, v: Val)
    requires fs != []
    ensures var init, last := fs[..|fs| - 1], fs[|fs| - 1];
            && (FieldsEncodable(p, fs, v) <==> FieldsEncodable(p, init, v) && Encodable(p, last.typ, FieldOf(v, last.key)))
            && EncFields(p, fs, v) == EncFields(p, init, v) + Enc(p, last.typ, FieldOf(v, last.key))
            && CanonFields(p, fs, v) == CanonFields(p, init, v)[last.key := Canon(p, last.typ, FieldOf(v, last.key))]
  {
    var init, last := fs[..|fs| - 1], fs[|fs| - 1];
    assert fs == init + [last];
    assert forall f :: f in fs <==> f in init || f == last;
    hide Encodable, Enc, Canon, FieldOf;
  }

  lemma ObjectIs(p: Platform, fs: seq<FieldDef>, v: Val)
    ensures Encodable(p, Obj(fs), v) <==> FieldsEncodable(p, fs, v)
    ensures Enc(p, Obj(fs), v) == EncFields(p, fs, v) && Canon(p, Obj(fs), v) == Map(CanonFields(p, fs, v))
  {}

  lemma NoFields(p: Platform, v: Val)
    ensures FieldsEncodable(p, [], v) && EncFields(p, [], v) == [] && CanonFields(p, [], v) == map[]
  {}

  lemma {:induction false} SameFields(p: Platform, fs: seq<FieldDef>, v: Val, w: Val)
    requires forall k :: FieldOf(v, k) == FieldOf(w, k)
    ensures FieldsEncodable(p, fs, v) <==> FieldsEncodable(p, fs, w)
    ensures EncFields(p, fs, v) == EncFields(p, fs, w) && CanonFields(p, fs, v) == CanonFields(p, fs, w)
  {
    hide *;
    if fs == [] {
      NoFields(p, v);
      NoFields(p, w);
    } else {
      LastField(p, fs, v);
      LastField(p, fs, w);
      SameFields(p, fs[..|fs| - 1], v, w);
    }
  }

  lemma SameFieldsAlike(p: Platform, fs: seq<FieldDef>, v: Val, w: Val)
    requires forall k :: FieldOf(v, k) == FieldOf(w, k)
    ensures Alike(p, Obj(fs), v, w)
  {
    ObjectIs(p, fs, v);
    ObjectIs(p, fs, w);
    SameFields(p, fs, v, w);
    hide Encodable, Enc, Canon, FieldOf;
  }

  // A missing field counts as nil.
  lemma MissingIsNil(p: Platform, fs: seq<FieldDef>, entries: map<GoString, Val>, key: GoString)
    requires key !in entries
    ensures Alike(p, Obj(fs), Map(entries), Map(entries[key := Nil]))
  {
    SameFieldsAlike(p, fs, Map(entries), Map(entries[key := Nil]));
  }

  // A payload that is no map counts as the empty map, so all of its fields are missing.
  lemma NoMapIsEmpty(p: Platform, fs: seq<FieldDef>, v: Val)
    requires !v.Map?
    ensures Alike(p, Obj(fs), v, Map(map[]))
  {
    SameFieldsAlike(p, fs, v, Map(map[]));
  }

  // The one field of an object is what the map holds under its key, or nil.
  lemma OneField(p: Platform, f: FieldDef, entries: map<GoString, Val>)
    ensures var x := if f.key in entries then entries[f.key] else Nil;
            && (Encodable(p, Obj([f]), Map(entries)) <==> Encodable(p, f.typ, x))
            && Enc(p, Obj([f]), Map(entries)) == Enc(p, f.typ, x)
            && Canon(p, Obj([f]), Map(entries)) == Map(map[f.key := Canon(p, f.typ, x)])
  {
    ObjectIs(p, [f], Map(entries));
    LastField(p, [f], Map(entries));
    NoFields(p, Map(entries));
    assert [f][..0] == [];
    assert FieldOf(Map(entries), f.key) == if f.key in entries then entries[f.key] else Nil;
    hide *;
    assert [] + Enc(p, f.typ, FieldOf(Map(entries), f.key)) == Enc(p, f.typ, FieldOf(Map(entries), f.key));
  }

  // Fields are written one behind the other in the order of the definition, and of two with one key
  // the later one stays.
  lemma FieldsInOrder(p: Platform, fs: seq<FieldDef>, gs: seq<FieldDef>, v: Val)
    ensures Encodable(p, Obj(fs + gs), v) <==> Encodable(p, Obj(fs), v) && Encodable(p, Obj(gs), v)
    ensures Enc(p, Obj(fs + gs), v) == Enc(p, Obj(fs), v) + Enc(p, Obj(gs), v)
    ensures Canon(p, Obj(fs + gs), v) == Map(Canon(p, Obj(fs), v).entries + Canon(p, Obj(gs), v).entries)
  {
    ObjectIs(p, fs, v);
    ObjectIs(p, gs, v);
    ObjectIs(p, fs + gs, v);
    hide *;
    FieldsConcat(p, fs, gs, v);
  }

  lemma {:induction false} FieldsConcat(p: Platform, fs: seq<FieldDef>, gs: seq<FieldDef>, v: Val)
    ensures FieldsEncodable(p, fs + gs, v) <==> FieldsEncodable(p, fs, v) && FieldsEncodable(p, gs, v)
    ensures EncFields(p, fs + gs, v) == EncFields(p, fs, v) + EncFields(p, gs, v)
    ensures CanonFields(p, fs + gs, v) == CanonFields(p, fs, v) + CanonFields(p, gs, v)
  {
    hide *;
    if gs == [] {
      assert fs + gs == fs;
      NoFields(p, v);
    } else {
      var n := |gs| - 1;
      assert (fs + gs)[..|fs + gs| - 1] == fs + gs[..n] && (fs + gs)[|fs + gs| - 1] == gs[n];
      FieldsConcat(p, fs, gs[..n], v);
      LastField(p, gs, v);
      LastField(p, fs + gs, v);
      Assoc(EncFields(p, fs, v), EncFields(p, gs[..n], v), Enc(p, gs[n].typ, FieldOf(v, gs[n].key)));
    }
  }

  // ---------------------------------------------------------------- lists

  lemma NoListIsEmpty(p: Platform, e: SchemaDef, v: Val)
    requires !v.List?
    ensures Encodable(p, Arr(e), v) && Enc(p, Arr(e), v) == [0, 0, 0, 0] && Canon(p, Arr(e), v) == List([])
  {
    Zeros(4);
  }

  // A list is its count and then its elements in order.
  lemma ListInOrder(p: Platform, e: SchemaDef, xs: seq<Val>, x: Val)
    ensures Encodable(p, Arr(e), List(xs + [x])) <==> Encodable(p, Arr(e), List(xs)) && Encodable(p, e, x)
    ensures Enc(p, Arr(e), List(xs + [x])) == BE(|xs| + 1, 4) + Enc(p, Arr(e), List(xs))[4..] + Enc(p, e, x)
    ensures Canon(p, Arr(e), List(xs + [x])) == List(Canon(p, Arr(e), List(xs)).items + [Canon(p, e, x)])
  {
    assert (xs + [x])[..|xs|] == xs;
    assert Enc(p, Arr(e), List(xs))[4..] == EncItems(p, e, xs);
    Assoc(BE(|xs| + 1, 4), EncItems(p, e, xs), Enc(p, e, x));
  }

  // ---------------------------------------------------------------- leaves

  lemma Zeros(width: nat)
    requires width in {1, 2, 4, 8}
    ensures BE(0, width) == if width == 1 then [0] else if width == 2 then [0, 0] else if width == 4 then [0, 0, 0, 0]
                            else [0, 0, 0, 0, 0, 0, 0, 0]
  {
    assert BE(0, 2) == [0, 0];
    assert BE(0, 3) == [0, 0, 0];
    assert BE(0, 4) == [0, 0, 0, 0];
    assert BE(0, 5) == [0, 0, 0, 0, 0];
    assert BE(0, 6) == [0, 0, 0, 0, 0, 0];
    assert BE(0, 7) == [0, 0, 0, 0, 0, 0, 0];
  }

  // Nil, or a value of a type the leaf does not take.
  predicate Mistyped(tag: Tag, v: Val) {
    match tag
    case Uint8Tag | Uint16Tag | Uint32Tag | Int32Tag | Float64Tag => !v.Num? && !v.Float32? && !v.Float64?
    case BooleanTag => !v.Bool?
    case StringTag => !v.Str?
    case BytesTag => !v.Blob?
    case _ => false
  }

  // Such a value is sent as zero bytes of the width of the leaf, and is read as the leaf's zero.
  lemma ZeroLeaf(p: Platform, tag: Tag, v: Val)
    requires Mistyped(tag, v)
    ensures Encodable(p, Prim(tag), v)
    ensures Enc(p, Prim(tag), v) == match tag
            case Uint8Tag | BooleanTag => [0]
            case Uint16Tag => [0, 0]
            case Float64Tag => [0, 0, 0, 0, 0, 0, 0, 0]
            case _ => [0, 0, 0, 0]
  {
    Zeros(1);
    Zeros(2);
    Zeros(4);
    Zeros(8);
    Coerced(p, v);
    hide BE, Wrap64, Wrap32, ToUint64, ToInt64, ToFloat64;
    assert Prefixed([]) == BE(0, 4);
  }

  lemma ZeroRead(p: Platform, tag: Tag, v: Val)
    requires Mistyped(tag, v)
    ensures Canon(p, Prim(tag), v) == match tag
            case Uint8Tag => Num(U8, 0)
            case Uint16Tag => Num(U16, 0)
            case Uint32Tag => Num(U32, 0)
            case Int32Tag => Num(I32, 0)
            case Float64Tag => Float64(0)
            case BooleanTag => Bool(false)
            case StringTag => Str([])
            case _ => Blob([])
  {
    Coerced(p, v);
    hide Wrap64, Wrap32, ToUint64, ToInt64, ToFloat64;
  }

  lemma Coerced(p: Platform, v: Val)
    ensures !v.Num? && !v.Float32? && !v.Float64? ==> ToUint64(p, v) == 0 && ToInt64(p, v) == 0 && ToFloat64(p, v) == 0
    ensures Wrap32(0) == 0
  {}

  lemma BooleanLeaf(p: Platform, b: bool)
    ensures Enc(p, Prim(BooleanTag), Bool(b)) == [if b then 1 else 0] && Canon(p, Prim(BooleanTag), Bool(b)) == Bool(b)
  {}

  // On the other side any byte but 0 is true.
  lemma BooleanByte(p: Platform, mem: seq<byte>, len: nat, off: nat)
    requires off < len <= |mem|
    ensures Dec(p, Prim(BooleanTag), mem, len, off) == Done(Bool(mem[off] != 0), off + 1)
  {
    assert mem[off..off + 1] == [mem[off]];
    assert FromBE([mem[off]]) == mem[off] by { assert [mem[off]][..0] == []; }
  }

  lemma TextLeaf(p: Platform, s: GoString)
    ensures Enc(p, Prim(StringTag), Str(s)) == BE(|s|, 4) + s && Canon(p, Prim(StringTag), Str(s)) == Str(s)
    ensures Enc(p, Prim(BytesTag), Blob(s)) == BE(|s|, 4) + s && Canon(p, Prim(BytesTag), Blob(s)) == Blob(s)
  {}

  // A whole number of any Go type is sent as its low bits, and read as an unsigned number.
  lemma UnsignedLeaf(p: Platform, kind: IntKind, i: int)
    ensures Enc(p, Prim(Uint8Tag), Num(kind, i)) == BE(i % 0x100, 1)
    ensures Enc(p, Prim(Uint16Tag), Num(kind, i)) == BE(i % 0x1_0000, 2)
    ensures Enc(p, Prim(Uint32Tag), Num(kind, i)) == BE(i % TWO_32, 4)
    ensures Canon(p, Prim(Uint8Tag), Num(kind, i)) == Num(U8, i % 0x100)
    ensures Canon(p, Prim(Uint16Tag), Num(kind, i)) == Num(U16, i % 0x1_0000)
    ensures Canon(p, Prim(Uint32Tag), Num(kind, i)) == Num(U32, i % TWO_32)
  {
    Widths();
    var u: nat := i % TWO_64;
    BELow(u, 1);
    BELow(u, 2);
    BELow(u, 4);
    LowOfLow(i);
  }

  lemma LowOfLow(i: int)
    ensures i % TWO_64 % 0x100 == i % 0x100 && i % TWO_64 % 0x1_0000 == i % 0x1_0000 && i % TWO_64 % TWO_32 == i % TWO_32
  {
    var q := i / TWO_64;
    LowByte(0x100_0000_0000_0000 * q, i % TWO_64);
    LowPair(0x1_0000_0000_0000 * q, i % TWO_64);
    LowWord(TWO_32 * q, i % TWO_64);
  }

  lemma LowByte(q: int, r: int)
    ensures (0x100 * q + r) % 0x100 == r % 0x100
  {}

  lemma LowPair(q: int, r: int)
    ensures (0x1_0000 * q + r) % 0x1_0000 == r % 0x1_0000
  {}

  lemma LowWord(q: int, r: int)
    ensures (TWO_32 * q + r) % TWO_32 == r % TWO_32
  {}

  // The signed leaf takes the number between -2^31 and 2^31 with the same low 32 bits.
  lemma SignedLeaf(p: Platform, kind: IntKind, i: int, n: int)
    requires -0x8000_0000 <= n < 0x8000_0000 && n % TWO_32 == i % TWO_32
    ensures Enc(p, Prim(Int32Tag), Num(kind, i)) == BE(i % TWO_32, 4)
    ensures Canon(p, Prim(Int32Tag), Num(kind, i)) == Num(I32, n)
  {
    LowOfLow(i);
    SameBits(p, Num(kind, i));
    LowOfLow(ToInt64(p, Num(kind, i)));
    WrapSame(ToInt64(p, Num(kind, i)), n);
  }

  lemma WrapSame(i: int, n: int)
    requires -0x8000_0000 <= n < 0x8000_0000 && n % TWO_32 == i % TWO_32
    ensures Wrap32(i) == n && n % TWO_32 == Wrap32(i) % TWO_32
  {
    var q, r := i / TWO_32, n / TWO_32;
    assert i - n == TWO_32 * (q - r);
    assert (i + 0x8000_0000) % TWO_32 == n + 0x8000_0000;
  }

  // A float leaf keeps the bits of a 64-bit float and converts everything else.
  lemma FloatLeaf(p: Platform, kind: IntKind, i: int, b: nat)
    ensures Enc(p, Prim(Float64Tag), Num(kind, i)) == BE(p.intToF64(i), 8)
    ensures Enc(p, Prim(Float64Tag), Float32(b)) == BE(p.f32ToF64(b), 8)
    ensures Enc(p, Prim(Float64Tag), Float64(b)) == BE(b, 8)
    ensures b < TWO_64 ==> Canon(p, Prim(Float64Tag), Float64(b)) == Float64(b)
    ensures Canon(p, Prim(Float64Tag), Num(kind, i)) == Float64(p.intToF64(i) % TWO_64)
    ensures Canon(p, Prim(Float64Tag), Float32(b)) == Float64(p.f32ToF64(b) % TWO_64)
  {}

  // A float under an integer leaf goes through the conversion to 64 bits of that signedness.
  lemma FloatUnderInteger(p: Platform, b: nat)
    ensures p.f32ToU64(b) < TWO_64 ==> forall tag :: tag in {Uint8Tag, Uint16Tag, Uint32Tag} ==>
              Alike(p, Prim(tag), Float32(b), Num(U64, p.f32ToU64(b)))
    ensures p.f64ToU64(b) < TWO_64 ==> forall tag :: tag in {Uint8Tag, Uint16Tag, Uint32Tag} ==>
              Alike(p, Prim(tag), Float64(b), Num(U64, p.f64ToU64(b)))
    ensures -0x8000_0000_0000_0000 <= p.f32ToI64(b) < 0x8000_0000_0000_0000 ==>
              Alike(p, Prim(Int32Tag), Float32(b), Num(I64, p.f32ToI64(b)))
    ensures -0x8000_0000_0000_0000 <= p.f64ToI64(b) < 0x8000_0000_0000_0000 ==>
              Alike(p, Prim(Int32Tag), Float64(b), Num(I64, p.f64ToI64(b)))
  {}

  // A dynamic leaf is generic MessagePack behind its length, and read by it.
  lemma DynamicLeaf(p: Platform, tag: Tag, v: Val)
    requires tag in {ObjectTag, ArrayTag, AnyTag}
    ensures Encodable(p, Prim(tag), v) <==> p.marshal(v).Some?
    ensures p.marshal(v).Some? ==> var b := p.marshal(v).value; Enc(p, Prim(tag), v) == BE(|b|, 4) + b
    ensures p.marshal(v).Some? && p.unmarshal(p.marshal(v).value).Some? ==>
              Canon(p, Prim(tag), v) == p.unmarshal(p.marshal(v).value).value
  {}

  // ---------------------------------------------------------------- what is accepted

  // A definition without dynamic leaves, if valid, takes every payload there is.
  lemma {:induction false} TakesEverything(p: Platform, def: SchemaDef, v: Val)
    requires Recognised(def)
    ensures Encodable(p, def, v)
    decreases def
  {
    match def
    case Prim(_) =>
    case Arr(e) =>
      forall x <- ToSlice(v) ensures Encodable(p, e, x) { TakesEverything(p, e, x); }
    case Obj(fs) =>
      forall f <- fs ensures Encodable(p, f.typ, FieldOf(v, f.key)) { TakesEverything(p, f.typ, FieldOf(v, f.key)); }
  }

  // Unknown tags and foreign nodes take none.
  lemma TakesNothing(p: Platform, name: GoString, v: Val)
    ensures !Encodable(p, Prim(UnknownTag(name)), v) && !Encodable(p, Invalid, v)
  {}

  // ---------------------------------------------------------------- when a decode reports an error

  // The decoder comes to an unknown tag, to a foreign node, or to dynamic bytes that do not unpack.
  ghost predicate Unreadable(p: Platform, def: SchemaDef, mem: seq<byte>, len: nat, off: nat)
    requires len <= |mem|
    decreases def, 0
  {
    match def
    case Prim(tag) =>
      tag.UnknownTag? ||
      (tag in {ObjectTag, ArrayTag, AnyTag} && off + 4 <= len &&
       var n := FromBE(mem[off..off + 4]);
       off + 4 + n <= |mem| && p.unmarshal(mem[off + 4..off + 4 + n]).None?)
    case Arr(e) => off + 4 <= len && UnreadableItems(p, e, mem, len, off + 4, FromBE(mem[off..off + 4]))
    case Obj(fs) => UnreadableFields(p, fs, mem, len, off)
    case Invalid => true
  }

  ghost predicate UnreadableItems(p: Platform, e: SchemaDef, mem: seq<byte>, len: nat, off: nat, n: nat)
    requires len <= |mem|
    decreases e, n + 1
  {
    n > 0 &&
      (UnreadableItems(p, e, mem, len, off, n - 1) ||
       match DecItems(p, e, mem, len, off, n - 1)
       case Done(_, k) => Unreadable(p, e, mem, len, k)
       case _ => false)
  }

  ghost predicate UnreadableFields(p: Platform, fs: seq<FieldDef>, mem: seq<byte>, len: nat, off: nat)
    requires len <= |mem|
    decreases fs, 0
  {
    fs != [] &&
      (UnreadableFields(p, fs[..|fs| - 1], mem, len, off) ||
       match DecFields(p, fs[..|fs| - 1], mem, len, off)
       case Done(_, k) => Unreadable(p, fs[|fs| - 1].typ, mem, len, k)
       case _ => false)
  }

  // Exactly then the decode ends with an error.
  lemma {:induction false} FailsExactly(p: Platform, def: SchemaDef, mem: seq<byte>, len: nat, off: nat)
    requires len <= |mem|
    ensures Dec(p, def, mem, len, off).Failed? <==> Unreadable(p, def, mem, len, off)
    decreases def, 0
  {
    match def
    case Prim(tag) =>
    case Arr(e) =>
      if off + 4 <= len { ItemsFailExactly(p, e, mem, len, off + 4, FromBE(mem[off..off + 4])); }
    case Obj(fs) => FieldsFailExactly(p, fs, mem, len, off);
    case Invalid =>
  }

  lemma {:induction false} ItemsFailExactly(p: Platform, e: SchemaDef, mem: seq<byte>, len: nat, off: nat, n: nat)
    requires len <= |mem|
    ensures DecItems(p, e, mem, len, off, n).Failed? <==> UnreadableItems(p, e, mem, len, off, n)
    decreases e, n + 1
  {
    if n > 0 {
      ItemsFailExactly(p, e, mem, len, off, n - 1);
      var head := DecItems(p, e, mem, len, off, n - 1);
      if head.Done? { FailsExactly(p, e, mem, len, head.next); }
    }
  }

  lemma {:induction false} FieldsFailExactly(p: Platform, fs: seq<FieldDef>, mem: seq<byte>, len: nat, off: nat)
    requires len <= |mem|
    ensures DecFields(p, fs, mem, len, off).Failed? <==> UnreadableFields(p, fs, mem, len, off)
    decreases fs, 0
  {
    if fs != [] {
      var init := fs[..|fs| - 1];
      FieldsFailExactly(p, init, mem, len, off);
      var head := DecFields(p, init, mem, len, off);
      if head.Done? { FailsExactly(p, fs[|fs| - 1].typ, mem, len, head.next); }
    }
  }
}
