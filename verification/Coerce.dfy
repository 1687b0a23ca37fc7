// Permissive coercions of payload values (protocol/coerce.go): a missing, nil or wrongly typed
// value falls back to the zero value instead of failing.
module Coerce {
  import opened Bytes
  import opened SchemaTypes

  predicate Numeric(v: Val) {
    v.Num? || v.Float32? || v.Float64?
  }

  // Numbers in range are kept, and whatever is not a number is 0.
  function ToUint64(p: Platform, v: Val): (r: nat)
    ensures r < TWO_64
    ensures v.Num? && 0 <= v.i < TWO_64 ==> r == v.i
    ensures !Numeric(v) ==> r == 0
  {
    match v
    case Num(_, i) => i % TWO_64
    case Float32(b) => p.f32ToU64(b) % TWO_64
    case Float64(b) => p.f64ToU64(b) % TWO_64
    case _ => 0
  }

  // Two's complement reading of the low 64 bits.
  function Wrap64(i: int): (r: int)
    ensures -0x8000_0000_0000_0000 <= r < 0x8000_0000_0000_0000
  {
    (i + 0x8000_0000_0000_0000) % TWO_64 - 0x8000_0000_0000_0000
  }

  function Wrap32(i: int): (r: int)
    ensures -0x8000_0000 <= r < 0x8000_0000
  {
    (i + 0x8000_0000) % TWO_32 - 0x8000_0000
  }

  function ToInt64(p: Platform, v: Val): (r: int)
    ensures -0x8000_0000_0000_0000 <= r < 0x8000_0000_0000_0000
    ensures v.Num? && -0x8000_0000_0000_0000 <= v.i < 0x8000_0000_0000_0000 ==> r == v.i
    ensures !Numeric(v) ==> r == 0
  {
    match v
    case Num(_, i) => Wrap64(i)
    case Float32(b) => Wrap64(p.f32ToI64(b))
    case Float64(b) => Wrap64(p.f64ToI64(b))
    case _ => 0
  }

  function ToFloat64(p: Platform, v: Val): nat {
    match v
    case Num(_, i) => p.intToF64(i)
    case Float32(b) => p.f32ToF64(b)
    case Float64(b) => b
    case _ => 0
  }

  predicate ToBool(v: Val) {
    v.Bool? && v.b
  }

  function ToStringVal(v: Val): GoString {
    if v.Str? then v.s else []
  }

  function ToBytesVal(v: Val): seq<byte> {
    if v.Blob? then v.bytes else []
  }

  function ToSlice(v: Val): seq<Val> {
    if v.List? then v.items else []
  }

  function ToMap(v: Val): map<GoString, Val> {
    if v.Map? then v.entries else map[]
  }

  // A field read on a possibly missing object.
  function FieldOf(v: Val, key: GoString): Val {
    if key in ToMap(v) then ToMap(v)[key] else Nil
  }

  // Floats aside, both integer coercions keep the same 64 bits of every value, whatever its Go type.
  lemma SameBits(p: Platform, v: Val)
    requires !v.Float32? && !v.Float64?
    ensures ToInt64(p, v) % TWO_64 == ToUint64(p, v)
  {
    if v.Num? { WrapKeepsBits(v.i); }
  }

  lemma WrapKeepsBits(i: int)
    ensures Wrap64(i) % TWO_64 == i % TWO_64
  {
    var half := 0x8000_0000_0000_0000;
    var q := (i + half) / TWO_64;
    assert Wrap64(i) == i - TWO_64 * q;
  }
}
