// The positional payload layout as mathematics: what a value encodes to, what a buffer decodes
// to, and which value is left once coercion has done its work (protocol/schema.go).
module Positional {
  import opened Bytes
  import opened SchemaTypes
  import opened Coerce

  // A decode ends at an offset, with a Go error, or with a run-time panic.
  datatype Outcome<+T> = Done(value: T, next: nat) | Failed | Panicked

  // ---------------------------------------------------------------- the size pass

  // Exactly when computeSize returns no error.
  ghost predicate Encodable(p: Platform, def: SchemaDef, v: Val)
    decreases def, 0
  {
    match def
    case Prim(tag) =>
      (Dynamic(tag) ==> p.marshal(v).Some?) && !tag.UnknownTag?
    case Arr(e) => AllEncodable(p, e, ToSlice(v))
    case Obj(fs) => FieldsEncodable(p, fs, v)
    case Invalid => false
  }

  ghost predicate AllEncodable(p: Platform, e: SchemaDef, xs: seq<Val>)
    decreases e, 1
  {
    forall x <- xs :: Encodable(p, e, x)
  }

  ghost predicate FieldsEncodable(p: Platform, fs: seq<FieldDef>, v: Val)
    decreases fs, 0
  {
    forall f <- fs :: Encodable(p, f.typ, FieldOf(v, f.key))
  }

  // The bytes a string or dynamic leaf leaves on the queue.
  function Queued(p: Platform, tag: Tag, v: Val): seq<byte> {
    if tag == StringTag then ToStringVal(v)
    else match p.marshal(v)
      case Some(b) => b
      case None => []
  }

  // Everything computeSize pushes, in push order. It stops at the first error.
  ghost function Pushed(p: Platform, def: SchemaDef, v: Val): seq<seq<byte>>
    decreases def, 0
  {
    match def
    case Prim(tag) =>
      if tag == StringTag || (Dynamic(tag) && p.marshal(v).Some?)
      then [Queued(p, tag, v)] else []
    case Arr(e) => PushedItems(p, e, ToSlice(v))
    case Obj(fs) => PushedFields(p, fs, v)
    case Invalid => []
  }

  ghost function PushedItems(p: Platform, e: SchemaDef, xs: seq<Val>): seq<seq<byte>>
    decreases e, |xs| + 1
  {
    if xs == [] then [] else
      var init := xs[..|xs| - 1];
      PushedItems(p, e, init)
      + if AllEncodable(p, e, init) then Pushed(p, e, xs[|xs| - 1]) else []
  }

  ghost function PushedFields(p: Platform, fs: seq<FieldDef>, v: Val): seq<seq<byte>>
    decreases fs, 0
  {
    if fs == [] then [] else
      var init, last := fs[..|fs| - 1], fs[|fs| - 1];
      PushedFields(p, init, v)
      + if FieldsEncodable(p, init, v)
        then Pushed(p, last.typ, FieldOf(v, last.key)) else []
  }

  // ---------------------------------------------------------------- encoding

  // A 32-bit length, truncated as uint32(len(b)) truncates it, and the raw bytes.
  function Prefixed(b: seq<byte>): (r: seq<byte>)
    ensures |r| == 4 + |b|
  {
    BE(|b|, 4) + b
  }

  function EncLeaf(p: Platform, tag: Tag, v: Val): seq<byte> {
    match tag
    case Uint8Tag => BE(ToUint64(p, v), 1)
    case BooleanTag => [if ToBool(v) then 1 else 0]
    case Uint16Tag => BE(ToUint64(p, v), 2)
    case Uint32Tag => BE(ToUint64(p, v), 4)
    case Int32Tag => BE(Wrap32(ToInt64(p, v)) % TWO_32, 4)
    case Float64Tag => BE(ToFloat64(p, v), 8)
    case BytesTag => Prefixed(ToBytesVal(v))
    case StringTag => Prefixed(Queued(p, tag, v))
    case ObjectTag | ArrayTag | AnyTag => Prefixed(Queued(p, tag, v))
    case UnknownTag(_) => []
  }

  ghost function Enc(p: Platform, def: SchemaDef, v: Val): seq<byte>
    decreases def, 0
  {
    match def
    case Prim(tag) => EncLeaf(p, tag, v)
    case Arr(e) => BE(|ToSlice(v)|, 4) + EncItems(p, e, ToSlice(v))
    case Obj(fs) => EncFields(p, fs, v)
    case Invalid => []
  }

  ghost function EncItems(p: Platform, e: SchemaDef, xs: seq<Val>): seq<byte>
    decreases e, |xs| + 1
  {
    if xs == [] then [] else EncItems(p, e, xs[..|xs| - 1]) + Enc(p, e, xs[|xs| - 1])
  }

  ghost function EncFields(p: Platform, fs: seq<FieldDef>, v: Val): seq<byte>
    decreases fs, 0
  {
    if fs == [] then [] else
      var last := fs[|fs| - 1];
      EncFields(p, fs[..|fs| - 1], v) + Enc(p, last.typ, FieldOf(v, last.key))
  }

  // Every length and count fits the 32-bit prefix that announces it.
  ghost predicate Fits(p: Platform, def: SchemaDef, v: Val)
    decreases def
  {
    match def
    case Prim(tag) =>
      && (tag == BytesTag ==> |ToBytesVal(v)| < TWO_32)
      && (tag == StringTag || Dynamic(tag) ==> |Queued(p, tag, v)| < TWO_32)
    case Arr(e) => |ToSlice(v)| < TWO_32 && forall x <- ToSlice(v) :: Fits(p, e, x)
    case Obj(fs) => forall f <- fs :: Fits(p, f.typ, FieldOf(v, f.key))
    case Invalid => true
  }

  // ---------------------------------------------------------------- the canonical value

  function CanonLeaf(p: Platform, tag: Tag, v: Val): Val {
    match tag
    case Uint8Tag => Num(U8, ToUint64(p, v) % 0x100)
    case BooleanTag => Bool(ToBool(v))
    case Uint16Tag => Num(U16, ToUint64(p, v) % 0x1_0000)
    case Uint32Tag => Num(U32, ToUint64(p, v) % TWO_32)
    case Int32Tag => Num(I32, Wrap32(ToInt64(p, v)))
    case Float64Tag => Float64(ToFloat64(p, v) % TWO_64)
    case BytesTag => Blob(ToBytesVal(v))
    case StringTag => Str(ToStringVal(v))
    case ObjectTag | ArrayTag | AnyTag => (match p.unmarshal(Queued(p, tag, v)) case Some(w) => w case None => Nil)
    case UnknownTag(_) => Nil
  }

  // What a receiver is meant to see when v is sent under def.
  ghost function Canon(p: Platform, def: SchemaDef, v: Val): Val
    decreases def, 0
  {
    match def
    case Prim(tag) => CanonLeaf(p, tag, v)
    case Arr(e) => List(CanonItems(p, e, ToSlice(v)))
    case Obj(fs) => Map(CanonFields(p, fs, v))
    case Invalid => Nil
  }

  ghost function CanonItems(p: Platform, e: SchemaDef, xs: seq<Val>): (r: seq<Val>)
    ensures |r| == |xs|
    decreases e, |xs| + 1
  {
    if xs == [] then [] else CanonItems(p, e, xs[..|xs| - 1]) + [Canon(p, e, xs[|xs| - 1])]
  }

  // A repeated key keeps the value of its last occurrence.
  ghost function CanonFields(p: Platform, fs: seq<FieldDef>, v: Val): map<GoString, Val>
    decreases fs, 0
  {
    if fs == [] then map[] else
      var last := fs[|fs| - 1];
      CanonFields(p, fs[..|fs| - 1], v)[last.key := Canon(p, last.typ, FieldOf(v, last.key))]
  }

  // ---------------------------------------------------------------- decoding

  // A decode buffer is a Go slice of length `len` over memory that may extend further: fixed-width
  // reads are checked against the length, slicing only against the capacity |mem|.
  function ReadUint(mem: seq<byte>, len: nat, off: nat, width: nat): (r: Option<nat>)
    requires len <= |mem|
  {
    if off + width <= len then Some(FromBE(mem[off..off + width])) else None
  }

  function DecLeaf(p: Platform, tag: Tag, mem: seq<byte>, len: nat, off: nat): Outcome<Val>
    requires len <= |mem|
  {
    match tag
    case Uint8Tag => DecUint(U8, mem, len, off, 1)
    case Uint16Tag => DecUint(U16, mem, len, off, 2)
    case Uint32Tag => DecUint(U32, mem, len, off, 4)
    case BooleanTag =>
      (match ReadUint(mem, len, off, 1) case Some(n) => Done(Bool(n != 0), off + 1) case None => Panicked)
    case Int32Tag =>
      (match ReadUint(mem, len, off, 4) case Some(n) => Done(Num(I32, Wrap32(n)), off + 4) case None => Panicked)
    case Float64Tag =>
      (match ReadUint(mem, len, off, 8) case Some(n) => Done(Float64(n), off + 8) case None => Panicked)
    case StringTag =>
      (match DecPrefixed(mem, len, off) case Done(b, k) => Done(Str(b), k) case _ => Panicked)
    case BytesTag =>
      (match DecPrefixed(mem, len, off) case Done(b, k) => Done(Blob(b), k) case _ => Panicked)
    case ObjectTag | ArrayTag | AnyTag =>
      (match DecPrefixed(mem, len, off)
       case Done(b, k) => (match p.unmarshal(b) case Some(w) => Done(w, k) case None => Failed)
       case _ => Panicked)
    case UnknownTag(_) => Failed
  }

  function DecUint(kind: IntKind, mem: seq<byte>, len: nat, off: nat, width: nat): Outcome<Val>
    requires len <= |mem|
  {
    match ReadUint(mem, len, off, width)
    case Some(n) => Done(Num(kind, n), off + width)
    case None => Panicked
  }

  function DecPrefixed(mem: seq<byte>, len: nat, off: nat): Outcome<seq<byte>>
    requires len <= |mem|
  {
    match ReadUint(mem, len, off, 4)
    case None => Panicked
    case Some(n) => if off + 4 + n <= |mem| then Done(mem[off + 4..off + 4 + n], off + 4 + n) else Panicked
  }

  ghost function Dec(p: Platform, def: SchemaDef, mem: seq<byte>, len: nat, off: nat): Outcome<Val>
    requires len <= |mem|
    decreases def, 0
  {
    match def
    case Prim(tag) => DecLeaf(p, tag, mem, len, off)
    case Arr(e) =>
      (match ReadUint(mem, len, off, 4)
       case None => Panicked
       case Some(n) =>
         match DecItems(p, e, mem, len, off + 4, n)
         case Done(xs, k) => Done(List(xs), k)
         case Failed => Failed
         case Panicked => Panicked)
    case Obj(fs) =>
      (match DecFields(p, fs, mem, len, off)
       case Done(m, k) => Done(Map(m), k)
       case Failed => Failed
       case Panicked => Panicked)
    case Invalid => Failed
  }

  // The first n elements.
  ghost function DecItems(p: Platform, e: SchemaDef, mem: seq<byte>, len: nat, off: nat, n: nat): (r: Outcome<seq<Val>>)
    requires len <= |mem|
    ensures r.Done? ==> |r.value| == n
    decreases e, n + 1
  {
    if n == 0 then Done([], off) else
      match DecItems(p, e, mem, len, off, n - 1)
      case Failed => Failed
      case Panicked => Panicked
      case Done(xs, k) =>
        match Dec(p, e, mem, len, k)
        case Failed => Failed
        case Panicked => Panicked
        case Done(x, k') => Done(xs + [x], k')
  }

  ghost function DecFields(p: Platform, fs: seq<FieldDef>, mem: seq<byte>, len: nat, off: nat): Outcome<map<GoString, Val>>
    requires len <= |mem|
    decreases fs, 0
  {
    if fs == [] then Done(map[], off) else
      var last := fs[|fs| - 1];
      match DecFields(p, fs[..|fs| - 1], mem, len, off)
      case Failed => Failed
      case Panicked => Panicked
      case Done(m, k) =>
        match Dec(p, last.typ, mem, len, k)
        case Failed => Failed
        case Panicked => Panicked
        case Done(x, k') => Done(m[last.key := x], k')
  }
}
