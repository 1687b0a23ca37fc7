// Schema trees and the Go values they describe (protocol/types.go).
module SchemaTypes {
  import opened Bytes

  // The primitive type tags. In the source a tag is a plain string: `UnknownTag` stands for every
  // string that is not one of the eleven names.
  datatype Tag =
    | Uint8Tag | Uint16Tag | Uint32Tag | Int32Tag | Float64Tag | BooleanTag | StringTag | BytesTag
    | ObjectTag | ArrayTag | AnyTag
    | UnknownTag(name: GoString)

  // `Invalid` is any other Go value found where a schema node is expected (SchemaDef is an empty
  // interface in the source).
  datatype SchemaDef =
    | Prim(tag: Tag)
    | Arr(element: SchemaDef)
    | Obj(fields: seq<FieldDef>)
    | Invalid

  datatype FieldDef = FieldDef(key: GoString, typ: SchemaDef)

  // A schema is a named definition.
  datatype Schema = Schema(name: GoString, definition: SchemaDef)

  // The tags that fall back to generic MessagePack.
  predicate Dynamic(tag: Tag) {
    tag == ObjectTag || tag == ArrayTag || tag == AnyTag
  }

  datatype IntKind = GoInt | I8 | I16 | I32 | I64 | GoUint | U8 | U16 | U32 | U64

  // The dynamic Go values that reach the codec as interface{}. Floats are carried as bit
  // patterns; `Foreign` is a value of any Go type the codec does not look into.
  datatype Val =
    | Nil
    | Bool(b: bool)
    | Num(kind: IntKind, i: int)
    | Float32(bits32: nat)
    | Float64(bits64: nat)
    | Str(s: GoString)
    | Blob(bytes: seq<byte>)
    | List(items: seq<Val>)
    | Map(entries: map<GoString, Val>)
    | Foreign(id: nat)

  // Library and hardware behaviour that the repository relies on but does not define:
  // float conversions, generic MessagePack, and raw DEFLATE.
  datatype Platform = Platform(
    f32ToU64: nat -> nat,              // what comes out of range is left to the hardware
    f64ToU64: nat -> nat,
    f32ToI64: nat -> int,
    f64ToI64: nat -> int,
    f32ToF64: nat -> nat,
    intToF64: int -> nat,
    marshal: Val -> Option<seq<byte>>,
    unmarshal: seq<byte> -> Option<Val>,
    deflate: seq<byte> -> seq<byte>,
    inflate: seq<byte> -> Option<seq<byte>>
  )

  // Whatever generic MessagePack accepts, it can read back.
  ghost predicate Unpacks(p: Platform) {
    forall v :: p.marshal(v).Some? ==> p.unmarshal(p.marshal(v).value).Some?
  }

  // Inflating undoes deflating, and an empty stream is not a deflate stream.
  ghost predicate Inflates(p: Platform) {
    p.inflate([]) == None && forall b :: p.inflate(p.deflate(b)) == Some(b)
  }

  // The letters, digits and underscores that a schema name may contain.
  predicate NameByte(c: byte) {
    0x30 <= c <= 0x39 || 0x41 <= c <= 0x5A || c == 0x5F || 0x61 <= c <= 0x7A
  }

  // Digits, upper-case letters, the underscore and lower-case letters.
  lemma NameBytes(c: byte)
    ensures NameByte(c) <==>
              c in Ascii("0123456789") || c in Ascii("ABCDEFGHIJKLMNOPQRSTUVWXYZ") || c in Ascii("_")
              || c in Ascii("abcdefghijklmnopqrstuvwxyz")
  {
    InRange("0123456789", 0x30, c);
    InRange("ABCDEFGHIJKLMNOPQRSTUVWXYZ", 0x41, c);
    InRange("_", 0x5F, c);
    InRange("abcdefghijklmnopqrstuvwxyz", 0x61, c);
  }

  lemma InRange(s: string, first: byte, c: byte)
    requires first + |s| <= 0x80 && forall i :: 0 <= i < |s| ==> (s[i] as int) == first + i
    ensures c in Ascii(s) <==> first <= c < first + |s|
  {
    if first <= c < first + |s| { assert Ascii(s)[c - first] == c; }
  }

  predicate ValidName(name: GoString) {
    name != [] && forall i :: 0 <= i < |name| ==> NameByte(name[i])
  }

  // An empty name becomes "unknown"; any other name must be a single word.
  function NewSchema(name: GoString, definition: SchemaDef): (r: Option<Schema>)
    ensures r.Some? <==> name == [] || ValidName(name)
    ensures r.Some? ==> r.value.definition == definition && ValidName(r.value.name)
    ensures ValidName(name) ==> r.value.name == name
  {
    if name == [] then
      assert forall i :: 0 <= i < |Ascii("unknown")| ==> NameByte(Ascii("unknown")[i]);
      Some(Schema(Ascii("unknown"), definition))
    else if ValidName(name) then Some(Schema(name, definition))
    else None
  }

  // Every object in the tree names each of its fields once.
  ghost predicate DistinctKeys(def: SchemaDef) {
    match def
    case Arr(e) => DistinctKeys(e)
    case Obj(fs) =>
      && (forall i, j :: 0 <= i < j < |fs| ==> fs[i].key != fs[j].key)
      && forall f <- fs :: DistinctKeys(f.typ)
    case _ => true
  }

  // No leaf falls back to generic MessagePack.
  ghost predicate NoDynamic(def: SchemaDef) {
    match def
    case Prim(tag) => !Dynamic(tag)
    case Arr(e) => NoDynamic(e)
    case Obj(fs) => forall f <- fs :: NoDynamic(f.typ)
    case Invalid => true
  }
}
