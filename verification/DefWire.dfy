// Schema definitions on the wire: the MessagePack headers they use, what a definition prints to
// and what a byte string parses to (protocol/schema_wire.go).
module DefWire {
  import opened Bytes
  import opened SchemaTypes

  // ---------------------------------------------------------------- tag names

  function TagName(tag: Tag): GoString {
    match tag
    case Uint8Tag => Ascii("uint8")
    case Uint16Tag => Ascii("uint16")
    case Uint32Tag => Ascii("uint32")
    case Int32Tag => Ascii("int32")
    case Float64Tag => Ascii("float64")
    case BooleanTag => Ascii("boolean")
    case StringTag => Ascii("string")
    case BytesTag => Ascii("bytes")
    case ObjectTag => Ascii("object")
    case ArrayTag => Ascii("array")
    case AnyTag => Ascii("any")
    case UnknownTag(name) => name
  }

  // The eleven named tags, numbered.
  function NamedTag(i: nat): Tag
    requires i < 11
  {
    if i == 0 then Uint8Tag else if i == 1 then Uint16Tag else if i == 2 then Uint32Tag
    else if i == 3 then Int32Tag else if i == 4 then Float64Tag else if i == 5 then BooleanTag
    else if i == 6 then StringTag else if i == 7 then BytesTag else if i == 8 then ObjectTag
    else if i == 9 then ArrayTag else AnyTag
  }

  function FindTag(name: GoString, n: nat): Tag
    requires n <= 11
  {
    if n == 0 then UnknownTag(name)
    else if name == TagName(NamedTag(n - 1)) then NamedTag(n - 1)
    else FindTag(name, n - 1)
  }

  // The tag that a string denotes.
  function TagOf(name: GoString): Tag {
    FindTag(name, 11)
  }

  // ---------------------------------------------------------------- headers

  // One format family of MessagePack: `span` one-byte codes from `fix` on that carry the length
  // themselves, then codes announcing a length of one, two or four bytes.
  datatype Family = Family(fix: byte, span: nat, one: Option<byte>, two: byte, four: byte)

  const STR := Family(0xA0, 0x20, Some(0xD9), 0xDA, 0xDB)
  const BIN := Family(0xC4, 0, Some(0xC4), 0xC5, 0xC6)
  const ARRAY := Family(0x90, 0x10, None, 0xDC, 0xDD)
  const MAP := Family(0x80, 0x10, None, 0xDE, 0xDF)

  // The printer picks the smallest header of the family. The four-byte length is uint32(n).
  function Head(f: Family, n: nat): seq<byte>
    requires f.fix + f.span <= 0x100
  {
    if n < f.span then [f.fix + n]
    else if f.one.Some? && n < 0x100 then [f.one.value] + BE(n, 1)
    else if n < 0x1_0000 then [f.two] + BE(n, 2)
    else [f.four] + BE(n, 4)
  }

  predicate Codes(f: Family, c: byte) {
    f.fix <= c < f.fix + f.span || f.one == Some(c) || c == f.two || c == f.four
  }

  datatype Parse<+T> = Got(value: T, next: nat) | Bad

  function ReadN(mem: seq<byte>, pos: nat, width: nat): Parse<nat> {
    if pos + width <= |mem| then Got(FromBE(mem[pos..pos + width]), pos + width) else Bad
  }

  // A length header at pos; any header of the family is accepted, minimal or not.
  function ReadHead(f: Family, mem: seq<byte>, pos: nat): (r: Parse<nat>)
    ensures r.Got? ==> pos < r.next <= |mem|
  {
    if pos >= |mem| then Bad
    else
      var c := mem[pos];
      if f.fix <= c < f.fix + f.span then Got(c - f.fix, pos + 1)
      else if f.one == Some(c) then ReadN(mem, pos + 1, 1)
      else if c == f.two then ReadN(mem, pos + 1, 2)
      else if c == f.four then ReadN(mem, pos + 1, 4)
      else Bad
  }

  function IsStr(mem: seq<byte>, pos: nat): bool {
    pos < |mem| && (Codes(STR, mem[pos]) || Codes(BIN, mem[pos]))
  }

  // A string may arrive in the str or in the bin family.
  function ReadStr(mem: seq<byte>, pos: nat): (r: Parse<GoString>)
    ensures r.Got? ==> pos < r.next <= |mem|
  {
    var head := if pos < |mem| && Codes(BIN, mem[pos]) then ReadHead(BIN, mem, pos) else ReadHead(STR, mem, pos);
    match head
    case Bad => Bad
    case Got(n, k) => if k + n <= |mem| then Got(mem[k..k + n], k + n) else Bad
  }

  // ---------------------------------------------------------------- printing

  function PrintStr(s: GoString): seq<byte> {
    Head(STR, |s|) + s
  }

  // Exactly when writing the definition reports no error.
  ghost predicate Writable(def: SchemaDef)
    decreases def, 0
  {
    match def
    case Prim(_) => true
    case Arr(e) => Writable(e)
    case Obj(fs) => FieldsWritable(fs)
    case Invalid => false
  }

  ghost predicate FieldsWritable(fs: seq<FieldDef>)
    decreases fs, 0
  {
    forall f <- fs :: Writable(f.typ)
  }

  ghost function Print(def: SchemaDef): seq<byte>
    decreases def, 0
  {
    match def
    case Prim(tag) => PrintStr(TagName(tag))
    case Arr(e) => Head(ARRAY, 1) + Print(e)
    case Obj(fs) => Head(MAP, |fs|) + PrintFields(fs)
    case Invalid => []
  }

  ghost function PrintFields(fs: seq<FieldDef>): seq<byte>
    decreases fs, 0
  {
    if fs == [] then [] else PrintFields(fs[..|fs| - 1]) + PrintField(fs[|fs| - 1])
  }

  ghost function PrintField(f: FieldDef): seq<byte>
    decreases f, 0
  {
    PrintStr(f.key) + Print(f.typ)
  }

  // What a definition must satisfy to survive: no foreign nodes, names and field counts below
  // 2^32, and (of the model, not of the source) no unknown tag that carries a known name.
  ghost predicate Printable(def: SchemaDef) {
    match def
    case Prim(tag) => |TagName(tag)| < TWO_32 && TagOf(TagName(tag)) == tag
    case Arr(e) => Printable(e)
    case Obj(fs) => |fs| < TWO_32 && forall f <- fs :: |f.key| < TWO_32 && Printable(f.typ)
    case Invalid => false
  }

  // ---------------------------------------------------------------- parsing

  ghost function ParseDef(mem: seq<byte>, pos: nat): (r: Parse<SchemaDef>)
    ensures r.Got? ==> pos < r.next <= |mem|
    decreases |mem| - pos, 0
  {
    if pos >= |mem| then Bad
    else if IsStr(mem, pos) then
      match ReadStr(mem, pos)
      case Bad => Bad
      case Got(s, k) => Got(Prim(TagOf(s)), k)
    else if Codes(ARRAY, mem[pos]) then
      match ReadHead(ARRAY, mem, pos)
      case Bad => Bad
      case Got(n, k) =>
        if n != 1 then Bad else
          match ParseDef(mem, k)
          case Bad => Bad
          case Got(e, k') => Got(Arr(e), k')
    else if Codes(MAP, mem[pos]) then
      match ReadHead(MAP, mem, pos)
      case Bad => Bad
      case Got(n, k) =>
        match ParseFields(mem, k, n)
        case Bad => Bad
        case Got(fs, k') => Got(Obj(fs), k')
    else Bad
  }

  // The first n key and definition pairs, in wire order.
  ghost function ParseFields(mem: seq<byte>, pos: nat, n: nat): (r: Parse<seq<FieldDef>>)
    requires pos <= |mem|
    ensures r.Got? ==> pos <= r.next <= |mem| && |r.value| == n
    decreases |mem| - pos, n + 1
  {
    if n == 0 then Got([], pos) else
      match ParseFields(mem, pos, n - 1)
      case Bad => Bad
      case Got(fs, k) =>
        match ParseField(mem, k)
        case Bad => Bad
        case Got(f, k') => Got(fs + [f], k')
  }

  ghost function ParseField(mem: seq<byte>, pos: nat): (r: Parse<FieldDef>)
    requires pos <= |mem|
    ensures r.Got? ==> pos < r.next <= |mem|
    decreases |mem| - pos, 0
  {
    match ReadStr(mem, pos)
    case Bad => Bad
    case Got(key, k) =>
      match ParseDef(mem, k)
      case Bad => Bad
      case Got(typ, k') => Got(FieldDef(key, typ), k')
  }
}
