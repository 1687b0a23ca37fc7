// The stateful MessagePack encoder and decoder that carry schema definitions
// (protocol/schema_wire.go), proved against the printed and parsed forms.
module DefWireCodec {
  import opened Bytes
  import opened SchemaTypes
  import opened DefWire

  // Writing the key and then the type of field i extends the output by one field.
  lemma PrintFieldsSnoc(start: seq<byte>, fs: seq<FieldDef>, i: nat)
    requires i < |fs|
    ensures start + PrintFields(fs[..i + 1]) == start + PrintFields(fs[..i]) + PrintStr(fs[i].key) + Print(fs[i].typ)
  {
    assert fs[..i + 1][..i] == fs[..i];
    assert PrintFields(fs[..i + 1]) == PrintFields(fs[..i]) + PrintField(fs[i]);
  }

  lemma FieldsWritableSnoc(fs: seq<FieldDef>, i: nat)
    requires i < |fs|
    ensures FieldsWritable(fs[..i + 1]) <==> FieldsWritable(fs[..i]) && Writable(fs[i].typ)
    ensures FieldsWritable(fs) ==> Writable(fs[i].typ)
  {
    assert forall f <- fs[..i + 1] :: f in fs[..i] || f == fs[i];
    assert fs[i] in fs;
  }

  class Encoder {
    var out: seq<byte>

    constructor ()
      ensures out == []
    {
      out := [];
    }

    method EncodeString(s: GoString)
      modifies this
      ensures out == old(out) + PrintStr(s)
    {
      out := out + Head(STR, |s|) + s;
    }

    method EncodeArrayLen(n: nat)
      modifies this
      ensures out == old(out) + Head(ARRAY, n)
    {
      out := out + Head(ARRAY, n);
    }

    method EncodeMapLen(n: nat)
      modifies this
      ensures out == old(out) + Head(MAP, n)
    {
      out := out + Head(MAP, n);
    }

    // An error leaves a partial definition behind; its callers drop the whole output.
    method WriteSchemaDef(def: SchemaDef) returns (ok: bool)
      modifies this
      ensures ok <==> Writable(def)
      ensures ok ==> out == old(out) + Print(def)
      ensures old(out) <= out
      decreases def, 0
    {
      match def {
        case Prim(tag) =>
          EncodeString(TagName(tag));
          ok := true;
        case Arr(e) =>
          EncodeArrayLen(1);
          Assoc(old(out), Head(ARRAY, 1), Print(e));
          ok := WriteSchemaDef(e);
        case Obj(fs) =>
          EncodeMapLen(|fs|);
          Assoc(old(out), Head(MAP, |fs|), PrintFields(fs));
          ok := WriteFields(fs);
        case Invalid =>
          ok := false;
      }
    }

    // The loop of the object arm.
    method WriteFields(fs: seq<FieldDef>) returns (ok: bool)
      modifies this
      ensures ok <==> FieldsWritable(fs)
      ensures ok ==> out == old(out) + PrintFields(fs)
      ensures old(out) <= out
      decreases fs, 0
    {
      var i := 0;
      while i < |fs|
        invariant 0 <= i <= |fs| && FieldsWritable(fs[..i])
        invariant out == old(out) + PrintFields(fs[..i])
      {
        PrintFieldsSnoc(old(out), fs, i);
        FieldsWritableSnoc(fs, i);
        EncodeString(fs[i].key);
        var written := WriteSchemaDef(fs[i].typ);
        if !written { return false; }
        i := i + 1;
      }
      assert fs[..i] == fs;
      return true;
    }
  }

  // A pair that does not parse ends the loop.
  lemma {:induction false} ParseFieldsStop(mem: seq<byte>, pos: nat, i: nat, n: nat)
    requires pos <= |mem| && i < n && ParseFields(mem, pos, i).Got?
    requires ParseField(mem, ParseFields(mem, pos, i).next).Bad?
    ensures ParseFields(mem, pos, n).Bad?
    decreases n
  {
    if i + 1 < n { ParseFieldsStop(mem, pos, i, n - 1); }
  }

  class Decoder {
    const mem: seq<byte>
    var pos: nat

    ghost predicate Valid()
      reads this
    {
      pos <= |mem|
    }

    constructor (mem: seq<byte>)
      ensures Valid() && this.mem == mem && pos == 0
    {
      this.mem := mem;
      pos := 0;
    }

    method DecodeString() returns (r: Parse<GoString>)
      requires Valid()
      modifies this
      ensures Valid() && r == ReadStr(mem, old(pos))
      ensures r.Got? ==> pos == r.next
    {
      r := ReadStr(mem, pos);
      if r.Got? { pos := r.next; }
    }

    method DecodeArrayLen() returns (r: Parse<nat>)
      requires Valid()
      modifies this
      ensures Valid() && r == ReadHead(ARRAY, mem, old(pos))
      ensures r.Got? ==> pos == r.next
    {
      r := ReadHead(ARRAY, mem, pos);
      if r.Got? { pos := r.next; }
    }

    method DecodeMapLen() returns (r: Parse<nat>)
      requires Valid()
      modifies this
      ensures Valid() && r == ReadHead(MAP, mem, old(pos))
      ensures r.Got? ==> pos == r.next
    {
      r := ReadHead(MAP, mem, pos);
      if r.Got? { pos := r.next; }
    }

    // On any input at all the decoder terminates: every definition consumes at least one byte.
    method DecodeSchemaDef() returns (r: Parse<SchemaDef>)
      requires Valid()
      modifies this
      ensures Valid() && r == ParseDef(mem, old(pos))
      ensures r.Got? ==> pos == r.next
      decreases |mem| - pos, 0
    {
      if pos >= |mem| { return Bad; }
      var code := mem[pos];
      if Codes(STR, code) || Codes(BIN, code) {
        var s := DecodeString();
        if s.Bad? { return Bad; }
        return Got(Prim(TagOf(s.value)), pos);
      } else if Codes(ARRAY, code) {
        var n := DecodeArrayLen();
        if n.Bad? || n.value != 1 { return Bad; }
        var e := DecodeSchemaDef();
        if e.Bad? { return Bad; }
        return Got(Arr(e.value), pos);
      } else if Codes(MAP, code) {
        var n := DecodeMapLen();
        if n.Bad? { return Bad; }
        var fs := DecodeFields(n.value);
        if fs.Bad? { return Bad; }
        return Got(Obj(fs.value), pos);
      } else {
        return Bad;
      }
    }

    // The loop of the map arm.
    method DecodeFields(n: nat) returns (r: Parse<seq<FieldDef>>)
      requires Valid()
      modifies this
      ensures Valid() && r == ParseFields(mem, old(pos), n)
      ensures r.Got? ==> pos == r.next
      decreases |mem| - pos, 1
    {
      var fields: seq<FieldDef> := [];
      var i := 0;
      while i < n
        invariant 0 <= i <= n && Valid() && old(pos) <= pos
        invariant ParseFields(mem, old(pos), i) == Got(fields, pos)
      {
        ghost var at := pos;
        var key := DecodeString();
        if key.Bad? {
          assert ParseField(mem, at).Bad?;
          ParseFieldsStop(mem, old(pos), i, n);
          return Bad;
        }
        var typ := DecodeSchemaDef();
        if typ.Bad? {
          assert ParseField(mem, at).Bad?;
          ParseFieldsStop(mem, old(pos), i, n);
          return Bad;
        }
        assert ParseField(mem, at) == Got(FieldDef(key.value, typ.value), pos);
        fields := fields + [FieldDef(key.value, typ.value)];
        i := i + 1;
      }
      return Got(fields, pos);
    }
  }
}
