// The two-pass codec itself (protocol/schema.go): a size pass that fills a queue, an encode pass
// that writes a preallocated buffer through a shared offset and queue index, and a decode pass.
module SchemaCodec {
  import opened Bytes
  import opened SchemaTypes
  import opened Coerce
  import opened Positional
  import opened PositionalLaws

  class Queue {
    var blobs: seq<seq<byte>>
    constructor ()
      ensures blobs == []
    {
      blobs := [];
    }
  }

  class OffsetRef {
    var offset: nat
    constructor ()
      ensures offset == 0
    {
      offset := 0;
    }
  }

  class QueueIdx {
    var idx: nat
    constructor ()
      ensures idx == 0
    {
      idx := 0;
    }
  }

  // ---------------------------------------------------------------- prefixes of a loop

  lemma EncItemsSnoc(p: Platform, e: SchemaDef, xs: seq<Val>, i: nat)
    requires i < |xs|
    ensures EncItems(p, e, xs[..i + 1]) == EncItems(p, e, xs[..i]) + Enc(p, e, xs[i])
    ensures AllEncodable(p, e, xs[..i + 1]) <==> AllEncodable(p, e, xs[..i]) && Encodable(p, e, xs[i])
    ensures AllEncodable(p, e, xs[..i]) ==>
              PushedItems(p, e, xs[..i + 1]) == PushedItems(p, e, xs[..i]) + Pushed(p, e, xs[i])
  {
    assert xs[..i + 1][..i] == xs[..i];
    assert forall x <- xs[..i + 1] :: x in xs[..i] || x == xs[i];
  }

  // A loop over a prefix has written, and queued, a prefix of the whole.
  lemma {:induction false} ItemsPrefix(p: Platform, e: SchemaDef, xs: seq<Val>, i: nat)
    requires i <= |xs|
    ensures EncItems(p, e, xs[..i]) <= EncItems(p, e, xs)
    ensures PushedItems(p, e, xs[..i]) <= PushedItems(p, e, xs)
    decreases |xs| - i
  {
    if i == |xs| {
      assert xs[..i] == xs;
    } else {
      ItemsPrefix(p, e, xs, i + 1);
      assert xs[..i + 1][..i] == xs[..i];
    }
  }

  lemma FieldsSnoc(p: Platform, fs: seq<FieldDef>, v: Val, i: nat)
    requires i < |fs|
    ensures EncFields(p, fs[..i + 1], v) == EncFields(p, fs[..i], v) + Enc(p, fs[i].typ, FieldOf(v, fs[i].key))
    ensures FieldsEncodable(p, fs[..i + 1], v)
            <==> FieldsEncodable(p, fs[..i], v) && Encodable(p, fs[i].typ, FieldOf(v, fs[i].key))
    ensures FieldsEncodable(p, fs[..i], v) ==>
              PushedFields(p, fs[..i + 1], v) == PushedFields(p, fs[..i], v) + Pushed(p, fs[i].typ, FieldOf(v, fs[i].key))
  {
    assert fs[..i + 1][..i] == fs[..i];
    assert forall f <- fs[..i + 1] :: f in fs[..i] || f == fs[i];
  }

  lemma {:induction false} FieldsPrefix(p: Platform, fs: seq<FieldDef>, v: Val, i: nat)
    requires i <= |fs|
    ensures EncFields(p, fs[..i], v) <= EncFields(p, fs, v)
    ensures PushedFields(p, fs[..i], v) <= PushedFields(p, fs, v)
    decreases |fs| - i
  {
    if i == |fs| {
      assert fs[..i] == fs;
    } else {
      FieldsPrefix(p, fs, v, i + 1);
      assert fs[..i + 1][..i] == fs[..i];
    }
  }

  // Once an item fails, nothing after it is queued.
  lemma {:induction false} ItemsStop(p: Platform, e: SchemaDef, xs: seq<Val>, i: nat)
    requires i < |xs| && !Encodable(p, e, xs[i])
    ensures !AllEncodable(p, e, xs)
    ensures PushedItems(p, e, xs) == PushedItems(p, e, xs[..i + 1])
    decreases |xs|
  {
    if i + 1 == |xs| {
      assert xs[..i + 1] == xs;
    } else {
      var init := xs[..|xs| - 1];
      ItemsStop(p, e, init, i);
      assert init[..i + 1] == xs[..i + 1];
    }
  }

  lemma {:induction false} FieldsStop(p: Platform, fs: seq<FieldDef>, v: Val, i: nat)
    requires i < |fs| && !Encodable(p, fs[i].typ, FieldOf(v, fs[i].key))
    ensures !FieldsEncodable(p, fs, v)
    ensures PushedFields(p, fs, v) == PushedFields(p, fs[..i + 1], v)
    decreases |fs|
  {
    if i + 1 == |fs| {
      assert fs[..i + 1] == fs;
    } else {
      var init := fs[..|fs| - 1];
      FieldsStop(p, init, v, i);
      assert init[..i + 1] == fs[..i + 1];
    }
  }

  // ---------------------------------------------------------------- pass one

  // The size of the encoding, or None for an error. Either way the queue has grown by exactly
  // what the pass pushed before it stopped.
  method ComputeSize(p: Platform, def: SchemaDef, val: Val, queue: Queue) returns (size: Option<nat>)
    modifies queue
    ensures size.Some? <==> Encodable(p, def, val)
    ensures size.Some? ==> size.value == |Enc(p, def, val)|
    ensures queue.blobs == old(queue.blobs) + Pushed(p, def, val)
    decreases def, 0
  {
    match def
    case Prim(tag) =>
      size := ComputeLeafSize(p, tag, val, queue);
    case Arr(e) =>
      size := ComputeItemsSize(p, e, ToSlice(val), queue);
    case Obj(fs) =>
      size := ComputeFieldsSize(p, fs, val, queue);
    case Invalid =>
      size := None;
  }

  method ComputeLeafSize(p: Platform, tag: Tag, val: Val, queue: Queue) returns (size: Option<nat>)
    modifies queue
    ensures size.Some? <==> Encodable(p, Prim(tag), val)
    ensures size.Some? ==> size.value == |EncLeaf(p, tag, val)|
    ensures queue.blobs == old(queue.blobs) + Pushed(p, Prim(tag), val)
  {
    match tag {
      case Uint8Tag => return Some(1);
      case BooleanTag => return Some(1);
      case Uint16Tag => return Some(2);
      case Uint32Tag => return Some(4);
      case Int32Tag => return Some(4);
      case Float64Tag => return Some(8);
      case StringTag =>
        var b := ToStringVal(val);
        queue.blobs := queue.blobs + [b];
        return Some(4 + |b|);
      case BytesTag => return Some(4 + |ToBytesVal(val)|);
      case ObjectTag | ArrayTag | AnyTag =>
        var packed := p.marshal(val);
        if packed.None? { return None; }
        queue.blobs := queue.blobs + [packed.value];
        return Some(4 + |packed.value|);
      case UnknownTag(_) => return None;
    }
  }

  // After i elements, all of them accepted.
  ghost predicate ItemsSized(p: Platform, e: SchemaDef, arr: seq<Val>, i: nat, start: seq<seq<byte>>, blobs: seq<seq<byte>>, total: nat) {
    && i <= |arr| && AllEncodable(p, e, arr[..i])
    && total == 4 + |EncItems(p, e, arr[..i])|
    && blobs == start + PushedItems(p, e, arr[..i])
  }

  lemma SizeNextItem(p: Platform, e: SchemaDef, arr: seq<Val>, i: nat, start: seq<seq<byte>>, blobs: seq<seq<byte>>, total: nat)
    requires ItemsSized(p, e, arr, i, start, blobs, total) && i < |arr|
    ensures Encodable(p, e, arr[i]) ==>
              ItemsSized(p, e, arr, i + 1, start, blobs + Pushed(p, e, arr[i]), total + |Enc(p, e, arr[i])|)
    ensures !Encodable(p, e, arr[i]) ==>
              !AllEncodable(p, e, arr) && blobs + Pushed(p, e, arr[i]) == start + PushedItems(p, e, arr)
  {
    EncItemsSnoc(p, e, arr, i);
    Assoc(start, PushedItems(p, e, arr[..i]), Pushed(p, e, arr[i]));
    if !Encodable(p, e, arr[i]) { ItemsStop(p, e, arr, i); }
  }

  // The array arm: a count prefix and every element.
  method ComputeItemsSize(p: Platform, e: SchemaDef, arr: seq<Val>, queue: Queue) returns (size: Option<nat>)
    modifies queue
    ensures size.Some? <==> AllEncodable(p, e, arr)
    ensures size.Some? ==> size.value == 4 + |EncItems(p, e, arr)|
    ensures queue.blobs == old(queue.blobs) + PushedItems(p, e, arr)
    decreases e, 1
  {
    var total := 4;
    ghost var start := queue.blobs;
    var i := 0;
    while i < |arr|
      invariant ItemsSized(p, e, arr, i, start, queue.blobs, total)
    {
      SizeNextItem(p, e, arr, i, start, queue.blobs, total);
      var s := ComputeSize(p, e, arr[i], queue);
      if s.None? { return None; }
      total := total + s.value;
      i := i + 1;
    }
    assert arr[..i] == arr;
    return Some(total);
  }

  // After i fields, all of them accepted.
  ghost predicate FieldsSized(p: Platform, fs: seq<FieldDef>, val: Val, i: nat, start: seq<seq<byte>>, blobs: seq<seq<byte>>, total: nat) {
    && i <= |fs| && FieldsEncodable(p, fs[..i], val)
    && total == |EncFields(p, fs[..i], val)|
    && blobs == start + PushedFields(p, fs[..i], val)
  }

  lemma SizeNextField(p: Platform, fs: seq<FieldDef>, val: Val, i: nat, start: seq<seq<byte>>, blobs: seq<seq<byte>>, total: nat)
    requires FieldsSized(p, fs, val, i, start, blobs, total) && i < |fs|
    ensures Encodable(p, fs[i].typ, FieldOf(val, fs[i].key)) ==>
              FieldsSized(p, fs, val, i + 1, start, blobs + Pushed(p, fs[i].typ, FieldOf(val, fs[i].key)), total + |Enc(p, fs[i].typ, FieldOf(val, fs[i].key))|)
    ensures !Encodable(p, fs[i].typ, FieldOf(val, fs[i].key)) ==>
              !FieldsEncodable(p, fs, val) && blobs + Pushed(p, fs[i].typ, FieldOf(val, fs[i].key)) == start + PushedFields(p, fs, val)
  {
    FieldsSnoc(p, fs, val, i);
    Assoc(start, PushedFields(p, fs[..i], val), Pushed(p, fs[i].typ, FieldOf(val, fs[i].key)));
    if !Encodable(p, fs[i].typ, FieldOf(val, fs[i].key)) { FieldsStop(p, fs, val, i); }
  }

  // The object arm: every declared field, read off the value by key.
  method ComputeFieldsSize(p: Platform, fs: seq<FieldDef>, val: Val, queue: Queue) returns (size: Option<nat>)
    modifies queue
    ensures size.Some? <==> FieldsEncodable(p, fs, val)
    ensures size.Some? ==> size.value == |EncFields(p, fs, val)|
    ensures queue.blobs == old(queue.blobs) + PushedFields(p, fs, val)
    decreases fs, 1
  {
    var total := 0;
    ghost var start := queue.blobs;
    var i := 0;
    while i < |fs|
      invariant FieldsSized(p, fs, val, i, start, queue.blobs, total)
    {
      SizeNextField(p, fs, val, i, start, queue.blobs, total);
      var s := ComputeSize(p, fs[i].typ, FieldOf(val, fs[i].key), queue);
      if s.None? { return None; }
      total := total + s.value;
      i := i + 1;
    }
    assert fs[..i] == fs;
    return Some(total);
  }

  // ---------------------------------------------------------------- pass two

  lemma WrittenTwice(buf: seq<byte>, off: nat, a: seq<byte>, b: seq<byte>)
    requires off + |a| + |b| <= |buf|
    ensures Written(Written(buf, off, a), off + |a|, b) == Written(buf, off, a + b)
  {}

  // binary.BigEndian.PutUint16, PutUint32 and PutUint64: byte i is n shifted right by the bytes
  // still to come.
  method PutUint(buf: array<byte>, off: nat, n: nat, width: nat)
    requires off + width <= buf.Length
    modifies buf
    ensures buf[..] == Written(old(buf[..]), off, BE(n, width))
  {
    if width > 0 {
      PutUint(buf, off, n / 0x100, width - 1);
      buf[off + width - 1] := n % 0x100;
    }
  }

  // What the encode pass is handed: room for the encoding at off, and the queue standing at the
  // first blob this value pushed.
  ghost predicate QueuedAt(queue: seq<seq<byte>>, i: nat, blobs: seq<seq<byte>>) {
    i + |blobs| <= |queue| && queue[i..i + |blobs|] == blobs
  }

  lemma QueuedSplit(queue: seq<seq<byte>>, i: nat, a: seq<seq<byte>>, b: seq<seq<byte>>)
    requires QueuedAt(queue, i, a + b)
    ensures QueuedAt(queue, i, a) && QueuedAt(queue, i + |a|, b)
  {
    assert queue[i..i + |a|] == (a + b)[..|a|];
    assert queue[i + |a|..i + |a| + |b|] == (a + b)[|a|..];
  }

  method PutPrefixed(buf: array<byte>, off: OffsetRef, b: seq<byte>)
    requires off.offset + 4 + |b| <= buf.Length
    modifies buf, off
    ensures buf[..] == Written(old(buf[..]), old(off.offset), Prefixed(b))
    ensures off.offset == old(off.offset) + 4 + |b|
  {
    PutUint(buf, off.offset, |b|, 4);
    off.offset := off.offset + 4;
    CopyAt(buf, off.offset, b);
    off.offset := off.offset + |b|;
    WrittenTwice(old(buf[..]), old(off.offset), BE(|b|, 4), b);
  }

  // The fixed-width leaves.
  method EncodeFixed(p: Platform, tag: Tag, val: Val, buf: array<byte>, off: OffsetRef)
    requires tag in {Uint8Tag, BooleanTag, Uint16Tag, Uint32Tag, Int32Tag, Float64Tag}
    requires off.offset + |EncLeaf(p, tag, val)| <= buf.Length
    modifies buf, off
    ensures buf[..] == Written(old(buf[..]), old(off.offset), EncLeaf(p, tag, val))
    ensures off.offset == old(off.offset) + |EncLeaf(p, tag, val)|
  {
    Widths();
    match tag {
      case Uint8Tag =>
        BELow(ToUint64(p, val), 1);
        PutUint(buf, off.offset, ToUint64(p, val) % 0x100, 1);
        off.offset := off.offset + 1;
      case BooleanTag =>
        if ToBool(val) { buf[off.offset] := 1; } else { buf[off.offset] := 0; }
        off.offset := off.offset + 1;
      case Uint16Tag =>
        BELow(ToUint64(p, val), 2);
        PutUint(buf, off.offset, ToUint64(p, val) % 0x1_0000, 2);
        off.offset := off.offset + 2;
      case Uint32Tag =>
        BELow(ToUint64(p, val), 4);
        PutUint(buf, off.offset, ToUint64(p, val) % TWO_32, 4);
        off.offset := off.offset + 4;
      case Int32Tag =>
        PutUint(buf, off.offset, Wrap32(ToInt64(p, val)) % TWO_32, 4);
        off.offset := off.offset + 4;
      case Float64Tag =>
        PutUint(buf, off.offset, ToFloat64(p, val), 8);
        off.offset := off.offset + 8;
    }
  }

  method EncodeLeaf(p: Platform, tag: Tag, val: Val, buf: array<byte>, off: OffsetRef, queue: seq<seq<byte>>, qi: QueueIdx)
    requires Encodable(p, Prim(tag), val)
    requires off.offset + |EncLeaf(p, tag, val)| <= buf.Length
    requires QueuedAt(queue, qi.idx, Pushed(p, Prim(tag), val))
    modifies buf, off, qi
    ensures buf[..] == Written(old(buf[..]), old(off.offset), EncLeaf(p, tag, val))
    ensures off.offset == old(off.offset) + |EncLeaf(p, tag, val)|
    ensures qi.idx == old(qi.idx) + |Pushed(p, Prim(tag), val)|
  {
    match tag {
      case StringTag | ObjectTag | ArrayTag | AnyTag =>
        assert queue[qi.idx..qi.idx + 1][0] == Queued(p, tag, val);
        var enc := queue[qi.idx];
        qi.idx := qi.idx + 1;
        PutPrefixed(buf, off, enc);
      case BytesTag =>
        PutPrefixed(buf, off, ToBytesVal(val));
      case UnknownTag(_) =>
        assert false; // the silent fall-through is never taken
      case _ =>
        EncodeFixed(p, tag, val, buf, off);
    }
  }

  // The bytes from off on become the encoding of val and nothing else changes; the queue index
  // moves past exactly the blobs that the size pass pushed for val.
  method EncodeValue(p: Platform, def: SchemaDef, val: Val, buf: array<byte>, off: OffsetRef, queue: seq<seq<byte>>, qi: QueueIdx)
    requires Encodable(p, def, val)
    requires off.offset + |Enc(p, def, val)| <= buf.Length
    requires QueuedAt(queue, qi.idx, Pushed(p, def, val))
    modifies buf, off, qi
    ensures buf[..] == Written(old(buf[..]), old(off.offset), Enc(p, def, val))
    ensures off.offset == old(off.offset) + |Enc(p, def, val)|
    ensures qi.idx == old(qi.idx) + |Pushed(p, def, val)|
    decreases def, 0
  {
    match def {
      case Prim(tag) =>
        EncodeLeaf(p, tag, val, buf, off, queue, qi);
      case Arr(e) =>
        var arr := ToSlice(val);
        PutUint(buf, off.offset, |arr|, 4);
        off.offset := off.offset + 4;
        assert AllEncodable(p, e, arr);
        EncodeItems(p, e, arr, buf, off, queue, qi);
        WrittenTwice(old(buf[..]), old(off.offset), BE(|arr|, 4), EncItems(p, e, arr));
      case Obj(fs) =>
        assert FieldsEncodable(p, fs, val);
        EncodeFields(p, fs, val, buf, off, queue, qi);
      case Invalid =>
        assert false; // computeSize has already refused it
    }
  }

  // After i elements: their encodings stand from `at` on, their blobs are consumed.
  ghost predicate ItemsDone(p: Platform, e: SchemaDef, arr: seq<Val>, i: nat,
                            start: seq<byte>, at: nat, first: nat, buf: seq<byte>, off: nat, idx: nat) {
    && i <= |arr|
    && off == at + |EncItems(p, e, arr[..i])| <= |start|
    && buf == Written(start, at, EncItems(p, e, arr[..i]))
    && idx == first + |PushedItems(p, e, arr[..i])|
  }

  lemma PrefixFits(a: seq<byte>, b: seq<byte>, whole: seq<byte>)
    requires a + b <= whole
    ensures |a| + |b| <= |whole|
  {}

  lemma NextItemBytes(p: Platform, e: SchemaDef, arr: seq<Val>, i: nat, start: seq<byte>, at: nat)
    requires i < |arr| && at + |EncItems(p, e, arr)| <= |start|
    ensures var before, now := EncItems(p, e, arr[..i]), Enc(p, e, arr[i]);
            && EncItems(p, e, arr[..i + 1]) == before + now
            && at + |before| + |now| <= |start|
            && Written(Written(start, at, before), at + |before|, now) == Written(start, at, before + now)
  {
    hide *;
    EncItemsSnoc(p, e, arr, i);
    ItemsPrefix(p, e, arr, i + 1);
    PrefixFits(EncItems(p, e, arr[..i]), Enc(p, e, arr[i]), EncItems(p, e, arr));
    WrittenTwice(start, at, EncItems(p, e, arr[..i]), Enc(p, e, arr[i]));
  }

  lemma ItemEncodable(p: Platform, e: SchemaDef, arr: seq<Val>, i: nat)
    requires i < |arr| && AllEncodable(p, e, arr)
    ensures Encodable(p, e, arr[i]) && AllEncodable(p, e, arr[..i])
  {
    assert forall x <- arr[..i] :: x in arr;
  }

  lemma NextItemBlobs(p: Platform, e: SchemaDef, arr: seq<Val>, i: nat, queue: seq<seq<byte>>, first: nat)
    requires i < |arr| && AllEncodable(p, e, arr) && QueuedAt(queue, first, PushedItems(p, e, arr))
    ensures Encodable(p, e, arr[i])
    ensures var before, now := PushedItems(p, e, arr[..i]), Pushed(p, e, arr[i]);
            PushedItems(p, e, arr[..i + 1]) == before + now && QueuedAt(queue, first + |before|, now)
  {
    hide *;
    ItemEncodable(p, e, arr, i);
    EncItemsSnoc(p, e, arr, i);
    ItemsPrefix(p, e, arr, i + 1);
    QueuedNext(queue, first, PushedItems(p, e, arr[..i]), Pushed(p, e, arr[i]), PushedItems(p, e, arr));
  }

  lemma QueuedNext(queue: seq<seq<byte>>, first: nat, before: seq<seq<byte>>, now: seq<seq<byte>>, whole: seq<seq<byte>>)
    requires before + now <= whole && QueuedAt(queue, first, whole)
    ensures QueuedAt(queue, first + |before|, now)
  {
    QueuedPrefix(queue, first, before + now, whole);
    QueuedSplit(queue, first, before, now);
  }

  lemma NextItem(p: Platform, e: SchemaDef, arr: seq<Val>, i: nat, start: seq<byte>, at: nat, first: nat,
                 buf: seq<byte>, off: nat, queue: seq<seq<byte>>, idx: nat)
    requires ItemsDone(p, e, arr, i, start, at, first, buf, off, idx) && i < |arr|
    requires AllEncodable(p, e, arr) && at + |EncItems(p, e, arr)| <= |start|
    requires QueuedAt(queue, first, PushedItems(p, e, arr))
    ensures Encodable(p, e, arr[i])
    ensures off + |Enc(p, e, arr[i])| <= |buf|
    ensures QueuedAt(queue, idx, Pushed(p, e, arr[i]))
    ensures ItemsDone(p, e, arr, i + 1, start, at, first, Written(buf, off, Enc(p, e, arr[i])),
                      off + |Enc(p, e, arr[i])|, idx + |Pushed(p, e, arr[i])|)
  {
    hide Enc, EncItems, Pushed, PushedItems, Encodable, AllEncodable, QueuedAt, Written;
    NextItemBytes(p, e, arr, i, start, at);
    NextItemBlobs(p, e, arr, i, queue, first);
    WrittenLength(start, at, EncItems(p, e, arr[..i]));
  }

  lemma WrittenLength(buf: seq<byte>, off: nat, b: seq<byte>)
    requires off + |b| <= |buf|
    ensures |Written(buf, off, b)| == |buf|
  {}

  lemma NoItems(p: Platform, e: SchemaDef, arr: seq<Val>, start: seq<byte>, at: nat)
    requires at <= |start|
    ensures EncItems(p, e, arr[..0]) == [] && Written(start, at, []) == start
    ensures PushedItems(p, e, arr[..0]) == []
  {}

  lemma QueuedPrefix(queue: seq<seq<byte>>, i: nat, a: seq<seq<byte>>, b: seq<seq<byte>>)
    requires a <= b && QueuedAt(queue, i, b)
    ensures QueuedAt(queue, i, a)
  {
    assert b == a + b[|a|..];
    QueuedSplit(queue, i, a, b[|a|..]);
  }

  method EncodeItems(p: Platform, e: SchemaDef, arr: seq<Val>, buf: array<byte>, off: OffsetRef, queue: seq<seq<byte>>, qi: QueueIdx)
    requires AllEncodable(p, e, arr)
    requires off.offset + |EncItems(p, e, arr)| <= buf.Length
    requires QueuedAt(queue, qi.idx, PushedItems(p, e, arr))
    modifies buf, off, qi
    ensures buf[..] == Written(old(buf[..]), old(off.offset), EncItems(p, e, arr))
    ensures off.offset == old(off.offset) + |EncItems(p, e, arr)|
    ensures qi.idx == old(qi.idx) + |PushedItems(p, e, arr)|
    decreases e, 1
  {
    hide AllEncodable, Encodable, QueuedAt, Enc, EncItems, Pushed, PushedItems;
    ghost var start, at, first := buf[..], off.offset, qi.idx;
    NoItems(p, e, arr, start, at);
    var i := 0;
    while i < |arr|
      invariant ItemsDone(p, e, arr, i, start, at, first, buf[..], off.offset, qi.idx)
    {
      NextItem(p, e, arr, i, start, at, first, buf[..], off.offset, queue, qi.idx);
      EncodeValue(p, e, arr[i], buf, off, queue, qi);
      i := i + 1;
    }
    assert arr[..i] == arr;
  }

  // After i fields: their encodings stand from `at` on, their blobs are consumed.
  ghost predicate FieldsDone(p: Platform, fs: seq<FieldDef>, v: Val, i: nat,
                            start: seq<byte>, at: nat, first: nat, buf: seq<byte>, off: nat, idx: nat) {
    && i <= |fs|
    && off == at + |EncFields(p, fs[..i], v)| <= |start|
    && buf == Written(start, at, EncFields(p, fs[..i], v))
    && idx == first + |PushedFields(p, fs[..i], v)|
  }

  lemma NextField(p: Platform, fs: seq<FieldDef>, v: Val, i: nat, start: seq<byte>, at: nat, first: nat,
                  buf: seq<byte>, off: nat, queue: seq<seq<byte>>, idx: nat)
    requires FieldsDone(p, fs, v, i, start, at, first, buf, off, idx) && i < |fs|
    requires FieldsEncodable(p, fs, v) && at + |EncFields(p, fs, v)| <= |start|
    requires QueuedAt(queue, first, PushedFields(p, fs, v))
    ensures var typ, x := fs[i].typ, FieldOf(v, fs[i].key);
            Encodable(p, typ, x) && off + |Enc(p, typ, x)| <= |buf| && QueuedAt(queue, idx, Pushed(p, typ, x))
  {
    hide Enc, EncFields, Pushed, PushedFields, FieldsEncodable, Encodable, Written, FieldOf, QueuedAt;
    NextFieldFits(p, fs, v, i);
    WrittenLength(start, at, EncFields(p, fs[..i], v));
    NextFieldBlobs(p, fs, v, i, queue, first);
  }

  lemma NoFields(p: Platform, fs: seq<FieldDef>, v: Val, start: seq<byte>, at: nat)
    requires at <= |start|
    ensures EncFields(p, fs[..0], v) == [] && Written(start, at, []) == start
    ensures PushedFields(p, fs[..0], v) == []
  {}

  lemma FieldEncodable(p: Platform, fs: seq<FieldDef>, v: Val, i: nat)
    requires i < |fs| && FieldsEncodable(p, fs, v)
    ensures Encodable(p, fs[i].typ, FieldOf(v, fs[i].key))
  {
    assert fs[i] in fs;
  }

  lemma NextFieldFits(p: Platform, fs: seq<FieldDef>, v: Val, i: nat)
    requires i < |fs| && FieldsEncodable(p, fs, v)
    ensures |EncFields(p, fs[..i], v)| + |Enc(p, fs[i].typ, FieldOf(v, fs[i].key))| <= |EncFields(p, fs, v)|
  {
    hide *;
    FieldsEncodablePrefix(p, fs, v, i);
    FieldsSnoc(p, fs, v, i);
    FieldsPrefix(p, fs, v, i + 1);
    PrefixFits(EncFields(p, fs[..i], v), Enc(p, fs[i].typ, FieldOf(v, fs[i].key)), EncFields(p, fs, v));
  }

  lemma NextFieldBlobs(p: Platform, fs: seq<FieldDef>, v: Val, i: nat, queue: seq<seq<byte>>, first: nat)
    requires i < |fs| && FieldsEncodable(p, fs, v) && QueuedAt(queue, first, PushedFields(p, fs, v))
    ensures var typ, x := fs[i].typ, FieldOf(v, fs[i].key);
            Encodable(p, typ, x) && QueuedAt(queue, first + |PushedFields(p, fs[..i], v)|, Pushed(p, typ, x))
  {
    hide *;
    FieldEncodable(p, fs, v, i);
    FieldsEncodablePrefix(p, fs, v, i);
    FieldsSnoc(p, fs, v, i);
    FieldsPrefix(p, fs, v, i + 1);
    QueuedPrefix(queue, first, PushedFields(p, fs[..i + 1], v), PushedFields(p, fs, v));
    QueuedSplit(queue, first, PushedFields(p, fs[..i], v), Pushed(p, fs[i].typ, FieldOf(v, fs[i].key)));
  }

  lemma FieldsEncodablePrefix(p: Platform, fs: seq<FieldDef>, v: Val, i: nat)
    requires i <= |fs| && FieldsEncodable(p, fs, v)
    ensures FieldsEncodable(p, fs[..i], v)
  {}

  lemma FieldDone(p: Platform, fs: seq<FieldDef>, v: Val, i: nat, start: seq<byte>, at: nat, first: nat,
                  buf: seq<byte>, off: nat, idx: nat)
    requires FieldsDone(p, fs, v, i, start, at, first, buf, off, idx) && i < |fs|
    requires FieldsEncodable(p, fs[..i], v)
    requires off + |Enc(p, fs[i].typ, FieldOf(v, fs[i].key))| <= |start|
    ensures var typ, x := fs[i].typ, FieldOf(v, fs[i].key);
            FieldsDone(p, fs, v, i + 1, start, at, first, Written(buf, off, Enc(p, typ, x)),
                       off + |Enc(p, typ, x)|, idx + |Pushed(p, typ, x)|)
  {
    hide Enc, EncFields, Pushed, PushedFields, FieldsEncodable, Encodable, Written, FieldOf;
    FieldsSnoc(p, fs, v, i);
    WrittenLength(start, at, EncFields(p, fs[..i], v));
    WrittenTwice(start, at, EncFields(p, fs[..i], v), Enc(p, fs[i].typ, FieldOf(v, fs[i].key)));
  }

  method EncodeFields(p: Platform, fs: seq<FieldDef>, v: Val, buf: array<byte>, off: OffsetRef, queue: seq<seq<byte>>, qi: QueueIdx)
    requires FieldsEncodable(p, fs, v)
    requires off.offset + |EncFields(p, fs, v)| <= buf.Length
    requires QueuedAt(queue, qi.idx, PushedFields(p, fs, v))
    modifies buf, off, qi
    ensures buf[..] == Written(old(buf[..]), old(off.offset), EncFields(p, fs, v))
    ensures off.offset == old(off.offset) + |EncFields(p, fs, v)|
    ensures qi.idx == old(qi.idx) + |PushedFields(p, fs, v)|
    decreases fs, 1
  {
    hide FieldsEncodable, Encodable, QueuedAt, Enc, EncFields, Pushed, PushedFields, FieldOf;
    ghost var start, at, first := buf[..], off.offset, qi.idx;
    NoFields(p, fs, v, start, at);
    var i := 0;
    while i < |fs|
      invariant FieldsDone(p, fs, v, i, start, at, first, buf[..], off.offset, qi.idx)
    {
      NextField(p, fs, v, i, start, at, first, buf[..], off.offset, queue, qi.idx);
      FieldsEncodablePrefix(p, fs, v, i);
      FieldDone(p, fs, v, i, start, at, first, buf[..], off.offset, qi.idx);
      EncodeValue(p, fs[i].typ, FieldOf(v, fs[i].key), buf, off, queue, qi);
      i := i + 1;
    }
    assert fs[..i] == fs;
  }

  // ---------------------------------------------------------------- the public operations

  // Encoding fails exactly when the size pass does; otherwise the result is the specified bytes.
  method EncodePayload(p: Platform, schema: Schema, payload: Val) returns (r: Option<seq<byte>>)
    ensures r.Some? <==> Encodable(p, schema.definition, payload)
    ensures r.Some? ==> r.value == Enc(p, schema.definition, payload)
  {
    var queue := new Queue();
    var size := ComputeSize(p, schema.definition, payload, queue);
    if size.None? { return None; }
    var buf := new byte[size.value](_ => 0);
    var off := new OffsetRef();
    var qi := new QueueIdx();
    EncodeValue(p, schema.definition, payload, buf, off, queue.blobs, qi);
    assert off.offset == buf.Length && qi.idx == |queue.blobs|;
    return Some(buf[..]);
  }

  // ---------------------------------------------------------------- decoding

  // Each decode method leaves the shared offset right after what it read. On an error or a panic
  // the offset is abandoned by every caller.
  method DecodeLeaf(p: Platform, tag: Tag, mem: seq<byte>, len: nat, off: OffsetRef) returns (r: Outcome<Val>)
    requires len <= |mem|
    modifies off
    ensures r == DecLeaf(p, tag, mem, len, old(off.offset))
    ensures r.Done? ==> off.offset == r.next
  {
    match tag {
      case Uint8Tag => r := DecodeUint(U8, mem, len, off, 1);
      case Uint16Tag => r := DecodeUint(U16, mem, len, off, 2);
      case Uint32Tag => r := DecodeUint(U32, mem, len, off, 4);
      case BooleanTag =>
        var n := ReadUint(mem, len, off.offset, 1);
        if n.None? { return Panicked; }
        off.offset := off.offset + 1;
        return Done(Bool(n.value != 0), off.offset);
      case Int32Tag =>
        var n := ReadUint(mem, len, off.offset, 4);
        if n.None? { return Panicked; }
        off.offset := off.offset + 4;
        return Done(Num(I32, Wrap32(n.value)), off.offset);
      case Float64Tag =>
        var n := ReadUint(mem, len, off.offset, 8);
        if n.None? { return Panicked; }
        off.offset := off.offset + 8;
        return Done(Float64(n.value), off.offset);
      case StringTag =>
        var b := DecodePrefixed(mem, len, off);
        if !b.Done? { return Panicked; }
        return Done(Str(b.value), off.offset);
      case BytesTag =>
        var b := DecodePrefixed(mem, len, off);
        if !b.Done? { return Panicked; }
        return Done(Blob(b.value), off.offset);
      case ObjectTag | ArrayTag | AnyTag =>
        var b := DecodePrefixed(mem, len, off);
        if !b.Done? { return Panicked; }
        var v := p.unmarshal(b.value);
        if v.None? { return Failed; }
        return Done(v.value, off.offset);
      case UnknownTag(_) =>
        return Failed;
    }
  }

  method DecodeUint(kind: IntKind, mem: seq<byte>, len: nat, off: OffsetRef, width: nat) returns (r: Outcome<Val>)
    requires len <= |mem|
    modifies off
    ensures r == DecUint(kind, mem, len, old(off.offset), width)
    ensures r.Done? ==> off.offset == r.next
  {
    var n := ReadUint(mem, len, off.offset, width);
    if n.None? { return Panicked; }
    off.offset := off.offset + width;
    return Done(Num(kind, n.value), off.offset);
  }

  method DecodePrefixed(mem: seq<byte>, len: nat, off: OffsetRef) returns (r: Outcome<seq<byte>>)
    requires len <= |mem|
    modifies off
    ensures r == DecPrefixed(mem, len, old(off.offset))
    ensures r.Done? ==> off.offset == r.next
  {
    var n := ReadUint(mem, len, off.offset, 4);
    if n.None? { return Panicked; }
    off.offset := off.offset + 4;
    if off.offset + n.value > |mem| { return Panicked; }
    var b := mem[off.offset..off.offset + n.value];
    off.offset := off.offset + n.value;
    return Done(b, off.offset);
  }

  method DecodeValue(p: Platform, def: SchemaDef, mem: seq<byte>, len: nat, off: OffsetRef) returns (r: Outcome<Val>)
    requires len <= |mem|
    modifies off
    ensures r == Dec(p, def, mem, len, old(off.offset))
    ensures r.Done? ==> off.offset == r.next
    decreases def, 0
  {
    match def {
      case Prim(tag) =>
        r := DecodeLeaf(p, tag, mem, len, off);
      case Arr(e) =>
        var n := ReadUint(mem, len, off.offset, 4);
        if n.None? { return Panicked; }
        off.offset := off.offset + 4;
        var items := DecodeItems(p, e, mem, len, off, n.value);
        match items {
          case Done(arr, _) => r := Done(List(arr), off.offset);
          case Failed => r := Failed;
          case Panicked => r := Panicked;
        }
      case Obj(fs) =>
        var entries := DecodeFields(p, fs, mem, len, off);
        match entries {
          case Done(m, _) => r := Done(Map(m), off.offset);
          case Failed => r := Failed;
          case Panicked => r := Panicked;
        }
      case Invalid =>
        r := Failed;
    }
  }

  // A failing element ends the loop, whatever the elements after it hold.
  lemma {:induction false} DecItemsStop(p: Platform, e: SchemaDef, mem: seq<byte>, len: nat, off: nat, i: nat, n: nat)
    requires len <= |mem| && i < n && DecItems(p, e, mem, len, off, i).Done?
    requires !Dec(p, e, mem, len, DecItems(p, e, mem, len, off, i).next).Done?
    ensures var bad := Dec(p, e, mem, len, DecItems(p, e, mem, len, off, i).next);
            DecItems(p, e, mem, len, off, n) == if bad.Failed? then Failed else Panicked
    decreases n
  {
    if i + 1 < n { DecItemsStop(p, e, mem, len, off, i, n - 1); }
  }

  method DecodeItems(p: Platform, e: SchemaDef, mem: seq<byte>, len: nat, off: OffsetRef, n: nat) returns (r: Outcome<seq<Val>>)
    requires len <= |mem|
    modifies off
    ensures r == DecItems(p, e, mem, len, old(off.offset), n)
    ensures r.Done? ==> off.offset == r.next
    decreases e, 1
  {
    var arr: seq<Val> := [];
    var i := 0;
    while i < n
      invariant 0 <= i <= n
      invariant DecItems(p, e, mem, len, old(off.offset), i) == Done(arr, off.offset)
    {
      ghost var k := off.offset;
      var v := DecodeValue(p, e, mem, len, off);
      match v {
        case Done(x, k') =>
          DecItemsStep(p, e, mem, len, old(off.offset), i, arr, k, x, k');
          arr := arr + [x];
        case Failed => DecItemsStop(p, e, mem, len, old(off.offset), i, n); return Failed;
        case Panicked => DecItemsStop(p, e, mem, len, old(off.offset), i, n); return Panicked;
      }
      i := i + 1;
    }
    return Done(arr, off.offset);
  }

  lemma {:induction false} DecFieldsStop(p: Platform, fs: seq<FieldDef>, mem: seq<byte>, len: nat, off: nat, i: nat)
    requires len <= |mem| && i < |fs| && DecFields(p, fs[..i], mem, len, off).Done?
    requires !Dec(p, fs[i].typ, mem, len, DecFields(p, fs[..i], mem, len, off).next).Done?
    ensures var bad := Dec(p, fs[i].typ, mem, len, DecFields(p, fs[..i], mem, len, off).next);
            DecFields(p, fs, mem, len, off) == if bad.Failed? then Failed else Panicked
    decreases |fs|
  {
    if i + 1 < |fs| {
      var init := fs[..|fs| - 1];
      assert init[..i] == fs[..i];
      DecFieldsStop(p, init, mem, len, off, i);
    } 
  }

  method DecodeFields(p: Platform, fs: seq<FieldDef>, mem: seq<byte>, len: nat, off: OffsetRef) returns (r: Outcome<map<GoString, Val>>)
    requires len <= |mem|
    modifies off
    ensures r == DecFields(p, fs, mem, len, old(off.offset))
    ensures r.Done? ==> off.offset == r.next
    decreases fs, 1
  {
    var obj: map<GoString, Val> := map[];
    var i := 0;
    while i < |fs|
      invariant 0 <= i <= |fs|
      invariant DecFields(p, fs[..i], mem, len, old(off.offset)) == Done(obj, off.offset)
    {
      ghost var k := off.offset;
      var v := DecodeValue(p, fs[i].typ, mem, len, off);
      match v {
        case Done(x, k') =>
          assert fs[..i + 1][..i] == fs[..i];
          DecFieldsStep(p, fs[..i + 1], mem, len, old(off.offset), obj, k, x, k');
          obj := obj[fs[i].key := x];
        case Failed => DecFieldsStop(p, fs, mem, len, old(off.offset), i); return Failed;
        case Panicked => DecFieldsStop(p, fs, mem, len, old(off.offset), i); return Panicked;
      }
      i := i + 1;
    }
    assert fs[..i] == fs;
    return Done(obj, off.offset);
  }

  method DecodePayload(p: Platform, schema: Schema, mem: seq<byte>, len: nat) returns (r: Outcome<Val>)
    requires len <= |mem|
    ensures r == Dec(p, schema.definition, mem, len, 0)
  {
    var off := new OffsetRef();
    r := DecodeValue(p, schema.definition, mem, len, off);
  }
}
