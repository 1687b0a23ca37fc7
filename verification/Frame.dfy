// The frame layout [type:1][nspLen:1][nsp][eventLen:1][event][ackId:4][payload...]
// (protocol/encoder.go, protocol/decoder.go).
module Frame {
  import opened Bytes

  const FRAME_CONNECT: byte := 0x01
  const FRAME_EVENT: byte := 0x02
  const FRAME_ACK: byte := 0x03
  const FRAME_PING: byte := 0x04
  const FRAME_PONG: byte := 0x05
  const FRAME_JOIN: byte := 0x06
  const FRAME_LEAVE: byte := 0x07

  datatype Header = Header(typ: byte, nsp: GoString, event: GoString, ackID: nat)

  // A frame as the decoder hands it on: its header and the raw payload behind it.
  datatype Packet = Packet(header: Header, payload: seq<byte>)

  // An empty namespace is sent as "/".
  function WireNsp(nsp: GoString): GoString {
    if nsp == [] then Ascii("/") else nsp
  }

  // Name lengths travel as byte(len(name)).
  function LenByte(s: seq<byte>): byte {
    |s| % 0x100
  }

  function PrintFrame(f: Packet): seq<byte> {
    var nsp := WireNsp(f.header.nsp);
    [f.header.typ] + [LenByte(nsp)] + nsp + [LenByte(f.header.event)] + f.header.event + BE(f.header.ackID, 4) + f.payload
  }

  // ---------------------------------------------------------------- printing

  lemma WrittenFront(buf: seq<byte>, off: nat, b: seq<byte>, done: seq<byte>)
    requires off + |b| <= |buf| && buf[..off] == done
    ensures Written(buf, off, b)[..off + |b|] == done + b
  {}

  // The buffer is filled front to back; `done` is what stands before off.
  method Append(buf: array<byte>, off: nat, b: seq<byte>, ghost done: seq<byte>) returns (next: nat)
    requires off + |b| <= buf.Length && buf[..off] == done
    modifies buf
    ensures next == off + |b| && buf[..next] == done + b
  {
    CopyAt(buf, off, b);
    next := off + |b|;
    WrittenFront(old(buf[..]), off, b, done);
    assert buf[..next] == Written(old(buf[..]), off, b)[..next];
  }

  method EncodeFrame(header: Header, payloadBytes: seq<byte>) returns (buf: array<byte>)
    requires header.ackID < TWO_32
    ensures fresh(buf) && buf[..] == PrintFrame(Packet(header, payloadBytes))
  {
    var nspBytes := WireNsp(header.nsp);
    var eventBytes := header.event;
    var frameSize := 1 + 1 + |nspBytes| + 1 + |eventBytes| + 4 + |payloadBytes|;
    buf := new byte[frameSize](_ => 0);
    ghost var whole := PrintFrame(Packet(header, payloadBytes));
    assert |whole| == frameSize;
    assert whole == [header.typ] + [|nspBytes| % 0x100] + nspBytes + [|eventBytes| % 0x100] + eventBytes + BE(header.ackID, 4) + payloadBytes;
    hide *;
    var off := 0;
    off := Append(buf, off, [header.typ], []);
    ghost var done := [header.typ];
    assert [] + [header.typ] == [header.typ];
    off := Append(buf, off, [|nspBytes| % 0x100], done);
    done := done + [|nspBytes| % 0x100];
    off := Append(buf, off, nspBytes, done);
    done := done + nspBytes;
    off := Append(buf, off, [|eventBytes| % 0x100], done);
    done := done + [|eventBytes| % 0x100];
    off := Append(buf, off, eventBytes, done);
    done := done + eventBytes;
    off := Append(buf, off, BE(header.ackID, 4), done);
    done := done + BE(header.ackID, 4);
    if |payloadBytes| > 0 {
      off := Append(buf, off, payloadBytes, done);
    }
    done := done + payloadBytes;
    assert buf[..] == buf[..off];
  }

  // ---------------------------------------------------------------- parsing

  // One length-prefixed name at off.
  function ReadName(raw: seq<byte>, off: nat): (r: Option<GoString>)
    ensures r.Some? ==> off + 1 + |r.value| <= |raw| && |r.value| <= 0xFF
  {
    if |raw| < off + 1 || |raw| < off + 1 + raw[off] then None
    else Some(raw[off + 1..off + 1 + raw[off]])
  }

  function ParseFrame(raw: seq<byte>): Option<Packet> {
    if |raw| < 1 then None else
      match ReadName(raw, 1)
      case None => None
      case Some(nsp) =>
        var at := 2 + |nsp|;
        match ReadName(raw, at)
        case None => None
        case Some(event) =>
          var off := at + 1 + |event|;
          if |raw| < off + 4 then None
          else Some(Packet(Header(raw[0], nsp, event, FromBE(raw[off..off + 4])), raw[off + 4..]))
  }

  // Every read is checked first, so no input makes it go out of range.
  method DecodeFrameHeader(raw: seq<byte>) returns (r: Option<Packet>)
    ensures r == ParseFrame(raw)
  {
    var off := 0;
    if |raw| < off + 1 { return None; }
    var typ := raw[off];
    off := off + 1;

    if |raw| < off + 1 { return None; }
    var nspLen: nat := raw[off];
    off := off + 1;
    if |raw| < off + nspLen { return None; }
    var nsp := raw[off..off + nspLen];
    off := off + nspLen;

    if |raw| < off + 1 { return None; }
    var eventLen: nat := raw[off];
    off := off + 1;
    if |raw| < off + eventLen { return None; }
    var event := raw[off..off + eventLen];
    off := off + eventLen;

    if |raw| < off + 4 { return None; }
    var ackID := FromBE(raw[off..off + 4]);
    off := off + 4;
    return Some(Packet(Header(typ, nsp, event, ackID), raw[off..]));
  }

  // ---------------------------------------------------------------- inverse in both directions

  lemma ReadNameHeld(raw: seq<byte>, off: nat, name: GoString)
    requires |name| <= 0xFF && Holds(raw, off, [LenByte(name)] + name)
    ensures ReadName(raw, off) == Some(name)
  {
    HoldsSplit(raw, off, [LenByte(name)], name);
    HoldsSlice(raw, off + 1, name);
    assert raw[off + 0] == [LenByte(name)][0] == |name|;
  }

  // raw carries exactly the given fields, at the offsets their lengths dictate.
  ghost predicate Carries(raw: seq<byte>, typ: byte, nsp: GoString, event: GoString, ack: seq<byte>, payload: seq<byte>) {
    var at := 2 + |nsp|;
    var off := at + 1 + |event|;
    && |ack| == 4 && |raw| == off + 4 + |payload|
    && raw[0] == typ
    && Holds(raw, 1, [LenByte(nsp)] + nsp)
    && Holds(raw, at, [LenByte(event)] + event)
    && Holds(raw, off, ack)
    && Holds(raw, off + 4, payload)
  }

  lemma FrameParts(f: Packet)
    ensures Carries(PrintFrame(f), f.header.typ, WireNsp(f.header.nsp), f.header.event, BE(f.header.ackID, 4), f.payload)
  {
    var raw, nsp := PrintFrame(f), WireNsp(f.header.nsp);
    var first, second := [LenByte(nsp)] + nsp, [LenByte(f.header.event)] + f.header.event;
    var ack := BE(f.header.ackID, 4);
    assert raw == [f.header.typ] + (first + (second + (ack + f.payload)));
    assert Holds(raw, 0, raw);
    HoldsSplit(raw, 0, [f.header.typ], first + (second + (ack + f.payload)));
    HoldsSplit(raw, 1, first, second + (ack + f.payload));
    HoldsSplit(raw, 1 + |first|, second, ack + f.payload);
    HoldsSplit(raw, 1 + |first| + |second|, ack, f.payload);
    assert raw[0 + 0] == [f.header.typ][0];
  }

  // The fields determine the bytes.
  lemma CarriesSame(raw: seq<byte>, raw': seq<byte>, typ: byte, nsp: GoString, event: GoString, ack: seq<byte>, payload: seq<byte>)
    requires Carries(raw, typ, nsp, event, ack, payload) && Carries(raw', typ, nsp, event, ack, payload)
    ensures raw == raw'
  {
    var at := 2 + |nsp|;
    var off := at + 1 + |event|;
    var first, second := [LenByte(nsp)] + nsp, [LenByte(event)] + event;
    forall i | 0 <= i < |raw|
      ensures raw[i] == raw'[i]
    {
      if i == 0 {
      } else if i < at {
        assert raw[1 + (i - 1)] == first[i - 1] == raw'[1 + (i - 1)];
      } else if i < off {
        assert raw[at + (i - at)] == second[i - at] == raw'[at + (i - at)];
      } else if i < off + 4 {
        assert raw[off + (i - off)] == ack[i - off] == raw'[off + (i - off)];
      } else {
        var j := i - (off + 4);
        assert raw[off + 4 + j] == payload[j] == raw'[off + 4 + j];
      }
    }
  }

  // What the receiver is meant to see: the frame with an empty namespace read as "/".
  function Received(f: Packet): Packet {
    f.(header := f.header.(nsp := WireNsp(f.header.nsp)))
  }

  predicate NamesFit(f: Packet) {
    |f.header.nsp| <= 0xFF && |f.header.event| <= 0xFF
  }

  lemma CarriesParses(raw: seq<byte>, header: Header, payload: seq<byte>)
    requires Carries(raw, header.typ, header.nsp, header.event, BE(header.ackID, 4), payload)
    requires |header.nsp| <= 0xFF && |header.event| <= 0xFF && header.ackID < TWO_32
    ensures ParseFrame(raw) == Some(Packet(header, payload))
  {
    ReadNameHeld(raw, 1, header.nsp);
    ReadNameHeld(raw, 2 + |header.nsp|, header.event);
    var off := 3 + |header.nsp| + |header.event|;
    HoldsSlice(raw, off, BE(header.ackID, 4));
    HoldsSlice(raw, off + 4, payload);
    Widths();
    FromBEofBE(header.ackID, 4);
    hide *;
    assert raw[off + 4..] == raw[off + 4..off + 4 + |payload|];
  }

  // A frame arrives as it was sent exactly when both names fit their one-byte lengths.
  lemma FrameRoundTrip(f: Packet)
    requires f.header.ackID < TWO_32
    ensures ParseFrame(PrintFrame(f)) == Some(Received(f)) <==> NamesFit(f)
  {
    var raw := PrintFrame(f);
    assert |WireNsp(f.header.nsp)| <= 0xFF <==> |f.header.nsp| <= 0xFF;
    FrameParts(f);
    hide ParseFrame, PrintFrame, Carries, WireNsp;
    if NamesFit(f) {
      CarriesParses(raw, Received(f).header, f.payload);
    } else if ParseFrame(raw) == Some(Received(f)) {
      ParsedBounds(raw);
    }
  }

  lemma ReadNameHolds(raw: seq<byte>, off: nat)
    requires ReadName(raw, off).Some?
    ensures var name := ReadName(raw, off).value; Holds(raw, off, [LenByte(name)] + name)
  {}

  // Printing a parsed frame reproduces the input exactly when its namespace was not empty.
  lemma FrameReprint(raw: seq<byte>)
    requires ParseFrame(raw).Some?
    ensures PrintFrame(ParseFrame(raw).value) == raw <==> ParseFrame(raw).value.header.nsp != []
  {
    var f := ParseFrame(raw).value;
    var nsp, event := f.header.nsp, f.header.event;
    FrameParts(f);
    ParsedCarries(raw);
    if nsp != [] {
      assert WireNsp(nsp) == nsp;
      hide *;
      CarriesSame(PrintFrame(f), raw, f.header.typ, nsp, event, BE(f.header.ackID, 4), f.payload);
    } else {
      var printed := PrintFrame(f);
      assert WireNsp(nsp) == Ascii("/") && |Ascii("/")| == 1;
      hide ParseFrame, PrintFrame, Holds;
      assert |printed| == |raw| + 1;
    }
  }

  // A parsed message carries the fields that were read out of it.
  lemma ParsedCarries(raw: seq<byte>)
    requires ParseFrame(raw).Some?
    ensures var f := ParseFrame(raw).value;
            Carries(raw, f.header.typ, f.header.nsp, f.header.event, BE(f.header.ackID, 4), f.payload)
  {
    var f := ParseFrame(raw).value;
    var nsp, event := f.header.nsp, f.header.event;
    var off := 3 + |nsp| + |event|;
    BEofFromBE(raw[off..off + 4]);
    ReadNameHolds(raw, 1);
    ReadNameHolds(raw, 2 + |nsp|);
  }

  // What each byte of a printed frame is, if both names fit.
  lemma FrameLayout(f: Packet)
    requires NamesFit(f) && f.header.nsp != []
    ensures var raw, nsp, event := PrintFrame(f), f.header.nsp, f.header.event;
            && |raw| == 7 + |nsp| + |event| + |f.payload|
            && raw[0] == f.header.typ
            && raw[1] == |nsp| && raw[2..2 + |nsp|] == nsp
            && raw[2 + |nsp|] == |event| && raw[3 + |nsp|..3 + |nsp| + |event|] == event
            && raw[3 + |nsp| + |event|..7 + |nsp| + |event|] == BE(f.header.ackID, 4)
            && raw[7 + |nsp| + |event|..] == f.payload
  {
    FrameParts(f);
    assert WireNsp(f.header.nsp) == f.header.nsp;
    hide *;
    CarriedLayout(PrintFrame(f), f.header.typ, f.header.nsp, f.header.event, BE(f.header.ackID, 4), f.payload);
  }

  lemma CarriedLayout(raw: seq<byte>, typ: byte, nsp: GoString, event: GoString, ack: seq<byte>, payload: seq<byte>)
    requires Carries(raw, typ, nsp, event, ack, payload) && |nsp| <= 0xFF && |event| <= 0xFF
    ensures |raw| == 7 + |nsp| + |event| + |payload| && raw[0] == typ
    ensures raw[1] == |nsp| && raw[2..2 + |nsp|] == nsp
    ensures raw[2 + |nsp|] == |event| && raw[3 + |nsp|..3 + |nsp| + |event|] == event
    ensures raw[3 + |nsp| + |event|..7 + |nsp| + |event|] == ack && raw[7 + |nsp| + |event|..] == payload
  {
    var at := 3 + |nsp| + |event|;
    NameLayout(raw, 1, nsp);
    NameLayout(raw, 2 + |nsp|, event);
    HoldsSlice(raw, at, ack);
    HoldsSlice(raw, at + 4, payload);
    hide Holds;
    assert raw[at + 4..] == raw[at + 4..at + 4 + |payload|];
  }

  lemma NameLayout(raw: seq<byte>, off: nat, name: GoString)
    requires |name| <= 0xFF && Holds(raw, off, [LenByte(name)] + name)
    ensures off + 1 + |name| <= |raw| && raw[off] == |name| && raw[off + 1..off + 1 + |name|] == name
  {
    ReadNameHeld(raw, off, name);
  }

  // A message is refused exactly when it ends before its names and its id do.
  lemma RefusedExactly(raw: seq<byte>)
    ensures ParseFrame(raw).None? <==>
              |raw| < 2 || var n: nat := raw[1];
              |raw| < n + 3 || var m: nat := raw[n + 2];
              |raw| < n + m + 7
  {}

  // Parsed headers stay within what the layout can carry.
  lemma ParsedBounds(raw: seq<byte>)
    requires ParseFrame(raw).Some?
    ensures NamesFit(ParseFrame(raw).value) && ParseFrame(raw).value.header.ackID < TWO_32
  {
    var f := ParseFrame(raw).value;
    var off := 3 + |f.header.nsp| + |f.header.event|;
    Widths();
    BEofFromBE(raw[off..off + 4]);
  }
}
