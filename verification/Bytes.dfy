// Bytes, Go strings and fixed-width big-endian integers, as encoding/binary lays them out.
module Bytes {

  type byte = x: int | 0 <= x < 0x100

  // A Go string is an immutable sequence of bytes.
  type GoString = seq<byte>

  const TWO_32: nat := 0x1_0000_0000
  const TWO_64: nat := 0x1_0000_0000_0000_0000

  datatype Option<+T> = None | Some(value: T)

  // The bytes of a Go string literal made of ASCII characters.
  function Ascii(s: string): (r: GoString)
    ensures |r| == |s|
  {
    seq(|s|, i requires 0 <= i < |s| => (s[i] as int) % 0x100)
  }

  function Pow256(k: nat): (r: nat)
    ensures r >= 1
  {
    if k == 0 then 1 else 0x100 * Pow256(k - 1)
  }

  // The low `width` bytes of n, most significant first.
  function BE(n: nat, width: nat): (r: seq<byte>)
    ensures |r| == width
  {
    if width == 0 then [] else BE(n / 0x100, width - 1) + [n % 0x100]
  }

  // The number whose big-endian digits are s.
  function FromBE(s: seq<byte>): nat {
    if s == [] then 0 else FromBE(s[..|s| - 1]) * 0x100 + s[|s| - 1]
  }

  lemma {:induction false} FromBEofBE(n: nat, width: nat)
    requires n < Pow256(width)
    ensures FromBE(BE(n, width)) == n
  {
    if width > 0 {
      FromBEofBE(n / 0x100, width - 1);
      assert BE(n, width)[..width - 1] == BE(n / 0x100, width - 1);
    }
  }

  lemma {:induction false} BEofFromBE(s: seq<byte>)
    ensures FromBE(s) < Pow256(|s|)
    ensures BE(FromBE(s), |s|) == s
  {
    if s != [] {
      BEofFromBE(s[..|s| - 1]);
      assert s == s[..|s| - 1] + [s[|s| - 1]];
    }
  }

  // The four widths the protocol uses.
  lemma Widths()
    ensures Pow256(1) == 0x100 && Pow256(2) == 0x1_0000
    ensures Pow256(4) == TWO_32 && Pow256(8) == TWO_64
  {
    assert Pow256(2) == 0x100 * Pow256(1);
    assert Pow256(4) == 0x1_0000 * Pow256(2);
    assert Pow256(8) == 0x100 * (0x100 * (0x100 * (0x100 * Pow256(4))));
  }

  // Two sequences with a common head, extended by arbitrary tails, agree on that head.
  lemma SplitEqual<T>(a: seq<T>, b: seq<T>, c: seq<T>, d: seq<T>)
    requires |a| == |c|
    ensures a + b == c + d <==> a == c && b == d
  {
    if a + b == c + d {
      assert a == (a + b)[..|a|] == (c + d)[..|c|] == c;
      assert b == (a + b)[|a|..] == (c + d)[|c|..] == d;
    }
  }

  // A window of mem at off that holds exactly b.
  ghost predicate Holds(mem: seq<byte>, off: nat, b: seq<byte>) {
    off + |b| <= |mem| && forall i :: 0 <= i < |b| ==> mem[off + i] == b[i]
  }

  lemma HoldsSlice(mem: seq<byte>, off: nat, b: seq<byte>)
    ensures Holds(mem, off, b) <==> off + |b| <= |mem| && mem[off..off + |b|] == b
  {
    if off + |b| <= |mem| && mem[off..off + |b|] == b {
      forall i | 0 <= i < |b|
        ensures mem[off + i] == b[i]
      {
        assert mem[off..off + |b|][i] == mem[off + i];
      }
    }
  }

  lemma HoldsSplit(mem: seq<byte>, off: nat, a: seq<byte>, b: seq<byte>)
    requires Holds(mem, off, a + b)
    ensures Holds(mem, off, a) && Holds(mem, off + |a|, b)
  {
    forall i | 0 <= i < |a|
      ensures mem[off + i] == a[i]
    {
      assert (a + b)[i] == a[i];
    }
    forall i | 0 <= i < |b|
      ensures mem[off + |a| + i] == b[i]
    {
      assert (a + b)[|a| + i] == b[i];
    }
  }

  lemma Assoc<T>(a: seq<T>, b: seq<T>, c: seq<T>)
    ensures (a + b) + c == a + (b + c)
  {}

  // Two sequences that agree up to k agree on every window before k.
  lemma SameWindow(mem: seq<byte>, mem': seq<byte>, k: nat, i: nat, j: nat)
    requires k <= |mem| && k <= |mem'| && mem[..k] == mem'[..k] && i <= j <= k
    ensures mem[i..j] == mem'[i..j]
  {
    forall n | 0 <= n < j - i
      ensures mem[i..j][n] == mem'[i..j][n]
    {
      assert mem[..k][i + n] == mem'[..k][i + n];
    }
  }

  // A map that has changed at one key only.
  lemma RowWritten<K, V>(before: map<K, V>, after: map<K, V>, k: K)
    requires k in before && before.Keys == after.Keys
    requires forall j <- before :: j != k ==> before[j] == after[j]
    ensures after == before[k := after[k]]
  {}

  // buf with the bytes b written over it from off on.
  ghost function Written(buf: seq<byte>, off: nat, b: seq<byte>): (r: seq<byte>)
    requires off + |b| <= |buf|
    ensures |r| == |buf|
  {
    buf[..off] + b + buf[off + |b|..]
  }

  // copy(buf[off:], b)
  method CopyAt(buf: array<byte>, off: nat, b: seq<byte>)
    requires off + |b| <= buf.Length
    modifies buf
    ensures buf[..] == Written(old(buf[..]), off, b)
  {
    var i := 0;
    while i < |b|
      invariant 0 <= i <= |b|
      invariant buf[..] == Written(old(buf[..]), off, b[..i])
    {
      buf[off + i] := b[i];
      i := i + 1;
    }
    assert b[..i] == b;
  }
}
