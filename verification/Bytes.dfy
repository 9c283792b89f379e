/** Bytes, little-endian integers, NUL-terminated strings and zero padding, as both sides lay them out. */
module Bytes {

  type Byte = b: int | 0 <= b < 256

  function Zeros(n: nat): (r: seq<Byte>)
    ensures |r| == n && forall i :: 0 <= i < n ==> r[i] == 0
  {
    seq(n, _ => 0)
  }

  function Pow256(width: nat): nat {
    if width == 0 then 1 else 256 * Pow256(width - 1)
  }

  /** The low `width` bytes of `n`, lowest first. */
  function LittleEndian(n: nat, width: nat): (r: seq<Byte>)
    ensures |r| == width
  {
    if width == 0 then [] else [n % 256] + LittleEndian(n / 256, width - 1)
  }

  function Value(bs: seq<Byte>): (n: nat)
    ensures n < Pow256(|bs|)
  {
    if bs == [] then 0 else bs[0] + 256 * Value(bs[1..])
  }

  lemma {:induction false} ValueOfLittleEndian(n: nat, width: nat)
    requires n < Pow256(width)
    ensures Value(LittleEndian(n, width)) == n
  {
    if width > 0 {
      ValueOfLittleEndian(n / 256, width - 1);
    }
  }

  lemma WordBounds()
    ensures Pow256(2) == 0x1_0000 && Pow256(4) == 0x1_0000_0000 && Pow256(8) == 0x1_0000_0000_0000_0000
  {
    assert Pow256(4) == 0x1_0000_0000;
    assert Pow256(8) == Pow256(4) * Pow256(4);
  }

  /** The lowest byte stands first. */
  lemma FourBytes(n: nat)
    ensures LittleEndian(n, 4) == [n % 256, n / 256 % 256, n / 0x1_0000 % 256, n / 0x100_0000 % 256]
  {
    assert n / 256 / 256 == n / 0x1_0000;
    assert n / 0x1_0000 / 256 == n / 0x100_0000;
    assert LittleEndian(n / 0x100_0000, 1) == [n / 0x100_0000 % 256];
    assert LittleEndian(n / 0x1_0000, 2) == [n / 0x1_0000 % 256, n / 0x100_0000 % 256];
    assert LittleEndian(n / 256, 3) == [n / 256 % 256, n / 0x1_0000 % 256, n / 0x100_0000 % 256];
  }

  lemma TwoByteValue(b: seq<Byte>)
    requires |b| == 2
    ensures Value(b) == (b[0] as int) + 0x100 * (b[1] as int)
  {
    assert Value(b[1..]) == b[1];
  }

  lemma FourByteValue(b: seq<Byte>)
    requires |b| == 4
    ensures Value(b) == (b[0] as int) + 0x100 * (b[1] as int) + 0x1_0000 * (b[2] as int) + 0x100_0000 * (b[3] as int)
  {
    assert Value(b[1..][1..][1..]) == b[3];
    assert Value(b[1..][1..]) == (b[2] as int) + 0x100 * (b[3] as int);
  }

  predicate NulFree(s: seq<Byte>) {
    forall i :: 0 <= i < |s| ==> s[i] != 0
  }

  /** What stands before the first NUL. */
  function CString(d: seq<Byte>): (r: seq<Byte>)
    ensures |r| <= |d| && r == d[..|r|] && NulFree(r)
    ensures |r| < |d| ==> d[|r|] == 0
  {
    if d == [] || d[0] == 0 then [] else [d[0]] + CString(d[1..])
  }

  lemma {:induction false} CStringIs(d: seq<Byte>, text: seq<Byte>)
    requires NulFree(text) && |text| <= |d| && d[..|text|] == text && (|text| == |d| || d[|text|] == 0)
    ensures CString(d) == text
  {
    if text != [] {
      assert d[0] == text[0] && d[1..][..|text| - 1] == text[1..];
      CStringIs(d[1..], text[1..]);
      assert text == [text[0]] + text[1..];
    }
  }

  /** Copied into a zeroed buffer of `size` bytes, cut when it is longer. */
  function Pad(s: seq<Byte>, size: nat): (r: seq<Byte>)
    ensures |r| == size
  {
    if |s| <= size then s + Zeros(size - |s|) else s[..size]
  }

  /** Padding loses nothing of a NUL-free string exactly when it fits. */
  lemma PadKeeps(s: seq<Byte>, size: nat)
    requires NulFree(s)
    ensures CString(Pad(s, size)) == s <==> |s| <= size
  {
    if |s| <= size {
      CStringIs(Pad(s, size), s);
    }
  }
}
