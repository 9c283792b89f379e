/** The two sides of the sysctl event undo each other: when exactly, and what becomes of the other accesses. */
module SysctlRoundTrip {
  import opened Bytes
  import opened SysctlWire

  /** With a name of at most 254 bytes the masks are identities and the strings sit back to back. */
  lemma BackToBack(a: Access)
    requires Readable(a) && |a.name.text| <= 254
    ensures ValueIndex(a) % 256 == ValueIndex(a)
    ensures a.write ==> NewValueIndex(a) % 512 == NewValueIndex(a)
    ensures BufferEnd(a) % BUF_LEN == BufferEnd(a) <= 767
    ensures Buffer(a)[..BufferEnd(a)] ==
            a.name.text + [0] + a.current.text + [0] + if a.write then a.newValue.text + [0] else []
  {
    var name, current := a.name.text, a.current.text;
    OverlayPrefix(Zeros(BUF_LEN), [], name);
    OverlayPrefix(NameOnly(a), name + [0], current);
    if a.write {
      OverlayPrefix(WithCurrent(a), name + [0] + current + [0], a.newValue.text);
    }
  }

  /** A string stored right behind a prefix extends it. */
  lemma OverlayPrefix(b: seq<Byte>, front: seq<Byte>, text: seq<Byte>)
    requires |front| + |text| + 1 <= |b| && b[..|front|] == front
    ensures Overlay(b, |front|, text)[..|front| + |text| + 1] == front + text + [0]
  {
  }

  /** Storing a string leaves what is before `n` alone when it starts there or later, and what is behind its NUL. */
  lemma OverlayElsewhere(b: seq<Byte>, off: nat, text: seq<Byte>, n: nat)
    requires off + |text| + 1 <= |b| && n < |b|
    ensures n <= off ==> Overlay(b, off, text)[..n] == b[..n]
    ensures off + |text| < n ==> Overlay(b, off, text)[n] == b[n]
  {
  }

  lemma FirstString(text: seq<Byte>, rest: seq<Byte>)
    requires NulFree(text)
    ensures CString(text + [0] + rest) == text
    ensures (text + [0] + rest)[|text| + 1..] == rest
  {
    CStringIs(text + [0] + rest, text);
  }

  /** The fixed header decodes to what was encoded. */
  lemma HeaderDecodes(a: Access, action: nat, body: seq<Byte>)
    requires a.filePosition < 0x1_0000_0000 && action < 0x1_0000_0000_0000_0000
    ensures var data := LittleEndian(if a.write then 1 else 0, 4) + LittleEndian(a.filePosition, 4)
                        + LittleEndian(action, 8) + body;
            && |data| == 16 + |body| && data[16..] == body
            && WithHeader(ZERO_EVENT, data) == Event(a.write, a.filePosition, action, [], [], [], [])
  {
    var w: nat := if a.write then 1 else 0;
    var data := LittleEndian(w, 4) + LittleEndian(a.filePosition, 4) + LittleEndian(action, 8) + body;
    assert data[0..4] == LittleEndian(w, 4);
    assert data[4..8] == LittleEndian(a.filePosition, 4);
    assert data[8..16] == LittleEndian(action, 8);
    assert data[16..] == body;
    assert Pow256(4) == 0x1_0000_0000;
    assert Pow256(8) == Pow256(4) * Pow256(4) == 0x1_0000_0000_0000_0000;
    ValueOfLittleEndian(w, 4);
    ValueOfLittleEndian(a.filePosition, 4);
    ValueOfLittleEndian(action, 8);
  }

  /** Where the fields of the message stand: write flag, file position, action, then the strings. */
  lemma WireLayout(a: Access, action: nat)
    requires Packs(a)
    ensures var b := Wire(a, action);
            && |b| >= 16
            && b[0..4] == LittleEndian(if a.write then 1 else 0, 4)
            && b[4..8] == LittleEndian(a.filePosition, 4)
            && b[8..16] == LittleEndian(action, 8)
            && b[16..] == Buffer(a)[..BufferEnd(a) % BUF_LEN]
  {
    hide LittleEndian, Buffer, BufferEnd;
  }

  /** What the header of any message that decodes says: a write is the 32-bit value 1, and nothing else. */
  lemma HeaderExactly(e: Event, data: seq<Byte>)
    requires Decode(e, data).Decoded?
    ensures var event := Decode(e, data).event;
            && (event.writeAccess <==>
                e.writeAccess || (data[0] == 1 && data[1] == 0 && data[2] == 0 && data[3] == 0))
            && event.filePosition == (data[4] as int) + 0x100 * (data[5] as int)
                                     + 0x1_0000 * (data[6] as int) + 0x100_0000 * (data[7] as int)
            && event.action == Value(data[8..16])
  {
    hide CString;
    FourByteValue(data[0..4]);
    FourByteValue(data[4..8]);
    HeaderKept(WithHeader(e, data), data[16..]);
  }

  lemma HeaderKept(e: Event, d: seq<Byte>)
    ensures var out := DecodeStrings(e, d, 32);
            out.Decoded? ==> out.event.(name := e.name, current := e.current, newValue := e.newValue) == e
  {
  }

  // One terminated string at a time.
  lemma NewValueDecodes(e: Event, text: seq<Byte>, read: nat)
    requires NulFree(text)
    ensures DecodeNewValue(e, text + [0], read) == Decoded(e.(newValue := text), read + |text| + 1)
  {
    FirstString(text, []);
    assert text + [0] + [] == text + [0];
  }

  lemma CurrentDecodes(e: Event, text: seq<Byte>, rest: seq<Byte>, read: nat)
    requires NulFree(text)
    ensures DecodeCurrent(e, text + [0] + rest, read) == DecodeNewValue(e.(current := text), rest, read + |text| + 1)
  {
    hide CString, NulFree, DecodeNewValue;
    FirstString(text, rest);
  }

  lemma NameDecodes(e: Event, text: seq<Byte>, rest: seq<Byte>, read: nat)
    requires NulFree(text)
    ensures DecodeStrings(e, text + [0] + rest, read) == DecodeCurrent(e.(name := text), rest, read + |text| + 1)
  {
    hide CString, NulFree, DecodeCurrent;
    FirstString(text, rest);
  }

  lemma StringsDecode(e: Event, name: seq<Byte>, current: seq<Byte>, newValue: seq<Byte>, write: bool)
    requires NulFree(name) && NulFree(current) && NulFree(newValue)
    ensures var tail := if write then newValue + [0] else [];
            DecodeStrings(e, name + [0] + (current + [0] + tail), 32) ==
            Decoded(e.(name := name, current := current, newValue := if write then newValue else e.newValue),
                    32 + |name| + 1 + |current| + 1 + |tail|)
  {
    hide CString, NulFree, DecodeStrings, DecodeCurrent;
    var tail := if write then newValue + [0] else [];
    NameDecodes(e, name, current + [0] + tail, 32);
    CurrentDecodes(e.(name := name), current, tail, 32 + |name| + 1);
    if write {
      NewValueDecodes(e.(name := name, current := current), newValue, 32 + |name| + 1 + |current| + 1);
    }
  }

  lemma DecodeSplits(e: Event, data: seq<Byte>)
    requires |data| >= 16
    ensures Decode(e, data) == DecodeStrings(WithHeader(e, data), data[16..], 32)
  {
  }

  lemma WireShape(a: Access, action: nat) returns (body: seq<Byte>)
    requires Readable(a) && |a.name.text| <= 254
    ensures body == a.name.text + [0] + (a.current.text + [0] + if a.write then a.newValue.text + [0] else [])
    ensures Wire(a, action) == LittleEndian(if a.write then 1 else 0, 4) + LittleEndian(a.filePosition, 4)
                               + LittleEndian(action, 8) + body
  {
    hide LittleEndian, NulFree, Buffer, BufferEnd, ValueIndex, NewValueIndex;
    BackToBack(a);
    body := Buffer(a)[..BufferEnd(a)];
    Regroup(a.name.text, a.current.text, if a.write then a.newValue.text + [0] else []);
  }

  lemma Regroup(name: seq<Byte>, current: seq<Byte>, tail: seq<Byte>)
    ensures name + [0] + current + [0] + tail == name + [0] + (current + [0] + tail)
  {
  }

  /** Decoding a packed access yields exactly what was packed; the count returned is 16 more than the message. */
  lemma RoundTrip(a: Access, action: nat)
    requires Readable(a) && |a.name.text| <= 254
    requires action < 0x1_0000_0000_0000_0000
    ensures Decode(ZERO_EVENT, Wire(a, action)) ==
            Decoded(Event(a.write, a.filePosition, action, a.name.text, a.current.text,
                          if a.write then a.newValue.text else [], []),
                    |Wire(a, action)| + 16)
  {
    hide Value, LittleEndian, CString, DecodeStrings, Decode, Wire, WithHeader;
    var body := WireShape(a, action);
    DecodeSplits(ZERO_EVENT, Wire(a, action));
    HeaderDecodes(a, action, body);
    StringsDecode(WithHeader(ZERO_EVENT, Wire(a, action)), a.name.text, a.current.text,
                  if a.write then a.newValue.text else [], a.write);
  }

  predicate Fits(r: Reply) {
    !r.TooBig? && |Stored(r)| < OBJ_LEN
  }

  /** The access is sent: it has a name, and no string is too big. Values may be unavailable and hold any bytes. */
  predicate Packs(a: Access) {
    && a.name.Got? && Fits(a.name) && Fits(a.current) && (a.write ==> Fits(a.newValue))
    && a.filePosition < 0x1_0000_0000
  }

  /** User space decodes exactly what the helpers gave; an unavailable value is an empty one. */
  ghost predicate Recovers(a: Access, action: nat)
    requires Packs(a)
  {
    var out := Decode(ZERO_EVENT, Wire(a, action));
    && out.Decoded?
    && out.event.writeAccess == a.write && out.event.filePosition == a.filePosition && out.event.action == action
    && out.event.name == a.name.text && out.event.current == Stored(a.current)
    && out.event.newValue == if a.write then Stored(a.newValue) else []
  }

  /**
   * A name of 255 bytes wraps the value offset to 0: the value lands on the name, and zeros stand where it should.
   * A second NUL always follows, so the decoder stays in range.
   */
  lemma LongNameBuffer(a: Access) returns (first: seq<Byte>, second: nat)
    requires Readable(a) && |a.name.text| == 255
    ensures first == if a.write && |a.current.text| == 255 then a.newValue.text else a.current.text
    ensures |first| < second < BufferEnd(a) == BufferEnd(a) % BUF_LEN && 256 < BufferEnd(a)
    ensures Buffer(a)[..|first| + 1] == first + [0] && Buffer(a)[second] == 0
    ensures |first| == 255 && |a.current.text| == 255 ==> second == 256
  {
    hide Overlay, NulFree, Zeros;
    var current := a.current.text;
    first, second := current, 256;
    var b0, b1 := NameOnly(a), WithCurrent(a);
    assert ValueIndex(a) % 256 == 0;
    assert b0[256] == 0 by {
      OverlayElsewhere(Zeros(BUF_LEN), 0, a.name.text, 256);
    }
    OverlayPrefix(b0, [], current);
    OverlayElsewhere(b0, 0, current, 256);
    if a.write {
      var off := NewValueIndex(a) % 512;
      if |current| == 255 {
        first := a.newValue.text;
        assert off == 0;
        OverlayPrefix(b1, [], a.newValue.text);
        OverlayElsewhere(b1, 0, a.newValue.text, 256);
      } else {
        assert off == |current| + 257;
        second := off + |a.newValue.text|;
        OverlayElsewhere(b1, off, a.newValue.text, |first| + 1);
        OverlayEnds(b1, off, a.newValue.text);
      }
    }
  }

  lemma OverlayEnds(b: seq<Byte>, off: nat, text: seq<Byte>)
    requires off + |text| + 1 <= |b|
    ensures Overlay(b, off, text)[off + |text|] == 0
  {
  }

  /** The name decoded from `d` is the string it starts with; a NUL at 256 after a full name leaves the value empty. */
  lemma FirstStringDecoded(e: Event, d: seq<Byte>, first: seq<Byte>)
    requires NulFree(first) && |first| < 256 < |d| && d[..|first| + 1] == first + [0]
    ensures var out := DecodeStrings(e, d, 32);
            out.Decoded? ==> out.event.name == first && (|first| == 255 && d[256] == 0 ==> out.event.current == [])
  {
    assert d == first + [0] + d[|first| + 1..];
    FirstString(first, d[|first| + 1..]);
    if |first| == 255 && d[256] == 0 {
      CStringIs(d[256..], []);
    }
  }

  /** Two NULs keep the decoder in range. */
  lemma TwoNuls(e: Event, d: seq<Byte>, i: nat, j: nat)
    requires i < j < |d| && d[i] == 0 && d[j] == 0
    ensures !DecodeStrings(e, d, 32).Panicked?
  {
    var k := |CString(d)|;
    assert k <= i;
    assert d[k + 1..][j - k - 1] == 0;
  }

  lemma LongNameLost(a: Access, action: nat)
    requires Readable(a) && |a.name.text| == 255
    ensures !Recovers(a, action)
    ensures !Decode(ZERO_EVENT, Wire(a, action)).Panicked?
  {
    hide Value, LittleEndian, Buffer, CString, DecodeStrings;
    var first, second := LongNameBuffer(a);
    var data := Wire(a, action);
    var d := data[16..];
    assert d == Buffer(a)[..BufferEnd(a)];
    assert d[..|first| + 1] == Buffer(a)[..|first| + 1];
    FirstStringDecoded(WithHeader(ZERO_EVENT, data), d, first);
    assert d[|first|] == d[..|first| + 1][|first|] == 0;
    TwoNuls(WithHeader(ZERO_EVENT, data), d, |first|, second);
  }

  /** Number of NUL bytes. */
  function Nuls(d: seq<Byte>): nat {
    if d == [] then 0 else Nuls(d[1..]) + if d[0] == 0 then 1 else 0
  }

  lemma {:induction false} NulsAfterString(d: seq<Byte>)
    ensures |CString(d)| == |d| <==> Nuls(d) == 0
    ensures |CString(d)| < |d| ==> Nuls(d) == 1 + Nuls(d[|CString(d)| + 1..])
  {
    if d != [] && d[0] != 0 {
      NulsAfterString(d[1..]);
      if |CString(d)| < |d| {
        assert d[|CString(d)| + 1..] == d[1..][|CString(d[1..])| + 1..];
      }
    }
  }

  /** Decoding slices out of range exactly when the payload has no NUL, or a single one that is not its last byte. */
  lemma PanicsExactly(e: Event, data: seq<Byte>)
    ensures Decode(e, data).Panicked? <==>
            |data| > 16 && (Nuls(data[16..]) == 0 || (Nuls(data[16..]) == 1 && data[|data| - 1] != 0))
  {
    hide CString, Nuls, Value;
    if |data| > 16 {
      var d0 := data[16..];
      NulsAfterString(d0);
      if |CString(d0)| < |d0| {
        var d1 := d0[|CString(d0)| + 1..];
        NulsAfterString(d1);
        if d1 == [] {
          NoNuls();
        } else {
          assert d1[|d1| - 1] == data[|data| - 1];
          LastIsNul(d1);
        }
      }
    }
  }

  lemma NoNuls()
    ensures Nuls([]) == 0
  {
  }

  lemma {:induction false} LastIsNul(d: seq<Byte>)
    requires d != []
    ensures Nuls(d) == 0 ==> d[|d| - 1] != 0
  {
    if |d| > 1 {
      LastIsNul(d[1..]);
    }
  }

  lemma OneString(s: seq<Byte>, rest: seq<Byte>)
    requires NulFree(s)
    ensures Nuls(s + [0] + rest) == 1 + Nuls(rest)
  {
    hide CString, Nuls;
    FirstString(s, rest);
    NulsAfterString(s + [0] + rest);
  }

  /** Three strings with their NULs in front of anything. */
  lemma ThreeStrings(s: seq<Byte>, t: seq<Byte>, u: seq<Byte>, rest: seq<Byte>)
    requires NulFree(s) && NulFree(t) && NulFree(u)
    ensures Nuls(s + [0] + (t + [0] + (u + [0] + rest))) == 3 + Nuls(rest)
  {
    hide Nuls, NulFree;
    OneString(s, t + [0] + (u + [0] + rest));
    OneString(t, u + [0] + rest);
    OneString(u, rest);
  }

  lemma Split(d: seq<Byte>)
    requires |CString(d)| < |d|
    ensures d == CString(d) + [0] + d[|CString(d)| + 1..]
  {
  }

  /** Bytes of strings and NULs consumed from a payload, counted from its NULs alone. */
  ghost predicate Consumed(d: seq<Byte>, c: int) {
    if Nuls(d) >= 3 then 0 < c <= |d| && d[c - 1] == 0 && Nuls(d[..c]) == 3
    else c == |d| + if d != [] && d[|d| - 1] != 0 then 1 else 0
  }

  /**
   * Whatever the payload, the count returned is the 16 bytes of the header, the bytes consumed, up to the third
   * NUL or the end (and one more for a NUL that is missing there), and 16 more.
   */
  lemma ReadCount(e: Event, data: seq<Byte>)
    requires Decode(e, data).Decoded?
    ensures Consumed(data[16..], Decode(e, data).read - 16 - 16)
  {
    hide CString, Nuls, Value, NulFree, Consumed, DecodeCurrent, DecodeNewValue;
    var d := data[16..];
    DecodeSplits(e, data);
    if d == [] {
      NothingConsumed();
    } else {
      var s := CString(d);
      Split(d);
      CurrentConsumed(WithHeader(e, data).(name := s), s, d[|s| + 1..]);
    }
  }

  lemma NothingConsumed()
    ensures Consumed([], 0)
  {
  }

  lemma CurrentConsumed(e: Event, s: seq<Byte>, d1: seq<Byte>)
    requires NulFree(s) && DecodeCurrent(e, d1, 32 + |s| + 1).Decoded?
    ensures Consumed(s + [0] + d1, DecodeCurrent(e, d1, 32 + |s| + 1).read - 32)
  {
    hide CString, Nuls, NulFree;
    NoNuls();
    OneString(s, d1);
    if d1 != [] {
      var t := CString(d1);
      Split(d1);
      var d2 := d1[|t| + 1..];
      OneString(t, d2);
      if d2 == [] {
        assert (s + [0] + d1)[|s| + 1 + |t|] == 0;
      } else {
        NewValueConsumed(s + [0] + d1, s, t, d2);
      }
    }
  }

  lemma NewValueConsumed(d: seq<Byte>, s: seq<Byte>, t: seq<Byte>, d2: seq<Byte>)
    requires NulFree(s) && NulFree(t) && d2 != [] && d == s + [0] + (t + [0] + d2)
    ensures Consumed(d, |s| + |t| + 2 + |CString(d2)| + 1)
  {
    hide CString, Nuls, NulFree;
    var u := CString(d2);
    NoNuls();
    OneString(s, t + [0] + d2);
    OneString(t, d2);
    NulsAfterString(d2);
    assert d[|d| - 1] == d2[|d2| - 1];
    LastIsNul(d2);
    if |u| < |d2| {
      Split(d2);
      ThreeStrings(s, t, u, []);
      var c := |s| + |t| + 2 + |u| + 1;
      assert d[..c] == s + [0] + (t + [0] + (u + [0] + []));
      assert d[c - 1] == d[..c][c - 1] == 0;
    }
  }
}
