/**
 * What user space sees of every access that is sent, also when a value is unavailable, so that its length counts
 * as -EINVAL, or holds NUL bytes: which accesses are recovered, and which ones make the decoder slice out of range.
 */
module SysctlLosses {
  import opened Bytes
  import opened SysctlWire
  import opened SysctlRoundTrip

  function Payload(a: Access): seq<Byte>
    requires Packs(a)
  {
    Buffer(a)[..BufferEnd(a) % BUF_LEN]
  }

  function Header(a: Access, action: nat): Event {
    Event(a.write, a.filePosition, action, [], [], [], [])
  }

  lemma ReceivedIs(a: Access, action: nat)
    requires Packs(a) && action < 0x1_0000_0000_0000_0000
    ensures Decode(ZERO_EVENT, Wire(a, action)) == DecodeStrings(Header(a, action), Payload(a), 32)
  {
    hide LittleEndian, Value, Buffer, BufferEnd, DecodeStrings, WithHeader;
    HeaderDecodes(a, action, Payload(a));
    DecodeSplits(ZERO_EVENT, Wire(a, action));
  }

  /** The strings decoded are NUL-free; nothing else of the event changes. */
  lemma DecodeKeeps(e: Event, d: seq<Byte>)
    requires NulFree(e.name) && NulFree(e.current) && NulFree(e.newValue)
    ensures var out := DecodeStrings(e, d, 32);
            out.Decoded? ==>
              && out.event.(name := e.name, current := e.current, newValue := e.newValue) == e
              && NulFree(out.event.name) && NulFree(out.event.current) && NulFree(out.event.newValue)
  {
  }

  // ---------- shapes of payloads ----------

  /** Nothing but a string without its NUL. */
  lemma Unended(e: Event, d: seq<Byte>)
    requires NulFree(d) && d != []
    ensures DecodeStrings(e, d, 32) == Panicked
  {
    CStringIs(d, d);
  }

  /** A name, then a value without its NUL. */
  lemma UnendedValue(e: Event, name: seq<Byte>, d: seq<Byte>)
    requires NulFree(name) && NulFree(d) && d != []
    ensures DecodeStrings(e, name + [0] + d, 32) == Panicked
  {
    NameDecodes(e, name, d, 32);
    CStringIs(d, d);
  }

  /** A name, then at most NULs where the values should be. */
  lemma EmptyRest(e: Event, name: seq<Byte>, rest: seq<Byte>)
    requires NulFree(name) && e.current == [] == e.newValue
    requires forall i :: 0 <= i < |rest| && i < 2 ==> rest[i] == 0
    ensures var out := DecodeStrings(e, name + [0] + rest, 32); out.Decoded? && out.event == e.(name := name)
  {
    NameDecodes(e, name, rest, 32);
  }

  lemma EmptyBehind(e: Event, name: seq<Byte>, d: seq<Byte>)
    requires NulFree(name) && e.current == [] == e.newValue
    requires |name| < |d| && d[..|name|] == name
    requires forall i :: |name| <= i < |d| && i < |name| + 3 ==> d[i] == 0
    ensures var out := DecodeStrings(e, d, 32); out.Decoded? && out.event == e.(name := name)
  {
    hide DecodeStrings, NulFree;
    assert d == name + [0] + d[|name| + 1..];
    EmptyRest(e, name, d[|name| + 1..]);
  }

  /** The buffer once an unavailable value has stored its NUL: behind the name, or on it when it has 255 bytes. */
  function Base(name: seq<Byte>): (b: seq<Byte>)
    requires |name| < OBJ_LEN
    ensures |b| == BUF_LEN
  {
    if |name| <= 254 then name + [0] + Zeros(1023 - |name|) else [0] + name[1..] + [0] + Zeros(768)
  }

  lemma BaseIs(a: Access)
    requires Packs(a) && a.current.Unavailable?
    ensures WithCurrent(a) == Base(a.name.text)
  {
    assert NameOnly(a) == a.name.text + [0] + Zeros(1023 - |a.name.text|);
    assert Stored(a.current) == [];
  }

  // ---------- the four ways to lose a value ----------

  /** A read without current value: the message ends 20 bytes before the end of the name, or wraps around. */
  lemma NoCurrentRead(a: Access, e: Event)
    requires Packs(a) && !a.write && a.current.Unavailable? && NulFree(a.name.text)
    requires e.name == [] == e.current && e.newValue == []
    ensures var n := |a.name.text|;
            var out := DecodeStrings(e, Payload(a), 32);
            && (out.Panicked? <==> n > 20)
            && (n <= 20 ==> out.Decoded? && out.event == e.(name := if n < 20 then a.name.text else []))
  {
    hide DecodeStrings, NulFree, CString, Payload, DecodeCurrent;
    var name := a.name.text;
    var n := |name|;
    NoCurrentReadPayload(a);
    SliceNulFree(name);
    if n < 20 {
      EmptyRest(e, name, Zeros(1003));
    } else if n == 20 {
      DecodeNothing(e);
    } else if n <= 254 {
      Unended(e, name[0..n - 20]);
    } else {
      assert [0] + name[1..235] == [] + [0] + name[1..235];
      UnendedValue(e, [], name[1..235]);
    }
  }

  lemma NoCurrentReadPayload(a: Access)
    requires Packs(a) && !a.write && a.current.Unavailable?
    ensures var n := |a.name.text|;
            Payload(a) == if n < 20 then a.name.text + [0] + Zeros(1003) else BaseFront(a.name.text)
  {
    hide Overlay, NulFree, BaseFront;
    BaseIs(a);
    if |a.name.text| >= 20 {
      BaseFrontIs(a.name.text);
    } else {
      assert Base(a.name.text)[..1004 + |a.name.text|] == a.name.text + [0] + Zeros(1003);
    }
  }

  lemma DecodeNothing(e: Event)
    ensures DecodeStrings(e, [], 32) == Decoded(e, 32)
  {
  }

  lemma SliceNulFree(s: seq<Byte>)
    requires NulFree(s)
    ensures NulFree([]) && forall i, j :: 0 <= i <= j <= |s| ==> NulFree(s[i..j])
  {
  }

  lemma JoinNulFree(s: seq<Byte>, t: seq<Byte>)
    requires NulFree(s) && NulFree(t)
    ensures NulFree(s + t)
  {
  }

  /** The name that is reported when a write without current value stores its new value `v`. */
  function NameAndValue(name: seq<Byte>, v: seq<Byte>): (r: seq<Byte>) {
    if |name| == 255 then []
    else if |name| >= 20 then name[..|name| - 20] + v
    else if |name| + |v| == 19 then [] else name
  }

  /**
   * A write without current value stores the new one over the end of the name, or far behind it; the event never
   * shows it as the new value.
   */
  lemma NoCurrentWrite(a: Access, e: Event)
    requires Packs(a) && a.write && a.current.Unavailable? && a.newValue.Got?
    requires NulFree(a.name.text) && NulFree(a.newValue.text)
    requires e.name == [] == e.current && e.newValue == []
    ensures var n, m := |a.name.text|, |a.newValue.text|;
            var out := DecodeStrings(e, Payload(a), 32);
            && (out.Panicked? <==> n < 20 && m < 20 <= n + m)
            && (!out.Panicked? ==>
                  && out.Decoded?
                  && out.event == e.(name := NameAndValue(a.name.text, a.newValue.text),
                                     current := if n == 255 then a.name.text[1..235] + a.newValue.text else []))
  {
    hide DecodeStrings, NulFree, CString, Payload, Overlay, DecodeCurrent;
    var name, v := a.name.text, a.newValue.text;
    var n := |name|;
    if n < 20 {
      ShortNameWrite(a, e);
    } else {
      SliceNulFree(name);
      LongNameWrite(a);
      if n <= 254 {
        JoinNulFree(name[0..n - 20], v);
        EmptyBehind(e, name[0..n - 20] + v, Payload(a));
      } else {
        assert Payload(a) == [0] + name[1..235] + v + [0];
        JoinNulFree(name[1..235], v);
        OnlyValue(e, name[1..235], v);
      }
    }
  }

  lemma OnlyValue(e: Event, front: seq<Byte>, v: seq<Byte>)
    requires NulFree(front + v)
    ensures DecodeStrings(e, [0] + front + v + [0], 32) ==
            Decoded(e.(name := [], current := front + v), 33 + |front| + |v| + 1)
  {
    hide DecodeStrings, CString, NulFree;
    var current := front + v;
    SliceNulFree([]);
    assert [0] + front + v + [0] == [] + [0] + (current + [0] + []);
    NameDecodes(e, [], current + [0] + [], 32);
    CurrentDecodes(e.(name := []), current, [], 33);
  }

  /** With at least 20 bytes of name the new value stands behind all but the last 20 bytes. */
  lemma LongNameWrite(a: Access)
    requires Packs(a) && a.write && a.current.Unavailable? && a.newValue.Got? && |a.name.text| >= 20
    ensures Payload(a) == BaseFront(a.name.text) + a.newValue.text + [0]
  {
    hide Overlay, Base, NulFree, BaseFront;
    var name, v := a.name.text, a.newValue.text;
    BaseIs(a);
    BaseFrontIs(name);
    OverlayPrefix(Base(name), BaseFront(name), v);
  }

  function BaseFront(name: seq<Byte>): (r: seq<Byte>)
    requires 20 <= |name| < OBJ_LEN
    ensures |r| == |name| - 20
  {
    if |name| <= 254 then name[0..|name| - 20] else [0] + name[1..235]
  }

  lemma BaseFrontIs(name: seq<Byte>)
    requires 20 <= |name| < OBJ_LEN
    ensures Base(name)[..|name| - 20] == BaseFront(name)
  {
  }

  lemma ShortNameWrite(a: Access, e: Event)
    requires Packs(a) && a.write && a.current.Unavailable? && a.newValue.Got? && |a.name.text| < 20
    requires NulFree(a.name.text)
    requires e.name == [] == e.current && e.newValue == []
    ensures var n, m := |a.name.text|, |a.newValue.text|;
            var out := DecodeStrings(e, Payload(a), 32);
            && (out.Panicked? <==> m < 20 <= n + m)
            && (!out.Panicked? ==>
                  out.Decoded? && out.event == e.(name := if n + m == 19 then [] else a.name.text))
  {
    hide DecodeStrings, NulFree, CString, Payload;
    var name, v := a.name.text, a.newValue.text;
    var n, m := |name|, |v|;
    SliceNulFree(name);
    ShortNameWritePayload(a);
    if n + m < 19 || m >= 20 {
      EmptyBehind(e, name, Payload(a));
    } else if n + m == 19 {
      DecodeNothing(e);
    } else {
      Unended(e, name[0..n + m - 19]);
    }
  }

  lemma ShortNameWritePayload(a: Access)
    requires Packs(a) && a.write && a.current.Unavailable? && a.newValue.Got? && |a.name.text| < 20
    ensures var n, m := |a.name.text|, |a.newValue.text|;
            var d := Payload(a);
            && (n + m < 19 || m >= 20 ==>
                  && n < |d| && d[..n] == a.name.text
                  && forall i :: n <= i < |d| && i < n + 3 ==> d[i] == 0)
            && (m < 20 && n + m >= 19 ==> d == a.name.text[0..n + m - 19])
  {
    hide NulFree, Overlay, Base;
    var name, v := a.name.text, a.newValue.text;
    var n, m := |name|, |v|;
    var b := Base(name);
    BaseIs(a);
    BaseShape(name);
    var len := (n + m - 19) % BUF_LEN;
    var d := Payload(a);
    assert d == Overlay(b, 492 + n, v)[..len];
    var k := if len < n + 3 then len else n + 3;
    OverlayElsewhere(b, 492 + n, v, k);
    assert d[..k] == b[..k];
    SamePrefix(d, b, k);
  }

  /** A write without any value: reported without its values, cut, or out of range, by the length of the name. */
  lemma NoValues(a: Access, e: Event)
    requires Packs(a) && a.write && a.current.Unavailable? && a.newValue.Unavailable? && NulFree(a.name.text)
    requires e.name == [] == e.current && e.newValue == []
    ensures var n := |a.name.text|;
            var out := DecodeStrings(e, Payload(a), 32);
            && (out.Panicked? <==> n > 41)
            && (n < 20 ==> out.Decoded? && out.event == e.(name := a.name.text))
            && (20 <= n ==> out.Decoded? ==> |out.event.name| < n)
  {
    hide DecodeStrings, NulFree, CString, DecodeCurrent, Payload, Overlay;
    var name := a.name.text;
    var n := |name|;
    SliceNulFree(name);
    var d := Payload(a);
    NoValuesPayload(a);
    if n < 20 {
      EmptyBehind(e, name, d);
    } else if n < 41 {
      assert d == name[0..n - 20] + [0] + d[n - 19..];
      NameDecodes(e, name[0..n - 20], d[n - 19..], 32);
      TwoNuls(e, d, n - 20, n);
      NameKept(e.(name := name[0..n - 20]), d[n - 19..], 32 + n - 19);
    } else if n == 41 {
      DecodeNothing(e);
    } else if n <= 254 {
      Unended(e, name[0..n - 41]);
    } else {
      assert d == [] + [0] + name[1..214];
      UnendedValue(e, [], name[1..214]);
    }
  }

  lemma NoValuesPayload(a: Access)
    requires Packs(a) && a.write && a.current.Unavailable? && a.newValue.Unavailable?
    ensures var n := |a.name.text|;
            var d := Payload(a);
            && (n < 20 ==> n + 3 < |d| && d[..n] == a.name.text && d[n] == d[n + 1] == d[n + 2] == 0)
            && (20 <= n < 41 ==> n < |d| && d[..n - 20] == a.name.text[0..n - 20] && d[n - 20] == d[n] == 0)
            && (41 <= n <= 254 ==> d == a.name.text[0..n - 41])
            && (n == 255 ==> d == [0] + a.name.text[1..214])
  {
    hide NulFree, Overlay, Base, BaseFront;
    BaseIs(a);
    var name := a.name.text;
    var n := |name|;
    var b, off := Base(name), (n - 20) % 512;
    var d := Payload(a);
    assert d == Overlay(b, off, [])[..(n - 41) % BUF_LEN];
    BaseShape(name);
    if n < 20 {
      OverlayElsewhere(b, off, [], n + 3);
      assert d[..n + 3] == b[..n + 3];
      SamePrefix(d, b, n + 3);
    } else if n < 41 {
      CutNameSlices(name, d);
    } else {
      BaseFrontIs(name);
      OverlayElsewhere(b, off, [], n - 41);
      assert d[..n - 41] == b[..n - 41] == BaseFront(name)[..n - 41];
      SamePrefix(d, BaseFront(name), n - 41);
    }
  }

  lemma CutNameSlices(name: seq<Byte>, d: seq<Byte>)
    requires 20 <= |name| < 41 && d == Overlay(Base(name), |name| - 20, [])[..983 + |name|]
    ensures d[..|name| - 20] == name[0..|name| - 20] && d[|name| - 20] == d[|name|] == 0
  {
    hide Overlay, Base, BaseFront;
    var n := |name|;
    var o := Overlay(Base(name), n - 20, []);
    BaseShape(name);
    BaseFrontIs(name);
    OverlayPrefix(Base(name), BaseFront(name), []);
    OverlayElsewhere(Base(name), n - 20, [], n);
    assert d[..n - 19] == o[..n - 19] == BaseFront(name) + [] + [0];
    SamePrefix(d, BaseFront(name) + [] + [0], n - 19);
  }

  lemma BaseShape(name: seq<Byte>)
    requires |name| < OBJ_LEN
    ensures |name| <= 254 ==> Base(name)[..|name|] == name
    ensures Base(name)[|name|] == Base(name)[|name| + 1] == Base(name)[|name| + 2] == 0
    ensures |name| >= 20 ==> forall i :: 0 <= i < |name| - 20 ==>
              BaseFront(name)[i] == if |name| == 255 && i == 0 then 0 else name[i]
  {
  }

  lemma SamePrefix(x: seq<Byte>, y: seq<Byte>, n: nat)
    requires n <= |x| && n <= |y| && x[..n] == y[..n]
    ensures forall i :: 0 <= i < n ==> x[i] == y[i]
    ensures forall k: nat :: k <= n ==> x[..k] == y[..k]
  {
    assert forall i :: 0 <= i < n ==> x[i] == x[..n][i] == y[..n][i] == y[i];
  }

  lemma NameKept(e: Event, d: seq<Byte>, read: nat)
    ensures DecodeCurrent(e, d, read).Decoded? ==> DecodeCurrent(e, d, read).event.name == e.name
  {
  }

  /** A write without new value: its 20 bytes less cut the current value, or the name, unless the end wraps around. */
  lemma NoNewValue(a: Access, e: Event)
    requires Packs(a) && a.write && a.current.Got? && a.newValue.Unavailable?
    requires NulFree(a.name.text) && NulFree(a.current.text)
    requires e.name == [] == e.current && e.newValue == []
    ensures var n, c := |a.name.text|, |a.current.text|;
            var out := DecodeStrings(e, Payload(a), 32);
            && (out.Panicked? <==> if n == 255 then c < 20 else c != 20 && n + c >= 20)
            && (n + c < 19 ==> out.Decoded? && out.event == e.(name := a.name.text, current := a.current.text))
            && (n + c >= 19 && out.Decoded? ==>
                  out.event.name != a.name.text || out.event.current != a.current.text)
  {
    hide DecodeStrings, DecodeCurrent, DecodeNewValue, NulFree, CString;
    var name, current := a.name.text, a.current.text;
    var n, c := |name|, |current|;
    SliceNulFree(name);
    SliceNulFree(current);
    if n == 255 {
      LongNameNoNewValue(a, e);
    } else {
      NoNewValuePayload(a);
      if n + c < 19 {
        var rest := Zeros(1003);
        NameDecodes(e, name, current + [0] + rest, 32);
        CurrentDecodes(e.(name := name), current, rest, 33 + n);
        EmptyNewValue(e.(name := name, current := current), rest, 34 + n + c);
      } else if n + c == 19 {
        DecodeNothing(e);
      } else if c < 20 {
        Unended(e, name[0..n + c - 19]);
      } else if c == 20 {
        EmptyBehind(e, name, Payload(a));
      } else {
        UnendedValue(e, name, current[0..c - 20]);
      }
    }
  }

  lemma NoNewValuePayload(a: Access)
    requires Packs(a) && a.write && a.current.Got? && a.newValue.Unavailable? && |a.name.text| <= 254
    ensures var n, c := |a.name.text|, |a.current.text|;
            Payload(a) ==
            if n + c < 19 then a.name.text + [0] + (a.current.text + [0] + Zeros(1003))
            else if c < 20 then a.name.text[0..n + c - 19]
            else a.name.text + [0] + a.current.text[0..c - 20]
  {
    hide Buffer, Zeros;
    NoNewValueBuffer(a);
    Slices(a.name.text, a.current.text, (|a.name.text| + |a.current.text| - 19) % BUF_LEN);
  }

  lemma NoNewValueBuffer(a: Access)
    requires Packs(a) && a.write && a.current.Got? && a.newValue.Unavailable? && |a.name.text| <= 254
    ensures Buffer(a) == a.name.text + [0] + a.current.text + [0] + Zeros(1022 - |a.name.text| - |a.current.text|)
  {
    hide Overlay, NulFree;
    var name, current := a.name.text, a.current.text;
    NameOnlyShape(a);
    OverlayShape(name + [0], current, 1023 - |name|);
    OverlayShape(name + [0] + current + [0], [], 1022 - |name| - |current|);
  }

  lemma NameOnlyShape(a: Access)
    requires Packs(a)
    ensures NameOnly(a) == a.name.text + [0] + Zeros(1023 - |a.name.text|)
  {
  }

  /** A string stored in front of zeros. */
  lemma OverlayShape(front: seq<Byte>, text: seq<Byte>, n: nat)
    requires |text| < n
    ensures Overlay(front + Zeros(n), |front|, text) == front + text + [0] + Zeros(n - |text| - 1)
    ensures text == [] ==> Overlay(front + Zeros(n), |front|, text) == front + Zeros(n)
  {
  }

  lemma Slices(name: seq<Byte>, current: seq<Byte>, len: nat)
    requires |name| + |current| <= 1022 && len <= BUF_LEN
    ensures var b := name + [0] + current + [0] + Zeros(1022 - |name| - |current|);
            && (len <= |name| ==> b[..len] == name[0..len])
            && (|name| < len <= |name| + 1 + |current| ==> b[..len] == name + [0] + current[0..len - |name| - 1])
            && (|name| + |current| + 2 <= len ==>
                  b[..len] == name + [0] + (current + [0] + Zeros(len - |name| - |current| - 2)))
  {
  }

  lemma LongNameNoNewValue(a: Access, e: Event)
    requires Packs(a) && a.write && a.current.Got? && a.newValue.Unavailable? && |a.name.text| == 255
    requires NulFree(a.name.text) && NulFree(a.current.text)
    ensures var c := |a.current.text|;
            var out := DecodeStrings(e, Payload(a), 32);
            && (out.Panicked? <==> c < 20)
            && (out.Decoded? ==> |out.event.name| < 255)
  {
    hide DecodeStrings, NulFree, CString, DecodeCurrent, Payload, Overlay;
    var name, current := a.name.text, a.current.text;
    var c := |current|;
    var d := Payload(a);
    var first := if c == 255 then [] else current;
    LongNameNoNewValueBuffer(a);
    SliceNulFree(name);
    NameDecodes(e, first, d[|first| + 1..], 32);
    NameKept(e.(name := first), d[|first| + 1..], 32 + |first| + 1);
    if c < 20 {
      assert d == current + [0] + name[c + 1..c + 236];
      UnendedValue(e, current, name[c + 1..c + 236]);
    } else {
      TwoNuls(e, d, |first|, 255);
    }
  }

  /** The current value is stored over the name, and its NUL, or that of the name, stays at 255. */
  lemma LongNameNoNewValueBuffer(a: Access)
    requires Packs(a) && a.write && a.current.Got? && a.newValue.Unavailable? && |a.name.text| == 255
    ensures var c := |a.current.text|;
            var first := if c == 255 then [] else a.current.text;
            var d := Payload(a);
            && |d| == c + 236 && d == first + [0] + d[|first| + 1..]
            && (c < 20 ==> d == first + [0] + a.name.text[c + 1..c + 236])
            && (c >= 20 ==> d[255] == 0)
  {
    hide Overlay, Buffer, BufferEnd, NulFree;
    LongNameOverwritten(a);
    assert BufferEnd(a) % BUF_LEN == |a.current.text| + 236 by {
      LongNameEnd(a);
    }
    OverwrittenSlices(a.name.text, a.current.text);
  }

  lemma LongNameEnd(a: Access)
    requires a.name.Got? && |a.name.text| == 255 && a.current.Got? && |a.current.text| < OBJ_LEN
    requires a.write && a.newValue.Unavailable?
    ensures BufferEnd(a) % BUF_LEN == |a.current.text| + 236
  {
  }

  /** The buffer of a 255-byte name once the current value is stored on top of it. */
  function Overwritten(name: seq<Byte>, current: seq<Byte>): (b: seq<Byte>)
    requires |name| == 255 && |current| <= 255
    ensures |b| == BUF_LEN
  {
    (if |current| == 255 then [0] + current[1..] else current) + [0] + (name + [0] + Zeros(768))[|current| + 1..]
  }

  lemma OverwrittenSlices(name: seq<Byte>, current: seq<Byte>)
    requires |name| == 255 && |current| <= 255
    ensures var c := |current|;
            var first := if c == 255 then [] else current;
            var d := Overwritten(name, current)[..c + 236];
            && d == first + [0] + d[|first| + 1..]
            && (c < 20 ==> d == first + [0] + name[c + 1..c + 236])
            && (c >= 20 ==> d[255] == 0)
  {
  }

  lemma LongNameOverwritten(a: Access)
    requires Packs(a) && a.write && a.current.Got? && a.newValue.Unavailable? && |a.name.text| == 255
    ensures Buffer(a) == Overwritten(a.name.text, a.current.text)
  {
    hide Overlay, NulFree;
    var name, current := a.name.text, a.current.text;
    var c := |current|;
    NameOnlyShape(a);
    var w := current + [0] + (name + [0] + Zeros(768))[c + 1..];
    assert WithCurrent(a) == w by {
      OverlayAtStart(NameOnly(a), current);
    }
    if c < 255 {
      OverlayZero(w, c + 257);
    } else {
      OverlayAtStart(w, []);
      assert w[1..] == current[1..] + [0] + (name + [0] + Zeros(768))[c + 1..];
    }
  }

  lemma OverlayAtStart(b: seq<Byte>, text: seq<Byte>)
    requires |text| < |b|
    ensures Overlay(b, 0, text) == text + [0] + b[|text| + 1..]
  {
  }

  lemma OverlayZero(b: seq<Byte>, off: nat)
    requires off < |b| && b[off] == 0
    ensures Overlay(b, off, []) == b
  {
  }

  lemma EmptyNewValue(e: Event, d: seq<Byte>, read: nat)
    requires d != [] && d[0] == 0
    ensures DecodeNewValue(e, d, read) == Decoded(e.(newValue := []), read + 1)
  {
  }

  // ---------- exactly what is lost ----------

  predicate AllRead(a: Access) {
    a.current.Got? && (a.write ==> a.newValue.Got?)
  }

  /** No string that is sent holds a NUL byte. */
  predicate NulFreeStrings(a: Access) {
    NulFree(Stored(a.name)) && NulFree(Stored(a.current)) && (a.write ==> NulFree(Stored(a.newValue)))
  }

  /**
   * The strings have no NUL and, when all could be read, the name has at most 254 bytes; when one could not, the
   * end of the message, 22 bytes short for each missing value, is negative and wraps around, and no new value
   * stands behind a missing current one.
   */
  predicate Complete(a: Access) {
    && NulFreeStrings(a)
    && if AllRead(a) then |Stored(a.name)| <= 254
       else
         && BufferEnd(a) < 0
         && (a.current.Unavailable? ==> NewValueIndex(a) < 0 && (a.write ==> Stored(a.newValue) == []))
  }

  /** By the lengths of the strings: the message stops inside the name, or inside the current value. */
  predicate Unterminated(a: Access) {
    var n, c, m := |Stored(a.name)|, |Stored(a.current)|, |Stored(a.newValue)|;
    if AllRead(a) then false
    else if a.current.Got? then if n == 255 then c < 20 else c != 20 && n + c >= 20
    else if !a.write then n > 20
    else if a.newValue.Got? then n < 20 && m < 20 <= n + m
    else n > 41
  }

  lemma RecoversIs(a: Access, action: nat)
    requires Packs(a) && action < 0x1_0000_0000_0000_0000
    ensures var out := DecodeStrings(Header(a, action), Payload(a), 32);
            && (Decode(ZERO_EVENT, Wire(a, action)) == out)
            && (Recovers(a, action) <==>
                && out.Decoded? && out.event.name == a.name.text && out.event.current == Stored(a.current)
                && out.event.newValue == if a.write then Stored(a.newValue) else [])
            && (Recovers(a, action) ==> NulFreeStrings(a))
  {
    hide DecodeStrings, Decode, Wire, Payload;
    ReceivedIs(a, action);
    DecodeKeeps(Header(a, action), Payload(a));
  }

  /** Which accesses user space recovers, among all that are sent. */
  lemma RecoversExactly(a: Access, action: nat)
    requires Packs(a) && action < 0x1_0000_0000_0000_0000
    ensures Recovers(a, action) <==> Complete(a)
  {
    hide DecodeStrings, Decode, Wire, Payload, NulFree, Buffer;
    RecoversIs(a, action);
    if NulFreeStrings(a) {
      var e := Header(a, action);
      if AllRead(a) {
        if |a.name.text| <= 254 {
          RoundTrip(a, action);
        } else {
          LongNameLost(a, action);
        }
      } else if a.current.Got? {
        NoNewValue(a, e);
      } else if !a.write {
        NoCurrentRead(a, e);
      } else if a.newValue.Got? {
        NoCurrentWrite(a, e);
      } else {
        NoValues(a, e);
      }
    }
  }

  /** Which accesses make the kernel send a message that the decoder slices out of range. */
  lemma SentPanicsExactly(a: Access, action: nat)
    requires Packs(a) && NulFreeStrings(a) && action < 0x1_0000_0000_0000_0000
    ensures Decode(ZERO_EVENT, Wire(a, action)).Panicked? <==> Unterminated(a)
  {
    hide DecodeStrings, Decode, Wire, Payload, NulFree, Buffer;
    RecoversIs(a, action);
    var e := Header(a, action);
    if AllRead(a) {
      if |a.name.text| <= 254 {
        RoundTrip(a, action);
      } else {
        LongNameLost(a, action);
      }
    } else if a.current.Got? {
      NoNewValue(a, e);
    } else if !a.write {
      NoCurrentRead(a, e);
    } else if a.newValue.Got? {
      NoCurrentWrite(a, e);
    } else {
      NoValues(a, e);
    }
  }
}
