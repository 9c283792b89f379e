/**
 * The sysctl event on the wire: the kernel side packs up to three strings at masked offsets of one buffer,
 * the user-space side parses them back.
 */
module SysctlWire {
  import opened Bytes

  const OBJ_LEN: nat := 256
  const BUF_LEN: nat := 1024
  const EINVAL: int := 22

  /** Answer of a sysctl string helper asked for at most 255 characters. */
  datatype Reply = Got(text: seq<Byte>) | TooBig | Unavailable

  /** One sysctl access as the helpers report it. */
  datatype Access = Access(write: bool, filePosition: nat, name: Reply, current: Reply, newValue: Reply)

  predicate Plain(r: Reply) {
    r.Got? && |r.text| < OBJ_LEN && NulFree(r.text)
  }

  /** All strings of the access could be read. */
  predicate Readable(a: Access) {
    Plain(a.name) && Plain(a.current) && (a.write ==> Plain(a.newValue)) && a.filePosition < 0x1_0000_0000
  }

  /** The value a helper returns: the length without the NUL, or -EINVAL; an unavailable value is stored empty. */
  function Ret(r: Reply): int {
    if r.Got? then |r.text| else -EINVAL
  }

  function Stored(r: Reply): (s: seq<Byte>) {
    if r.Got? then r.text else []
  }

  /** A helper stores the string and one NUL at `off`. */
  function Overlay(b: seq<Byte>, off: nat, text: seq<Byte>): (r: seq<Byte>)
    requires off + |text| + 1 <= |b|
    ensures |r| == |b|
  {
    b[..off] + text + [0] + b[off + |text| + 1..]
  }

  function ValueIndex(a: Access): int { Ret(a.name) + 1 }
  function NewValueIndex(a: Access): int { Ret(a.current) + ValueIndex(a) + 1 }
  function BufferEnd(a: Access): int {
    if a.write then Ret(a.newValue) + NewValueIndex(a) + 1 else NewValueIndex(a)
  }

  // The masks are all ones in binary, so `x & mask` is the remainder by `mask + 1`, for negative x too.
  function NameOnly(a: Access): (r: seq<Byte>)
    requires |Stored(a.name)| < OBJ_LEN
    ensures |r| == BUF_LEN
  {
    Overlay(Zeros(BUF_LEN), 0, Stored(a.name))
  }

  function WithCurrent(a: Access): (r: seq<Byte>)
    requires |Stored(a.name)| < OBJ_LEN && |Stored(a.current)| < OBJ_LEN
    ensures |r| == BUF_LEN
  {
    Overlay(NameOnly(a), ValueIndex(a) % 256, Stored(a.current))
  }

  function Buffer(a: Access): (r: seq<Byte>)
    requires |Stored(a.name)| < OBJ_LEN && |Stored(a.current)| < OBJ_LEN && (a.write ==> |Stored(a.newValue)| < OBJ_LEN)
    ensures |r| == BUF_LEN
  {
    if a.write then Overlay(WithCurrent(a), NewValueIndex(a) % 512, Stored(a.newValue)) else WithCurrent(a)
  }

  /** The event as sent: write flag, file position, action, then the buffer up to its masked end. */
  function Wire(a: Access, action: nat): seq<Byte>
    requires |Stored(a.name)| < OBJ_LEN && |Stored(a.current)| < OBJ_LEN && (a.write ==> |Stored(a.newValue)| < OBJ_LEN)
  {
    LittleEndian(if a.write then 1 else 0, 4) + LittleEndian(a.filePosition, 4) + LittleEndian(action, 8)
    + Buffer(a)[..BufferEnd(a) % BUF_LEN]
  }

  // ---------- user space ----------

  datatype Event = Event(
    writeAccess: bool, filePosition: nat, action: nat,
    name: seq<Byte>, current: seq<Byte>, newValue: seq<Byte>, overriddenWith: seq<Byte>)

  const ZERO_EVENT: Event := Event(false, 0, 0, [], [], [], [])

  /** `Panicked` is the out-of-range slice that an unterminated string leads to. */
  datatype Outcome = Decoded(event: Event, read: nat) | NotEnoughData | Panicked

  function WithHeader(e: Event, data: seq<Byte>): Event
    requires |data| >= 16
  {
    e.(writeAccess := e.writeAccess || Value(data[0..4]) == 1,
       filePosition := Value(data[4..8]), action := Value(data[8..16]))
  }

  // Name, current value and new value, each present only if bytes are left for it; `read` counts the bytes so far.
  function DecodeNewValue(e: Event, d: seq<Byte>, read: nat): Outcome {
    if d == [] then Decoded(e, read) else Decoded(e.(newValue := CString(d)), read + |CString(d)| + 1)
  }

  function DecodeCurrent(e: Event, d: seq<Byte>, read: nat): Outcome {
    if d == [] then Decoded(e, read)
    else
      var s := CString(d);
      if |s| == |d| then Panicked else DecodeNewValue(e.(current := s), d[|s| + 1..], read + |s| + 1)
  }

  function DecodeStrings(e: Event, d: seq<Byte>, read: nat): Outcome {
    if d == [] then Decoded(e, read)
    else
      var s := CString(d);
      if |s| == |d| then Panicked else DecodeCurrent(e.(name := s), d[|s| + 1..], read + |s| + 1)
  }

  function Decode(e: Event, data: seq<Byte>): Outcome {
    if |data| < 16 then NotEnoughData else DecodeStrings(WithHeader(e, data), data[16..], 32)
  }

  /** The sysctl branch of the event handler: a zeroed event is filled, an override is looked up again by name. */
  function Handled(list: map<seq<Byte>, seq<Byte>>, default: seq<Byte>, data: seq<Byte>): Outcome {
    match Decode(ZERO_EVENT, data)
    case Decoded(e, read) =>
      Decoded(if e.action != 2 then e
              else e.(overriddenWith := if e.name in list then list[e.name] else default), read)
    case other => other
  }

  class SysCtlEvent {
    var writeAccess: bool
    var filePosition: nat
    var action: nat
    var name: seq<Byte>
    var currentValue: seq<Byte>
    var newValue: seq<Byte>
    var newValueOverriddenWith: seq<Byte>

    constructor ()
      ensures View() == ZERO_EVENT
    {
      writeAccess, filePosition, action := false, 0, 0;
      name, currentValue, newValue, newValueOverriddenWith := [], [], [], [];
    }

    ghost function View(): Event
      reads this
    {
      Event(writeAccess, filePosition, action, name, currentValue, newValue, newValueOverriddenWith)
    }

    /** The outcome carries a copy of the fields as they are left; they are unchanged on too little data. */
    method UnmarshallBinary(data: seq<Byte>) returns (out: Outcome)
      modifies this
      ensures out == Decode(old(View()), data)
      ensures out.Decoded? ==> View() == out.event
      ensures out.NotEnoughData? ==> View() == old(View())
    {
      hide Value;
      if |data| < 16 {
        return NotEnoughData;
      }
      if Value(data[0..4]) == 1 {
        writeAccess := true;
      }
      filePosition := Value(data[4..8]);
      action := Value(data[8..16]);
      var cursor, terminated := ParseStrings(data);
      if !terminated {
        return Panicked;
      }
      return Decoded(Event(writeAccess, filePosition, action, name, currentValue, newValue, newValueOverriddenWith),
                     16 + cursor);
    }

    /** The handler zeroes the event it reuses, decodes into it and looks the override up by name. */
    method DefaultEventHandler(list: map<seq<Byte>, seq<Byte>>, default: seq<Byte>, data: seq<Byte>)
      returns (out: Outcome)
      modifies this
      ensures out == Handled(list, default, data)
      ensures out.Decoded? ==> View() == out.event
    {
      hide Decode;
      writeAccess, filePosition, action := false, 0, 0;
      name, currentValue, newValue, newValueOverriddenWith := [], [], [], [];
      out := UnmarshallBinary(data);
      if out.Decoded? && action == 2 {
        if name in list {
          newValueOverriddenWith := list[name];
        } else {
          newValueOverriddenWith := default;
        }
        out := Decoded(out.event.(overriddenWith := newValueOverriddenWith), out.read);
      }
    }

    /** Parses the three strings after the header; `terminated` is false when the slice is out of range. */
    method ParseStrings(data: seq<Byte>) returns (cursor: nat, terminated: bool)
      requires |data| >= 16
      modifies this`name, this`currentValue, this`newValue
      ensures DecodeStrings(old(View()), data[16..], 32) ==
              if terminated then Decoded(View(), 16 + cursor) else Panicked
    {
      hide CString;
      cursor, terminated := 16, true;
      var rest := data[cursor..];
      if |rest| > 0 {
        var s := CString(rest);
        name, cursor := s, cursor + |s| + 1;
        if cursor > |data| {
          return cursor, false;
        }
        rest := rest[|s| + 1..];
        if |rest| > 0 {
          s := CString(rest);
          currentValue, cursor := s, cursor + |s| + 1;
          if cursor > |data| {
            return cursor, false;
          }
          rest := rest[|s| + 1..];
          if |rest| > 0 {
            s := CString(rest);
            newValue, cursor := s, cursor + |s| + 1;
          }
        }
      }
    }
  }
}
