/**
 * The classic-BPF machine that runs a socket filter, and the 22-instruction DNS filter. A load past the
 * end of the packet drops it.
 */
module ClassicBpf {

  type Packet = seq<bv8>

  datatype Cond = JumpEqual | JumpBitsSet

  datatype Instr =
    | LoadAbsolute(size: nat, off: nat)
    | LoadIndirect(size: nat, off: nat)
    | LoadMemShift(off: nat)
    | JumpIf(cond: Cond, val: bv32, skipTrue: nat, skipFalse: nat)
    | RetConstant(ret: nat)

  /** Running at `pc` with accumulator and index register, or halted with the filter's answer. */
  datatype Machine = Running(pc: nat, a: bv32, x: nat) | Halted(ret: nat)

  /** Big-endian load of one or two bytes. */
  function Load(p: Packet, size: nat, off: nat): (r: bv32)
    requires (size == 1 || size == 2) && off + size <= |p|
  {
    if size == 1 then p[off] as bv32 else ((p[off] as bv32) << 8) | (p[off + 1] as bv32)
  }

  predicate Holds(cond: Cond, a: bv32, val: bv32) {
    match cond
    case JumpEqual => a == val
    case JumpBitsSet => a & val != 0
  }

  /** Assembled programs use loads of one or two bytes here. */
  predicate WellSized(i: Instr) {
    i.LoadAbsolute? || i.LoadIndirect? ==> i.size == 1 || i.size == 2
  }

  function LoadInto(p: Packet, size: nat, off: nat, m: Machine): Machine
    requires m.Running? && (size == 1 || size == 2)
  {
    if off + size <= |p| then Running(m.pc + 1, Load(p, size, off), m.x) else Halted(0)
  }

  function Step(i: Instr, p: Packet, m: Machine): Machine
    requires m.Running? && WellSized(i)
  {
    match i
    case LoadAbsolute(size, off) => LoadInto(p, size, off, m)
    case LoadIndirect(size, off) => LoadInto(p, size, m.x + off, m)
    case LoadMemShift(off) =>
      if off < |p| then Running(m.pc + 1, m.a, 4 * ((p[off] & 0xf) as nat)) else Halted(0)
    case JumpIf(cond, val, skipTrue, skipFalse) =>
      Running(m.pc + 1 + (if Holds(cond, m.a, val) then skipTrue else skipFalse), m.a, m.x)
    case RetConstant(ret) => Halted(ret)
  }

  /** Every jump lands inside the program and the last instruction returns. */
  predicate Closed(prog: seq<Instr>) {
    && |prog| > 0
    && prog[|prog| - 1].RetConstant?
    && forall i :: 0 <= i < |prog| ==>
         && WellSized(prog[i])
         && (prog[i].JumpIf? ==> i + 1 + prog[i].skipTrue < |prog| && i + 1 + prog[i].skipFalse < |prog|)
  }

  /** At most `n` steps of the machine. */
  function Exec(prog: seq<Instr>, p: Packet, m: Machine, n: nat): (r: Machine)
    requires Closed(prog) && (m.Running? ==> m.pc < |prog|)
    ensures r.Running? ==> r.pc < |prog|
    decreases n
  {
    if n == 0 || m.Halted? then m else Exec(prog, p, Step(prog[m.pc], p, m), n - 1)
  }

  /** A closed program halts within its length, from any state and on any packet. */
  lemma {:induction false} Halts(prog: seq<Instr>, p: Packet, m: Machine, n: nat)
    requires Closed(prog) && (m.Running? ==> m.pc < |prog| <= m.pc + n)
    ensures Exec(prog, p, m, n) == Halted(AnswerFrom(prog, p, m))
    decreases n
  {
    if n > 0 && m.Running? {
      Halts(prog, p, Step(prog[m.pc], p, m), n - 1);
    }
  }

  /** The answer the machine gives from a state on: jumps only go forward, so the recursion ends. */
  function AnswerFrom(prog: seq<Instr>, p: Packet, m: Machine): nat
    requires Closed(prog) && (m.Running? ==> m.pc < |prog|)
    decreases if m.Running? then |prog| - m.pc else 0
  {
    if m.Halted? then m.ret else AnswerFrom(prog, p, Step(prog[m.pc], p, m))
  }
}

module DnsFilter {
  import opened ClassicBpf

  const SNAPLEN: nat := 262144

  function Program(): seq<Instr> {
    [ LoadAbsolute(2, 12),
      JumpIf(JumpEqual, 0x86dd, 0, 7),
      LoadAbsolute(1, 20),
      JumpIf(JumpEqual, 0x6, 1, 0),
      JumpIf(JumpEqual, 0x11, 0, 16),
      LoadAbsolute(2, 54),
      JumpIf(JumpEqual, 53, 13, 0),
      LoadAbsolute(2, 56),
      JumpIf(JumpEqual, 53, 11, 12),
      JumpIf(JumpEqual, 0x800, 0, 11),
      LoadAbsolute(1, 23),
      JumpIf(JumpEqual, 0x6, 1, 0),
      JumpIf(JumpEqual, 0x11, 0, 8),
      LoadAbsolute(2, 20),
      JumpIf(JumpBitsSet, 0x1fff, 6, 0),
      LoadMemShift(14),
      LoadIndirect(2, 14),
      JumpIf(JumpEqual, 53, 2, 0),
      LoadIndirect(2, 16),
      JumpIf(JumpEqual, 53, 0, 1),
      RetConstant(SNAPLEN),
      RetConstant(0) ]
  }

  /** The two bytes at `off` are present and hold the big-endian value `hi`, `lo`. */
  predicate Bytes2(p: Packet, off: nat, hi: bv8, lo: bv8) {
    off + 2 <= |p| && p[off] == hi && p[off + 1] == lo
  }

  predicate Transport(p: Packet, off: nat) {
    off < |p| && (p[off] == 6 || p[off] == 17)
  }

  /** Source port 53, or a destination port 53 when the source port is another one. */
  predicate DnsPorts(p: Packet, off: nat) {
    Bytes2(p, off, 0, 53) || (off + 2 <= |p| && Bytes2(p, off + 2, 0, 53))
  }

  /** IPv6 over Ethernet, next header at 20, ports right after the 40-byte header. */
  predicate DnsOverIpv6(p: Packet) {
    Bytes2(p, 12, 0x86, 0xdd) && Transport(p, 20) && DnsPorts(p, 54)
  }

  /** IPv4 over Ethernet, first fragment, ports after the variable-length header. */
  predicate DnsOverIpv4(p: Packet) {
    && Bytes2(p, 12, 0x08, 0x00) && Transport(p, 23)
    && p[20] & 0x1f == 0 && p[21] == 0
    && DnsPorts(p, 14 + 4 * ((p[14] & 0xf) as nat))
  }

  /** The absolute instruction each jump goes to, as the listing of the program documents it. */
  function Target(i: nat, taken: bool): int
    requires i < 22
  {
    match i
    case 1 => if taken then 2 else 9
    case 3 => if taken then 5 else 4
    case 4 => if taken then 5 else 21
    case 6 => if taken then 20 else 7
    case 8 => if taken then 20 else 21
    case 9 => if taken then 10 else 21
    case 11 => if taken then 13 else 12
    case 12 => if taken then 13 else 21
    case 14 => if taken then 21 else 15
    case 17 => if taken then 20 else 18
    case 19 => if taken then 20 else 21
    case _ => -1
  }

  lemma ProgramIsClosed()
    ensures |Program()| == 22 && Closed(Program())
    ensures forall i: nat :: i < 22 && Program()[i].JumpIf? ==>
              i + 1 + Program()[i].skipTrue == Target(i, true) && i + 1 + Program()[i].skipFalse == Target(i, false)
  {
  }

  /** The answer from instruction `pc` on. */
  function At(p: Packet, pc: nat, a: bv32, x: nat): nat
    requires pc < 22
  {
    AnswerFrom(Program(), p, Running(pc, a, x))
  }

  function Verdict(capture: bool): nat {
    if capture then SNAPLEN else 0
  }

  /** One instruction: a jump moves on, a load moves on or drops, a return answers. */
  lemma Next(p: Packet, pc: nat, a: bv32, x: nat)
    requires pc < 22
    ensures var m := Step(Program()[pc], p, Running(pc, a, x));
            At(p, pc, a, x) == if m.Halted? then m.ret else if m.pc < 22 then At(p, m.pc, m.a, m.x) else 0
  {
    ProgramIsClosed();
    var m := Step(Program()[pc], p, Running(pc, a, x));
    assert AnswerFrom(Program(), p, Running(pc, a, x)) == AnswerFrom(Program(), p, m);
  }

  lemma Port(p: Packet, off: nat)
    requires off + 2 <= |p|
    ensures Load(p, 2, off) == 53 <==> Bytes2(p, off, 0, 53)
  {
  }

  lemma Ethertypes(p: Packet)
    requires 14 <= |p|
    ensures Load(p, 2, 12) == 0x86dd <==> Bytes2(p, 12, 0x86, 0xdd)
    ensures Load(p, 2, 12) == 0x800 <==> Bytes2(p, 12, 0x08, 0x00)
  {
  }

  lemma FragmentOffset(p: Packet)
    requires 22 <= |p|
    ensures Load(p, 2, 20) & 0x1fff == 0 <==> p[20] & 0x1f == 0 && p[21] == 0
  {
  }

  lemma Byte(p: Packet, off: nat)
    requires off < |p|
    ensures Load(p, 1, off) == 6 <==> p[off] == 6
    ensures Load(p, 1, off) == 0x11 <==> p[off] == 17
  {
  }

  lemma Returns(p: Packet, a: bv32, x: nat)
    ensures At(p, 20, a, x) == SNAPLEN && At(p, 21, a, x) == 0
  {
    Next(p, 20, a, x);
    Next(p, 21, a, x);
  }

  /** Instructions 16 to 19: the ports of an IPv4 packet whose header ends at 14 + x. */
  lemma PortsAfterHeader(p: Packet, a: bv32, x: nat)
    ensures At(p, 16, a, x) == Verdict(DnsPorts(p, 14 + x))
  {
    Next(p, 16, a, x);
    if 16 + x <= |p| {
      var src := Load(p, 2, x + 14);
      Next(p, 17, src, x);
      Port(p, x + 14);
      Returns(p, src, x);
      Next(p, 18, src, x);
      if 18 + x <= |p| {
        var dst := Load(p, 2, x + 16);
        Next(p, 19, dst, x);
        Port(p, x + 16);
        Returns(p, dst, x);
      }
    }
  }

  /** Instructions 5 to 8: the ports of an IPv6 packet. */
  lemma PortsAt54(p: Packet, a: bv32, x: nat)
    ensures At(p, 5, a, x) == Verdict(DnsPorts(p, 54))
  {
    Next(p, 5, a, x);
    if 56 <= |p| {
      var src := Load(p, 2, 54);
      Next(p, 6, src, x);
      Port(p, 54);
      Returns(p, src, x);
      Next(p, 7, src, x);
      if 58 <= |p| {
        var dst := Load(p, 2, 56);
        Next(p, 8, dst, x);
        Port(p, 56);
        Returns(p, dst, x);
      }
    }
  }

  /** Instructions 2 to 4. */
  lemma Ipv6Branch(p: Packet, a: bv32, x: nat)
    ensures At(p, 2, a, x) == Verdict(Transport(p, 20) && DnsPorts(p, 54))
  {
    Next(p, 2, a, x);
    if 20 < |p| {
      var proto := Load(p, 1, 20);
      Byte(p, 20);
      Next(p, 3, proto, x);
      Next(p, 4, proto, x);
      PortsAt54(p, proto, x);
      Returns(p, proto, x);
    }
  }

  /** Instructions 13 to 15: first fragment only, then the header length. */
  lemma FirstFragment(p: Packet, a: bv32, x: nat)
    requires 23 < |p|
    ensures At(p, 13, a, x) ==
            Verdict(p[20] & 0x1f == 0 && p[21] == 0 && DnsPorts(p, 14 + 4 * ((p[14] & 0xf) as nat)))
  {
    var frag := Load(p, 2, 20);
    Next(p, 13, a, x);
    FragmentOffset(p);
    Next(p, 14, frag, x);
    Returns(p, frag, x);
    Next(p, 15, frag, x);
    PortsAfterHeader(p, frag, 4 * ((p[14] & 0xf) as nat));
  }

  /** Instructions 10 to 12. */
  lemma Ipv4Branch(p: Packet, a: bv32, x: nat)
    ensures At(p, 10, a, x) ==
            Verdict(Transport(p, 23) && p[20] & 0x1f == 0 && p[21] == 0 && DnsPorts(p, 14 + 4 * ((p[14] & 0xf) as nat)))
  {
    Next(p, 10, a, x);
    if 23 < |p| {
      var proto := Load(p, 1, 23);
      Byte(p, 23);
      Next(p, 11, proto, x);
      Next(p, 12, proto, x);
      FirstFragment(p, proto, x);
      Returns(p, proto, x);
    }
  }

  lemma FromStart(p: Packet)
    ensures At(p, 0, 0, 0) == Verdict(DnsOverIpv6(p) || DnsOverIpv4(p))
  {
    Next(p, 0, 0, 0);
    if 14 <= |p| {
      var ethertype := Load(p, 2, 12);
      Ethertypes(p);
      Next(p, 1, ethertype, 0);
      Ipv6Branch(p, ethertype, 0);
      Next(p, 9, ethertype, 0);
      Ipv4Branch(p, ethertype, 0);
      Returns(p, ethertype, 0);
    }
  }

  /**
   * The filter captures exactly the packets, of any length and content, that are DNS over IPv6 or over an
   * unfragmented IPv4 header, and answers 0 for all others; 22 steps are always enough.
   */
  lemma FilterIsDnsPredicate(p: Packet, n: nat)
    requires n >= 22
    ensures Closed(Program())
    ensures Exec(Program(), p, Running(0, 0, 0), n) == Halted(if DnsOverIpv6(p) || DnsOverIpv4(p) then SNAPLEN else 0)
  {
    ProgramIsClosed();
    FromStart(p);
    Halts(Program(), p, Running(0, 0, 0), n);
  }
}
