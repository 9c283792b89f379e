/** The cgroup sysctl program: look the rule up, pack the strings, decide, send the event, enforce. */
module SysctlHook {
  import opened Actions
  import opened BpfMap
  import opened Bytes
  import opened KillSwitch
  import opened Policy
  import opened SysctlWire
  import opened SysctlRules

  const EVENT_SYSCTL: nat := 7
  const SYSCTL_OVERRIDE: int := 2
  const SYSCTL_EINVAL: int := 3
  const SYSCTL_ERANGE: int := 4
  const MINUS_EINVAL: int := -22
  const MINUS_ERANGE: int := -34

  /**
   * What one access finds: rules, policies, constants, the process cached at the entry of the handler, and
   * the answer of the helper that replaces the written value, negative when it refuses.
   */
  datatype Env = Env(
    rules: map<seq<Byte>, seq<Byte>>, default: Option<seq<Byte>>, policies: map<nat, nat>, cfg: Config,
    process: Option<nat>, setRet: int)
  {
    /** Without a cached process the event keeps the zeroed context: pid 0. */
    function Pid(): nat { process.GetOr(0) }
  }

  datatype Sent = Sent(action: nat, verdict: nat, bytes: seq<Byte>)

  /** `position` is the file position left behind, `replaced` the value that took the place of the written one. */
  datatype Result = Result(ret: int, sent: Option<Sent>, position: nat, replaced: Option<seq<Byte>>)

  /** The documented contract of the string helpers. */
  predicate Contract(env: Env, a: Access) {
    && |Stored(a.name)| < OBJ_LEN && |Stored(a.current)| < OBJ_LEN && |Stored(a.newValue)| < OBJ_LEN
    && !a.name.Unavailable?
    && (forall k :: k in env.rules ==> |env.rules[k]| == VALUE_LEN)
    && (env.default.Some? ==> |env.default.value| == VALUE_LEN)
  }

  function Overrides(env: Env, a: Access, rule: Rule): bool {
    a.write && rule.overrideLen >= 1 && !Exempt(env.cfg, env.Pid())
  }

  /** An override wins over a blocked write. */
  function AccessAction(env: Env, a: Access, rule: Rule): nat {
    if Overrides(env, a, rule) then 2
    else if if a.write then rule.blockWrite else rule.blockRead then 0 else 1
  }

  /** The helper replaces the written value unless it refuses. */
  function Replaced(env: Env, a: Access, rule: Rule): Option<seq<Byte>> {
    if Overrides(env, a, rule) && env.setRet >= 0 then Some(rule.value) else None
  }

  /** The position is reset before the helper is asked. */
  function Position(env: Env, a: Access, rule: Rule): nat {
    if Overrides(env, a, rule) then 0 else a.filePosition
  }

  /** The answer when a string does not fit its buffer. */
  function TooBigAnswer(a: Access): int {
    if a.write then SYSCTL_SHOT else SYSCTL_OK
  }

  function Found(env: Env, a: Access): Option<seq<Byte>> {
    Decision(env.rules, env.default, RuleKey(Stored(a.name)))
  }

  function HookResult(sw: Switches, env: Env, a: Access): (Switches, Result)
    requires Contract(env, a)
  {
    var found := Found(env, a);
    if a.name.TooBig? then (sw, Result(TooBigAnswer(a), None, a.filePosition, None))
    else if found.None? then (sw, Result(SYSCTL_SHOT, None, a.filePosition, None))
    else if a.current.TooBig? then (sw, Result(TooBigAnswer(a), None, a.filePosition, None))
    else if a.write && a.newValue.TooBig? then (sw, Result(SYSCTL_SHOT, None, a.filePosition, None))
    else
      var rule := KernelView(found.value);
      var action := AccessAction(env, a, rule);
      var own := EventAction(env.policies, Some(EVENT_SYSCTL));
      var verdict := Verdict(sw, env.Pid(), own);
      (Thrown(sw, env.Pid(), own),
       Result(if action == 0 then SYSCTL_SHOT
              else Enforced(env.cfg, env.Pid(), verdict, Program.CgroupSysctl, SymbolHook).ret,
              Some(Sent(action, verdict, Wire(a, action))), Position(env, a, rule), Replaced(env, a, rule)))
  }

  /** Stores a string and its NUL, as the helpers do. */
  method PutString(buf: array<Byte>, off: nat, text: seq<Byte>)
    requires off + |text| + 1 <= buf.Length
    modifies buf
    ensures buf[..] == Overlay(old(buf[..]), off, text)
  {
    PutBytes(buf, off, text);
    buf[off + |text|] := 0;
  }

  /** Current and new value, each behind the NUL of the string before it. */
  method PackValues(buf: array<Byte>, a: Access, valueIndex: int) returns (tooBig: bool, bufferEnd: int)
    requires |Stored(a.name)| < OBJ_LEN && |Stored(a.current)| < OBJ_LEN && |Stored(a.newValue)| < OBJ_LEN
    requires buf.Length == BUF_LEN && buf[..] == NameOnly(a) && valueIndex == ValueIndex(a)
    modifies buf
    ensures tooBig <==> a.write && a.newValue.TooBig?
    ensures !tooBig ==> buf[..] == Buffer(a) && bufferEnd == BufferEnd(a)
  {
    PutString(buf, valueIndex % 256, Stored(a.current));
    var newValueIndex := Ret(a.current) + valueIndex + 1;
    tooBig, bufferEnd := false, newValueIndex;
    if a.write {
      if a.newValue.TooBig? {
        return true, bufferEnd;
      }
      PutString(buf, newValueIndex % 512, Stored(a.newValue));
      bufferEnd := Ret(a.newValue) + newValueIndex + 1;
    }
  }

  /** What the helper says about a refusal is overwritten. */
  method DecideAccess(env: Env, a: Access, rule: Rule)
    returns (action: int, position: nat, replaced: Option<seq<Byte>>)
    ensures action == AccessAction(env, a, rule) && 0 <= action <= 2
    ensures position == Position(env, a, rule) && replaced == Replaced(env, a, rule)
  {
    action, position, replaced := SYSCTL_OK, a.filePosition, None;
    if a.write && rule.blockWrite {
      action := SYSCTL_SHOT;
    }
    if !a.write && rule.blockRead {
      action := SYSCTL_SHOT;
    }
    if a.write && rule.overrideLen >= 1 {
      if !Exempt(env.cfg, env.Pid()) {
        position := 0;
        if env.setRet >= 0 {
          replaced := Some(rule.value);
        }
        if env.setRet == MINUS_EINVAL {
          action := SYSCTL_EINVAL;
        }
        if env.setRet == MINUS_ERANGE {
          action := SYSCTL_ERANGE;
        }
        action := SYSCTL_OVERRIDE;
      }
    }
  }

  method CgroupSysctl(buf: array<Byte>, board: Switchboard, env: Env, a: Access) returns (r: Result)
    requires buf.Length == BUF_LEN && Contract(env, a)
    modifies buf, board`globalSwitch
    ensures (board.View(), r) == HookResult(old(board.View()), env, a)
  {
    hide LittleEndian, Value, RuleKey, KernelView, Buffer, BufferEnd;
    hide Verdict, Thrown, Enforced, AccessAction, Overrides, Position, Replaced;
    forall i | 0 <= i < BUF_LEN {
      buf[i] := 0;
    }
    assert buf[..] == Zeros(BUF_LEN);
    if a.name.TooBig? {
      return Result(if a.write then SYSCTL_SHOT else SYSCTL_OK, None, a.filePosition, None);
    }
    PutString(buf, 0, Stored(a.name));
    var key := buf[..OBJ_LEN];
    KeyInBuffer(a);
    var decision := if key in env.rules then Some(env.rules[key]) else env.default;
    if decision.None? {
      return Result(SYSCTL_SHOT, None, a.filePosition, None);
    }
    if a.current.TooBig? {
      return Result(if a.write then SYSCTL_SHOT else SYSCTL_OK, None, a.filePosition, None);
    }
    var tooBig, bufferEnd := PackValues(buf, a, Ret(a.name) + 1);
    if tooBig {
      return Result(SYSCTL_SHOT, None, a.filePosition, None);
    }
    var action, position, replaced := DecideAccess(env, a, KernelView(decision.value));
    var verdict, _ := board.RunEventCheck(env.policies, env.Pid(), Some(EVENT_SYSCTL));
    var bytes := LittleEndian(if a.write then 1 else 0, 4) + LittleEndian(a.filePosition, 4) + LittleEndian(action, 8)
                 + buf[..bufferEnd % BUF_LEN];
    var sent := Some(Sent(action, verdict, bytes));
    if action == SYSCTL_OK || action == SYSCTL_OVERRIDE {
      var e := EnforcePolicy(env.cfg, env.Pid(), verdict, Program.CgroupSysctl, SymbolHook);
      return Result(e.ret, sent, position, replaced);
    }
    return Result(SYSCTL_SHOT, sent, position, replaced);
  }

  /** The zeroed buffer makes the stored name its own padded key. */
  lemma KeyInBuffer(a: Access)
    requires |Stored(a.name)| < OBJ_LEN
    ensures NameOnly(a)[..OBJ_LEN] == RuleKey(Stored(a.name))
  {
  }
}
