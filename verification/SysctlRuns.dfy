/** What the sysctl program does in any run of checks, and what user space reports of an access, end to end. */
module SysctlRuns {
  import opened Actions
  import opened BpfMap
  import opened Bytes
  import opened KillSwitch
  import opened KillSwitchRuns
  import opened Policy
  import opened SysctlWire
  import opened SysctlRoundTrip
  import opened SysctlRules
  import opened SysctlHook

  /**
   * Once PARANOID is latched, an access of a process that is not exempt goes through exactly when it is a read
   * whose name, or whose current value, does not fit in 256 bytes.
   */
  lemma LatchedSysctlRefuses(tr: seq<Check>, i: nat, n: nat, env: Env, a: Access)
    requires FirstParanoid(tr, i) && LatchCondition(tr, i) && i < n <= |tr|
    requires Contract(env, a) && !Exempt(env.cfg, env.Pid())
    ensures var r := HookResult(KillSwitchRuns.StateAt(tr, n), env, a).1;
            r.ret != SYSCTL_SHOT <==> !a.write && (a.name.TooBig? || (Found(env, a).Some? && a.current.TooBig?))
  {
    hide Wire, KernelView, Found;
    LatchPersists(tr, i, n);
  }

  /** The access reaches the event check: its strings fit and there is a rule. */
  predicate Checked(env: Env, a: Access) {
    !a.name.TooBig? && Found(env, a).Some? && !a.current.TooBig? && (a.write ==> !a.newValue.TooBig?)
  }

  /** The event check of an access: the cached process, or pid 0, and the policy of sysctl events (type 7), or BLOCK. */
  predicate IsAccess(c: Check, env: Env) {
    && c.pid == (if env.process.Some? then env.process.value else 0)
    && c.action == if 7 in env.policies then env.policies[7] else BLOCK
  }

  predicate ExemptPid(cfg: Config, pid: nat) {
    pid == 0 || pid == 1 || pid == cfg.kriePid % 0x1_0000_0000
  }

  /**
   * An access in a run of checks. If it reaches the event check it is the next check of the run, under the policy
   * of sysctl events or BLOCK, and the event carries the verdict of that check; otherwise the switch stays as it is
   * and nothing is sent.
   */
  lemma AccessIsCheck(tr: seq<Check>, n: nat, env: Env, a: Access)
    requires n < |tr| && Contract(env, a)
    requires IsAccess(tr[n], env)
    ensures var (after, r) := HookResult(KillSwitchRuns.StateAt(tr, n), env, a);
            && (r.sent.Some? <==> Checked(env, a))
            && after == KillSwitchRuns.StateAt(tr, if Checked(env, a) then n + 1 else n)
            && (r.sent.Some? ==> HistoryVerdict(tr, n, r.sent.value.verdict))
            && (r.sent.None? ==> r.position == a.filePosition && r.replaced == None)
  {
    hide Wire, KernelView, Found, Enforced, HistoryVerdict;
    VerdictExactly(tr, n);
  }

  /**
   * Exactly when a checked access goes through, in any run: an override lifts the block of a write; then either the
   * process is exempt, or the policy of sysctl events is at most LOG and the first throw ever was not under key 0.
   * An override resets the position and replaces the value unless the helper refuses, also if the access is refused.
   */
  lemma AllowedExactly(tr: seq<Check>, n: nat, env: Env, a: Access)
    requires n < |tr| && Contract(env, a) && Checked(env, a) && IsAccess(tr[n], env)
    ensures var rule := KernelView(Found(env, a).value);
            var exempt := ExemptPid(env.cfg, tr[n].pid);
            var override := a.write && rule.overrideLen >= 1 && !exempt;
            var blocked := if a.write then rule.blockWrite else rule.blockRead;
            var r := HookResult(KillSwitchRuns.StateAt(tr, n), env, a).1;
            && (r.ret == SYSCTL_OK <==>
                (override || !blocked) && (exempt || (tr[n].action <= LOG && !ZeroFirst(tr, n + 1))))
            && r.sent.Some? && r.sent.value.action == (if override then 2 else if blocked then 0 else 1)
            && r.sent.value.bytes == Wire(a, r.sent.value.action)
            && r.position == (if override then 0 else a.filePosition)
            && r.replaced == if override && env.setRet >= 0 then Some(rule.value) else None
  {
    hide Wire, KernelView, Found, FirstThrow, ZeroFirst;
    LowVerdict(tr, n);
  }

  lemma LowVerdict(tr: seq<Check>, n: nat)
    requires n < |tr|
    ensures VerdictAt(tr, n) <= LOG <==> tr[n].action <= LOG && !ZeroFirst(tr, n + 1)
  {
    hide VerdictAt, FirstThrow;
    VerdictExactly(tr, n);
  }

  // ---------- one access, end to end ----------

  function OverrideList(options: Options): map<seq<Byte>, seq<Byte>> {
    map name | name in options.list :: options.list[name].overrideWith
  }

  /** The kernel's side of `options` in one environment, as the loader leaves it. */
  ghost predicate Loaded(options: Options, env: Env) {
    && Nameable(options.list)
    && Pushed(env.rules, options.list, options.list.Keys)
    && env.default == Some(Packed(options.default))
  }

  lemma LoadedRule(options: Options, env: Env, a: Access)
    requires Loaded(options, env) && Plain(a.name)
    ensures Found(env, a) == Some(Packed(Choice(options, a.name.text)))
  {
    SameRule(options, env.rules, a.name.text);
  }

  /** The action that the kernel takes under a rule: 2 for an override, 0 for a block, 1 to let it through. */
  function ActionUnder(p: Parameter, write: bool, exempt: bool): nat {
    if write && |p.overrideWith| % 0x1_0000_0000 >= 1 && !exempt then 2
    else if if write then p.blockWrite else p.blockRead then 0 else 1
  }

  /**
   * One access from the options to the report. Kernel and user space act on the rule listed under the name, or the
   * default; the report is the access with the action taken and, for an override only, the string of that rule.
   */
  lemma ReportedAccess(options: Options, env: Env, sw: Switches, a: Access)
    requires Loaded(options, env) && Contract(env, a) && Readable(a) && |a.name.text| <= 254
    ensures var r := HookResult(sw, env, a).1;
            var name := a.name.text;
            var p := if name in options.list then options.list[name] else options.default;
            var exempt := ExemptPid(env.cfg, if env.process.Some? then env.process.value else 0);
            var action := ActionUnder(p, a.write, exempt);
            && r.sent.Some? && r.sent.value.action == action
            && Handled(OverrideList(options), options.default.overrideWith, r.sent.value.bytes) ==
               Decoded(Event(a.write, a.filePosition, action, name, a.current.text,
                             if a.write then a.newValue.text else [], if action == 2 then p.overrideWith else []),
                       |r.sent.value.bytes| + 16)
            && r.position == (if action == 2 then 0 else a.filePosition)
            && r.replaced == if action == 2 && env.setRet >= 0 then Some(Pad(p.overrideWith, KEY_LEN)) else None
  {
    hide KernelView, Wire, Decode, Packed, Pushed, Nameable, Pad;
    var p := Choice(options, a.name.text);
    LoadedRule(options, env, a);
    KernelReadsPacked(p);
    RoundTrip(a, AccessAction(env, a, KernelView(Packed(p))));
  }

  function Reported(options: Options, r: Result): seq<Byte>
    requires r.sent.Some?
  {
    var out := Handled(OverrideList(options), options.default.overrideWith, r.sent.value.bytes);
    if out.Decoded? then out.event.overriddenWith else []
  }

  /** The value that a write leaves behind if it goes through. */
  function Written(a: Access, r: Result): seq<Byte> {
    if r.replaced.Some? then CString(r.replaced.value) else Stored(a.newValue)
  }

  /**
   * OVERRIDE is reported exactly on writes with a non-empty override by processes that are not exempt, whether
   * or not the helper refused. The value was replaced by the reported string exactly when the helper did not
   * refuse and the string fits in 256 bytes. After a refusal the report is right only by coincidence.
   */
  lemma ReportedOverrideExactly(options: Options, env: Env, sw: Switches, a: Access)
    requires Loaded(options, env) && Contract(env, a) && Readable(a) && |a.name.text| <= 254
    requires NulFree(Choice(options, a.name.text).overrideWith)
    requires |Choice(options, a.name.text).overrideWith| < 0x1_0000_0000
    ensures var r := HookResult(sw, env, a).1;
            var s := Choice(options, a.name.text).overrideWith;
            && r.sent.Some?
            && (r.sent.value.action == 2 <==>
                a.write && s != [] && !ExemptPid(env.cfg, if env.process.Some? then env.process.value else 0))
            && (r.replaced.Some? <==> r.sent.value.action == 2 && env.setRet >= 0)
            && r.position == (if r.sent.value.action == 2 then 0 else a.filePosition)
            && (r.sent.value.action == 2 ==>
                  && Reported(options, r) == s
                  && (r.replaced.Some? && Written(a, r) == Reported(options, r) <==>
                      env.setRet >= 0 && |s| <= KEY_LEN)
                  && (env.setRet < 0 ==> Written(a, r) == a.newValue.text))
  {
    hide Decode, Packed, Loaded, Pad, Handled, HookResult, CString, Contract;
    var p := Choice(options, a.name.text);
    ReportedAccess(options, env, sw, a);
    PadKeeps(p.overrideWith, KEY_LEN);
  }
}
