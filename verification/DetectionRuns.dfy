/**
 * Runs of the whole detector: table sweeps, syscall entries, parameter passes, event checks and LSM hooks of any
 * processes share the monitor, the parameter list and the kill switch.
 */
module DetectionRuns {
  import opened Actions
  import opened BpfMap
  import opened KernelParameter
  import opened KernelParameterRuns
  import opened KillSwitch
  import opened KillSwitchRuns
  import opened Policy
  import opened SyscallCheck
  import opened SyscallRuns
  import opened SyscallSweeps

  datatype Step =
    | TableSweep(pid: nat, policy: Option<nat>, known: nat -> bool, ts: nat, sweep: Sweep)
    | SyscallEntry(pid: nat, policy: Option<nat>, known: nat -> bool, o: Observation)
    | ParameterPass(pid: nat, pass: Pass)
    | EventCheck(pid: nat, policies: map<nat, nat>, data: Option<nat>)
    | LsmCall(pid: nat)

  datatype World = World(monitor: State, params: seq<Parameter>, switches: Switches)

  /** The action that the check of a step answers, before the kill switch is consulted. */
  ghost function Own(x: World, s: Step, ticker: nat): nat {
    match s
    case TableSweep(_, policy, known, ts, w) => SweepEffect(x.monitor, policy, known, Picked(w, ts)).1
    case SyscallEntry(_, policy, known, o) => EntryEffect(x.monitor, policy, known, o).1
    case ParameterPass(_, pass) => PassEffect(x.params, pass, ticker).2
    case EventCheck(_, policies, data) => EventAction(policies, data)
    case LsmCall(_) => NOP
  }

  ghost function Next(x: World, s: Step, ticker: nat): World {
    World(
      match s
      case TableSweep(_, policy, known, ts, w) => SweepEffect(x.monitor, policy, known, Picked(w, ts)).0
      case SyscallEntry(_, policy, known, o) => EntryEffect(x.monitor, policy, known, o).0
      case _ => x.monitor,
      if s.ParameterPass? then PassEffect(x.params, s.pass, ticker).0 else x.params,
      Thrown(x.switches, s.pid, Own(x, s, ticker)))
  }

  /** A run starts with an empty monitor, the loaded parameters and the switch off. */
  ghost function WorldAt(params: seq<Parameter>, tr: seq<Step>, ticker: nat, n: nat): World
    requires n <= |tr|
  {
    if n == 0 then World(EMPTY, params, OFF) else Next(WorldAt(params, tr, ticker, n - 1), tr[n - 1], ticker)
  }

  // ---------- every part sees an ordinary run of its own ----------

  ghost function Checks(params: seq<Parameter>, tr: seq<Step>, ticker: nat): (cs: seq<Check>)
    ensures |cs| == |tr|
  {
    seq(|tr|, i requires 0 <= i < |tr| => Check(tr[i].pid, Own(WorldAt(params, tr, ticker, i), tr[i], ticker)))
  }

  lemma StepThrows(x: World, s: Step, ticker: nat)
    ensures Next(x, s, ticker).switches == Thrown(x.switches, s.pid, Own(x, s, ticker))
  {
  }

  /** The switches go through the run of the steps' own actions. */
  lemma {:induction false} SwitchesAreRun(params: seq<Parameter>, tr: seq<Step>, ticker: nat, n: nat)
    requires n <= |tr|
    ensures WorldAt(params, tr, ticker, n).switches == KillSwitchRuns.StateAt(Checks(params, tr, ticker), n)
  {
    hide Own, Next, Thrown;
    if n > 0 {
      SwitchesAreRun(params, tr, ticker, n - 1);
      StepThrows(WorldAt(params, tr, ticker, n - 1), tr[n - 1], ticker);
    }
  }

  /** The observations one step makes. */
  function Observed(s: Step): seq<Observation> {
    match s
    case TableSweep(_, policy, known, ts, w) =>
      if PolicyOrBlock(policy) == NOP || !known(Picked(w, ts).table) then [] else SweepTrace(Picked(w, ts))
    case SyscallEntry(_, policy, known, o) =>
      if PolicyOrBlock(policy) == NOP || !known(o.key.table) then [] else [o]
    case _ => []
  }

  function Observations(tr: seq<Step>, n: nat): seq<Observation>
    requires n <= |tr|
  {
    if n == 0 then [] else Observations(tr, n - 1) + Observed(tr[n - 1])
  }

  lemma {:induction false} RunsJoin(s: State, front: seq<Observation>, rest: seq<Observation>, n: nat)
    requires n <= |rest|
    ensures SyscallCheck.StateAt(s, front + rest, |front| + n) ==
            SyscallCheck.StateAt(SyscallCheck.StateAt(s, front, |front|), rest, n)
  {
    hide Observe;
    if n > 0 {
      RunsJoin(s, front, rest, n - 1);
    } else {
      SamePrefix(s, front, front + rest, |front|);
    }
  }

  lemma {:induction false} SamePrefix(s: State, a: seq<Observation>, b: seq<Observation>, n: nat)
    requires n <= |a| && n <= |b| && a[..n] == b[..n]
    ensures SyscallCheck.StateAt(s, a, n) == SyscallCheck.StateAt(s, b, n)
  {
    hide Observe;
    if n > 0 {
      assert a[..n - 1] == a[..n][..n - 1] == b[..n - 1];
      assert a[n - 1] == a[..n][n - 1] == b[n - 1];
      SamePrefix(s, a, b, n - 1);
    }
  }

  lemma StepObserves(x: World, s: Step, ticker: nat)
    ensures Next(x, s, ticker).monitor == SyscallCheck.StateAt(x.monitor, Observed(s), |Observed(s)|)
  {
    hide Observe, SweepTrace;
  }

  /** The monitor goes through the run of all observations in order, so every theorem about such runs applies. */
  lemma {:induction false} MonitorIsRun(params: seq<Parameter>, tr: seq<Step>, ticker: nat, n: nat)
    requires n <= |tr|
    ensures WorldAt(params, tr, ticker, n).monitor ==
            SyscallCheck.StateAt(EMPTY, Observations(tr, n), |Observations(tr, n)|)
  {
    hide Observe, Observed, Next;
    if n > 0 {
      MonitorIsRun(params, tr, ticker, n - 1);
      StepObserves(WorldAt(params, tr, ticker, n - 1), tr[n - 1], ticker);
      RunsJoin(EMPTY, Observations(tr, n - 1), Observed(tr[n - 1]), |Observed(tr[n - 1])|);
    }
  }

  /** The parameter list goes through the run of the passes, so the rate limit holds across all of them. */
  function Passes(tr: seq<Step>, n: nat): seq<Pass>
    requires n <= |tr|
  {
    if n == 0 then [] else Passes(tr, n - 1) + if tr[n - 1].ParameterPass? then [tr[n - 1].pass] else []
  }

  lemma {:induction false} SameList(ps: seq<Parameter>, a: seq<Pass>, b: seq<Pass>, ticker: nat, n: nat)
    requires n <= |a| && n <= |b| && a[..n] == b[..n]
    ensures ListAt(ps, a, ticker, n) == ListAt(ps, b, ticker, n)
  {
    hide AfterPass;
    if n > 0 {
      assert a[..n - 1] == a[..n][..n - 1] == b[..n - 1];
      assert a[n - 1] == a[..n][n - 1] == b[n - 1];
      SameList(ps, a, b, ticker, n - 1);
    }
  }

  lemma StepPasses(x: World, s: Step, ticker: nat)
    ensures Next(x, s, ticker).params == if s.ParameterPass? then AfterPass(x.params, s.pass, ticker) else x.params
  {
  }

  lemma {:induction false} ParametersAreRun(params: seq<Parameter>, tr: seq<Step>, ticker: nat, n: nat)
    requires n <= |tr|
    ensures WorldAt(params, tr, ticker, n).params ==
            ListAt(params, Passes(tr, n), ticker, |Passes(tr, n)|)
  {
    hide Next, AfterPass;
    if n > 0 {
      StepPasses(WorldAt(params, tr, ticker, n - 1), tr[n - 1], ticker);
      ParametersAreRun(params, tr, ticker, n - 1);
      var front := Passes(tr, n - 1);
      SameList(params, front, Passes(tr, n), ticker, |front|);
    }
  }

  // ---------- what a step answers ----------

  /**
   * The handler of a syscall entry, or of some number of a sweep, is outside the kernel text, where the key has a
   * baseline by the end of the step; a sweep wants it to be news as well.
   */
  ghost predicate FindsHook(x: World, s: Step, ticker: nat) {
    match s
    case TableSweep(_, _, known, ts, w) => known(ts % 3) && exists nr: nat :: Hooked(x.monitor, w.(table := ts % 3), nr)
    case SyscallEntry(_, _, known, o) =>
      && known(o.key.table) && o.addr != 0 && !(o.stext < o.addr < o.etext)
      && o.key in Next(x, s, ticker).monitor.table
    case _ => false
  }

  /** A check that finds a hook answers its policy, BLOCK when it has none; one that finds none answers NOP. */
  lemma HookAnswers(x: World, s: Step, ticker: nat)
    requires Inv(x.monitor) && (s.TableSweep? || (s.SyscallEntry? && s.o.kind == HookedSyscall))
    ensures Own(x, s, ticker) ==
            if s.policy != Some(NOP) && FindsHook(x, s, ticker)
            then (if s.policy.Some? then s.policy.value else BLOCK) else NOP
  {
    hide Observe, SweepEffect, Hooked;
    if s.TableSweep? {
      SweepAnswers(x.monitor, s.policy, s.known, Picked(s.sweep, s.ts));
    } else {
      EntryAlerts(x.monitor, s.o);
    }
  }

  lemma MonitorInv(params: seq<Parameter>, tr: seq<Step>, ticker: nat, n: nat)
    requires n <= |tr|
    ensures Inv(WorldAt(params, tr, ticker, n).monitor)
  {
    hide Observe, WorldAt;
    MonitorIsRun(params, tr, ticker, n);
    RunKeepsInv(EMPTY, Observations(tr, n), |Observations(tr, n)|);
  }

  // ---------- a hook locks the machine down ----------

  /**
   * From the first sweep or syscall entry that finds a hook under a PARANOID policy on, if nothing has thrown the
   * switch before, every LSM hook refuses every process that is not exempt, whatever any check answers later.
   */
  lemma HookLocksDown(
    params: seq<Parameter>, tr: seq<Step>, ticker: nat, i: nat, n: nat, cfg: Config, pid: nat)
    requires i < n <= |tr| && (tr[i].TableSweep? || (tr[i].SyscallEntry? && tr[i].o.kind == HookedSyscall))
    requires tr[i].policy == Some(PARANOID) && FindsHook(WorldAt(params, tr, ticker, i), tr[i], ticker)
    requires forall j: nat :: j < i ==> !Throws(Own(WorldAt(params, tr, ticker, j), tr[j], ticker))
    requires !Exempt(cfg, pid)
    ensures Enforced(cfg, pid, ContextVerdict(WorldAt(params, tr, ticker, n).switches, pid), Lsm, SymbolHook).ret
            == EPERM
  {
    hide Own, WorldAt, FindsHook, Observe, Enforced;
    MonitorInv(params, tr, ticker, i);
    HookAnswers(WorldAt(params, tr, ticker, i), tr[i], ticker);
    SwitchesAreRun(params, tr, ticker, n);
    var cs := Checks(params, tr, ticker);
    assert FirstThrow(cs, i, n);
    LsmRefusesExactly(cs, n, cfg, pid);
  }

  /**
   * A syscall entry runs in a tracepoint, so it cannot be overridden. A process whose entry finds a hook is
   * signalled exactly when it is not exempt, signals are on, and the policy kills or locks down, or the switch was
   * first thrown under key 0.
   */
  lemma HookedEntryKilled(params: seq<Parameter>, tr: seq<Step>, ticker: nat, n: nat, cfg: Config)
    requires n < |tr| && tr[n].SyscallEntry? && tr[n].o.kind == HookedSyscall
    requires FindsHook(WorldAt(params, tr, ticker, n), tr[n], ticker)
    requires tr[n].policy.Some? ==> LOG <= tr[n].policy.value <= PARANOID
    ensures var cs := Checks(params, tr, ticker);
            var e := EnforcedAt(cs, n, cfg, Tracepoint, SymbolHook);
            && !e.overridden
            && (e.signalled <==>
                && !Exempt(cfg, tr[n].pid) && cfg.sendSignal
                && ((tr[n].policy.Some? && tr[n].policy.value >= KILL) || ZeroFirst(cs, n + 1)))
  {
    hide Own, WorldAt, FindsHook, Observe, EnforcedAt, ZeroFirst;
    MonitorInv(params, tr, ticker, n);
    HookAnswers(WorldAt(params, tr, ticker, n), tr[n], ticker);
    StoppedExactly(Checks(params, tr, ticker), n, cfg, Tracepoint, SymbolHook);
  }
}
