/**
 * Verdicts and the kill switch: every check raises its own action by what the switch maps hold, and
 * KILL and PARANOID verdicts are written to the one-entry global map, keyed by the pid or by 0.
 */
module KillSwitch {
  import opened Actions
  import opened BpfMap

  const GLOBAL_ENTRIES: nat := 1

  datatype Switches = Switches(global: map<nat, nat>, process: map<nat, nat>)

  const OFF: Switches := Switches(map[], map[])

  function Lookup(m: map<nat, nat>, key: nat): nat {
    if key in m then m[key] else NOP
  }

  function Max(a: nat, b: nat): nat {
    if a < b then b else a
  }

  /** What the context check answers for `pid`. */
  function ContextVerdict(sw: Switches, pid: nat): nat {
    Max(Lookup(sw.process, pid), Lookup(sw.global, 0))
  }

  /** Only KILL and PARANOID verdicts touch the switch. */
  predicate Throws(action: nat) {
    action == KILL || action == PARANOID
  }

  function Key(pid: nat, action: nat): nat {
    if action == KILL then pid else 0
  }

  /** The switches after a check of `pid` whose own action is `action`. */
  function Thrown(sw: Switches, pid: nat, action: nat): Switches {
    if Throws(action) then sw.(global := Update(sw.global, GLOBAL_ENTRIES, Key(pid, action), action)) else sw
  }

  function Verdict(sw: Switches, pid: nat, action: nat): nat {
    Max(action, ContextVerdict(Thrown(sw, pid, action), pid))
  }

  function PolicyOf(policies: map<nat, nat>, event: nat): Option<nat> {
    if event in policies then Some(policies[event]) else None
  }

  /** `run_event_check`: the policy of the checked event, or BLOCK when it has none. */
  function EventAction(policies: map<nat, nat>, data: Option<nat>): nat {
    if data.None? then NOP else PolicyOrBlock(PolicyOf(policies, data.value))
  }

  class Switchboard {
    var globalSwitch: map<nat, nat>
    var processSwitch: map<nat, nat>

    constructor ()
      ensures View() == OFF
    {
      globalSwitch, processSwitch := map[], map[];
    }

    ghost function View(): Switches
      reads this
    {
      Switches(globalSwitch, processSwitch)
    }

    method SetGlobal(action: nat)
      modifies this`globalSwitch
      ensures globalSwitch == Update(old(globalSwitch), GLOBAL_ENTRIES, 0, action)
    {
      globalSwitch := Update(globalSwitch, GLOBAL_ENTRIES, 0, action);
    }

    /** Writes the global map too, not the process map. */
    method SetProcess(pid: nat, action: nat)
      modifies this`globalSwitch
      ensures globalSwitch == Update(old(globalSwitch), GLOBAL_ENTRIES, pid, action)
    {
      globalSwitch := Update(globalSwitch, GLOBAL_ENTRIES, pid, action);
    }

    method RunContextCheck(pid: nat) returns (verdict: nat)
      ensures verdict == ContextVerdict(View(), pid)
      ensures pid in processSwitch ==> processSwitch[pid] <= verdict
      ensures 0 in globalSwitch ==> globalSwitch[0] <= verdict
      ensures || verdict == NOP
              || (pid in processSwitch && verdict == processSwitch[pid])
              || (0 in globalSwitch && verdict == globalSwitch[0])
    {
      verdict := NOP;
      if pid in processSwitch && verdict < processSwitch[pid] {
        verdict := processSwitch[pid];
      }
      if 0 in globalSwitch && verdict < globalSwitch[0] {
        verdict := globalSwitch[0];
      }
    }

    /**
     * The tail that the four check wrappers share, after their own check answered `checkAction`: the verdict is
     * the largest of that action and of what the two maps hold by then.
     */
    method Conclude(pid: nat, checkAction: nat) returns (verdict: nat)
      modifies this`globalSwitch
      ensures View() == Thrown(old(View()), pid, checkAction)
      ensures verdict == Verdict(old(View()), pid, checkAction)
      ensures checkAction <= verdict
      ensures pid in processSwitch ==> processSwitch[pid] <= verdict
      ensures 0 in globalSwitch ==> globalSwitch[0] <= verdict
      ensures || verdict == checkAction
              || (pid in processSwitch && verdict == processSwitch[pid])
              || (0 in globalSwitch && verdict == globalSwitch[0])
    {
      verdict := NOP;
      if verdict < checkAction {
        verdict := checkAction;
      }
      if verdict == KILL {
        SetProcess(pid, verdict);
      }
      if verdict == PARANOID {
        SetGlobal(verdict);
      }
      if pid in processSwitch && verdict < processSwitch[pid] {
        verdict := processSwitch[pid];
      }
      if 0 in globalSwitch && verdict < globalSwitch[0] {
        verdict := globalSwitch[0];
      }
    }

    /** The event check wrapper; `sent` tells whether an event goes out for the checked event. */
    method RunEventCheck(policies: map<nat, nat>, pid: nat, data: Option<nat>) returns (verdict: nat, sent: bool)
      modifies this`globalSwitch
      ensures View() == Thrown(old(View()), pid, EventAction(policies, data))
      ensures verdict == Verdict(old(View()), pid, EventAction(policies, data))
      ensures data.Some? && data.value in policies ==> policies[data.value] <= verdict
      ensures data.Some? && data.value !in policies ==> BLOCK <= verdict
      ensures sent <==> data.Some? && (data.value in policies ==> policies[data.value] >= BLOCK)
    {
      var action := NOP;
      sent := false;
      if data.Some? {
        action := PolicyOrBlock(PolicyOf(policies, data.value));
        if action >= BLOCK {
          sent := true;
        }
      }
      verdict := Conclude(pid, action);
    }
  }
}

/** The one-slot latch over whole runs of checks by any processes. */
module KillSwitchRuns {
  import opened Actions
  import opened KillSwitch

  /** One check of process `pid` whose own action is `action`; a context check has action NOP. */
  datatype Check = Check(pid: nat, action: nat) {
    predicate Throws() { action == KILL || action == PARANOID }
    function Key(): nat { if action == PARANOID then 0 else pid }
  }

  function StateAt(tr: seq<Check>, n: nat): Switches
    requires n <= |tr|
  {
    if n == 0 then OFF else Thrown(StateAt(tr, n - 1), tr[n - 1].pid, tr[n - 1].action)
  }

  function VerdictAt(tr: seq<Check>, i: nat): nat
    requires i < |tr|
  {
    Verdict(StateAt(tr, i), tr[i].pid, tr[i].action)
  }

  /** Check `f` is the first of the first `n` checks to throw the switch. */
  ghost predicate FirstThrow(tr: seq<Check>, f: nat, n: nat)
    requires n <= |tr|
  {
    f < n && tr[f].Throws() && forall m: nat :: m < f ==> !tr[m].Throws()
  }

  /** Check `l` is the last of the first `n` checks to throw the switch under `key`. */
  ghost predicate LastThrow(tr: seq<Check>, key: nat, l: nat, n: nat)
    requires n <= |tr|
  {
    && l < n && tr[l].Throws() && tr[l].Key() == key
    && forall m: nat :: l < m < n ==> !(tr[m].Throws() && tr[m].Key() == key)
  }

  /**
   * What the maps hold after any run, from its history alone: the first throw fixes the key for ever,
   * and the value is the one of the last throw under that key. The process map stays empty.
   */
  lemma {:induction false} SlotHistory(tr: seq<Check>, n: nat) returns (f: nat, l: nat)
    requires n <= |tr|
    ensures StateAt(tr, n).process == map[]
    ensures (StateAt(tr, n).global == map[] && forall m: nat :: m < n ==> !tr[m].Throws())
         || (FirstThrow(tr, f, n) && LastThrow(tr, tr[f].Key(), l, n)
             && StateAt(tr, n).global == map[tr[f].Key() := tr[l].action])
  {
    if n == 0 {
      f, l := 0, 0;
    } else {
      f, l := SlotHistory(tr, n - 1);
      var c := tr[n - 1];
      var before := StateAt(tr, n - 1).global;
      if c.Throws() {
        if before == map[] {
          f, l := n - 1, n - 1;
        } else if c.Key() == tr[f].Key() {
          l := n - 1;
        }
      }
    }
  }

  /** The switch map never has more than one key, and that key never changes. */
  lemma {:induction false} KeyNeverChanges(tr: seq<Check>, m: nat, n: nat, key: nat)
    requires m <= n <= |tr| && key in StateAt(tr, m).global
    ensures StateAt(tr, n).global.Keys == {key}
  {
    var f, l := SlotHistory(tr, m);
    var f', l' := SlotHistory(tr, n);
    assert tr[f].Throws();
    assert f' == f;
  }

  /** The first of the first `n` throws used key 0: it was PARANOID, or a KILL of pid 0. */
  ghost predicate ZeroFirst(tr: seq<Check>, n: nat)
    requires n <= |tr|
  {
    exists f: nat :: FirstThrow(tr, f, n) && tr[f].Key() == 0
  }

  /**
   * The exact verdict of check `n` of any run, from the history alone. While key 0 does not hold the slot it is
   * the check's own action; afterwards it is raised to the action last thrown under key 0, this check included.
   */
  ghost predicate HistoryVerdict(tr: seq<Check>, n: nat, verdict: nat)
    requires n < |tr|
  {
    if ZeroFirst(tr, n + 1) then
      exists l: nat :: LastThrow(tr, 0, l, n + 1) &&
        verdict == if tr[n].action < tr[l].action then tr[l].action else tr[n].action
    else verdict == tr[n].action
  }

  lemma VerdictExactly(tr: seq<Check>, n: nat)
    requires n < |tr|
    ensures HistoryVerdict(tr, n, VerdictAt(tr, n))
    ensures tr[n].action <= VerdictAt(tr, n)
  {
    var after := n + 1;
    var f, l := SlotHistory(tr, after);
    assert forall f': nat :: FirstThrow(tr, f', after) && FirstThrow(tr, f, after) ==> f' == f;
  }

  /** The same for the context check after the first `n` checks, which has no action of its own. */
  lemma ContextExactly(tr: seq<Check>, n: nat, pid: nat)
    requires n <= |tr|
    ensures if ZeroFirst(tr, n)
            then exists l: nat :: LastThrow(tr, 0, l, n) && ContextVerdict(StateAt(tr, n), pid) == tr[l].action
            else ContextVerdict(StateAt(tr, n), pid) == NOP
  {
    var f, l := SlotHistory(tr, n);
    assert forall f': nat :: FirstThrow(tr, f', n) && FirstThrow(tr, f, n) ==> f' == f;
  }

  /** One check concluded on a switchboard that has been through the first `n` checks of a run. */
  method ConcludeNext(board: Switchboard, ghost tr: seq<Check>, ghost n: nat, pid: nat, action: nat)
    returns (verdict: nat)
    requires n < |tr| && tr[n] == Check(pid, action) && board.View() == StateAt(tr, n)
    modifies board`globalSwitch
    ensures board.View() == StateAt(tr, n + 1) && HistoryVerdict(tr, n, verdict)
  {
    verdict := board.Conclude(pid, action);
    VerdictExactly(tr, n);
  }

  /** Every context check of every process answers PARANOID after the first `n` checks. */
  ghost predicate Latched(tr: seq<Check>, n: nat)
    requires n <= |tr|
  {
    forall pid: nat :: ContextVerdict(StateAt(tr, n), pid) == PARANOID
  }

  /** The latch holds after `n` checks exactly when the first throw used key 0 and the last such throw is PARANOID. */
  lemma LatchedExactly(tr: seq<Check>, n: nat)
    requires n <= |tr|
    ensures Latched(tr, n) <==>
            exists f: nat, l: nat ::
              FirstThrow(tr, f, n) && tr[f].Key() == 0 && LastThrow(tr, 0, l, n) && tr[l].action == PARANOID
  {
    var f, l := SlotHistory(tr, n);
    var global := StateAt(tr, n).global;
    assert Latched(tr, n) <==> Lookup(global, 0) == PARANOID by {
      assert ContextVerdict(StateAt(tr, n), 0) == Lookup(global, 0);
    }
    if global != map[] {
      assert forall f': nat :: FirstThrow(tr, f', n) ==> f' == f;
      assert forall l': nat :: LastThrow(tr, tr[f].Key(), l', n) ==> l' == l;
    }
  }

  predicate KillByZero(c: Check) {
    c.action == KILL && c.pid == 0
  }

  /**
   * The exact condition for the latch to hold from the first PARANOID check on: the first throw up to it is
   * either that check or a KILL of pid 0, and no KILL of pid 0 comes later.
   */
  ghost predicate LatchCondition(tr: seq<Check>, i: nat)
    requires i < |tr|
  {
    && (exists f: nat :: FirstThrow(tr, f, i + 1) && (f == i || KillByZero(tr[f])))
    && (forall m: nat :: i < m < |tr| ==> !KillByZero(tr[m]))
  }

  ghost predicate FirstParanoid(tr: seq<Check>, i: nat) {
    i < |tr| && tr[i].action == PARANOID && forall m: nat :: m < i ==> tr[m].action != PARANOID
  }

  lemma {:induction false} LatchPersists(tr: seq<Check>, i: nat, n: nat)
    requires FirstParanoid(tr, i) && LatchCondition(tr, i) && i < n <= |tr|
    ensures StateAt(tr, n).process == map[] && StateAt(tr, n).global == map[0 := PARANOID]
  {
    if n == i + 1 {
      var f, l := SlotHistory(tr, n);
      var f': nat :| FirstThrow(tr, f', i + 1) && (f' == i || KillByZero(tr[f']));
      assert f == f';
      assert tr[i].Throws() && tr[i].Key() == 0;
      assert l == i;
    } else {
      LatchPersists(tr, i, n - 1);
    }
  }

  lemma LatchNeedsCondition(tr: seq<Check>, i: nat)
    requires FirstParanoid(tr, i) && forall n: nat :: i < n <= |tr| ==> Latched(tr, n)
    ensures LatchCondition(tr, i)
  {
    hide Latched;
    LatchedExactly(tr, i + 1);
    var f: nat, l: nat :| FirstThrow(tr, f, i + 1) && tr[f].Key() == 0 && LastThrow(tr, 0, l, i + 1);
    assert f == i || KillByZero(tr[f]);
    forall m: nat | i < m < |tr| ensures !KillByZero(tr[m]) {
      assert Latched(tr, m + 1);
      LatchedExactly(tr, m + 1);
    }
  }

  /** The global latch over whole runs, both directions. */
  lemma LatchIff(tr: seq<Check>, i: nat)
    requires FirstParanoid(tr, i)
    ensures (forall n: nat :: i < n <= |tr| ==> Latched(tr, n)) <==> LatchCondition(tr, i)
  {
    if LatchCondition(tr, i) {
      forall n: nat | i < n <= |tr| ensures Latched(tr, n) {
        LatchPersists(tr, i, n);
      }
    } else if forall n: nat :: i < n <= |tr| ==> Latched(tr, n) {
      LatchNeedsCondition(tr, i);
    }
  }

  /** Under that condition every verdict of every check, for every process, is PARANOID from the first one on. */
  lemma EveryVerdictParanoid(tr: seq<Check>, i: nat, n: nat)
    requires FirstParanoid(tr, i) && LatchCondition(tr, i) && i <= n < |tr|
    requires tr[n].action <= PARANOID
    ensures VerdictAt(tr, n) == PARANOID
  {
    LatchPersists(tr, i, n + 1);
  }

  /** A KILL of an ordinary process that comes first takes the only slot: no later PARANOID is ever latched. */
  lemma KillTakesTheSlot(tr: seq<Check>, f: nat, n: nat)
    requires f < n <= |tr| && FirstThrow(tr, f, n) && tr[f].action == KILL && tr[f].pid != 0
    ensures !Latched(tr, n) && forall pid: nat :: ContextVerdict(StateAt(tr, n), pid) == NOP
  {
    var f', l := SlotHistory(tr, n);
    assert f' == f;
    assert ContextVerdict(StateAt(tr, n), 0) == NOP;
  }
}
