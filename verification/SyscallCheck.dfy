/**
 * The syscall-table integrity checker: a write-once baseline per (table, number), a lock map that is
 * never released, and a last-seen handler that suppresses repeated table alerts.
 */
module SyscallCheck {
  import opened Actions
  import opened BpfMap

  const MAX_SYSCALL_NR: nat := 448
  const MAX_ENTRIES: nat := 3 * 450

  datatype Selector = Selector(nr: nat, table: nat)
  datatype Entry = Entry(init: nat, last: nat)
  datatype EventType = HookedSyscallTable | HookedSyscall

  /**
   * One call of the per-syscall check. `addr` is what the kernel read returned (0 when it failed),
   * `sendOk` what the perf buffer would answer if an event is sent.
   */
  datatype Observation = Observation(
    kind: EventType, key: Selector, addr: nat, stext: nat, etext: nat, sendOk: bool)

  datatype Alert = Alert(kind: EventType, key: Selector, initAddr: nat, newAddr: nat, delivered: bool)

  datatype State = State(table: map<Selector, Entry>, locks: map<nat, nat>)

  const EMPTY: State := State(map[], map[])

  predicate InText(addr: nat, stext: nat, etext: nat) {
    stext < addr < etext
  }

  /** What `lock_syscall_table` answers: the NOEXIST insert of the number failed. */
  predicate HasLock(s: State, nr: nat) {
    InsertFails(s.locks, MAX_ENTRIES, nr)
  }

  /** One check as a state transformer; the alert it sends, if any. */
  function Observe(s: State, o: Observation): (r: (State, Option<Alert>)) {
    if o.addr == 0 then (s, None)
    else
      var hasLock := HasLock(s, o.key.nr);
      var locks := if hasLock then s.locks else s.locks[o.key.nr := o.key.nr];
      var table := if o.key !in s.table && hasLock
                   then Update(s.table, MAX_ENTRIES, o.key, Entry(o.addr, 0)) else s.table;
      if o.key !in table then (State(table, locks), None)
      else
        var entry := table[o.key];
        var outside := !InText(o.addr, o.stext, o.etext);
        var alert := outside && (o.kind == HookedSyscall || (hasLock && entry.last != o.addr));
        var last := if !hasLock then entry.last
                    else if alert && o.kind == HookedSyscallTable && !o.sendOk then 0 else o.addr;
        (State(table[o.key := entry.(last := last)], locks),
         if alert then Some(Alert(o.kind, o.key, entry.init, o.addr, o.sendOk)) else None)
  }

  /** State after the first `n` checks of a run that starts in `s`. */
  function StateAt(s: State, tr: seq<Observation>, n: nat): State
    requires n <= |tr|
  {
    if n == 0 then s else Observe(StateAt(s, tr, n - 1), tr[n - 1]).0
  }

  /** Alert sent by check number `n` of the run. */
  function AlertAt(s: State, tr: seq<Observation>, n: nat): Option<Alert>
    requires n < |tr|
  {
    Observe(StateAt(s, tr, n), tr[n]).1
  }

  /** One sweep over a syscall table: handler read and perf answer for each number. */
  datatype Sweep = Sweep(table: nat, handler: nat -> nat, stext: nat, etext: nat, sendOk: nat -> bool)

  function SweepTrace(w: Sweep): (tr: seq<Observation>)
    ensures |tr| == MAX_SYSCALL_NR
  {
    seq(MAX_SYSCALL_NR, i requires 0 <= i =>
      Observation(HookedSyscallTable, Selector(i + 1, w.table), w.handler(i + 1), w.stext, w.etext, w.sendOk(i + 1)))
  }

  function SweepEnd(s: State, w: Sweep): State {
    StateAt(s, SweepTrace(w), MAX_SYSCALL_NR)
  }

  ghost predicate SweepAlerts(s: State, w: Sweep, n: nat)
    requires n <= MAX_SYSCALL_NR
  {
    exists i: nat :: i < n && AlertAt(s, SweepTrace(w), i).Some?
  }

  /** The check on syscall entry runs unless its policy is NOP or the symbol of the table is unknown. */
  function EntryEffect(s: State, policy: Option<nat>, known: nat -> bool, o: Observation): (State, nat) {
    if PolicyOrBlock(policy) == NOP || !known(o.key.table) then (s, NOP)
    else (Observe(s, o).0, if Observe(s, o).1.Some? then PolicyOrBlock(policy) else NOP)
  }

  /** The clock picks one of the three tables. */
  function Picked(w: Sweep, ts: nat): (r: Sweep)
    ensures r.table < 3
  {
    w.(table := ts % 3)
  }

  /** A sweep answers its policy exactly when some number alerted. */
  ghost function SweepEffect(s: State, policy: Option<nat>, known: nat -> bool, w: Sweep): (State, nat) {
    if PolicyOrBlock(policy) == NOP || !known(w.table) then (s, NOP)
    else (SweepEnd(s, w), if SweepAlerts(s, w, MAX_SYSCALL_NR) then PolicyOrBlock(policy) else NOP)
  }

  /** A check on entry alerts whenever its handler is outside the kernel text and its key has a baseline. */
  lemma EntryAlerts(s: State, o: Observation)
    requires o.kind == HookedSyscall
    ensures Observe(s, o).1.Some? <==>
            o.addr != 0 && o.key in Observe(s, o).0.table && !(o.stext < o.addr < o.etext)
  {
  }

  class Monitor {
    var table: map<Selector, Entry>
    var locks: map<nat, nat>

    constructor ()
      ensures View() == EMPTY
    {
      table, locks := map[], map[];
    }

    ghost function View(): State
      reads this
    {
      State(table, locks)
    }

    method LockSyscallTable(nr: nat) returns (failed: bool)
      modifies this`locks
      ensures failed == HasLock(old(View()), nr)
      ensures locks == if failed then old(locks) else old(locks)[nr := nr]
    {
      failed := InsertFails(locks, MAX_ENTRIES, nr);
      if !failed {
        locks := locks[nr := nr];
      }
    }

    /** `newEntry` is the scratch entry that the caller's input structure carries from one call to the next. */
    method CheckSyscall(o: Observation, newEntry: Entry) returns (newEntry': Entry, alert: Option<Alert>)
      requires newEntry.last == 0
      modifies this
      ensures (View(), alert) == Observe(old(View()), o)
      ensures newEntry'.last == 0
    {
      newEntry', alert := newEntry, None;
      var present := o.key in table;
      if o.addr == 0 {
        return;
      }
      var hasLock := LockSyscallTable(o.key.nr);
      if !present && hasLock {
        newEntry' := newEntry'.(init := o.addr);
        table := Update(table, MAX_ENTRIES, o.key, newEntry');
        present := o.key in table;
      } else {
        newEntry' := Entry(0, 0);
      }
      if !present {
        return;
      }
      var ok := InText(o.addr, o.stext, o.etext);
      var shouldAlert := false;
      if !ok && o.kind == HookedSyscall {
        shouldAlert := true;
      }
      if hasLock {
        if !ok && o.kind == HookedSyscallTable {
          if table[o.key].last != o.addr {
            shouldAlert := true;
          }
        }
        table := table[o.key := table[o.key].(last := o.addr)];
      }
      if shouldAlert {
        alert := Some(Alert(o.kind, o.key, table[o.key].init, o.addr, o.sendOk));
        if !o.sendOk && hasLock && o.kind == HookedSyscallTable {
          table := table[o.key := table[o.key].(last := 0)];
        }
      }
      assert table == Observe(old(View()), o).0.table;
    }

    /** The check run on syscall entry; `known` tells which table symbols are known. */
    method RunSyscallCheck(policy: Option<nat>, known: nat -> bool, o: Observation) returns (action: nat)
      requires o.kind == HookedSyscall
      modifies this
      ensures (View(), action) == EntryEffect(old(View()), policy, known, o)
      ensures action ==
              if && policy != Some(NOP) && known(o.key.table) && o.addr != 0 && o.key in table
                 && !(o.stext < o.addr < o.etext)
              then (if policy.Some? then policy.value else BLOCK) else NOP
    {
      hide Observe;
      var act := PolicyOrBlock(policy);
      if act == NOP || !known(o.key.table) {
        return NOP;
      }
      var _, alert := CheckSyscall(o, Entry(0, 0));
      EntryAlerts(old(View()), o);
      return if alert.Some? then act else NOP;
    }

    /** The periodic sweep, numbers 1 to 448, over the table that the clock `ts` picks. */
    method RunSyscallTableCheck(policy: Option<nat>, known: nat -> bool, ts: nat, w: Sweep) returns (action: nat)
      modifies this
      ensures (View(), action) == SweepEffect(old(View()), policy, known, Picked(w, ts))
    {
      hide Observe;
      var act := PolicyOrBlock(policy);
      if act == NOP {
        return NOP;
      }
      var table := ts % 3;
      var hooked := false;
      if known(table) {
        ghost var w' := Picked(w, ts);
        ghost var tr := SweepTrace(w');
        var newEntry := Entry(0, 0);
        for i := 1 to MAX_SYSCALL_NR + 1
          invariant newEntry.last == 0
          invariant View() == StateAt(old(View()), tr, i - 1)
          invariant hooked == SweepAlerts(old(View()), w', i - 1)
        {
          var o := Observation(HookedSyscallTable, Selector(i, table), w.handler(i), w.stext, w.etext, w.sendOk(i));
          assert o == tr[i - 1];
          var alert;
          newEntry, alert := CheckSyscall(o, newEntry);
          assert alert == AlertAt(old(View()), tr, i - 1);
          hooked := hooked || alert.Some?;
        }
      }
      return if hooked then act else NOP;
    }
  }
}
