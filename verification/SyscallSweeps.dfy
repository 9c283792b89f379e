/** Runs made only of table sweeps: the maps never fill, and two sweeps are enough to fix a baseline. */
module SyscallSweeps {
  import opened Actions
  import opened BpfMap
  import opened SyscallCheck
  import opened SyscallRuns

  /** State after the first `n` sweeps of a run. */
  function SweepState(ws: seq<Sweep>, n: nat): State
    requires n <= |ws|
  {
    if n == 0 then EMPTY else SweepEnd(SweepState(ws, n - 1), ws[n - 1])
  }

  function SelectorsUpTo(m: nat): set<Selector> {
    if m == 0 then {} else SelectorsUpTo(m - 1) + {Selector(m, 0)} + {Selector(m, 1)} + {Selector(m, 2)}
  }

  function NumbersUpTo(m: nat): set<nat> {
    if m == 0 then {} else NumbersUpTo(m - 1) + {m}
  }

  lemma {:induction false} UpToHolds(m: nat, k: Selector)
    requires 1 <= k.nr <= m
    ensures k.table < 3 ==> k in SelectorsUpTo(m)
    ensures k.nr in NumbersUpTo(m)
  {
    if k.nr < m {
      UpToHolds(m - 1, k);
    }
  }

  lemma AtMostOneMore<T>(s: set<T>, x: T)
    ensures |s + {x}| <= |s| + 1
  {
    if x in s {
      assert s + {x} == s;
    }
  }

  lemma AtMostThreeMore<T>(s: set<T>, x: T, y: T, z: T)
    ensures |s + {x} + {y} + {z}| <= |s| + 3
  {
    AtMostOneMore(s, x);
    AtMostOneMore(s + {x}, y);
    AtMostOneMore(s + {x} + {y}, z);
  }

  lemma {:induction false} SelectorCount(m: nat)
    ensures |SelectorsUpTo(m)| <= 3 * m
  {
    if m > 0 {
      SelectorCount(m - 1);
      AtMostThreeMore(SelectorsUpTo(m - 1), Selector(m, 0), Selector(m, 1), Selector(m, 2));
    }
  }

  lemma {:induction false} NumberCount(m: nat)
    ensures |NumbersUpTo(m)| <= m
  {
    if m > 0 {
      NumberCount(m - 1);
      AtMostOneMore(NumbersUpTo(m - 1), m);
    }
  }

  ghost predicate Swept(s: State) {
    && (forall k :: k in s.table ==> 1 <= k.nr <= MAX_SYSCALL_NR && k.table < 3)
    && (forall nr :: nr in s.locks ==> 1 <= nr <= MAX_SYSCALL_NR)
  }

  lemma SweptFits(s: State, m: nat)
    requires Swept(s) && m == MAX_SYSCALL_NR
    ensures |s.table| <= 3 * m && |s.locks| <= m
  {
    SelectorCount(m);
    NumberCount(m);
    forall k | k in s.table ensures k in SelectorsUpTo(m) {
      UpToHolds(m, k);
    }
    forall nr | nr in s.locks ensures nr in NumbersUpTo(m) {
      UpToHolds(m, Selector(nr, 0));
    }
    SubsetSize(s.table.Keys, SelectorsUpTo(m));
    SubsetSize(s.locks.Keys, NumbersUpTo(m));
  }

  lemma SweptStep(s: State, o: Observation)
    requires Swept(s) && 1 <= o.key.nr <= MAX_SYSCALL_NR && o.key.table < 3
    ensures Swept(Observe(s, o).0)
  {
  }

  lemma {:induction false} SweepKeepsSwept(s: State, w: Sweep, n: nat)
    requires Swept(s) && w.table < 3 && n <= MAX_SYSCALL_NR
    ensures Swept(StateAt(s, SweepTrace(w), n))
  {
    if n > 0 {
      hide Observe;
      SweepKeepsSwept(s, w, n - 1);
      SweptStep(StateAt(s, SweepTrace(w), n - 1), SweepTrace(w)[n - 1]);
    }
  }

  /** In a run of sweeps neither map ever fills: at most 3*448 baselines and 448 locks out of 3*450 entries. */
  lemma {:induction false} SweepsNeverFill(ws: seq<Sweep>, n: nat)
    requires n <= |ws| && forall i :: 0 <= i < |ws| ==> ws[i].table < 3
    ensures Swept(SweepState(ws, n))
    ensures |SweepState(ws, n).table| <= 3 * 448 < 3 * 450 == MAX_ENTRIES
    ensures |SweepState(ws, n).locks| <= 448
  {
    if n > 0 {
      SweepsNeverFill(ws, n - 1);
      SweepKeepsSwept(SweepState(ws, n - 1), ws[n - 1], MAX_SYSCALL_NR);
    }
    SweptFits(SweepState(ws, n), MAX_SYSCALL_NR);
  }

  /** A sweep changes no entry of another table. */
  lemma {:induction false} SweepLeavesOtherTables(s: State, w: Sweep, n: nat, k: Selector)
    requires n <= MAX_SYSCALL_NR && k.table != w.table
    ensures k in StateAt(s, SweepTrace(w), n).table <==> k in s.table
    ensures k in s.table ==> StateAt(s, SweepTrace(w), n).table[k] == s.table[k]
  {
    if n > 0 {
      SweepLeavesOtherTables(s, w, n - 1, k);
    }
  }

  lemma ObserveLocks(s: State, o: Observation)
    requires o.addr != 0
    ensures HasLock(Observe(s, o).0, o.key.nr)
    ensures HasLock(s, o.key.nr) && |s.table| < MAX_ENTRIES ==> o.key in Observe(s, o).0.table
  {
  }

  lemma SweepSees(s: State, w: Sweep, nr: nat)
    requires 1 <= nr <= 448 && w.handler(nr) != 0
    ensures HasLock(SweepEnd(s, w), nr)
    ensures HasLock(s, nr) && |SweepEnd(s, w).table| < MAX_ENTRIES ==> Selector(nr, w.table) in SweepEnd(s, w).table
  {
    hide Observe;
    var tr := SweepTrace(w);
    var k := Selector(nr, w.table);
    ObserveLocks(StateAt(s, tr, nr - 1), tr[nr - 1]);
    LocksGrow(s, tr, 0, nr - 1);
    LocksGrow(s, tr, nr - 1, MAX_SYSCALL_NR);
    LocksGrow(s, tr, nr, MAX_SYSCALL_NR);
    if k in StateAt(s, tr, nr).table {
      BaselineNeverChanges(s, tr, nr, MAX_SYSCALL_NR, k);
    }
  }

  lemma {:induction false} LaterSweepsKeep(ws: seq<Sweep>, m: nat, n: nat, nr: nat, k: Selector)
    requires m <= n <= |ws|
    ensures HasLock(SweepState(ws, m), nr) ==> HasLock(SweepState(ws, n), nr)
    ensures k in SweepState(ws, m).table ==>
              k in SweepState(ws, n).table && SweepState(ws, n).table[k].init == SweepState(ws, m).table[k].init
  {
    if m < n {
      hide Observe, SweepTrace;
      LaterSweepsKeep(ws, m, n - 1, nr, k);
      var tr := SweepTrace(ws[n - 1]);
      LocksGrow(SweepState(ws, n - 1), tr, 0, MAX_SYSCALL_NR);
      if k in SweepState(ws, n - 1).table {
        BaselineNeverChanges(SweepState(ws, n - 1), tr, 0, MAX_SYSCALL_NR, k);
      }
    }
  }

  lemma SweepStateStep(ws: seq<Sweep>, i: nat)
    requires i < |ws|
    ensures SweepState(ws, i + 1) == SweepEnd(SweepState(ws, i), ws[i])
  {
  }

  lemma SeenThenLocked(ws: seq<Sweep>, i: nat, j: nat, nr: nat)
    requires i < j <= |ws| && 1 <= nr <= 448 && ws[i].handler(nr) != 0
    ensures HasLock(SweepState(ws, j), nr)
  {
    SweepSees(SweepState(ws, i), ws[i], nr);
    LaterSweepsKeep(ws, i + 1, j, nr, Selector(nr, 0));
  }

  /**
   * Two sweeps fix a baseline: once sweep `i` saw the number, in whatever table, and the later sweep `j`
   * saw it in its own table, that table has a baseline for it for ever.
   */
  lemma TwoSweepsFixBaseline(ws: seq<Sweep>, i: nat, j: nat, n: nat, nr: nat)
    requires i < j < n <= |ws| && 1 <= nr <= 448
    requires forall i :: 0 <= i < |ws| ==> ws[i].table < 3
    requires ws[i].handler(nr) != 0 && ws[j].handler(nr) != 0
    ensures Selector(nr, ws[j].table) in SweepState(ws, n).table
  {
    hide *;
    var k := Selector(nr, ws[j].table);
    assert HasLock(SweepState(ws, j), nr) by {
      SeenThenLocked(ws, i, j, nr);
    }
    assert k in SweepState(ws, j + 1).table by {
      SweepsNeverFill(ws, j + 1);
      SweepSees(SweepState(ws, j), ws[j], nr);
      SweepStateStep(ws, j);
    }
    LaterSweepsKeep(ws, j + 1, n, nr, k);
  }

  // ---------- what a sweep answers ----------

  /** Where the number of a key has its turn in the sweep of its table, nothing else touches the key. */
  lemma {:induction false} SweepUntouched(s: State, w: Sweep, k: Selector, m: nat, n: nat)
    requires m <= n <= MAX_SYSCALL_NR && k.table == w.table && !(m < k.nr <= n)
    ensures var before, after := StateAt(s, SweepTrace(w), m).table, StateAt(s, SweepTrace(w), n).table;
            (k in after <==> k in before) && (k in before ==> after[k] == before[k])
  {
    if m < n {
      SweepUntouched(s, w, k, m, n - 1);
      UntouchedStep(StateAt(s, SweepTrace(w), n - 1), SweepTrace(w)[n - 1], k);
    }
  }

  lemma UntouchedStep(s: State, o: Observation, k: Selector)
    requires o.key != k
    ensures k in Observe(s, o).0.table <==> k in s.table
    ensures k in s.table ==> Observe(s, o).0.table[k] == s.table[k]
  {
  }

  /** One table check of a monitor whose baselines are all locked. */
  lemma TableCheck(s: State, o: Observation)
    requires Inv(s) && o.kind == HookedSyscallTable && o.addr != 0
    ensures var t := Observe(s, o).0.table;
            && (Observe(s, o).1.Some? <==>
                && o.key in t && !(o.stext < o.addr < o.etext)
                && (o.key in s.table ==> s.table[o.key].last != o.addr))
            && (o.key in t ==> t[o.key].last == if Observe(s, o).1.Some? && !o.sendOk then 0 else o.addr)
  {
  }

  /**
   * Number `nr` makes the sweep of `w` alert: its handler was read and is outside the kernel text, and either its
   * baseline is new or the handler is not the one seen last.
   */
  ghost predicate Hooked(s: State, w: Sweep, nr: nat) {
    var k := Selector(nr, w.table);
    && 1 <= nr <= 448 && w.handler(nr) != 0
    && !(w.stext < w.handler(nr) < w.etext)
    && k in SweepEnd(s, w).table
    && (k in s.table ==> s.table[k].last != w.handler(nr))
  }

  /** What becomes of one number of the swept table: whether it alerts, and the handler remembered afterwards. */
  lemma SweptNumber(s: State, w: Sweep, nr: nat)
    requires Inv(s) && 1 <= nr <= 448
    ensures AlertAt(s, SweepTrace(w), nr - 1).Some? <==> Hooked(s, w, nr)
    ensures var k := Selector(nr, w.table);
            && (w.handler(nr) != 0 && k in SweepEnd(s, w).table ==>
                  SweepEnd(s, w).table[k].last == if Hooked(s, w, nr) && !w.sendOk(nr) then 0 else w.handler(nr))
            && (w.handler(nr) == 0 && k in s.table ==>
                  k in SweepEnd(s, w).table && SweepEnd(s, w).table[k] == s.table[k])
  {
    hide Observe;
    var tr := SweepTrace(w);
    var k := Selector(nr, w.table);
    var t := StateAt(s, tr, nr - 1);
    SweepUntouched(s, w, k, 0, nr - 1);
    SweepUntouched(s, w, k, nr, MAX_SYSCALL_NR);
    RunKeepsInv(s, tr, nr - 1);
    if w.handler(nr) == 0 {
      UnreadStep(t, tr[nr - 1]);
    } else {
      TableCheck(t, tr[nr - 1]);
    }
  }

  lemma UnreadStep(s: State, o: Observation)
    requires o.addr == 0
    ensures Observe(s, o) == (s, None)
  {
  }

  /**
   * What the periodic sweep answers, exactly: its policy, BLOCK when it has none, if the policy is not NOP, the
   * table is known and some number is hooked; NOP otherwise, so also when all handlers are inside the kernel text.
   */
  lemma SweepAnswers(s: State, policy: Option<nat>, known: nat -> bool, w: Sweep)
    requires Inv(s)
    ensures SweepEffect(s, policy, known, w).1 ==
            if policy != Some(NOP) && known(w.table) && exists nr: nat :: Hooked(s, w, nr)
            then (if policy.Some? then policy.value else BLOCK) else NOP
  {
    hide Observe, Hooked, SweepEnd, AlertAt, SweepTrace;
    if nr: nat :| Hooked(s, w, nr) {
      HookedRange(s, w, nr);
      SweptNumber(s, w, nr);
      assert AlertAt(s, SweepTrace(w), nr - 1).Some?;
    }
    if SweepAlerts(s, w, MAX_SYSCALL_NR) {
      var i: nat :| i < MAX_SYSCALL_NR && AlertAt(s, SweepTrace(w), i).Some?;
      SweptNumber(s, w, i + 1);
    }
  }

  lemma HookedRange(s: State, w: Sweep, nr: nat)
    requires Hooked(s, w, nr)
    ensures 1 <= nr <= 448
  {
  }
}
