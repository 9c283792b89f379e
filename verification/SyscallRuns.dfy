/**
 * What holds over whole runs of the syscall-table checker, stated on the history of checks alone:
 * which observation fixed a baseline, when a check alerts, and how often a hook is delivered.
 */
module SyscallRuns {
  import opened SyscallCheck

  // ---------- the lock and the baseline ----------

  /** A baseline exists only if its number is locked or the lock map is full. */
  ghost predicate Inv(s: State) {
    forall k :: k in s.table ==> HasLock(s, k.nr)
  }

  lemma {:induction false} RunKeepsInv(s: State, tr: seq<Observation>, n: nat)
    requires Inv(s) && n <= |tr|
    ensures Inv(StateAt(s, tr, n))
  {
    if n > 0 {
      RunKeepsInv(s, tr, n - 1);
    }
  }

  /** Once written, a baseline is never changed or removed, whatever is observed later. */
  lemma {:induction false} BaselineNeverChanges(s: State, tr: seq<Observation>, m: nat, n: nat, k: Selector)
    requires m <= n <= |tr| && k in StateAt(s, tr, m).table
    ensures k in StateAt(s, tr, n).table
    ensures StateAt(s, tr, n).table[k].init == StateAt(s, tr, m).table[k].init
  {
    if m < n {
      BaselineNeverChanges(s, tr, m, n - 1, k);
    }
  }

  lemma {:induction false} LocksGrow(s: State, tr: seq<Observation>, m: nat, n: nat)
    requires m <= n <= |tr|
    ensures StateAt(s, tr, m).locks.Keys <= StateAt(s, tr, n).locks.Keys
    ensures |StateAt(s, tr, m).locks| <= |StateAt(s, tr, n).locks|
    ensures |StateAt(s, tr, m).table| <= |StateAt(s, tr, n).table|
  {
    if m < n {
      LocksGrow(s, tr, m, n - 1);
    }
  }

  lemma AlertStep(s: State, o: Observation)
    requires Inv(s) && Observe(s, o).1.Some?
    ensures HasLock(s, o.key.nr) && o.key in Observe(s, o).0.table
    ensures Observe(s, o).1.value == Alert(o.kind, o.key, Observe(s, o).0.table[o.key].init, o.addr, o.sendOk)
  {
  }

  /** Every caller that finds a baseline holds the lock, and the alerts of a key all carry its one baseline. */
  lemma AlertCarriesBaseline(tr: seq<Observation>, i: nat, n: nat)
    requires i < n <= |tr| && AlertAt(EMPTY, tr, i).Some?
    ensures HasLock(StateAt(EMPTY, tr, i), tr[i].key.nr)
    ensures tr[i].key in StateAt(EMPTY, tr, n).table
    ensures AlertAt(EMPTY, tr, i).value ==
            Alert(tr[i].kind, tr[i].key, StateAt(EMPTY, tr, n).table[tr[i].key].init, tr[i].addr, tr[i].sendOk)
  {
    hide Observe;
    RunKeepsInv(EMPTY, tr, i);
    AlertStep(StateAt(EMPTY, tr, i), tr[i]);
    BaselineNeverChanges(EMPTY, tr, i + 1, n, tr[i].key);
  }

  // ---------- which observation fixes a baseline ----------

  predicate Sees(o: Observation, k: Selector) {
    o.key == k && o.addr != 0
  }

  /** Number `nr` was seen, in any table, by one of the first `n` checks. */
  ghost predicate Seen(tr: seq<Observation>, nr: nat, n: nat)
    requires n <= |tr|
  {
    exists i: nat :: i < n && tr[i].key.nr == nr && tr[i].addr != 0
  }

  /**
   * Check `j` can fix the baseline of `k`: it sees the key after its number has been seen before, in this table or
   * another, or with the lock map full, and there is room for a baseline.
   */
  ghost predicate Fixes(tr: seq<Observation>, k: Selector, j: nat) {
    && j < |tr| && Sees(tr[j], k)
    && (Seen(tr, k.nr, j) || |StateAt(EMPTY, tr, j).locks| >= MAX_ENTRIES)
    && |StateAt(EMPTY, tr, j).table| < MAX_ENTRIES
  }

  lemma {:induction false} LockHistory(tr: seq<Observation>, n: nat, nr: nat)
    requires n <= |tr| && |StateAt(EMPTY, tr, n).locks| < MAX_ENTRIES
    ensures nr in StateAt(EMPTY, tr, n).locks <==> Seen(tr, nr, n)
  {
    if n > 0 {
      LocksGrow(EMPTY, tr, n - 1, n);
      LockHistory(tr, n - 1, nr);
      var o := tr[n - 1];
      if o.addr != 0 && o.key.nr == nr {
        assert Seen(tr, nr, n);
      } else {
        assert Seen(tr, nr, n) <==> Seen(tr, nr, n - 1);
      }
    }
  }

  /** Who is told that it holds the lock: whoever asks for a number seen before, and all once the map is full. */
  lemma {:induction false} HasLockHistory(tr: seq<Observation>, n: nat, nr: nat)
    requires n <= |tr|
    ensures HasLock(StateAt(EMPTY, tr, n), nr) <==> Seen(tr, nr, n) || |StateAt(EMPTY, tr, n).locks| >= MAX_ENTRIES
  {
    if |StateAt(EMPTY, tr, n).locks| < MAX_ENTRIES {
      LockHistory(tr, n, nr);
    }
  }

  /** A baseline appears when a check sees its key while holding the lock, with the handler read then. */
  lemma BaselineStep(s: State, o: Observation, k: Selector)
    ensures k in Observe(s, o).0.table <==>
            k in s.table || (Sees(o, k) && HasLock(s, k.nr) && |s.table| < MAX_ENTRIES)
    ensures k in s.table ==> k in Observe(s, o).0.table && Observe(s, o).0.table[k].init == s.table[k].init
    ensures k !in s.table && k in Observe(s, o).0.table ==> Observe(s, o).0.table[k].init == o.addr
  {
  }

  /** Some check before `n` could fix the baseline of `k`. */
  ghost predicate Fixable(tr: seq<Observation>, k: Selector, n: nat) {
    exists j: nat :: j < n && Fixes(tr, k, j)
  }

  lemma FixesWhen(tr: seq<Observation>, k: Selector, j: nat)
    requires j < |tr|
    ensures Fixes(tr, k, j) <==>
            Sees(tr[j], k) && HasLock(StateAt(EMPTY, tr, j), k.nr) && |StateAt(EMPTY, tr, j).table| < MAX_ENTRIES
  {
    HasLockHistory(tr, j, k.nr);
  }

  lemma FixableStep(tr: seq<Observation>, k: Selector, n: nat)
    requires n > 0
    ensures Fixable(tr, k, n) <==> Fixable(tr, k, n - 1) || Fixes(tr, k, n - 1)
  {
    hide Fixes;
    if Fixes(tr, k, n - 1) {
    } else if Fixable(tr, k, n) {
      var j: nat :| j < n && Fixes(tr, k, j);
      assert j != n - 1;
    }
  }

  /**
   * A key has a baseline exactly when some check could fix it, and the baseline is the handler that the first
   * such check read.
   */
  lemma {:induction false} BaselineHistory(tr: seq<Observation>, n: nat, k: Selector)
    requires n <= |tr|
    ensures k in StateAt(EMPTY, tr, n).table <==> Fixable(tr, k, n)
    ensures forall j: nat :: j < n && Fixes(tr, k, j) && !Fixable(tr, k, j) ==>
              StateAt(EMPTY, tr, n).table[k].init == tr[j].addr
  {
    if n > 0 {
      hide Observe, HasLock, Fixes, Fixable;
      BaselineHistory(tr, n - 1, k);
      FixesWhen(tr, k, n - 1);
      FixableStep(tr, k, n);
      BaselineStep(StateAt(EMPTY, tr, n - 1), tr[n - 1], k);
    }
  }

  // ---------- when a check alerts ----------

  /** Check `j` is the latest one before `i` that saw `k`. */
  ghost predicate Latest(tr: seq<Observation>, k: Selector, j: nat, i: nat)
    requires i <= |tr|
  {
    && j < i
    && Sees(tr[j], k)
    && forall m: nat :: j < m < i ==> !Sees(tr[m], k)
  }

  ghost predicate FailedTableSend(tr: seq<Observation>, j: nat)
    requires j < |tr|
  {
    tr[j].kind == HookedSyscallTable && AlertAt(EMPTY, tr, j).Some? && !tr[j].sendOk
  }

  /** How one check moves the last-seen handler of a key that has a baseline afterwards. */
  lemma LastSeenStep(s: State, o: Observation, k: Selector)
    requires Inv(s) && k in Observe(s, o).0.table
    ensures Sees(o, k) ==>
              Observe(s, o).0.table[k].last ==
              if o.kind == HookedSyscallTable && Observe(s, o).1.Some? && !o.sendOk then 0 else o.addr
    ensures !Sees(o, k) ==> k in s.table && Observe(s, o).0.table[k] == s.table[k]
  {
  }

  lemma SendFailed(tr: seq<Observation>, j: nat)
    requires j < |tr|
    ensures FailedTableSend(tr, j) <==>
            tr[j].kind == HookedSyscallTable && Observe(StateAt(EMPTY, tr, j), tr[j]).1.Some? && !tr[j].sendOk
  {
  }

  /** The last-seen handler of a baseline is a function of the latest check that saw the key. */
  lemma {:induction false} LastSeenHistory(tr: seq<Observation>, n: nat, k: Selector) returns (j: nat)
    requires n <= |tr| && k in StateAt(EMPTY, tr, n).table
    ensures Latest(tr, k, j, n)
    ensures StateAt(EMPTY, tr, n).table[k].last == if FailedTableSend(tr, j) then 0 else tr[j].addr
  {
    hide Observe, FailedTableSend;
    RunKeepsInv(EMPTY, tr, n - 1);
    LastSeenStep(StateAt(EMPTY, tr, n - 1), tr[n - 1], k);
    SendFailed(tr, n - 1);
    if Sees(tr[n - 1], k) {
      j := n - 1;
    } else {
      j := LastSeenHistory(tr, n - 1, k);
    }
  }

  /**
   * Check `i` brings news about its key: it is the first one since the baseline appeared, or the latest
   * check before it read another handler, or that check failed to send its table alert.
   */
  ghost predicate News(tr: seq<Observation>, i: nat)
    requires i < |tr|
  {
    || tr[i].key !in StateAt(EMPTY, tr, i).table
    || exists j: nat :: Latest(tr, tr[i].key, j, i) && (tr[j].addr != tr[i].addr || FailedTableSend(tr, j))
  }

  /** Exactly when a check alerts, for both kinds of checks and every run. */
  lemma AlertExactly(tr: seq<Observation>, i: nat)
    requires i < |tr|
    ensures AlertAt(EMPTY, tr, i).Some? <==>
            && tr[i].addr != 0
            && tr[i].key in StateAt(EMPTY, tr, i + 1).table
            && !(tr[i].stext < tr[i].addr < tr[i].etext)
            && (tr[i].kind == HookedSyscall || News(tr, i))
  {
    var s := StateAt(EMPTY, tr, i);
    RunKeepsInv(EMPTY, tr, i);
    if tr[i].key in s.table {
      var j := LastSeenHistory(tr, i, tr[i].key);
      assert forall j': nat :: Latest(tr, tr[i].key, j', i) ==> j' == j;
    }
  }

  // ---------- how often a hook is delivered ----------

  ghost predicate Delivered(tr: seq<Observation>, i: nat)
    requires i < |tr|
  {
    AlertAt(EMPTY, tr, i).Some? && AlertAt(EMPTY, tr, i).value.delivered
  }

  /**
   * From check `lo` up to `hi`, every check that sees `k` is a table check that reads the handler `a`,
   * outside the kernel text; check `lo` is the first of them and brings a handler other than the one seen before.
   */
  ghost predicate Stretch(tr: seq<Observation>, k: Selector, a: nat, lo: nat, hi: nat) {
    && lo < hi <= |tr|
    && Sees(tr[lo], k)
    && k in StateAt(EMPTY, tr, lo + 1).table
    && (k in StateAt(EMPTY, tr, lo).table ==> forall j: nat :: Latest(tr, k, j, lo) ==> tr[j].addr != a)
    && forall m: nat :: lo <= m < hi && Sees(tr[m], k) ==>
         tr[m].kind == HookedSyscallTable && tr[m].addr == a && !InText(a, tr[m].stext, tr[m].etext)
  }

  /** Some check in `lo..n` that saw `k` found the perf buffer ready. */
  ghost predicate Accepted(tr: seq<Observation>, k: Selector, lo: nat, n: nat)
    requires n <= |tr|
  {
    exists m: nat :: lo <= m < n && Sees(tr[m], k) && tr[m].sendOk
  }

  /** While a table check reads the outside handler `a`, the last-seen handler is `a` once a send succeeded. */
  lemma StretchStep(s: State, o: Observation, k: Selector, a: nat)
    requires Inv(s) && k in Observe(s, o).0.table
    requires Sees(o, k) ==> o.kind == HookedSyscallTable && o.addr == a && !InText(a, o.stext, o.etext)
    ensures Observe(s, o).0.table[k].last == a <==>
            (k in s.table && s.table[k].last == a) || (Sees(o, k) && o.sendOk)
    ensures Sees(o, k) ==>
              (Observe(s, o).1.Some? && Observe(s, o).1.value.delivered <==>
               o.sendOk && !(k in s.table && s.table[k].last == a))
  {
  }

  lemma NoneAccepted(tr: seq<Observation>, k: Selector, lo: nat)
    requires lo <= |tr|
    ensures !Accepted(tr, k, lo, lo)
  {
  }

  lemma AcceptedStep(tr: seq<Observation>, k: Selector, lo: nat, n: nat)
    requires lo < n <= |tr|
    ensures Accepted(tr, k, lo, n) <==> Accepted(tr, k, lo, n - 1) || (Sees(tr[n - 1], k) && tr[n - 1].sendOk)
  {
  }

  lemma {:induction false} LastSeenInStretch(tr: seq<Observation>, k: Selector, a: nat, lo: nat, hi: nat, n: nat)
    requires Stretch(tr, k, a, lo, hi) && lo <= n <= hi
    ensures n > lo ==> k in StateAt(EMPTY, tr, n).table
    ensures k in StateAt(EMPTY, tr, n).table ==>
              (StateAt(EMPTY, tr, n).table[k].last == a <==> Accepted(tr, k, lo, n))
  {
    hide Observe, Accepted;
    NoneAccepted(tr, k, lo);
    if n == lo {
      if k in StateAt(EMPTY, tr, n).table {
        StretchStart(tr, k, a, lo, hi);
      }
    } else {
      LastSeenInStretch(tr, k, a, lo, hi, n - 1);
      RunKeepsInv(EMPTY, tr, n - 1);
      BaselineNeverChanges(EMPTY, tr, lo + 1, n, k);
      StretchStep(StateAt(EMPTY, tr, n - 1), tr[n - 1], k, a);
      assert n - 1 == lo ==> Sees(tr[lo], k);
      AcceptedStep(tr, k, lo, n);
    }
  }

  lemma StretchStart(tr: seq<Observation>, k: Selector, a: nat, lo: nat, hi: nat)
    requires Stretch(tr, k, a, lo, hi) && k in StateAt(EMPTY, tr, lo).table
    ensures StateAt(EMPTY, tr, lo).table[k].last != a
  {
    hide Observe, FailedTableSend;
    var j := LastSeenHistory(tr, lo, k);
  }

  lemma SeenInStretch(tr: seq<Observation>, k: Selector, a: nat, lo: nat, hi: nat, m: nat)
    requires Stretch(tr, k, a, lo, hi) && lo <= m < hi
    ensures k in Observe(StateAt(EMPTY, tr, m), tr[m]).0.table
    ensures k in StateAt(EMPTY, tr, m).table && StateAt(EMPTY, tr, m).table[k].last == a <==> Accepted(tr, k, lo, m)
  {
    hide Observe, Accepted;
    LastSeenInStretch(tr, k, a, lo, hi, m);
    BaselineNeverChanges(EMPTY, tr, lo + 1, m + 1, k);
    NoneAccepted(tr, k, lo);
  }

  /**
   * One event per stretch: a check delivers exactly when it is the first one of the stretch whose send succeeds.
   * So two checks of a stretch never both deliver, and some check delivers as soon as one send succeeds.
   */
  lemma DeliveredOnce(tr: seq<Observation>, k: Selector, a: nat, lo: nat, hi: nat, m: nat)
    requires Stretch(tr, k, a, lo, hi) && lo <= m < hi && Sees(tr[m], k)
    ensures Delivered(tr, m) <==> tr[m].sendOk && !Accepted(tr, k, lo, m)
  {
    hide Observe, Accepted;
    SeenInStretch(tr, k, a, lo, hi, m);
    RunKeepsInv(EMPTY, tr, m);
    StretchStep(StateAt(EMPTY, tr, m), tr[m], k, a);
  }

  ghost function Deliveries(tr: seq<Observation>, k: Selector, lo: nat, hi: nat): set<nat>
    requires hi <= |tr|
  {
    set m: nat | lo <= m < hi && Sees(tr[m], k) && Delivered(tr, m)
  }

  /** Number of events a stretch delivers: one if any send succeeds, else none. */
  lemma StretchDelivery(tr: seq<Observation>, k: Selector, a: nat, lo: nat, hi: nat)
    requires Stretch(tr, k, a, lo, hi)
    ensures |Deliveries(tr, k, lo, hi)| == if Accepted(tr, k, lo, hi) then 1 else 0
  {
    hide Delivered, Accepted;
    var d := Deliveries(tr, k, lo, hi);
    forall m: nat | lo <= m < hi && Sees(tr[m], k)
      ensures m in d <==> tr[m].sendOk && !Accepted(tr, k, lo, m)
    {
      DeliveredOnce(tr, k, a, lo, hi, m);
    }
    if Accepted(tr, k, lo, hi) {
      var m := FirstAccepted(tr, k, lo, hi);
      forall m' | m' in d ensures m' == m {
        AcceptedBy(tr, k, lo, m, m');
        AcceptedBy(tr, k, lo, m', m);
      }
      assert d == {m};
    } else {
      forall m' | m' in d ensures false {
        AcceptedBy(tr, k, lo, m', hi);
      }
      assert d == {};
    }
  }

  lemma AcceptedBy(tr: seq<Observation>, k: Selector, lo: nat, m: nat, n: nat)
    requires n <= |tr| && lo <= m < |tr| && Sees(tr[m], k) && tr[m].sendOk
    ensures m < n ==> Accepted(tr, k, lo, n)
  {
  }

  lemma {:induction false} FirstAccepted(tr: seq<Observation>, k: Selector, lo: nat, hi: nat) returns (m: nat)
    requires hi <= |tr| && Accepted(tr, k, lo, hi)
    ensures lo <= m < hi && Sees(tr[m], k) && tr[m].sendOk && !Accepted(tr, k, lo, m)
  {
    m :| lo <= m < hi && Sees(tr[m], k) && tr[m].sendOk;
    if Accepted(tr, k, lo, m) {
      m := FirstAccepted(tr, k, lo, m);
    }
  }
}
