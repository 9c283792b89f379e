/** When the shared read buffer is harmless, and what the rate limit guarantees over runs of passes. */
module KernelParameterRuns {
  import opened Actions
  import opened BpfMap
  import opened Bytes
  import opened KernelParameter

  // ---------- the shared buffer ----------

  function OwnBytes(p: Parameter, memory: nat -> Byte): (r: seq<Byte>)
    ensures |r| == p.size
  {
    seq(p.size, j requires 0 <= j => memory(p.addr + j))
  }

  /** With every memory content, each comparison sees the little-endian integer of the parameter's own bytes. */
  ghost predicate Sound(ps: seq<Parameter>) {
    forall pass: Pass, i: nat :: i < |ps| && (forall k: nat :: k <= i ==> !pass.fails(k)) ==>
      Compared(ps, pass, i) == Value(OwnBytes(ps[i], pass.memory))
  }

  /** Sizes of at most 7 bytes that never decrease along the list. */
  predicate Ascending(ps: seq<Parameter>) {
    && (forall i :: 0 <= i < |ps| ==> ps[i].size <= 7)
    && (forall i :: 0 < i < |ps| ==> ps[i - 1].size <= ps[i].size)
  }

  lemma {:induction false} ValueThenZeros(bs: seq<Byte>, n: nat)
    ensures Value(bs + Zeros(n)) == Value(bs)
  {
    if bs == [] {
      assert bs + Zeros(n) == Zeros(n);
      ValueOfZeros(n);
    } else {
      assert (bs + Zeros(n))[1..] == bs[1..] + Zeros(n);
      ValueThenZeros(bs[1..], n);
    }
  }

  lemma {:induction false} ValueOfZeros(n: nat)
    ensures Value(Zeros(n)) == 0
  {
    if n > 0 {
      assert Zeros(n)[1..] == Zeros(n - 1);
      ValueOfZeros(n - 1);
    }
  }

  lemma {:induction false} AscendingBuffer(ps: seq<Parameter>, pass: Pass, i: nat)
    requires Ascending(ps) && i < |ps| && forall k: nat :: k <= i ==> !pass.fails(k)
    ensures BufferAt(ps, pass, i + 1) == OwnBytes(ps[i], pass.memory) + Zeros(8 - ps[i].size)
  {
    if i > 0 {
      AscendingBuffer(ps, pass, i - 1);
    }
    assert ReadBytes(ps[i], i, pass) == OwnBytes(ps[i], pass.memory);
  }

  /** A memory full of ones shows every stale byte. */
  function Ones(n: nat): (r: seq<Byte>)
    ensures |r| == n
  {
    seq(n, _ => 255)
  }

  lemma {:induction false} ValueOfOnes(n: nat)
    ensures Value(Ones(n)) + 1 == Pow256(n)
  {
    if n > 0 {
      assert Ones(n)[1..] == Ones(n - 1);
      ValueOfOnes(n - 1);
    }
  }

  lemma {:induction false} Pow256Grows(m: nat, n: nat)
    requires m < n
    ensures 0 < Pow256(m) < Pow256(n)
  {
    if m + 1 < n {
      Pow256Grows(m, n - 1);
    } else if m > 0 {
      Pow256Grows(m - 1, m);
    }
  }

  /** The widest read so far, in bytes. */
  function Widest(ps: seq<Parameter>, i: nat): (w: nat)
    requires i <= |ps|
    ensures w <= 7
  {
    if i == 0 then 0
    else if ps[i - 1].size % 8 > Widest(ps, i - 1) then ps[i - 1].size % 8 else Widest(ps, i - 1)
  }

  lemma ReadsOnes(p: Parameter, i: nat, pass: Pass)
    requires !pass.fails(i) && forall a: nat :: pass.memory(a) == 255
    ensures ReadBytes(p, i, pass) == Ones(p.size % 8)
  {
  }

  lemma {:induction false} OnesBuffer(ps: seq<Parameter>, pass: Pass, i: nat)
    requires i <= |ps| && (forall k: nat :: !pass.fails(k)) && forall a: nat :: pass.memory(a) == 255
    ensures BufferAt(ps, pass, i) == Ones(Widest(ps, i)) + Zeros(8 - Widest(ps, i))
  {
    hide ReadBytes, Store, Ones, Zeros;
    if i > 0 {
      OnesBuffer(ps, pass, i - 1);
      ReadsOnes(ps[i - 1], i - 1, pass);
      StoreOnes(Widest(ps, i - 1), ps[i - 1].size % 8);
    } else {
      NoOnes();
    }
  }

  lemma NoOnes()
    ensures Ones(0) + Zeros(8) == Zeros(8)
  {
  }

  lemma StoreOnes(w: nat, n: nat)
    requires w <= 7 && n <= 7
    ensures Store(Ones(w) + Zeros(8 - w), Ones(n)) == if n > w then Ones(n) + Zeros(8 - n) else Ones(w) + Zeros(8 - w)
  {
  }

  lemma OnesShowWidest(ps: seq<Parameter>, i: nat)
    requires Sound(ps) && i < |ps|
    ensures ps[i].size == Widest(ps, i + 1)
  {
    hide BufferAt, Widest, Value, Pow256;
    var pass := Pass(0, None, _ => 255, _ => false, _ => true);
    OnesBuffer(ps, pass, i + 1);
    var w := Widest(ps, i + 1);
    ValueThenZeros(Ones(w), 8 - w);
    assert OwnBytes(ps[i], pass.memory) == Ones(ps[i].size);
    assert Compared(ps, pass, i) == Value(Ones(ps[i].size));
    OnesInjective(w, ps[i].size);
  }

  lemma OnesInjective(m: nat, n: nat)
    requires Value(Ones(m)) == Value(Ones(n))
    ensures m == n
  {
    ValueOfOnes(m);
    ValueOfOnes(n);
    if m < n {
      Pow256Grows(m, n);
    } else if n < m {
      Pow256Grows(n, m);
    }
  }

  /** The shared buffer is harmless for exactly the lists whose sizes are at most 7 and never decrease. */
  lemma SoundExactly(ps: seq<Parameter>)
    ensures Sound(ps) <==> Ascending(ps)
  {
    if Ascending(ps) {
      forall pass: Pass, i: nat | i < |ps| && (forall k: nat :: k <= i ==> !pass.fails(k))
        ensures Compared(ps, pass, i) == Value(OwnBytes(ps[i], pass.memory))
      {
        AscendingBuffer(ps, pass, i);
        ValueThenZeros(OwnBytes(ps[i], pass.memory), 8 - ps[i].size);
      }
    }
    if Sound(ps) {
      forall i | 0 <= i < |ps| ensures ps[i].size <= 7 && (i > 0 ==> ps[i - 1].size <= ps[i].size) {
        OnesShowWidest(ps, i);
        if i > 0 {
          OnesShowWidest(ps, i - 1);
        }
      }
    }
  }

  // ---------- what a pass answers ----------

  /** Iteration `k` is the latest one before `i` whose read reaches byte `j`. */
  ghost predicate LatestRead(ps: seq<Parameter>, i: nat, j: nat, k: nat)
    requires i <= |ps|
  {
    k < i && j < ps[k].size % 8 && forall m: nat :: k < m < i ==> ps[m].size % 8 <= j
  }

  /** One iteration writes the bytes that its read reaches and leaves the others. */
  lemma BufferStep(ps: seq<Parameter>, pass: Pass, i: nat, j: nat)
    requires i < |ps| && j < 8
    ensures BufferAt(ps, pass, i + 1)[j] ==
            if ps[i].size % 8 <= j then BufferAt(ps, pass, i)[j]
            else if pass.fails(i) then 0 else pass.memory(ps[i].addr + j)
  {
    hide Store, ReadBytes;
    StoreByte(BufferAt(ps, pass, i), ReadBytes(ps[i], i, pass), j);
    ReadByte(ps[i], i, pass, j);
  }

  /**
   * Byte `j` of the shared buffer, for every list: the latest parameter whose read is long enough put it there,
   * a failed read as 0. So it may belong to another parameter than the one compared.
   */
  lemma {:induction false} BufferByte(ps: seq<Parameter>, pass: Pass, i: nat, j: nat, k: nat)
    requires i <= |ps| && j < 8 && LatestRead(ps, i, j, k)
    ensures BufferAt(ps, pass, i)[j] == if pass.fails(k) then 0 else pass.memory(ps[k].addr + j)
  {
    hide BufferAt;
    BufferStep(ps, pass, i - 1, j);
    if k < i - 1 {
      BufferByte(ps, pass, i - 1, j, k);
    }
  }

  /** A byte that no read has reached is 0. */
  lemma {:induction false} UnreadByte(ps: seq<Parameter>, pass: Pass, i: nat, j: nat)
    requires i <= |ps| && j < 8 && forall k: nat :: k < i ==> ps[k].size % 8 <= j
    ensures BufferAt(ps, pass, i)[j] == 0
  {
    if i > 0 {
      hide BufferAt;
      UnreadByte(ps, pass, i - 1, j);
      BufferStep(ps, pass, i - 1, j);
    }
  }

  lemma StoreByte(buf: seq<Byte>, bytes: seq<Byte>, j: nat)
    requires |bytes| <= |buf| && j < |buf|
    ensures Store(buf, bytes)[j] == if j < |bytes| then bytes[j] else buf[j]
  {
  }

  lemma ReadByte(p: Parameter, i: nat, pass: Pass, j: nat)
    ensures j < p.size % 8 ==> ReadBytes(p, i, pass)[j] == if pass.fails(i) then 0 else pass.memory(p.addr + j)
  {
  }

  /** The parameter does not hold its expected value, and its last event is more than a ticker ago. */
  predicate Due(p: Parameter, pass: Pass, ticker: nat) {
    p.expected != Value(OwnBytes(p, pass.memory)) && p.lastSent + ticker < pass.now
  }

  /** No read of the pass fails, and the clock has reached the ticker. */
  ghost predicate Regular(ps: seq<Parameter>, pass: Pass, ticker: nat) {
    (forall k: nat :: k < |ps| ==> !pass.fails(k)) && ticker <= pass.now < U64
  }

  lemma FiresWhenDue(ps: seq<Parameter>, pass: Pass, ticker: nat, i: nat)
    requires Ascending(ps) && Regular(ps, pass, ticker) && i < |ps|
    ensures Fires(ps, pass, ticker, i) <==> Due(ps[i], pass, ticker)
  {
    hide Value, BufferAt, OwnBytes, Ascending;
    AscendingBuffer(ps, pass, i);
    AscendingSize(ps, i);
    ValueThenZeros(OwnBytes(ps[i], pass.memory), 8 - ps[i].size);
    assert Threshold(pass.now, ticker) == pass.now - ticker;
  }

  lemma AscendingSize(ps: seq<Parameter>, i: nat)
    requires Ascending(ps) && i < |ps|
    ensures ps[i].size <= 7
  {
  }

  ghost predicate InOrder(s: seq<nat>, n: nat) {
    (forall a :: 0 <= a < |s| ==> s[a] < n) && forall a, b :: 0 <= a < b < |s| ==> s[a] < s[b]
  }

  lemma InOrderGrows(s: seq<nat>, n: nat)
    requires InOrder(s, n)
    ensures InOrder(s, n + 1) && InOrder(s + [n], n + 1)
  {
  }

  lemma {:induction false} SentInOrder(ps: seq<Parameter>, pass: Pass, ticker: nat, n: nat)
    requires n <= |ps|
    ensures InOrder(Sent(ps, pass, ticker, n), n)
  {
    hide Delivers, InOrder;
    if n > 0 {
      SentInOrder(ps, pass, ticker, n - 1);
      InOrderGrows(Sent(ps, pass, ticker, n - 1), n - 1);
      assert Sent(ps, pass, ticker, n - 1) + [] == Sent(ps, pass, ticker, n - 1);
    } else {
      NoneInOrder();
    }
  }

  lemma NoneInOrder()
    ensures InOrder([], 0)
  {
  }

  /**
   * What a pass does, exactly, for lists whose sizes never decrease: with an active policy it delivers, in list
   * order, the parameters that are due and whose send succeeds; these and no others remember the time; and it
   * answers its policy, BLOCK when it has none, exactly when some parameter is due, sent or not.
   */
  lemma PassExactly(ps: seq<Parameter>, pass: Pass, ticker: nat)
    requires Ascending(ps) && Regular(ps, pass, ticker)
    ensures var (after, delivered, action) := PassEffect(ps, pass, ticker);
            && InOrder(delivered, |ps|)
            && (forall i: nat :: i in delivered <==>
                  i < |ps| && pass.policy != Some(NOP) && pass.sendOk(i) && Due(ps[i], pass, ticker))
            && |after| == |ps|
            && (forall i: nat :: i < |ps| ==>
                  after[i] == if i in delivered then ps[i].(lastSent := pass.now) else ps[i])
            && action == if pass.policy != Some(NOP) && exists i: nat :: i < |ps| && Due(ps[i], pass, ticker)
                         then (if pass.policy.Some? then pass.policy.value else BLOCK) else NOP
  {
    hide Fires, Due, Ascending, Regular;
    SentInOrder(ps, pass, ticker, |ps|);
    forall i: nat | i < |ps| ensures Fires(ps, pass, ticker, i) <==> Due(ps[i], pass, ticker) {
      FiresWhenDue(ps, pass, ticker, i);
    }
  }

  lemma HasMember(s: seq<nat>)
    requires s != []
    ensures exists i: nat :: i in s
  {
    assert s[0] in s;
  }

  /** An untouched kernel: a pass whose parameters hold their expected bytes sends and changes nothing. */
  lemma UntouchedKernel(ps: seq<Parameter>, pass: Pass, ticker: nat)
    requires Ascending(ps) && Regular(ps, pass, ticker)
    requires forall i :: 0 <= i < |ps| ==> ps[i].expected == Value(OwnBytes(ps[i], pass.memory))
    ensures PassEffect(ps, pass, ticker) == (ps, [], NOP)
  {
    hide Ascending, Regular, Value, PassEffect, OwnBytes;
    PassExactly(ps, pass, ticker);
    var (after, delivered, _) := PassEffect(ps, pass, ticker);
    if delivered != [] {
      HasMember(delivered);
    }
    assert after == ps;
  }

  // ---------- the rate limit ----------

  /** The wrapped threshold tests the elapsed time exactly when the clock has passed the ticker. */
  lemma ThresholdExact(now: nat, ticker: nat, lastSent: nat)
    requires lastSent <= now < U64 && ticker < U64
    ensures (lastSent < Threshold(now, ticker) <==> now - lastSent > ticker) <==> ticker <= now
  {
  }

  /** The list after the first `n` passes of a run. */
  function ListAt(ps: seq<Parameter>, run: seq<Pass>, ticker: nat, n: nat): (r: seq<Parameter>)
    requires n <= |run|
    ensures |r| == |ps|
  {
    if n == 0 then ps else AfterPass(ListAt(ps, run, ticker, n - 1), run[n - 1], ticker)
  }

  predicate DeliveredAt(ps: seq<Parameter>, run: seq<Pass>, ticker: nat, t: nat, i: nat)
    requires t < |run| && i < |ps|
  {
    Delivers(ListAt(ps, run, ticker, t), run[t], ticker, i)
  }

  /** A 64-bit clock that never goes back. */
  ghost predicate Forward(run: seq<Pass>) {
    && (forall t :: 0 <= t < |run| ==> run[t].now < U64)
    && (forall s, t :: 0 <= s <= t < |run| ==> run[s].now <= run[t].now)
  }

  /** Such a clock, not below the ticker once the first pass is over. */
  ghost predicate Clocked(run: seq<Pass>, ticker: nat) {
    Forward(run) && forall t :: 0 < t < |run| ==> ticker <= run[t].now
  }

  lemma {:induction false} LastSentKept(ps: seq<Parameter>, run: seq<Pass>, ticker: nat, s: nat, t: nat, i: nat)
    requires Clocked(run, ticker) && i < |ps| && s < t <= |run| && DeliveredAt(ps, run, ticker, s, i)
    ensures run[s].now <= ListAt(ps, run, ticker, t)[i].lastSent
  {
    hide Delivers, Threshold, Compared;
    if s + 1 < t {
      LastSentKept(ps, run, ticker, s, t - 1, i);
      assert run[s].now <= run[t - 1].now;
    }
  }

  lemma {:induction false} LastSentSame(ps: seq<Parameter>, run: seq<Pass>, ticker: nat, s: nat, t: nat, i: nat)
    requires i < |ps| && s < t <= |run| && DeliveredAt(ps, run, ticker, s, i)
    requires forall u: nat :: s < u < t ==> !DeliveredAt(ps, run, ticker, u, i)
    ensures ListAt(ps, run, ticker, t)[i].lastSent == run[s].now
  {
    hide Delivers, Threshold, Compared;
    if s + 1 < t {
      LastSentSame(ps, run, ticker, s, t - 1, i);
      assert !DeliveredAt(ps, run, ticker, t - 1, i);
    }
  }

  /** When a visible mismatch is delivered: exactly when more than a ticker has passed since the last event. */
  lemma VisibleDelivers(ps: seq<Parameter>, pass: Pass, ticker: nat, i: nat)
    requires i < |ps| && Visible(ps, pass, i) && ticker <= pass.now < U64
    ensures Delivers(ps, pass, ticker, i) <==> ps[i].lastSent + ticker < pass.now
  {
    assert Threshold(pass.now, ticker) == pass.now - ticker;
  }

  lemma DeliveredLate(ps: seq<Parameter>, pass: Pass, ticker: nat, i: nat)
    requires i < |ps| && Delivers(ps, pass, ticker, i) && ticker <= pass.now < U64
    ensures ps[i].lastSent + ticker < pass.now
  {
    assert Threshold(pass.now, ticker) == pass.now - ticker;
  }

  /** Two delivered events of one parameter are more than a ticker apart. */
  lemma Spaced(ps: seq<Parameter>, run: seq<Pass>, ticker: nat, s: nat, t: nat, i: nat)
    requires Clocked(run, ticker) && i < |ps| && s < t < |run|
    requires DeliveredAt(ps, run, ticker, s, i) && DeliveredAt(ps, run, ticker, t, i)
    ensures run[t].now - run[s].now > ticker
  {
    hide Delivers, ListAt;
    LastSentKept(ps, run, ticker, s, t, i);
    DeliveredLate(ListAt(ps, run, ticker, t), run[t], ticker, i);
  }

  /** Whatever the list, the memory, the policies and the sends, deliveries of a parameter are spaced. */
  ghost predicate AlwaysSpaced(times: seq<nat>, ticker: nat) {
    forall ps: seq<Parameter>, run: seq<Pass>, s: nat, t: nat, i: nat ::
      OfTimes(run, times) && i < |ps| && s < t < |run|
      && DeliveredAt(ps, run, ticker, s, i) && DeliveredAt(ps, run, ticker, t, i) ==>
        run[t].now - run[s].now > ticker
  }

  ghost predicate OfTimes(run: seq<Pass>, times: seq<nat>) {
    |run| == |times| && forall t :: 0 <= t < |run| ==> run[t].now == times[t]
  }

  /** A run that sends only in its first pass and in pass `t`, about one byte that is 0 and should be 1. */
  function TwoSends(times: seq<nat>, t: nat): (run: seq<Pass>)
    ensures |run| == |times|
  {
    seq(|times|, u requires 0 <= u < |times| =>
      Pass(times[u], None, _ => 0, _ => false, _ => u == 0 || u == t))
  }

  const ONE_BYTE: seq<Parameter> := [Parameter(0, 1, 0, 1)]

  lemma ZeroRead(pass: Pass, last: nat)
    requires forall a: nat :: pass.memory(a) == 0
    ensures Compared([Parameter(0, 1, last, 1)], pass, 0) == 0
  {
    hide Value;
    var ps := [Parameter(0, 1, last, 1)];
    assert BufferAt(ps, pass, 0) == Zeros(8);
    assert BufferAt(ps, pass, 1) == Zeros(8);
    ValueOfZeros(8);
  }

  /** Before pass `t` the parameter remembers the first pass. */
  lemma {:induction false} FirstRemembered(times: seq<nat>, ticker: nat, t: nat, n: nat)
    requires 0 < n <= t < |times| && ticker < U64 && 0 <= times[0] < ticker
    ensures ListAt(ONE_BYTE, TwoSends(times, t), ticker, n) == [Parameter(0, 1, times[0], 1)]
  {
    hide Compared;
    var run := TwoSends(times, t);
    if n == 1 {
      ZeroRead(run[0], 0);
      assert ListAt(ONE_BYTE, run, ticker, 0) == ONE_BYTE;
    } else {
      FirstRemembered(times, ticker, t, n - 1);
    }
  }

  /** The witness: a later pass while the clock is below the ticker delivers again within the ticker. */
  lemma LowClockBreaks(times: seq<nat>, ticker: nat, t: nat)
    requires 0 < t < |times| && times[0] <= times[t] < ticker < U64
    ensures DeliveredAt(ONE_BYTE, TwoSends(times, t), ticker, 0, 0)
    ensures DeliveredAt(ONE_BYTE, TwoSends(times, t), ticker, t, 0)
  {
    hide Compared;
    var run := TwoSends(times, t);
    ZeroRead(run[0], 0);
    FirstRemembered(times, ticker, t, t);
    ZeroRead(run[t], times[0]);
  }

  /** The exact condition of the rate limit: the clock may be below the ticker in the first pass only. */
  lemma SpacedExactly(times: seq<nat>, ticker: nat)
    requires ticker < U64 && forall t :: 0 <= t < |times| ==> times[t] < U64
    requires forall s, t :: 0 <= s <= t < |times| ==> times[s] <= times[t]
    ensures AlwaysSpaced(times, ticker) <==> forall t :: 0 < t < |times| ==> ticker <= times[t]
  {
    hide DeliveredAt, TwoSends;
    if forall t :: 0 < t < |times| ==> ticker <= times[t] {
      forall ps: seq<Parameter>, run: seq<Pass>, s: nat, t: nat, i: nat |
        OfTimes(run, times) && i < |ps| && s < t < |run|
        && DeliveredAt(ps, run, ticker, s, i) && DeliveredAt(ps, run, ticker, t, i)
        ensures run[t].now - run[s].now > ticker
      {
        Spaced(ps, run, ticker, s, t, i);
      }
    } else {
      var t :| 0 < t < |times| && times[t] < ticker;
      LowClockBreaks(times, ticker, t);
      TimesKept(times, t);
      assert !(TwoSends(times, t)[t].now - TwoSends(times, t)[0].now > ticker);
    }
  }

  lemma TimesKept(times: seq<nat>, t: nat)
    ensures OfTimes(TwoSends(times, t), times)
  {
  }

  ghost function Window(ps: seq<Parameter>, run: seq<Pass>, ticker: nat, i: nat, start: nat, width: nat): set<nat>
    requires i < |ps|
  {
    set t: nat | t < |run| && DeliveredAt(ps, run, ticker, t, i) && start <= run[t].now <= start + width
  }

  lemma OneMoreTime(n: nat, gap: nat)
    requires n > 0
    ensures (n - 1) * gap + gap == n * gap
  {
  }

  lemma {:induction false} SpacedCount(s: set<nat>, run: seq<Pass>, gap: nat, start: nat, width: nat)
    requires s != {} && gap > 0
    requires forall t :: t in s ==> t < |run| && start <= run[t].now <= start + width
    requires forall a, b :: a in s && b in s && a < b ==> run[b].now - run[a].now >= gap
    ensures (|s| - 1) * gap <= width
  {
    var m := Greatest(s);
    var rest := s - {m};
    assert |s| == |rest| + 1;
    if rest != {} {
      SpacedRest(rest, run, gap, start, m);
      SpacedCount(rest, run, gap, start, run[m].now - gap - start);
      OneMoreTime(|rest|, gap);
    } else {
      assert (|s| - 1) * gap == 0;
    }
  }

  lemma SpacedRest(rest: set<nat>, run: seq<Pass>, gap: nat, start: nat, m: nat)
    requires rest != {} && m < |run|
    requires forall t :: t in rest ==> t < m && start <= run[t].now && run[m].now - run[t].now >= gap
    ensures run[m].now - gap - start >= 0
    ensures forall t :: t in rest ==> run[t].now <= start + (run[m].now - gap - start)
  {
    var a :| a in rest;
  }

  lemma {:induction false} Greatest(s: set<nat>) returns (m: nat)
    requires s != {}
    ensures m in s && forall t :: t in s ==> t <= m
  {
    m :| m in s;
    if s != {m} {
      assert s - {m} != {};
      var m' := Greatest(s - {m});
      assert forall t :: t in s ==> t == m || t in s - {m};
      m := if m' > m then m' else m;
    }
  }

  /** A window of width W holds at most W / (ticker + 1) + 1 delivered events of one parameter. */
  lemma WindowBound(ps: seq<Parameter>, run: seq<Pass>, ticker: nat, i: nat, start: nat, width: nat)
    requires Clocked(run, ticker) && i < |ps|
    ensures |Window(ps, run, ticker, i, start, width)| <= width / (ticker + 1) + 1
  {
    hide DeliveredAt, Clocked;
    var s := Window(ps, run, ticker, i, start, width);
    if s != {} {
      forall a, b | a in s && b in s && a < b ensures run[b].now - run[a].now >= ticker + 1 {
        Spaced(ps, run, ticker, a, b, i);
      }
      SpacedCount(s, run, ticker + 1, start, width);
      DivBound(|s| - 1, ticker + 1, width);
    }
  }

  lemma DivBound(n: nat, gap: nat, width: nat)
    requires gap > 0 && n * gap <= width
    ensures n <= width / gap
  {
    var q := width / gap;
    Quotient(width, gap);
    Difference(q + 1, n, gap);
    PositiveFactor(q + 1 - n, gap);
  }

  lemma Quotient(width: nat, gap: nat)
    requires gap > 0
    ensures width < (width / gap + 1) * gap
  {
  }

  lemma Difference(x: int, y: int, gap: int)
    ensures (x - y) * gap == x * gap - y * gap
  {
  }

  lemma PositiveFactor(x: int, gap: nat)
    requires gap > 0 && x * gap > 0
    ensures x > 0
  {
  }

  /** A mismatch that nothing else hides: the check is active and the send would succeed. */
  predicate Visible(ps: seq<Parameter>, pass: Pass, i: nat)
    requires i < |ps|
  {
    pass.Active() && pass.sendOk(i) && ps[i].expected != Compared(ps, pass, i)
  }

  /**
   * Passes at most `d` apart, a parameter that always mismatches and sends that succeed: after a delivered event
   * the next one comes within ticker + d, as soon as the run goes on for longer than the ticker.
   */
  lemma NextWithin(ps: seq<Parameter>, run: seq<Pass>, ticker: nat, d: nat, i: nat, s: nat, m: nat) returns (t: nat)
    requires Clocked(run, ticker) && i < |ps| && s < m < |run| && DeliveredAt(ps, run, ticker, s, i)
    requires forall u: nat :: s < u <= m ==> Visible(ListAt(ps, run, ticker, u), run[u], i)
    requires forall u: nat :: s < u <= m ==> run[u].now <= run[u - 1].now + d
    requires run[m].now > run[s].now + ticker
    ensures s < t <= m && DeliveredAt(ps, run, ticker, t, i)
    ensures forall u: nat :: s < u < t ==> !DeliveredAt(ps, run, ticker, u, i)
    ensures run[s].now + ticker < run[t].now <= run[s].now + ticker + d
  {
    hide Delivers, Threshold, Compared, Visible, ListAt;
    t := s + 1;
    while run[t].now <= run[s].now + ticker
      invariant s < t <= m
      invariant run[t - 1].now <= run[s].now + ticker
      invariant forall u: nat :: s < u < t ==> !DeliveredAt(ps, run, ticker, u, i)
      decreases m - t
    {
      LastSentSame(ps, run, ticker, s, t, i);
      VisibleDelivers(ListAt(ps, run, ticker, t), run[t], ticker, i);
      t := t + 1;
    }
    LastSentSame(ps, run, ticker, s, t, i);
    VisibleDelivers(ListAt(ps, run, ticker, t), run[t], ticker, i);
  }
}
