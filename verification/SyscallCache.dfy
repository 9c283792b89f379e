/**
 * The per-thread syscall cache: an entry caches a record, inner probes refine it, an exit pops it and builds
 * an event from it. The map is lossy: a record may be evicted at any time.
 */
module SyscallCache {
  import opened Actions
  import opened BpfMap
  import opened Policy

  const EVENT_ANY: nat := 0

  datatype Record<T> = Record(syscall: nat, data: T)
  datatype Event<T> = Event(thread: nat, syscall: nat, data: T)

  predicate Matches(recorded: nat, asked: nat) {
    asked == EVENT_ANY || recorded == asked
  }

  function Peeked<T>(m: map<nat, Record<T>>, thread: nat, syscall: nat): Option<Record<T>> {
    if thread in m && Matches(m[thread].syscall, syscall) then Some(m[thread]) else None
  }

  function Popped<T>(m: map<nat, Record<T>>, thread: nat, syscall: nat): map<nat, Record<T>> {
    if Peeked(m, thread, syscall).Some? then m - {thread} else m
  }

  /**
   * One step of any thread: a syscall entry with the verdict of its check, an inner probe that rewrites the
   * record, a syscall exit, an eviction, or nothing.
   */
  datatype Step<!T> =
    | Entry(thread: nat, syscall: nat, data: T, verdict: nat)
    | Probe(thread: nat, syscall: nat, update: T -> T)
    | Exit(thread: nat, syscall: nat)
    | Evict(thread: nat)
    | Idle

  function Apply<T>(m: map<nat, Record<T>>, s: Step<T>): map<nat, Record<T>> {
    match s
    case Entry(thread, syscall, data, verdict) =>
      var cached := m[thread := Record(syscall, data)];
      if verdict > LOG then Popped(cached, thread, syscall) else cached
    case Probe(thread, syscall, update) =>
      (match Peeked(m, thread, syscall)
       case Some(r) => m[thread := r.(data := update(r.data))]
       case None => m)
    case Exit(thread, syscall) => Popped(m, thread, syscall)
    case Evict(thread) => m - {thread}
    case Idle => m
  }

  /** The process of a thread key. */
  function Pid(thread: nat): nat {
    thread / 0x1_0000_0000
  }

  /** The event an exit sends: none without a matching record, and none for the exempt processes. */
  function Emitted<T>(cfg: Config, m: map<nat, Record<T>>, s: Step<T>): Option<Event<T>> {
    if !s.Exit? || Exempt(cfg, Pid(s.thread)) then None
    else match Peeked(m, s.thread, s.syscall)
      case Some(r) => Some(Event(s.thread, r.syscall, r.data))
      case None => None
  }

  class Cache<T> {
    var syscalls: map<nat, Record<T>>

    constructor ()
      ensures syscalls == map[]
    {
      syscalls := map[];
    }

    method CacheSyscall(thread: nat, r: Record<T>)
      modifies this
      ensures syscalls == old(syscalls)[thread := r]
    {
      syscalls := syscalls[thread := r];
    }

    method PeekSyscall(thread: nat, syscall: nat) returns (r: Option<Record<T>>)
      ensures r == Peeked(syscalls, thread, syscall)
    {
      if thread !in syscalls {
        return None;
      }
      if syscall == EVENT_ANY || syscalls[thread].syscall == syscall {
        return Some(syscalls[thread]);
      }
      return None;
    }

    method PopSyscall(thread: nat, syscall: nat) returns (r: Option<Record<T>>)
      modifies this
      ensures r == old(Peeked(syscalls, thread, syscall))
      ensures syscalls == Popped(old(syscalls), thread, syscall)
    {
      if thread !in syscalls {
        return None;
      }
      if syscall == EVENT_ANY || syscalls[thread].syscall == syscall {
        r := Some(syscalls[thread]);
        syscalls := syscalls - {thread};
        return;
      }
      return None;
    }

    /** Entry probe of a monitored syscall, once its check has answered `verdict`. */
    method OnEntry(thread: nat, syscall: nat, data: T, verdict: nat)
      modifies this
      ensures syscalls == Apply(old(syscalls), Entry(thread, syscall, data, verdict))
    {
      CacheSyscall(thread, Record(syscall, data));
      if verdict > LOG {
        var _ := PopSyscall(thread, syscall);
      }
    }

    method OnProbe(thread: nat, syscall: nat, update: T -> T)
      modifies this
      ensures syscalls == Apply(old(syscalls), Probe(thread, syscall, update))
    {
      var r := PeekSyscall(thread, syscall);
      if r.Some? {
        syscalls := syscalls[thread := r.value.(data := update(r.value.data))];
      }
    }

    method OnExit(cfg: Config, thread: nat, syscall: nat) returns (event: Option<Event<T>>)
      modifies this
      ensures syscalls == Apply(old(syscalls), Exit(thread, syscall))
      ensures event == Emitted(cfg, old(syscalls), Exit(thread, syscall))
    {
      var r := PopSyscall(thread, syscall);
      if r.None? || Exempt(cfg, Pid(thread)) {
        return None;
      }
      return Some(Event(thread, r.value.syscall, r.value.data));
    }
  }

  // ---------- runs of any interleaving ----------

  function StateAt<T>(tr: seq<Step<T>>, n: nat): map<nat, Record<T>>
    requires n <= |tr|
  {
    if n == 0 then map[] else Apply(StateAt(tr, n - 1), tr[n - 1])
  }

  function EventAt<T>(cfg: Config, tr: seq<Step<T>>, n: nat): Option<Event<T>>
    requires n < |tr|
  {
    Emitted(cfg, StateAt(tr, n), tr[n])
  }

  /** Step `s` replaces or removes the record of type `syscall` of the thread. */
  predicate Ends<T>(s: Step<T>, thread: nat, syscall: nat) {
    match s
    case Entry(t, _, _, _) => t == thread
    case Exit(t, asked) => t == thread && (asked == 0 || asked == syscall)
    case Evict(t) => t == thread
    case _ => false
  }

  /** Step `j` is the latest entry of the thread before step `n`; its record was let through and is still there. */
  ghost predicate Live<T>(tr: seq<Step<T>>, j: nat, n: nat, thread: nat)
    requires n <= |tr|
  {
    && j < n
    && tr[j].Entry? && tr[j].thread == thread && tr[j].verdict <= LOG
    && forall m: nat :: j < m < n ==> !Ends(tr[m], thread, tr[j].syscall)
  }

  /** The data of entry `j`, with the updates of the thread's matching probes up to step `n`, in order. */
  function Refined<T>(tr: seq<Step<T>>, j: nat, n: nat): T
    requires j < n <= |tr| && tr[j].Entry?
  {
    if n == j + 1 then tr[j].data
    else
      var d := Refined(tr, j, n - 1);
      var s := tr[n - 1];
      if s.Probe? && s.thread == tr[j].thread && (s.syscall == 0 || s.syscall == tr[j].syscall) then s.update(d) else d
  }

  lemma {:induction false} RecordHistory<T>(tr: seq<Step<T>>, n: nat, thread: nat)
    requires n <= |tr|
    ensures thread in StateAt(tr, n) <==> exists j: nat :: Live(tr, j, n, thread)
    ensures forall j: nat :: Live(tr, j, n, thread) ==>
              thread in StateAt(tr, n) && StateAt(tr, n)[thread] == Record(tr[j].syscall, Refined(tr, j, n))
  {
    if n > 0 {
      RecordHistory(tr, n - 1, thread);
      forall j: nat | j < n - 1 ensures Live(tr, j, n, thread) <==>
          Live(tr, j, n - 1, thread) && !Ends(tr[n - 1], thread, tr[j].syscall)
      {
        assert Live(tr, j, n, thread) ==> Live(tr, j, n - 1, thread);
      }
      if thread in StateAt(tr, n - 1) {
        var j: nat :| Live(tr, j, n - 1, thread);
        assert !Ends(tr[n - 1], thread, tr[j].syscall) ==> Live(tr, j, n, thread);
      }
      var s := tr[n - 1];
      if s.Entry? && s.thread == thread && s.verdict <= LOG {
        assert Live(tr, n - 1, n, thread);
      }
    }
  }

  /**
   * Exactly when an exit sends an event and what is in it: the process is not exempt and the thread's latest
   * entry, let through with a type the exit asks for, was neither consumed nor evicted; the event carries that
   * entry's data as its own probes refined it.
   */
  lemma EventExactly<T>(cfg: Config, tr: seq<Step<T>>, n: nat)
    requires n < |tr|
    ensures EventAt(cfg, tr, n).Some? <==>
            && tr[n].Exit?
            && (var pid := tr[n].thread / 0x1_0000_0000; pid > 1 && pid != cfg.kriePid % 0x1_0000_0000)
            && exists j: nat ::
                 Live(tr, j, n, tr[n].thread) && (tr[n].syscall == 0 || tr[n].syscall == tr[j].syscall)
    ensures forall j: nat :: EventAt(cfg, tr, n).Some? && Live(tr, j, n, tr[n].thread) ==>
              EventAt(cfg, tr, n) == Some(Event(tr[n].thread, tr[j].syscall, Refined(tr, j, n)))
  {
    if tr[n].Exit? {
      RecordHistory(tr, n, tr[n].thread);
    }
  }

  /** Two different exits never send an event from the same entry. */
  lemma ConsumedOnce<T>(cfg: Config, tr: seq<Step<T>>, j: nat, m: nat, n: nat)
    requires m < |tr| && n < |tr| && EventAt(cfg, tr, m).Some? && EventAt(cfg, tr, n).Some?
    requires Live(tr, j, m, tr[m].thread) && Live(tr, j, n, tr[n].thread)
    ensures m == n
  {
    EventExactly(cfg, tr, m);
    EventExactly(cfg, tr, n);
    assert forall i: nat :: Live(tr, i, m, tr[m].thread) ==> i == j;
    assert forall i: nat :: Live(tr, i, n, tr[n].thread) ==> i == j;
    assert Ends(tr[m], tr[m].thread, tr[j].syscall) && Ends(tr[n], tr[n].thread, tr[j].syscall);
  }

  /** An entry whose verdict is above LOG never yields an event, whatever follows. */
  lemma RefusedEntrySilent<T>(cfg: Config, tr: seq<Step<T>>, j: nat, n: nat)
    requires j < n < |tr| && tr[j].Entry? && tr[j].verdict > LOG
    requires tr[n].Exit? && tr[n].thread == tr[j].thread
    requires forall m: nat :: j < m < n && tr[m].Entry? ==> tr[m].thread != tr[j].thread
    ensures EventAt(cfg, tr, n).None?
  {
    EventExactly(cfg, tr, n);
    assert Ends(tr[j], tr[n].thread, EVENT_ANY);
    forall i: nat ensures !Live(tr, i, n, tr[n].thread) {
      if i < j {
        assert forall t: nat :: Ends(tr[j], tr[n].thread, t);
      }
    }
  }

  /** The same run without its evictions. */
  function Lossless<T>(tr: seq<Step<T>>): (r: seq<Step<T>>)
    ensures |r| == |tr|
  {
    seq(|tr|, i requires 0 <= i < |tr| => if tr[i].Evict? then Idle else tr[i])
  }

  lemma {:induction false} LosslessKeeps<T>(tr: seq<Step<T>>, n: nat, thread: nat)
    requires n <= |tr|
    ensures thread in StateAt(tr, n) ==>
              thread in StateAt(Lossless(tr), n) && StateAt(Lossless(tr), n)[thread] == StateAt(tr, n)[thread]
  {
    if n > 0 {
      LosslessKeeps(tr, n - 1, thread);
    }
  }

  /** Evictions only suppress events: every event sent is sent, with the same content, without them. */
  lemma EvictionOnlySuppresses<T>(cfg: Config, tr: seq<Step<T>>, n: nat)
    requires n < |tr| && EventAt(cfg, tr, n).Some?
    ensures EventAt(cfg, Lossless(tr), n) == EventAt(cfg, tr, n)
  {
    LosslessKeeps(tr, n, tr[n].thread);
  }
}
