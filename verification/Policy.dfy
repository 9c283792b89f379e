/** Enforcement of a verdict by the program that computed it, and the generic LSM hook. */
module Policy {
  import opened Actions
  import opened BpfMap
  import opened KillSwitch
  import opened KillSwitchRuns

  datatype Program = Kprobe | Tracepoint | Lsm | PerfEvent | CgroupSysctl
  datatype Hook = SymbolHook | SyscallHook

  /** Load-time constants of the eBPF object. */
  datatype Config = Config(kriePid: nat, sendSignal: bool, overrideReturn: bool)

  /** What one enforcement does: the value the program returns, SIGKILL sent, syscall return overridden. */
  datatype Effect = Effect(ret: int, signalled: bool, overridden: bool)

  const EPERM: int := -1
  const SYSCTL_SHOT: int := 0
  const SYSCTL_OK: int := 1

  /** KRIe itself, init and the idle task; the pid constant is truncated to 32 bits. */
  predicate Exempt(cfg: Config, pid: nat) {
    pid == cfg.kriePid % 0x1_0000_0000 || pid == 1 || pid == 0
  }

  predicate Refuses(action: nat) {
    action == BLOCK || action == KILL || action == PARANOID
  }

  /** Who is hit by what, as a table: exempt processes and actions that do not refuse have no effect. */
  function Enforced(cfg: Config, pid: nat, action: nat, program: Program, hook: Hook): Effect {
    var refused := !Exempt(cfg, pid) && Refuses(action);
    Effect(
      match program {
        case Lsm => if refused then EPERM else 0
        case CgroupSysctl => if Exempt(cfg, pid) || action == NOP || action == LOG then SYSCTL_OK else SYSCTL_SHOT
        case _ => 0
      },
      refused && action != BLOCK && program != CgroupSysctl && cfg.sendSignal,
      refused && program == Kprobe && hook == SyscallHook && cfg.overrideReturn)
  }

  method EnforcePolicy(cfg: Config, pid: nat, verdict: nat, program: Program, hook: Hook) returns (e: Effect)
    ensures e == Enforced(cfg, pid, verdict, program, hook)
    ensures var exempt := pid == 0 || pid == 1 || pid == cfg.kriePid % 0x1_0000_0000;
            && (e.overridden <==> && !exempt && cfg.overrideReturn && program == Kprobe && hook == SyscallHook
                                  && BLOCK <= verdict <= PARANOID)
            && (e.signalled <==> && !exempt && cfg.sendSignal && program != CgroupSysctl
                                 && KILL <= verdict <= PARANOID)
            && (program == Lsm ==> e.ret == if !exempt && BLOCK <= verdict <= PARANOID then -1 else 0)
            && (program == CgroupSysctl ==> e.ret == if exempt || verdict <= LOG then SYSCTL_OK else SYSCTL_SHOT)
            && (program != Lsm && program != CgroupSysctl ==> e.ret == 0)
  {
    var action := verdict;
    e := Effect(0, false, false);
    if Exempt(cfg, pid) {
      action := NOP;
    }
    if action == NOP || action == LOG {
      if program == CgroupSysctl {
        return e.(ret := SYSCTL_OK);
      }
    } else if action == BLOCK {
      if program == Kprobe && hook == SyscallHook {
        if cfg.overrideReturn {
          e := e.(overridden := true);
        }
      } else if program == Lsm {
        return e.(ret := EPERM);
      } else if program == CgroupSysctl {
        return e.(ret := SYSCTL_SHOT);
      }
    } else if action == KILL || action == PARANOID {
      if program != CgroupSysctl {
        if cfg.sendSignal {
          e := e.(signalled := true);
        }
      }
      if program == Kprobe && hook == SyscallHook {
        if cfg.overrideReturn {
          e := e.(overridden := true);
        }
      }
      if program == Lsm {
        return e.(ret := EPERM);
      } else if program == CgroupSysctl {
        return e.(ret := SYSCTL_SHOT);
      }
    }
    return e;
  }

  /** Every LSM hook: the context verdict of the current process, then enforcement. */
  method GenericLsm(board: Switchboard, cfg: Config, pid: nat) returns (e: Effect)
    ensures e == Enforced(cfg, pid, ContextVerdict(board.View(), pid), Lsm, SymbolHook)
  {
    var action := board.RunContextCheck(pid);
    e := EnforcePolicy(cfg, pid, action, Lsm, SymbolHook);
  }

  /**
   * Exactly when an LSM hook refuses, after any run: the process is not exempt and the first throw of the
   * switch was under key 0, whichever refusing action is stored there by now.
   */
  lemma LsmRefusesExactly(tr: seq<Check>, n: nat, cfg: Config, pid: nat)
    requires n <= |tr|
    ensures Enforced(cfg, pid, ContextVerdict(StateAt(tr, n), pid), Lsm, SymbolHook).ret == EPERM <==>
            !Exempt(cfg, pid) && exists f: nat :: FirstThrow(tr, f, n) && tr[f].Key() == 0
  {
    var f, l := SlotHistory(tr, n);
    assert forall f': nat :: FirstThrow(tr, f', n) && FirstThrow(tr, f, n) ==> f' == f;
  }

  /** Once PARANOID is latched, an LSM hook refuses with -1, and signals, exactly the processes that are not exempt. */
  lemma LatchedLsmRefuses(tr: seq<Check>, i: nat, n: nat, cfg: Config, pid: nat)
    requires FirstParanoid(tr, i) && LatchCondition(tr, i) && i < n <= |tr|
    ensures var e := Enforced(cfg, pid, ContextVerdict(StateAt(tr, n), pid), Lsm, SymbolHook);
            && (e.ret == EPERM <==> !Exempt(cfg, pid))
            && (e.signalled <==> !Exempt(cfg, pid) && cfg.sendSignal)
  {
    LatchPersists(tr, i, n);
  }

  /** The enforcement of the verdict of check `n`. */
  function EnforcedAt(tr: seq<Check>, n: nat, cfg: Config, program: Program, hook: Hook): Effect
    requires n < |tr|
  {
    Enforced(cfg, tr[n].pid, VerdictAt(tr, n), program, hook)
  }

  /**
   * Exactly what the program that runs check `n` does, from the history of checks. A syscall kprobe overrides its
   * syscall when the process is not exempt, overriding is on, and the check's own action blocks, kills or locks
   * down, or the first throw ever, this check included, was under key 0. Programs other than the sysctl one signal
   * under the same conditions, except that a BLOCK alone does not.
   */
  lemma StoppedExactly(tr: seq<Check>, n: nat, cfg: Config, program: Program, hook: Hook)
    requires n < |tr|
    ensures var exempt := tr[n].pid == 0 || tr[n].pid == 1 || tr[n].pid == cfg.kriePid % 0x1_0000_0000;
            var e := EnforcedAt(tr, n, cfg, program, hook);
            && (e.overridden <==> && program == Kprobe && hook == SyscallHook && !exempt && cfg.overrideReturn
                                  && tr[n].action <= PARANOID && (BLOCK <= tr[n].action || ZeroFirst(tr, n + 1)))
            && (e.signalled <==> && program != CgroupSysctl && !exempt && cfg.sendSignal
                                 && tr[n].action <= PARANOID && (KILL <= tr[n].action || ZeroFirst(tr, n + 1)))
  {
    hide VerdictAt, FirstThrow;
    VerdictExactly(tr, n);
  }

  /** The same for the event check of an event under given policies: an event without a policy counts as BLOCK. */
  lemma EventStoppedExactly(tr: seq<Check>, n: nat, cfg: Config, pid: nat, policies: map<nat, nat>, event: nat)
    requires n < |tr| && tr[n] == Check(pid, EventAction(policies, Some(event)))
    ensures var own := if event in policies then policies[event] else BLOCK;
            var exempt := pid == 0 || pid == 1 || pid == cfg.kriePid % 0x1_0000_0000;
            EnforcedAt(tr, n, cfg, Kprobe, SyscallHook).overridden <==>
              && !exempt && cfg.overrideReturn && own <= PARANOID && (BLOCK <= own || ZeroFirst(tr, n + 1))
  {
    hide EnforcedAt, ZeroFirst;
    StoppedExactly(tr, n, cfg, Kprobe, SyscallHook);
  }

  /**
   * Whatever the verdict, no program signals, overrides or refuses pid 0, pid 1 or KRIe itself: so no check of
   * any run ever does.
   */
  lemma ExemptNeverHit(cfg: Config, pid: nat, verdict: nat, program: Program, hook: Hook)
    requires Exempt(cfg, pid)
    ensures var e := Enforced(cfg, pid, verdict, program, hook);
            !e.signalled && !e.overridden && e.ret == if program == CgroupSysctl then SYSCTL_OK else 0
  {
  }
}
