/** The verdict wrappers: each runs one detector and concludes with the shared kill switch. */
module Detection {
  import opened Actions
  import opened BpfMap
  import opened SyscallCheck
  import opened KillSwitch
  import opened KernelParameter

  method RunSyscallTablesDetection(
    monitor: Monitor, board: Switchboard, pid: nat, policy: Option<nat>, known: nat -> bool, ts: nat, w: Sweep)
    returns (verdict: nat)
    modifies monitor, board`globalSwitch
    ensures var (state, action) := SweepEffect(old(monitor.View()), policy, known, Picked(w, ts));
            && monitor.View() == state
            && board.View() == Thrown(old(board.View()), pid, action)
            && verdict == Verdict(old(board.View()), pid, action)
  {
    var action := monitor.RunSyscallTableCheck(policy, known, ts, w);
    verdict := board.Conclude(pid, action);
  }

  method RunSyscallDetection(
    monitor: Monitor, board: Switchboard, pid: nat, policy: Option<nat>, known: nat -> bool, o: Observation)
    returns (verdict: nat)
    requires o.kind == HookedSyscall
    modifies monitor, board`globalSwitch
    ensures var (state, action) := EntryEffect(old(monitor.View()), policy, known, o);
            && monitor.View() == state
            && board.View() == Thrown(old(board.View()), pid, action)
            && verdict == Verdict(old(board.View()), pid, action)
  {
    var action := monitor.RunSyscallCheck(policy, known, o);
    verdict := board.Conclude(pid, action);
  }

  method RunKernelParameterDetection(checker: Checker, board: Switchboard, pid: nat, pass: Pass) returns (verdict: nat)
    modifies checker`params, board`globalSwitch
    ensures var (after, _, action) := PassEffect(old(Reached(checker.params)), pass, checker.ticker);
            && Reached(checker.params) == after
            && board.View() == Thrown(old(board.View()), pid, action)
            && verdict == Verdict(old(board.View()), pid, action)
  {
    var action, _ := checker.RunCheck(pass);
    verdict := board.Conclude(pid, action);
  }
}
