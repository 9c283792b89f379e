# KRIe: a Dafny model of its detectors and their runtime

KRIe watches the Linux kernel with eBPF programs and reports, or stops, what looks like an intrusion; a Go
runtime configures the programs and decodes their events. This project models the parts of KRIe that keep state
across calls, share state between programs, or have to agree across the kernel / user-space boundary, and proves
what they guarantee over whole runs and for all inputs.

| files | part of KRIe |
|---|---|
| `SyscallCheck`, `SyscallRuns`, `SyscallSweeps` | syscall-table integrity: write-once baselines, locks, last-seen handlers |
| `Actions`, `KillSwitch`, `Policy` | actions and verdicts, the one-entry kill switch, enforcement, the LSM hooks |
| `Detection`, `DetectionRuns` | the verdict wrappers, and runs in which all detectors share their state |
| `DnsFilter` | a classic-BPF machine and the 22-instruction DNS socket filter |
| `SysctlWire`, `SysctlRoundTrip`, `SysctlLosses`, `SysctlRules`, `SysctlHook`, `SysctlRuns` | sysctl rules and events, from the kernel program to the Go handler |
| `KernelParameter`, `KernelParameterRuns` | the kernel-parameter check: shared read buffer and rate limit |
| `Kallsyms`, `KallsymsRuns`, `KallsymsLines` | the kernel symbol index and its reloads |
| `SyscallCache` | the lossy per-thread syscall cache |
| `HelperBitmap`, `KernelVersion` | the helper bit set, and kernel version codes |
| `BpfMap`, `Bytes` | bounded BPF hash maps, little-endian integers, NUL-terminated strings |

Code that changes state is a class with methods (`Monitor`, `Switchboard`, `Checker`, `Resolver`, `Cache`,
`BpfSyscall`, `SysCtlEvent`) or works on an array; each method is proved equal to a function of the old state.
The main theorems are about those functions. They are stated on the history of a run (which check saw a key
first, which verdict threw the switch first, which entry of a thread is still live), or against an independent
reference (a packet predicate, a predecessor search, an exact set of numbers).

## What the proofs found

- `lock_syscall_table` answers true when its BPF_NOEXIST insert fails, so the first caller of a number is told
  that it does not hold the lock and every later caller that it does. A baseline is therefore fixed at the second
  sight of a number, whichever table the first sight was in (`SyscallRuns.BaselineHistory`).
- Both kill-switch setters write `global_kill_switch`, which has one entry; `process_kill_switch` is never
  written. A KILL of an ordinary process that comes first takes the entry and no PARANOID verdict is ever latched
  (`KillSwitchRuns.KillTakesTheSlot`); the exact condition of the latch is `KillSwitchRuns.LatchIff`.
- A refused override is reported as OVERRIDE all the same: the answers EINVAL and ERANGE of the helper are
  overwritten, the written value stays, and user space reports the override string. When the report is right is
  `SysctlRuns.ReportedOverrideExactly`.
- A sysctl name of 255 bytes fits its helper but wraps the offset of the value, and the event no longer decodes.
  A value that the helper cannot give counts as -EINVAL, so the message is cut 22 bytes early per missing value,
  unless its end wraps around to almost the whole buffer. `SysctlLosses.RecoversExactly` says which accesses user
  space recovers, among all that are sent.
- The same cut makes the kernel program itself send messages that the decoder slices out of range: on a read
  without current value, exactly when the name has more than 20 bytes. `SysctlLosses.SentPanicsExactly` has all
  cases, `SysctlRoundTrip.PanicsExactly` the decoder's side.
- `SysCtlEvent.UnmarshallBinary` returns a count that is 16 more than header and strings
  (`SysctlRoundTrip.ReadCount`).
- A parameter size of 8 reads nothing because of the mask, and a list whose sizes decrease compares stale bytes
  (`KernelParameterRuns.SoundExactly`). The threshold of the rate limit wraps around while the clock is below the
  ticker, and the limit holds exactly when that is over after the first pass (`KernelParameterRuns.SpacedExactly`).
- After a reload that lost the address of a function, the lost symbol still matches, and two symbols can match one
  query (`KallsymsRuns.StaleEntryOverlaps`); exactly when is `KallsymsRuns.SearchExactly` and
  `KallsymsRuns.UniqueExactly`.
- 4.14.252 and 4.19.222 upwards are parsed as patch 255 (`KernelVersion.PrintThenParseExactly`).

## Assumptions

- One call of an eBPF program is one atomic step. A sweep over a syscall table is 448 such steps in order.
- BPF hash maps are bounded: a new key is refused once the maximum is reached, and a refusal changes nothing.
- The clock, kernel memory, perf-buffer answers, policies and load-time constants are parameters, one value per
  call, so that a run may change them at will. Helpers behave as documented: the sysctl string helpers store a
  text of at most 255 bytes and one NUL, or answer -E2BIG or -EINVAL; a failed kernel read stores zeros.
- Addresses, pids and times are natural numbers; 8-, 32- and 64-bit wrap-around is written out where it shows.
- Look-ups in per-CPU slots succeed, so the branches marked "should never happen" for them are absent.

## Model

| member | source | states |
|---|---|---|
| `SyscallCheck.Monitor.LockSyscallTable` | ebpf/krie/krie/syscall_check.h:49-51 | answers true exactly when the NOEXIST insert fails: the number is taken or the map full; otherwise inserts it |
| `SyscallCheck.Monitor.CheckSyscall` | ebpf/krie/krie/syscall_check.h:70-124 | one check moves baselines, locks and last-seen handlers, and alerts, as the step function of the run theorems, with the scratch entry carried between calls |
| `SyscallCheck.Monitor.RunSyscallCheck` | ebpf/krie/krie/syscall_check.h:126-178 | answers the policy, BLOCK when absent, exactly when it is not NOP, the table is known, the handler was read and is not strictly inside the kernel text, and its key has a baseline by then; NOP otherwise |
| `SyscallCheck.Monitor.RunSyscallTableCheck` | ebpf/krie/krie/syscall_check.h:180-230 | the loop is a run of 448 checks of the table that the clock picks, and answers the policy action exactly when some number alerted |
| `SyscallRuns.RunKeepsInv` | ebpf/krie/krie/syscall_check.h:80-92 | in every run a baseline exists only if its number is locked or the lock map is full |
| `SyscallRuns.BaselineNeverChanges` | ebpf/krie/krie/syscall_check.h:81-92 | a baseline is written once: it is never removed and its handler never changes |
| `SyscallRuns.AlertCarriesBaseline` | ebpf/krie/krie/syscall_check.h:80-118 | whoever alerts held the lock, and every alert of a key carries the one baseline the key has at any later time |
| `SyscallRuns.HasLockHistory` | ebpf/krie/krie/syscall_check.h:49-80 | a caller is told it has the lock exactly when the number was seen before in any table, or the lock map is full |
| `SyscallRuns.BaselineHistory` | ebpf/krie/krie/syscall_check.h:73-92 | a key has a baseline exactly when some check saw it with its number seen before (or the locks full) and room left; it is the handler the first such check read |
| `SyscallRuns.LastSeenHistory` | ebpf/krie/krie/syscall_check.h:99-118 | the last-seen handler is the one of the latest check that saw the key, or 0 if that was a table alert whose send failed |
| `SyscallRuns.AlertExactly` | ebpf/krie/krie/syscall_check.h:70-124 | a check alerts exactly when the handler is outside the text, the key has a baseline, and (for table checks) it is the first since the baseline appeared, differs from the previous one, or follows a failed send |
| `SyscallRuns.DeliveredOnce` | ebpf/krie/krie/syscall_check.h:94-123 | within a stretch of one outside handler a check delivers exactly when its send succeeds and none before it did |
| `SyscallRuns.StretchDelivery` | ebpf/krie/krie/syscall_check.h:94-123 | each stretch delivers exactly one event if any send succeeds, and none otherwise |
| `SyscallSweeps.SweepsNeverFill` | ebpf/krie/krie/syscall_check.h:11-36 | in runs of sweeps there are at most 3*448 baselines and 448 locks, so neither map fills |
| `SyscallSweeps.SweepLeavesOtherTables` | ebpf/krie/krie/syscall_check.h:198-223 | a sweep changes no entry of another table |
| `SyscallSweeps.TwoSweepsFixBaseline` | ebpf/krie/krie/syscall_check.h:215-223 | a number seen by one sweep, of any table, and by a later sweep of a table has a baseline in that table from then on |
| `SyscallSweeps.SweptNumber` | ebpf/krie/krie/syscall_check.h:215-223 | what a sweep does to each number of its table: whether it alerts, from the monitor before the sweep, and the handler remembered after it |
| `SyscallSweeps.SweepAnswers` | ebpf/krie/krie/syscall_check.h:180-230 | the periodic sweep answers its policy, BLOCK when absent, exactly when it is not NOP, the table is known and some handler outside the text is news; so NOP when all handlers are inside the text |
| `KillSwitch.Switchboard.SetGlobal` | ebpf/krie/krie/kill_switch.h:23-26 | writes the one-entry map under key 0; refused when another key is there |
| `KillSwitch.Switchboard.SetProcess` | ebpf/krie/krie/kill_switch.h:40-43 | writes the same one-entry map under the pid, never the process map |
| `KillSwitch.Switchboard.RunContextCheck` | ebpf/krie/krie/krie.h:31-52 | answers the largest of NOP and the two stored actions, for any content of the two maps |
| `KillSwitch.Switchboard.Conclude` | ebpf/krie/krie/krie.h:60-90 | the shared tail of the wrappers: KILL and PARANOID throw the switch, then the verdict is the largest of the check's own action and what the two maps hold after the throw, never less than that action |
| `KillSwitch.Switchboard.RunEventCheck` | ebpf/krie/krie/event_check.h:20-45 | the policy of the checked event, or BLOCK without one, enters the shared tail, and the verdict is never below it; an event goes out from BLOCK on |
| `KillSwitchRuns.SlotHistory` | ebpf/krie/krie/kill_switch.h:11-43 | after any run the map holds exactly the key of the first throw with the action of the last throw under that key; the process map is empty |
| `KillSwitchRuns.KeyNeverChanges` | ebpf/krie/krie/kill_switch.h:11-43 | the switch never has more than one key and that key never changes |
| `KillSwitchRuns.VerdictExactly` | ebpf/krie/krie/krie.h:54-208 | the exact verdict of any check of any run, from the history alone: its own action until the first throw under key 0 holds the slot, then the larger of that and the action last thrown under key 0, this check included |
| `KillSwitchRuns.ContextExactly` | ebpf/krie/krie/krie.h:31-52 | the same for context checks, which have no action of their own |
| `KillSwitchRuns.ConcludeNext` | ebpf/krie/krie/krie.h:60-90 | the shared tail on a switchboard that has been through a run answers that verdict and leaves the state of the longer run |
| `KillSwitchRuns.LatchedExactly` | ebpf/krie/krie/krie.h:65-90 | every process is answered PARANOID exactly when the first throw used key 0 and the last throw under key 0 was PARANOID |
| `KillSwitchRuns.LatchPersists` | ebpf/krie/krie/krie.h:65-90 | under the latch condition the map holds 0 -> PARANOID after every later check |
| `KillSwitchRuns.LatchIff` | ebpf/krie/krie/krie.h:54-208 | the latch holds from the first PARANOID check to the end if and only if that check, or a KILL of pid 0, was the first throw and no KILL of pid 0 follows |
| `KillSwitchRuns.EveryVerdictParanoid` | ebpf/krie/krie/krie.h:54-208 | under that condition every verdict of every check for every pid is PARANOID from then on |
| `KillSwitchRuns.KillTakesTheSlot` | ebpf/krie/krie/kill_switch.h:40-43 | after a first throw that is a KILL of a pid other than 0 nothing is ever latched and every context check answers NOP |
| `Detection.RunSyscallTablesDetection` | ebpf/krie/krie/krie.h:93-130 | the table sweep's action is the one concluded: both the monitor and the switch move accordingly |
| `Detection.RunSyscallDetection` | ebpf/krie/krie/krie.h:132-169 | the same for the check on syscall entry |
| `Detection.RunKernelParameterDetection` | ebpf/krie/krie/krie.h:171-208 | the same for a pass over the kernel parameters, whose list afterwards is stated |
| `DetectionRuns.SwitchesAreRun` | ebpf/krie/krie/krie.h:31-208 | in runs of all detectors by any processes the switch goes through the run of the steps' own actions, so the latch theorems apply |
| `DetectionRuns.MonitorIsRun` | ebpf/krie/krie/syscall_check.h:126-230 | the monitor goes through the concatenation of all observations, so the theorems on baselines and alerts apply to sweeps and entry checks mixed |
| `DetectionRuns.ParametersAreRun` | ebpf/krie/krie/kernel_parameter.h:62-80 | the parameter list goes through the run of the passes, so the rate limit holds across everything else |
| `DetectionRuns.HookAnswers` | ebpf/krie/krie/krie.h:93-169 | in any run a sweep or syscall entry answers its policy exactly when it finds a hook, and NOP otherwise |
| `DetectionRuns.HookLocksDown` | ebpf/krie/krie/krie.h:93-169 | from the first sweep or syscall entry that finds a hook under a PARANOID policy on, with no earlier throw, every LSM hook refuses every process that is not exempt, whatever any check answers later |
| `DetectionRuns.HookedEntryKilled` | ebpf/krie/hooks/raw_syscalls.h:45-66 | a process whose entry finds a hook is signalled exactly when it is not exempt, signals are on, and the policy is KILL or PARANOID or the switch was first thrown under key 0; a tracepoint never overrides |
| `Policy.EnforcePolicy` | ebpf/krie/krie/policy.h:43-88 | returned value, override and signal, each with its exact condition on pid, constants, program, hook and verdict |
| `Policy.StoppedExactly` | ebpf/krie/krie/policy.h:43-88 | from the history of checks: a syscall kprobe overrides its syscall exactly when the process is not exempt, overriding is on, and the own action is BLOCK to PARANOID or the first throw was under key 0; programs other than the sysctl one signal alike, but not on BLOCK alone |
| `Policy.EventStoppedExactly` | ebpf/krie/hooks/ptrace.h:45-51 | the same for the entry of a monitored syscall under given policies, where a missing policy counts as BLOCK |
| `Policy.GenericLsm` | ebpf/krie/hooks/lsm.h:13-23 | an LSM hook enforces the context verdict of the current process |
| `Policy.LsmRefusesExactly` | ebpf/krie/hooks/lsm.h:13-23 | after any run a hook answers -1 exactly when the process is not exempt and the first throw ever was under key 0 |
| `Policy.LatchedLsmRefuses` | ebpf/krie/hooks/lsm.h:13-23 | once PARANOID is latched the hooks refuse exactly the processes that are not exempt, and signal them if signals are on |
| `Policy.ExemptNeverHit` | ebpf/krie/filter_krie_runtime.h:11-17 | corollary of the enforcement table: whatever the verdict, pids 0, 1 and KRIe's own are never signalled, overridden or refused, by any program |
| `ClassicBpf.Halts` | cmd/ktool/run/bpf_filter.go:111-156 | a program whose jumps land inside it and whose last instruction returns halts within its length from any state, with its answer |
| `DnsFilter.ProgramIsClosed` | cmd/ktool/run/bpf_filter.go:111-156 | the 22 instructions are such a program, and each relative skip lands on the absolute index its comment gives |
| `DnsFilter.FilterIsDnsPredicate` | cmd/ktool/run/bpf_filter.go:109-157 | on packets of any length and content the filter answers 262144 exactly for TCP or UDP port 53 over IPv6 at 54/56 or after the IPv4 header of a first fragment, and 0 otherwise (section 3.1 of RFC 791, section 3 of RFC 8200, section 4.2 of RFC 1035) |
| `SysctlWire.SysCtlEvent.UnmarshallBinary` | pkg/krie/events/sysctl.go:78-116 | sets the fields as the decoding function says; too little data changes nothing |
| `SysctlWire.SysCtlEvent.ParseStrings` | pkg/krie/events/sysctl.go:89-113 | cursor and fields after the three strings, and when the cursor runs out of the payload |
| `SysctlWire.SysCtlEvent.DefaultEventHandler` | pkg/krie/krie.go:138-193 | the reused event is zeroed first, so the outcome depends on the message and the options alone; an override is looked up by name |
| `SysctlRoundTrip.BackToBack` | ebpf/krie/hooks/sysctl.h:96-142 | for names of at most 254 bytes the three masks are identities and the strings sit back to back within 767 bytes |
| `SysctlRoundTrip.WireLayout` | ebpf/krie/hooks/sysctl.h:45-53 | where the fields of the message stand: write flag, file position, action, then the buffer up to its masked end |
| `SysctlRoundTrip.HeaderExactly` | pkg/krie/events/sysctl.go:82-86 | the header of any message that decodes, byte by byte: a write is the 32-bit value 1 and nothing else |
| `SysctlRoundTrip.RoundTrip` | ebpf/krie/hooks/sysctl.h:96-173 | decoding a packed access yields exactly its flag, position, action, name, current value and, on a write, new value |
| `SysctlLosses.RecoversExactly` | ebpf/krie/hooks/sysctl.h:96-173 | among all accesses that are sent, with unavailable values and with NULs in the strings too, user space recovers everything if and only if the strings are NUL-free and the name has at most 254 bytes, or, when a value is unavailable, the end of the message wraps around (and no new value stands behind a missing current one) |
| `SysctlLosses.SentPanicsExactly` | pkg/krie/events/sysctl.go:89-113 | the messages the kernel program sends that the decoder slices out of range, exactly, by the lengths of the strings |
| `SysctlLosses.NoCurrentRead` | ebpf/krie/hooks/sysctl.h:121-142 | a read without current value decodes to its full name below 20 bytes, to an empty one at 20, and slices out of range above |
| `SysctlLosses.NoCurrentWrite` | ebpf/krie/hooks/sysctl.h:121-142 | what is decoded, if anything, from a write without current value: from 20 bytes of name on, the name without its last 20 bytes followed by the new value; the new value itself is never shown |
| `SysctlLosses.NoValues` | ebpf/krie/hooks/sysctl.h:121-142 | a write without any value decodes to its name below 20 bytes, to a cut one up to 41, and slices out of range above |
| `SysctlLosses.NoNewValue` | ebpf/krie/hooks/sysctl.h:133-142 | a write without new value is recovered exactly when name and current value have less than 19 bytes together; when it slices out of range |
| `SysctlRoundTrip.ReadCount` | pkg/krie/events/sysctl.go:87-115 | for every payload that decodes, the count is the header, the bytes up to the third NUL or the end, and 16 more |
| `SysctlRoundTrip.PanicsExactly` | pkg/krie/events/sysctl.go:89-113 | the decoder slices out of range exactly when the payload has no NUL, or one that is not its last byte |
| `SysctlRules.MarshalBinary` | pkg/krie/events/sysctl.go:138-151 | the 264 bytes written field by field are length, two flags and the override cut or padded to 256 bytes |
| `SysctlRules.PackedLayout` | pkg/krie/events/sysctl.go:139-149 | where the fields of the packed value stand: length, write flag, read flag, padded override |
| `SysctlRules.KernelReadsPacked` | ebpf/krie/hooks/sysctl.h:24-29 | the kernel structure laid over those bytes gives back length, flags and padded value |
| `SysctlRules.KernelViewExactly` | ebpf/krie/hooks/sysctl.h:24-29 | the kernel structure laid over any 264 bytes: a flag is set when one of its two bytes is not zero |
| `SysctlRules.LoadSysCtlParameters` | pkg/krie/sysctl.go:23-39 | in any iteration order the load succeeds exactly when at most 1024 different keys are needed, and the table then holds just those keys with the value of a name they stand for |
| `SysctlRules.OneKeyEach` | pkg/krie/sysctl.go:25-28 | NUL-free names of at most 256 bytes need one key each |
| `SysctlRules.KeyInjective` | pkg/krie/sysctl.go:25-28 | zero-padded keys are injective on NUL-free names of at most 256 bytes |
| `SysctlRules.SameRule` | ebpf/krie/hooks/sysctl.h:108-118 | the kernel finds a listed rule exactly when user space has the name, and both choose the same rule or the default |
| `SysctlHook.PackValues` | ebpf/krie/hooks/sysctl.h:120-142 | writes current and new value into the shared buffer in place at the masked offsets, as the packing function says |
| `SysctlHook.DecideAccess` | ebpf/krie/hooks/sysctl.h:144-166 | an override beats a blocked write and never ends as EINVAL or ERANGE, whatever the helper answers; the value is replaced only if it does not refuse |
| `SysctlHook.CgroupSysctl` | ebpf/krie/hooks/sysctl.h:77-180 | answer, bytes sent, file position, value replaced unless the helper refuses, and switch after one access, on every path of the program, also without a cached process |
| `SysctlRuns.AccessIsCheck` | ebpf/krie/hooks/sysctl.h:96-173 | in any run an access whose strings fit and that has a rule is the next check, under the policy of sysctl events or BLOCK, and its event carries the verdict of that check; any other access leaves the switch alone and sends nothing |
| `SysctlRuns.AllowedExactly` | ebpf/krie/hooks/sysctl.h:144-179 | in any run such an access goes through exactly when it is overridden or not blocked, and the process is exempt, or the policy of sysctl events is at most LOG and the first throw ever was not under key 0 |
| `SysctlRuns.LatchedSysctlRefuses` | ebpf/krie/hooks/sysctl.h:96-179 | once PARANOID is latched only reads whose name or current value does not fit 256 bytes go through for a process that is not exempt |
| `SysctlRuns.ReportedAccess` | pkg/krie/krie.go:183-193 | end to end from the options: user space decodes the access with the action 2, 0 or 1 that the rule listed under the name, or the default, demands, and an override string for action 2 only; file position and replaced value follow that action |
| `SysctlRuns.ReportedOverrideExactly` | pkg/krie/krie.go:187-193 | OVERRIDE is reported exactly on writes with a non-empty override by processes that are not exempt, refused or not; the reported string took the place of the written one if and only if the helper did not refuse and the string fits in 256 bytes; after a refusal the written value stays |
| `KernelParameter.Checker.RunCheck` | ebpf/krie/krie/kernel_parameter.h:38-87 | a pass visits exactly the loaded list, in order; which events go out, which parameters remember the time, and the action returned |
| `KernelParameter.Checker.CheckOne` | ebpf/krie/krie/kernel_parameter.h:69-79 | one iteration over the shared buffer |
| `KernelParameter.LoadKernelParameters` | pkg/krie/kernel_parameters.go:43-62 | loading succeeds exactly for lists of at most 25 parameters with a symbol or an address each; a pass then reaches just those, in order, with their expected value and size, their address, or that of their symbol, or 0 when it is unknown |
| `KernelParameterRuns.SoundExactly` | ebpf/krie/krie/kernel_parameter.h:45-80 | with reads that succeed the compared value is the little-endian integer of the parameter's own bytes, for every memory and parameter, if and only if sizes are at most 7 and never decrease |
| `KernelParameterRuns.BufferByte` | ebpf/krie/krie/kernel_parameter.h:62-69 | for every list and pass, each byte of the shared buffer is the one the latest long enough read put there, 0 if that read failed |
| `KernelParameterRuns.UnreadByte` | ebpf/krie/krie/kernel_parameter.h:45-69 | a byte that no read has reached is 0 |
| `KernelParameterRuns.PassExactly` | ebpf/krie/krie/kernel_parameter.h:38-87 | for lists whose sizes never decrease, reads that succeed and a clock at or above the ticker: a pass delivers, in order, exactly the parameters whose own bytes differ from the expected value, whose last event is more than a ticker ago and whose send succeeds, under a policy that is not NOP; only these remember the time; and it answers the policy exactly when some parameter is due |
| `KernelParameterRuns.UntouchedKernel` | ebpf/krie/krie/kernel_parameter.h:71-86 | a pass whose parameters all hold their expected bytes delivers nothing, changes nothing and answers NOP |
| `KernelParameterRuns.ThresholdExact` | ebpf/krie/krie/kernel_parameter.h:43-44 | the wrapped comparison tests the elapsed time if and only if the clock has reached the ticker |
| `KernelParameterRuns.SpacedExactly` | ebpf/krie/krie/kernel_parameter.h:43-80 | for a clock that never goes back, deliveries of a parameter are more than a ticker apart for every list, memory, policy and send result if and only if every pass after the first has the clock at or above the ticker |
| `KernelParameterRuns.LowClockBreaks` | ebpf/krie/krie/kernel_parameter.h:43-80 | a run that delivers twice within the ticker whenever a later pass is below it |
| `KernelParameterRuns.Spaced` | ebpf/krie/krie/kernel_parameter.h:62-80 | two delivered events of one parameter are more than a ticker apart |
| `KernelParameterRuns.WindowBound` | ebpf/krie/krie/kernel_parameter.h:62-80 | a window of width W holds at most W/(ticker+1)+1 of them |
| `KernelParameterRuns.NextWithin` | ebpf/krie/krie/kernel_parameter.h:62-80 | with a lasting mismatch, sends that succeed and passes at most d apart, consecutive events are more than ticker and at most ticker+d apart |
| `Kallsyms.Resolver.ParseKallsyms` | pkg/krie/kallsyms.go:142-214 | a reload fails with both maps unchanged, or stores some sorted permutation of the new symbols with sizes derived from the next one |
| `Kallsyms.Resolver.ResolveFuncSymbol` | pkg/krie/kallsyms.go:216-227 | the scan, in any order, answers some entry that matches, or unknown when none does |
| `Kallsyms.Resolver.ResolveObjectSymbol` | pkg/krie/kallsyms.go:229-240 | answers the object stored at exactly that address |
| `KallsymsRuns.FilledLast` | pkg/krie/kallsyms.go:201-212 | of several symbols at one address the last in sorted order is kept |
| `KallsymsRuns.MatchIsPredecessor` | pkg/krie/kallsyms.go:197-218 | an entry matches a query exactly when it is the predecessor's and that symbol covers the query |
| `KallsymsRuns.UniqueMatch` | pkg/krie/kallsyms.go:197-218 | at most one entry matches any address, for any order of equal addresses |
| `KallsymsRuns.ScanIsSearch` | pkg/krie/kallsyms.go:216-227 | an answer is one the scan may give in some order if and only if it is the answer of the predecessor search |
| `KallsymsRuns.ResolveAfterParse` | pkg/krie/kallsyms.go:216-227 | the resolver equals the predecessor search whenever the parse leaves no stale function behind |
| `KallsymsRuns.FilledSlashKeys` | pkg/krie/kallsyms.go:211 | every key of the symbol map contains a slash |
| `KallsymsRuns.NothingSkipped` | pkg/krie/kallsyms.go:176-179 | so the already-cached test never skips a name without a slash |
| `KallsymsRuns.FailsExactly` | pkg/krie/kallsyms.go:172-174 | a reload fails exactly when some typed symbol with an address has address 0 |
| `KallsymsRuns.ReloadsKeepSearch` | pkg/krie/kallsyms.go:142-227 | across any growing sequence of reloads no line is skipped and the scan stays the predecessor search of the latest snapshot |
| `KallsymsRuns.SearchExactly` | pkg/krie/kallsyms.go:201-218 | after any reload the matching entries are those of the predecessor search, for every query, if and only if no function with a non-empty range stays behind at an address that the snapshot lost |
| `KallsymsRuns.UniqueExactly` | pkg/krie/kallsyms.go:201-218 | after any reload at most one entry matches every query if and only if no such stale function overlaps another one |
| `KallsymsRuns.StaleExactly` | pkg/krie/kallsyms.go:201-212 | a reload gives the address map of a first parse if and only if the snapshot has all earlier addresses |
| `KallsymsRuns.StaleEntryOverlaps` | pkg/krie/kallsyms.go:216-227 | a witness for the two conditions above: a concrete reload that loses an address, after which two entries match one query |
| `KallsymsLines.EntriesOnLines` | pkg/krie/kallsyms.go:181-211 | from the lines of a parse: every address on a typed line has an entry with the name, kind and module ("system" when none) of such a line; other addresses keep what they had |
| `KallsymsLines.FreshOnLines` | pkg/krie/kallsyms.go:148-195 | the symbols collected are exactly those on typed lines whose bare name is no key of the cache |
| `KallsymsLines.SizesOnLines` | pkg/krie/kallsyms.go:201-212 | the size kept at an address of the lines: a function reaches exactly to the next address on a typed line; objects and the last address have size 1 |
| `KallsymsLines.KeysOnLines` | pkg/krie/kallsyms.go:181-211 | from the lines: the keys of the symbol map are the module, a slash and the name of the typed lines, each with such a symbol, and the keys it had |
| `KallsymsLines.AnswersOnLines` | pkg/krie/kallsyms.go:142-227 | end to end from the lines, for any order of sort and scan: a known answer is the name and module of a function line at the largest address not above the query, and when it must be known |
| `KallsymsLines.ParseThenResolve` | pkg/krie/kallsyms.go:142-227 | the same for a first parse and a query by the two methods; the parse fails exactly when a typed line has address 0 |
| `SyscallCache.Cache.CacheSyscall` | ebpf/krie/syscall_cache.h:73-76 | replaces the record of the thread |
| `SyscallCache.Cache.PeekSyscall` | ebpf/krie/syscall_cache.h:78-88 | gives the thread's record if its type is the one asked for, or any type for type 0 |
| `SyscallCache.Cache.PopSyscall` | ebpf/krie/syscall_cache.h:90-101 | gives the same record and removes it, and only then |
| `SyscallCache.Cache.OnEntry` | ebpf/krie/hooks/ptrace.h:22-51 | caches the record and pops it again when the verdict is above LOG |
| `SyscallCache.Cache.OnProbe` | ebpf/krie/hooks/bpf.h:336-359 | rewrites the data of the thread's matching record in place |
| `SyscallCache.Cache.OnExit` | ebpf/krie/hooks/ptrace.h:53-84 | pops the record and builds the event from it unless the process is exempt |
| `SyscallCache.RecordHistory` | ebpf/krie/syscall_cache.h:73-101 | under every interleaving and eviction a thread has a record exactly when its latest entry is live, and the record is that entry's data refined by its own probes |
| `SyscallCache.EventExactly` | ebpf/krie/hooks/ptrace.h:53-84 | an exit sends an event exactly when the process is not exempt and the thread's latest entry has the asked type, was let through and was neither consumed nor evicted; what the event carries |
| `SyscallCache.ConsumedOnce` | ebpf/krie/syscall_cache.h:90-101 | two exits never send an event from the same entry |
| `SyscallCache.RefusedEntrySilent` | ebpf/krie/hooks/ptrace.h:46-49 | an entry whose verdict is above LOG never yields an event |
| `SyscallCache.EvictionOnlySuppresses` | ebpf/krie/syscall_cache.h:66-71 | every event sent would be sent, with the same content, in the run without evictions |
| `HelperBitmap.BpfSyscall.CheckHelperCall` | ebpf/krie/hooks/bpf.h:418-424 | sets one bit of one of the three words in place, for any id; what a shift by 64 or more sets is left open |
| `HelperBitmap.RecordSets` | ebpf/krie/hooks/bpf.h:418-424 | recording an id below 192 changes the answer for that id only; negative ids change nothing; larger ones touch the third word only and clear nothing |
| `HelperBitmap.BitsAreIds` | ebpf/krie/hooks/bpf.h:418-424 | after any calls every recorded id has its bit, and the bits set are exactly the ids, below 128 always and below 192 when no id is larger |
| `HelperBitmap.OneHelper` | ebpf/krie/hooks/bpf.h:418-424 | one helper alone is bit id % 64 of word id / 64 |
| `HelperBitmap.ParseHelpers` | pkg/krie/events/bpf.go:183-212 | the loop over 192 bits gives the strictly increasing list of the bits set |
| `HelperBitmap.RoundTrip` | pkg/krie/events/bpf.go:183-212 | listing what was recorded selects exactly the recorded ids |
| `HelperBitmap.RecordAndParse` | pkg/krie/events/bpf.go:166-170 | end to end any calls yield an increasing list with every id recorded, exact below 128, and exactly the distinct non-negative ids when all are below 192 |
| `KernelVersion.MatchExactly` | pkg/kernel/version.go:28 | the release expression matches exactly the strings made of digits, a dot, digits and any rest on the same line |
| `KernelVersion.MatchThree` | pkg/kernel/version.go:28 | the release expression splits "a.b.c" with any rest of the line into its three decimal parts |
| `KernelVersion.TwoParts` | pkg/kernel/version.go:97-130 | a release of two parts counts as patch 0 |
| `KernelVersion.ParseReleaseString` | pkg/kernel/version.go:97-130 | the method with its 8-bit parses equals one function of the matched decimals of any length |
| `KernelVersion.FailsExactly` | pkg/kernel/version.go:97-130 | a release "a.b.c" is refused exactly when a or b exceeds 255; otherwise its code is 65536a+256b+c with c clamped to 255, from 252 on for 4.14 and from 222 on for 4.19 |
| `KernelVersion.Monotone` | pkg/kernel/version.go:119-130 | the codes parsed from two release strings grow with the lexicographic order of their numbers, in spite of the clamps |
| `KernelVersion.PartsCode` | pkg/kernel/version.go:41-53 | major, minor and patch of a 32-bit code give back its low 24 bits |
| `KernelVersion.PrintThenParse` | pkg/kernel/version.go:36-53 | printing then parsing any 32-bit code gives the code of its three parts under the same clamps |
| `KernelVersion.PrintThenParseExactly` | pkg/kernel/version.go:97-130 | it is the same code if and only if it is below 2^24 and not 4.14.252 to 254 or 4.19.222 to 254 |

## Left out

- HelperBitmap.BpfSyscall.CheckHelperCall: the look-up of the cached record before the bit is set (see
  `SyscallCache.Cache.OnProbe`).
- HelperBitmap.RecordAndParse: the little-endian copy of the words inside the program event.
- Kallsyms.Resolver.ParseKallsyms: splitting the file into lines and fields and parsing hexadecimal; a line is a
  record of its fields. The order of equal addresses is left open.
- Kallsyms.Resolver.ResolveFuncSymbol: the error text and the "unknown" strings, one value here.
- KernelParameter.LoadKernelParameters: `IsValid` also refuses some periodic actions; that check and the periodic
  variant of the pass, which differs in its event type only, are absent.
- KillSwitch.Switchboard.RunEventCheck: the content of the check event beyond the fact that it is sent.
- SysctlHook.CgroupSysctl: the deletion from the per-CPU process cache, which a map of that kind refuses.
- SysctlWire.SysCtlEvent.DefaultEventHandler: the kernel-event and process headers before the payload, the other
  event types, and the padding that the perf buffer may add.
- SyscallCache.Cache.OnExit: the event check that follows the pop; its effect is that of
  `KillSwitch.Switchboard.RunEventCheck`. Evictions are arbitrary steps, not the LRU order.
- ClassicBpf.Halts: only the five instructions the filter uses, and index sums without 32-bit wrap-around (the
  index register is at most 60).
- The periodic triggers, probe registration, tail-call routes, manager start-up and type-information download.
- The kprobe hooks, which keep cached records across nested calls.
- The other event decoders, each of which is settled by one function, and the generated serialisers.
- kptr_restrict, /proc, YAML, host version detection and the Ubuntu and Debian version formats.
- The vulnerable device, the example module and the vendored BPF headers.
- Concurrency inside one eBPF program.
