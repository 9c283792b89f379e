/** The actions a policy may ask for, in increasing order of severity. */
module Actions {
  import opened BpfMap

  const NOP: nat := 0
  const LOG: nat := 1
  const BLOCK: nat := 2
  const KILL: nat := 3
  const PARANOID: nat := 4

  /** `fetch_policy_or_block`: a missing policy counts as BLOCK. */
  function PolicyOrBlock(policy: Option<nat>): nat {
    policy.GetOr(BLOCK)
  }
}
