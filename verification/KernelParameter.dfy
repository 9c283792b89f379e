/**
 * The periodic check of kernel parameters: one event buffer is reused for all reads of a pass, and a
 * parameter is reported at most once per ticker.
 */
module KernelParameter {
  import opened Actions
  import opened BpfMap
  import opened Bytes

  const PARAMETER_MAX: nat := 25
  const U64: nat := 0x1_0000_0000_0000_0000

  datatype Parameter = Parameter(addr: nat, expected: nat, lastSent: nat, size: nat)

  /** One pass: the clock, the policy, kernel memory, which reads fail and which sends succeed, by list index. */
  datatype Pass = Pass(now: nat, policy: Option<nat>, memory: nat -> Byte, fails: nat -> bool, sendOk: nat -> bool) {
    predicate Active() { PolicyOrBlock(policy) != NOP }
  }

  /** 64-bit subtraction wraps around. */
  function Threshold(now: nat, ticker: nat): nat {
    (now - ticker) % U64
  }

  /** `size & 7` bytes of memory; a failed read stores zeros. */
  function ReadBytes(p: Parameter, i: nat, pass: Pass): (r: seq<Byte>)
    ensures |r| == p.size % 8
  {
    if pass.fails(i) then Zeros(p.size % 8) else seq(p.size % 8, j requires 0 <= j => pass.memory(p.addr + j))
  }

  function Store(buf: seq<Byte>, bytes: seq<Byte>): (r: seq<Byte>)
    requires |bytes| <= |buf|
    ensures |r| == |buf|
  {
    bytes + buf[|bytes|..]
  }

  /** The shared 8-byte buffer before iteration `i` of a pass. */
  function BufferAt(ps: seq<Parameter>, pass: Pass, i: nat): (r: seq<Byte>)
    requires i <= |ps|
    ensures |r| == 8
  {
    if i == 0 then Zeros(8) else Store(BufferAt(ps, pass, i - 1), ReadBytes(ps[i - 1], i - 1, pass))
  }

  /** The value compared in iteration `i`. */
  function Compared(ps: seq<Parameter>, pass: Pass, i: nat): nat
    requires i < |ps|
  {
    Value(BufferAt(ps, pass, i + 1))
  }

  predicate Fires(ps: seq<Parameter>, pass: Pass, ticker: nat, i: nat)
    requires i < |ps|
  {
    ps[i].expected != Compared(ps, pass, i) && ps[i].lastSent < Threshold(pass.now, ticker)
  }

  predicate Delivers(ps: seq<Parameter>, pass: Pass, ticker: nat, i: nat)
    requires i < |ps|
  {
    pass.Active() && Fires(ps, pass, ticker, i) && pass.sendOk(i)
  }

  /** The list after a pass: delivered parameters remember the time. */
  function AfterPass(ps: seq<Parameter>, pass: Pass, ticker: nat): (r: seq<Parameter>)
    ensures |r| == |ps|
  {
    seq(|ps|, i requires 0 <= i < |ps| => if Delivers(ps, pass, ticker, i) then ps[i].(lastSent := pass.now) else ps[i])
  }

  /** The indices delivered by the first `n` iterations, in order. */
  function Sent(ps: seq<Parameter>, pass: Pass, ticker: nat, n: nat): (r: seq<nat>)
    requires n <= |ps|
    ensures forall i: nat :: i in r <==> i < n && Delivers(ps, pass, ticker, i)
  {
    if n == 0 then [] else Sent(ps, pass, ticker, n - 1) + if Delivers(ps, pass, ticker, n - 1) then [n - 1] else []
  }

  ghost predicate AnyFires(ps: seq<Parameter>, pass: Pass, ticker: nat, n: nat)
    requires n <= |ps|
  {
    exists i: nat :: i < n && Fires(ps, pass, ticker, i)
  }

  /** What a pass does to the parameters it reaches: the list afterwards, the indices delivered, and its answer. */
  ghost function PassEffect(ps: seq<Parameter>, pass: Pass, ticker: nat): (seq<Parameter>, seq<nat>, nat) {
    (AfterPass(ps, pass, ticker),
     if pass.Active() then Sent(ps, pass, ticker, |ps|) else [],
     if pass.Active() && AnyFires(ps, pass, ticker, |ps|) then PolicyOrBlock(pass.policy) else NOP)
  }

  /** Where a pass stops: the first index not in the map, or 25. */
  function Stop(params: map<nat, Parameter>, from: nat): (n: nat)
    requires from <= PARAMETER_MAX
    ensures from <= n <= PARAMETER_MAX && (n == PARAMETER_MAX || n !in params)
    ensures forall i: nat :: from <= i < n ==> i in params
    decreases PARAMETER_MAX - from
  {
    if from == PARAMETER_MAX || from !in params then from else Stop(params, from + 1)
  }

  lemma StopIs(params: map<nat, Parameter>, n: nat)
    requires n <= PARAMETER_MAX && (n == PARAMETER_MAX || n !in params) && forall i: nat :: i < n ==> i in params
    ensures Stop(params, 0) == n
  {
  }

  /** The parameters a pass reaches, in order. */
  function Reached(params: map<nat, Parameter>): (ps: seq<Parameter>)
    ensures |ps| == Stop(params, 0) && forall i: nat :: i < |ps| ==> ps[i] == params[i]
  {
    seq(Stop(params, 0), i requires 0 <= i < Stop(params, 0) => params[i])
  }

  /** The map with the first `n` entries replaced by those of the list. */
  function Written(params: map<nat, Parameter>, after: seq<Parameter>, n: nat): (r: map<nat, Parameter>)
    requires n <= |after|
    ensures r.Keys == params.Keys && (n == 0 ==> r == params)
  {
    map k | k in params :: if k < n then after[k] else params[k]
  }

  lemma WrittenStep(params: map<nat, Parameter>, after: seq<Parameter>, n: nat)
    requires n < |after| && n in params
    ensures Written(params, after, n + 1) == Written(params, after, n)[n := after[n]]
    ensures Written(params, after, n)[n] == params[n]
  {
  }

  lemma SentStep(ps: seq<Parameter>, pass: Pass, ticker: nat, n: nat)
    requires n < |ps|
    ensures Sent(ps, pass, ticker, n + 1) ==
            Sent(ps, pass, ticker, n) + if Delivers(ps, pass, ticker, n) then [n] else []
    ensures AnyFires(ps, pass, ticker, n + 1) <==> AnyFires(ps, pass, ticker, n) || Fires(ps, pass, ticker, n)
  {
  }

  lemma SentNothing(ps: seq<Parameter>, pass: Pass, ticker: nat)
    ensures Sent(ps, pass, ticker, 0) == [] && !AnyFires(ps, pass, ticker, 0)
  {
  }

  lemma ReachedWritten(params: map<nat, Parameter>, after: seq<Parameter>)
    requires |after| == |Reached(params)|
    ensures Reached(Written(params, after, |after|)) == after
  {
    var ps := Reached(params);
    StopIs(Written(params, after, |after|), |after|);
  }

  class Checker {
    var params: map<nat, Parameter>
    const ticker: nat

    constructor (params: map<nat, Parameter>, ticker: nat)
      ensures this.params == params && this.ticker == ticker
    {
      this.params, this.ticker := params, ticker;
    }

    /** The body of the loop: read over the shared buffer, compare, and note the time if the event was sent. */
    method CheckOne(ghost ps: seq<Parameter>, param: Parameter, i: nat, pass: Pass, buffer: seq<Byte>)
      returns (buffer': seq<Byte>, fired: bool, param': Parameter)
      requires i < |ps| && param == ps[i] && buffer == BufferAt(ps, pass, i) && pass.Active()
      ensures buffer' == BufferAt(ps, pass, i + 1)
      ensures fired <==> Fires(ps, pass, ticker, i)
      ensures fired && pass.sendOk(i) <==> Delivers(ps, pass, ticker, i)
      ensures param' == AfterPass(ps, pass, ticker)[i]
      ensures !(fired && pass.sendOk(i)) ==> param' == param
    {
      hide Value, Threshold;
      buffer' := Store(buffer, ReadBytes(param, i, pass));
      fired, param' := false, param;
      if param.expected != Value(buffer') && param.lastSent < Threshold(pass.now, ticker) {
        fired := true;
        if pass.sendOk(i) {
          param' := param.(lastSent := pass.now);
        }
      }
    }

    /** `delivered` lists the indices whose event was sent. */
    method RunCheck(pass: Pass) returns (action: nat, delivered: seq<nat>)
      modifies this`params
      ensures var ps := old(Reached(params));
              && params == (if pass.Active() then Written(old(params), AfterPass(ps, pass, ticker), |ps|)
                            else old(params))
              && (Reached(params), delivered, action) == PassEffect(ps, pass, ticker)
    {
      hide Value, Stop, BufferAt, Fires, Threshold, Written;
      delivered := [];
      var act := PolicyOrBlock(pass.policy);
      ghost var ps := Reached(params);
      ghost var after := AfterPass(ps, pass, ticker);
      if act == NOP {
        assert after == ps;
        return NOP, [];
      }
      action, delivered := RunLoop(ps, pass, act);
      ReachedWritten(old(params), after);
    }

    /** The loop over at most 25 indices, once the policy asks for the check. */
    method RunLoop(ghost ps: seq<Parameter>, pass: Pass, act: nat) returns (action: nat, delivered: seq<nat>)
      requires ps == Reached(params) && pass.Active()
      modifies this`params
      ensures params == Written(old(params), AfterPass(ps, pass, ticker), |ps|)
      ensures delivered == Sent(ps, pass, ticker, |ps|)
      ensures action == if AnyFires(ps, pass, ticker, |ps|) then act else NOP
    {
      hide Value, BufferAt, Fires, Threshold, Delivers, AfterPass, Sent, AnyFires, Written, Stop, Reached;
      delivered := [];
      SentNothing(ps, pass, ticker);
      ghost var after := AfterPass(ps, pass, ticker);
      var buffer := FreshBuffer(ps, pass);
      var triggered := false;
      var i := 0;
      while i < PARAMETER_MAX && i in params
        invariant i <= |ps|
        invariant params == Written(old(params), after, i)
        invariant buffer == BufferAt(ps, pass, i)
        invariant delivered == Sent(ps, pass, ticker, i)
        invariant triggered == AnyFires(ps, pass, ticker, i)
      {
        WrittenStep(old(params), after, i);
        SentStep(ps, pass, ticker, i);
        var fired, param;
        buffer, fired, param := CheckOne(ps, params[i], i, pass, buffer);
        triggered := triggered || fired;
        if fired && pass.sendOk(i) {
          params := params[i := param];
          delivered := delivered + [i];
        }
        i := i + 1;
      }
      action := if triggered then act else NOP;
    }

    /** The event buffer starts as a copy of the zero slot. */
    method FreshBuffer(ghost ps: seq<Parameter>, pass: Pass) returns (buffer: seq<Byte>)
      ensures buffer == BufferAt(ps, pass, 0)
    {
      buffer := Zeros(8);
    }
  }

  // ---------- the configured list ----------

  datatype ParameterOption = ParameterOption(symbol: string, address: nat, expected: nat, size: nat)

  /** An unknown symbol is kept at address 0. */
  function Resolved(symbols: map<string, nat>, o: ParameterOption): Parameter {
    var address := if o.address != 0 then o.address else if o.symbol in symbols then symbols[o.symbol] else 0;
    Parameter(address, o.expected, 0, o.size)
  }

  lemma ResolvedIs(symbols: map<string, nat>, o: ParameterOption, address: nat)
    requires address == if o.address != 0 then o.address else if o.symbol in symbols then symbols[o.symbol] else 0
    ensures Resolved(symbols, o) == Parameter(address, o.expected, 0, o.size)
  {
  }

  lemma ResolvedFields(symbols: map<string, nat>, o: ParameterOption)
    ensures var p := Resolved(symbols, o);
            && p.expected == o.expected && p.size == o.size && p.lastSent == 0
            && (o.address != 0 ==> p.addr == o.address)
            && (o.address == 0 ==> p.addr == if o.symbol in symbols then symbols[o.symbol] else 0)
  {
  }

  lemma LoadedReached(list: seq<ParameterOption>, symbols: map<string, nat>, params: map<nat, Parameter>)
    requires |list| <= PARAMETER_MAX && (forall i: nat :: i in params <==> i < |list|)
    requires forall i :: 0 <= i < |list| ==> params[i] == Resolved(symbols, list[i])
    ensures Reached(params) == seq(|list|, i requires 0 <= i < |list| => Resolved(symbols, list[i]))
  {
    hide Resolved;
    StopIs(params, |list|);
  }

  /** A valid list is loaded whole, and a pass then reaches exactly its parameters, in order. */
  method LoadKernelParameters(list: seq<ParameterOption>, symbols: map<string, nat>)
    returns (ok: bool, params: map<nat, Parameter>)
    ensures ok <==>
            |list| <= 25 && forall i :: 0 <= i < |list| ==> list[i].symbol != "" || list[i].address != 0
    ensures ok ==>
              && |Reached(params)| == |list|
              && forall i :: 0 <= i < |list| ==>
                   var o, p := list[i], Reached(params)[i];
                   && p.expected == o.expected && p.size == o.size && p.lastSent == 0
                   && (o.address != 0 ==> p.addr == o.address)
                   && (o.address == 0 ==> p.addr == if o.symbol in symbols then symbols[o.symbol] else 0)
  {
    params := map[];
    hide Resolved, Stop, Reached;
    for key := 0 to |list|
      invariant forall i :: 0 <= i < key ==> list[i].symbol != "" || list[i].address != 0
      invariant forall i: nat :: i in params <==> i < key
      invariant |params| == key <= PARAMETER_MAX
      invariant forall i :: 0 <= i < key ==> params[i] == Resolved(symbols, list[i])
    {
      var address := list[key].address;
      if address == 0 {
        if |list[key].symbol| == 0 {
          return false, params;
        }
        address := if list[key].symbol in symbols then symbols[list[key].symbol] else 0;
      }
      if |params| >= PARAMETER_MAX {
        return false, params;
      }
      ResolvedIs(symbols, list[key], address);
      params := Update(params, PARAMETER_MAX, key, Parameter(address, list[key].expected, 0, list[key].size));
    }
    LoadedReached(list, symbols, params);
    forall i | 0 <= i < |list| {
      ResolvedFields(symbols, list[i]);
    }
    ok := true;
  }
}
