/** The helper functions a program calls, recorded as bits of three 64-bit words and listed again in user space. */
module HelperBitmap {

  const WORDS: nat := 3
  const HELPER_MAX: nat := 192

  datatype Words = Words(w0: bv64, w1: bv64, w2: bv64)

  const NONE: Words := Words(0, 0, 0)

  /** The shift amount fits a byte. */
  function Bit(k: nat): bv64
    requires k < 64
  {
    Shift(k as bv8)
  }

  function Shift(a: bv8): bv64
    requires a < 64
  {
    1 << a
  }

  predicate Test(w: bv64, k: nat)
    requires k < 64
  {
    Covers(w, Bit(k))
  }

  predicate Covers(w: bv64, x: bv64) {
    w & x == x
  }

  function Or(w: bv64, x: bv64): bv64 {
    w | x
  }

  /** The bit of helper `i` in its word. */
  predicate Has(h: Words, i: nat)
    requires i < HELPER_MAX
  {
    if i < 64 then Test(h.w0, i) else if i < 128 then Test(h.w1, i - 64) else Test(h.w2, i - 128)
  }

  /** One call of helper `id`; `beyond` is what a shift by 64 or more gives, which the language leaves open. */
  datatype Call = Call(id: int, beyond: bv64)

  function Recorded(h: Words, c: Call): Words {
    var id := c.id;
    if id >= HELPER_MAX then h.(w2 := Or(h.w2, c.beyond))
    else if id >= 128 then h.(w2 := Or(h.w2, Bit(id - 128)))
    else if id >= 64 then h.(w1 := Or(h.w1, Bit(id - 64)))
    else if id >= 0 then h.(w0 := Or(h.w0, Bit(id)))
    else h
  }

  lemma DistinctBits(a: bv8, b: bv8)
    requires a < 64 && b < 64 && a != b
    ensures Shift(a) & Shift(b) == 0
  {
  }

  lemma OrOfDisjoint(w: bv64, x: bv64, y: bv64)
    requires x & y == 0
    ensures (w | x) & y == w & y
  {
  }

  lemma OrOfSame(w: bv64, y: bv64)
    ensures (w | y) & y == y
  {
  }

  lemma OrCoversSame(w: bv64, x: bv64)
    ensures Covers(Or(w, x), x)
  {
    OrOfSame(w, x);
  }

  lemma OrCoversOther(w: bv64, x: bv64, y: bv64)
    requires x & y == 0
    ensures Covers(Or(w, x), y) <==> Covers(w, y)
  {
    OrOfDisjoint(w, x, y);
  }

  lemma OrCovers(w: bv64, a: bv8, b: bv8)
    requires a < 64 && b < 64
    ensures Covers(Or(w, Shift(a)), Shift(b)) <==> Covers(w, Shift(b)) || a == b
  {
    hide Shift, Covers, Or;
    if a == b {
      OrCoversSame(w, Shift(b));
    } else {
      DistinctBits(a, b);
      OrCoversOther(w, Shift(a), Shift(b));
    }
  }

  /** Setting bits never clears one. */
  lemma OrKeeps(w: bv64, x: bv64, y: bv64)
    ensures Covers(w, y) ==> Covers(Or(w, x), y)
  {
  }

  lemma OneBit(b: bv8)
    requires b < 64
    ensures !Covers(0, Shift(b))
  {
  }

  /** Shift amounts as bit vectors, without losing which is which. */
  lemma ShiftAmount(k: nat) returns (a: bv8)
    requires k < 64
    ensures a as nat == k && a < 64 && Bit(k) == Shift(a)
  {
    a := k as bv8;
  }

  lemma SameAmount(a: bv8, b: bv8)
    ensures a == b <==> a as nat == b as nat
  {
  }

  /** Setting one bit changes the answer for that bit only. */
  lemma SetBit(w: bv64, k: nat, i: nat)
    requires k < 64 && i < 64
    ensures Test(Or(w, Bit(k)), i) <==> Test(w, i) || i == k
    ensures !Test(0, i)
  {
    hide Bit, Covers, Or, Shift;
    var a := ShiftAmount(k);
    var b := ShiftAmount(i);
    SameAmount(a, b);
    OrCovers(w, a, b);
    OneBit(b);
  }

  /**
   * Recording a helper sets exactly its own bit; negative ids are ignored. Ids of 192 and more leave the first
   * two words alone and clear nothing.
   */
  lemma RecordSets(h: Words, c: Call, i: nat)
    requires i < HELPER_MAX
    ensures c.id < HELPER_MAX || i < 128 ==> (Has(Recorded(h, c), i) <==> Has(h, i) || i == c.id)
    ensures Has(h, i) || i == c.id ==> Has(Recorded(h, c), i)
  {
    hide Bit, Test, Or;
    var id := c.id;
    if 0 <= id < 64 && i < 64 {
      SetBit(h.w0, id, i);
    } else if 64 <= id < 128 && 64 <= i < 128 {
      SetBit(h.w1, id - 64, i - 64);
    } else if 128 <= id < HELPER_MAX && 128 <= i {
      SetBit(h.w2, id - 128, i - 128);
    } else if HELPER_MAX <= id && 128 <= i {
      TestKept(h.w2, c.beyond, i - 128);
    }
  }

  lemma TestKept(w: bv64, x: bv64, k: nat)
    requires k < 64
    ensures Test(w, k) ==> Test(Or(w, x), k)
  {
    hide Bit, Covers, Or;
    OrKeeps(w, x, Bit(k));
  }

  function RecordedAll(calls: seq<Call>): Words {
    if calls == [] then NONE else Recorded(RecordedAll(calls[..|calls| - 1]), calls[|calls| - 1])
  }

  predicate Called(calls: seq<Call>, id: int) {
    exists k :: 0 <= k < |calls| && calls[k].id == id
  }

  /** All helpers called have an id that the three words can hold. */
  predicate AllFit(calls: seq<Call>) {
    forall k :: 0 <= k < |calls| ==> calls[k].id < HELPER_MAX
  }

  lemma {:induction false} BitsAreIds(calls: seq<Call>, i: nat)
    requires i < HELPER_MAX
    ensures Called(calls, i) ==> Has(RecordedAll(calls), i)
    ensures i < 128 || AllFit(calls) ==> (Has(RecordedAll(calls), i) <==> Called(calls, i))
  {
    if calls == [] {
      SetBit(0, 0, i % 64);
    } else {
      hide Has, Recorded;
      var front, c := calls[..|calls| - 1], calls[|calls| - 1];
      BitsAreIds(front, i);
      RecordSets(RecordedAll(front), c, i);
      assert Called(calls, i) <==> Called(front, i) || i == c.id;
    }
  }

  /** One helper alone: bit `id % 64` of word `id / 64`. */
  lemma OneHelper(c: Call) returns (a: bv8)
    requires 0 <= c.id < HELPER_MAX
    ensures a as nat == c.id % 64 && a < 64
    ensures c.id < 64 ==> RecordedAll([c]) == Words(1 << a, 0, 0)
    ensures 64 <= c.id < 128 ==> RecordedAll([c]) == Words(0, 1 << a, 0)
    ensures 128 <= c.id ==> RecordedAll([c]) == Words(0, 0, 1 << a)
  {
    hide Shift, Bit, Or;
    var k: nat := if c.id < 64 then c.id else if c.id < 128 then c.id - 64 else c.id - 128;
    assert k == c.id % 64;
    a := ShiftAmount(k);
    ShiftIs(a);
    OrNothing(Bit(k));
    assert [c][..0] == [];
    assert RecordedAll([c]) == Recorded(NONE, c);
  }

  lemma OrNothing(x: bv64)
    ensures Or(0, x) == x
  {
  }

  lemma ShiftIs(a: bv8)
    requires a < 64
    ensures Shift(a) == 1 << a
  {
  }

  /** The record of the bpf syscall, with its helper words. */
  class BpfSyscall {
    var helpers: array<bv64>

    constructor ()
      ensures fresh(helpers) && helpers.Length == WORDS && View() == NONE
    {
      helpers := new bv64[WORDS](_ => 0);
    }

    ghost function View(): Words
      requires helpers.Length == WORDS
      reads this, helpers
    {
      Words(helpers[0], helpers[1], helpers[2])
    }

    method CheckHelperCall(c: Call)
      requires helpers.Length == WORDS
      modifies helpers
      ensures View() == Recorded(old(View()), c)
    {
      hide Bit, Or;
      var id := c.id;
      if id >= 128 {
        helpers[2] := Or(helpers[2], if id - 128 < 64 then Bit(id - 128) else c.beyond);
      } else if id >= 64 {
        helpers[1] := Or(helpers[1], Bit(id - 64));
      } else if id >= 0 {
        helpers[0] := Or(helpers[0], Bit(id));
      }
    }
  }

  predicate Increasing(s: seq<nat>) {
    forall i, j :: 0 <= i < j < |s| ==> s[i] < s[j]
  }

  /** The numbers below `n` that satisfy `p`, in order. */
  function Select(p: nat -> bool, n: nat): (r: seq<nat>)
    ensures Increasing(r) && forall i :: 0 <= i < |r| ==> r[i] < n
    ensures forall i: nat :: i in r <==> i < n && p(i)
  {
    if n == 0 then [] else Select(p, n - 1) + if p(n - 1) then [n - 1] else []
  }

  lemma {:induction false} SelectSame(p: nat -> bool, q: nat -> bool, n: nat)
    requires forall i: nat :: i < n ==> p(i) == q(i)
    ensures Select(p, n) == Select(q, n)
  {
    if n > 0 {
      SelectSame(p, q, n - 1);
    }
  }

  function Bits(h: Words): nat -> bool {
    (i: nat) => i < HELPER_MAX && Has(h, i)
  }

  function Members(calls: seq<Call>): nat -> bool {
    (i: nat) => Called(calls, i)
  }

  /** User space lists the set bits, lowest first. */
  method ParseHelpers(h: Words) returns (rep: seq<nat>)
    ensures rep == Select(Bits(h), HELPER_MAX)
  {
    hide Test;
    rep := [];
    for i := 0 to HELPER_MAX
      invariant rep == Select(Bits(h), i)
    {
      var add := false;
      if i < 64 {
        add := Test(h.w0, i);
      } else if i < 128 {
        add := Test(h.w1, i - 64);
      } else if i < 192 {
        add := Test(h.w2, i - 128);
      }
      if add {
        rep := rep + [i];
      }
    }
  }

  /**
   * Recording any calls and listing them gives the increasing list of the distinct non-negative ids, if all are
   * below 192; otherwise still the right ids below 128, and at least those called above. The contract of `Select`
   * gives its order and its members.
   */
  method RecordAndParse(calls: seq<Call>) returns (rep: seq<nat>)
    ensures AllFit(calls) ==> rep == Select(Members(calls), HELPER_MAX)
    ensures Increasing(rep) && forall i: nat :: i < HELPER_MAX && Called(calls, i) ==> i in rep
    ensures forall i: nat :: i < 128 ==> (i in rep <==> Called(calls, i))
  {
    hide Test, Recorded, Has, Select, Called;
    var s := new BpfSyscall();
    for n := 0 to |calls|
      invariant fresh(s.helpers) && s.helpers.Length == WORDS
      invariant s.View() == RecordedAll(calls[..n])
    {
      assert calls[..n + 1][..n] == calls[..n];
      s.CheckHelperCall(calls[n]);
    }
    assert calls[..|calls|] == calls;
    rep := ParseHelpers(Words(s.helpers[0], s.helpers[1], s.helpers[2]));
    ListedIds(calls);
    if AllFit(calls) {
      RoundTrip(calls);
    }
  }

  /** Which ids are listed, whatever was called. */
  lemma ListedIds(calls: seq<Call>)
    ensures var rep := Select(Bits(RecordedAll(calls)), HELPER_MAX);
            && Increasing(rep)
            && (forall i: nat :: i < HELPER_MAX && Called(calls, i) ==> i in rep)
            && (forall i: nat :: i < 128 ==> (i in rep <==> Called(calls, i)))
  {
    hide Has, RecordedAll;
    forall i: nat | i < HELPER_MAX
      ensures Called(calls, i) ==> Bits(RecordedAll(calls))(i)
      ensures i < 128 ==> (Bits(RecordedAll(calls))(i) <==> Called(calls, i))
    {
      BitsAreIds(calls, i);
    }
  }

  /** Decoding what was recorded lists exactly the recorded ids. */
  lemma RoundTrip(calls: seq<Call>)
    requires AllFit(calls)
    ensures Select(Bits(RecordedAll(calls)), HELPER_MAX) == Select(Members(calls), HELPER_MAX)
  {
    hide Has, Select, RecordedAll;
    forall i: nat | i < HELPER_MAX ensures Bits(RecordedAll(calls))(i) == Members(calls)(i) {
      BitsAreIds(calls, i);
    }
    SelectSame(Bits(RecordedAll(calls)), Members(calls), HELPER_MAX);
  }
}
