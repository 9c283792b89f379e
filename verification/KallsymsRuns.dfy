/** What an address resolves to, after one parse and across reloads. */
module KallsymsRuns {
  import opened Kallsyms

  // ---------- what the address map holds ----------

  function Addrs(ss: seq<Symbol>): set<nat> {
    set i: nat | i < |ss| :: ss[i].value
  }

  ghost predicate In64(ss: seq<Symbol>) {
    forall i :: 0 <= i < |ss| ==> ss[i].value < U64
  }

  /** Symbol `i` is the last of the first `n` at its address. */
  ghost predicate LastAt(ss: seq<Symbol>, n: nat, i: nat)
    requires n <= |ss|
  {
    i < n && forall j: nat :: i < j < n ==> ss[j].value != ss[i].value
  }

  /** Each address of the list keeps the last symbol stored there; other addresses keep what they had. */
  lemma {:induction false} FilledLast(idx: Index, ss: seq<Symbol>, n: nat, i: nat)
    requires n <= |ss| && Sorted(ss) && LastAt(ss, n, i)
    ensures ss[i].value in Filled(idx, ss, n).addresses
    ensures Filled(idx, ss, n).addresses[ss[i].value] == SizedAt(ss, i)
  {
    if i < n - 1 {
      assert ss[n - 1].value != ss[i].value;
      FilledLast(idx, ss, n - 1, i);
    }
  }

  lemma {:induction false} FilledOther(idx: Index, ss: seq<Symbol>, n: nat, a: nat)
    requires n <= |ss| && Sorted(ss) && forall i: nat :: i < n ==> ss[i].value != a
    ensures a in Filled(idx, ss, n).addresses <==> a in idx.addresses
    ensures a in idx.addresses ==> Filled(idx, ss, n).addresses[a] == idx.addresses[a]
  {
    if n > 0 {
      FilledOther(idx, ss, n - 1, a);
    }
  }

  lemma {:induction false} LastOf(ss: seq<Symbol>, a: nat, from: nat) returns (i: nat)
    requires from < |ss| && ss[from].value == a
    ensures from <= i && LastAt(ss, |ss|, i) && ss[i].value == a
    decreases |ss| - from
  {
    i := from;
    if j: nat :| from < j < |ss| && ss[j].value == a {
      i := LastOf(ss, a, j);
    }
  }

  lemma FilledKeys(idx: Index, ss: seq<Symbol>)
    requires Sorted(ss)
    ensures Filled(idx, ss, |ss|).addresses.Keys == idx.addresses.Keys + Addrs(ss)
  {
    hide Filled, Sorted;
    forall a: nat ensures a in Filled(idx, ss, |ss|).addresses <==> a in idx.addresses.Keys + Addrs(ss) {
      if a in Addrs(ss) {
        var from: nat :| from < |ss| && ss[from].value == a;
        var i := LastOf(ss, a, from);
        FilledLast(idx, ss, |ss|, i);
      } else {
        FilledOther(idx, ss, |ss|, a);
      }
    }
  }

  // ---------- predecessor search ----------

  /** Index of the last symbol not above the query, or -1. */
  function Predecessor(ss: seq<Symbol>, query: nat): (p: int)
    requires Sorted(ss)
    ensures -1 <= p < |ss|
    ensures p >= 0 ==> ss[p].value <= query
    ensures p + 1 < |ss| ==> query < ss[p + 1].value
  {
    if ss == [] || ss[0].value > query then -1 else 1 + Predecessor(ss[1..], query)
  }

  /** A function covers the query up to the next symbol; the last one only its own address, if a byte follows it. */
  predicate Covers(ss: seq<Symbol>, p: nat, query: nat)
    requires p < |ss|
  {
    ss[p].kind == Function && (p + 1 < |ss| || (query == ss[p].value && query + 1 < U64))
  }

  function Search(ss: seq<Symbol>, query: nat): Resolved
    requires Sorted(ss)
  {
    var p := Predecessor(ss, query);
    if p >= 0 && Covers(ss, p, query) then Known(ss[p].name, ss[p].library) else Unknown
  }

  /** The range of a kept entry reaches to the next symbol. */
  lemma EntryRange(ss: seq<Symbol>, i: nat, query: nat)
    requires Sorted(ss) && In64(ss) && LastAt(ss, |ss|, i)
    ensures var s := SizedAt(ss, i);
            s.value <= query < (s.value + s.size) % U64 && s.kind == Function <==>
            ss[i].value <= query && (i + 1 < |ss| ==> query < ss[i + 1].value) && Covers(ss, i, query)
  {
    assert i + 1 < |ss| ==> ss[i].value < ss[i + 1].value < U64;
  }

  /** The entry at `a` is the predecessor's, and that symbol covers the query. */
  ghost predicate PredecessorAt(ss: seq<Symbol>, a: nat, query: nat)
    requires Sorted(ss)
  {
    var p := Predecessor(ss, query);
    p >= 0 && a == ss[p].value && Covers(ss, p, query)
  }

  /** What an entry of the new snapshot matches does not depend on what the maps held before. */
  lemma FreshMatch(idx: Index, ss: seq<Symbol>, a: nat, query: nat)
    requires Sorted(ss) && In64(ss) && a in Addrs(ss)
    ensures Matches(Filled(idx, ss, |ss|), a, query) <==> PredecessorAt(ss, a, query)
  {
    hide Filled, Sorted, In64, Covers, SizedAt, Predecessor;
    var from: nat :| from < |ss| && ss[from].value == a;
    var i := LastOf(ss, a, from);
    FilledLast(idx, ss, |ss|, i);
    EntryRange(ss, i, query);
    SizedKeeps(ss, i);
    PredecessorIs(ss, query, i);
  }

  lemma SizedKeeps(ss: seq<Symbol>, i: nat)
    requires i < |ss| && Sorted(ss)
    ensures SizedAt(ss, i).(size := ss[i].size) == ss[i]
  {
  }

  /** Where the predecessor stands relative to a symbol that is the last one at its address. */
  lemma PredecessorIs(ss: seq<Symbol>, query: nat, i: nat)
    requires Sorted(ss) && LastAt(ss, |ss|, i)
    ensures var p := Predecessor(ss, query);
            (p >= 0 && ss[p].value == ss[i].value <==> p == i)
            && (p == i <==> ss[i].value <= query && (i + 1 < |ss| ==> query < ss[i + 1].value))
  {
    var p := Predecessor(ss, query);
    assert p >= 0 && p + 1 < |ss| ==> ss[p + 1].value != ss[p].value;
    assert i + 1 < |ss| ==> ss[i + 1].value != ss[i].value;
  }

  /** A function kept from an earlier parse at an address that the new snapshot lost, with a range not empty. */
  ghost predicate Stale(idx: Index, ss: seq<Symbol>, a: nat) {
    && a in idx.addresses && a !in Addrs(ss)
    && idx.addresses[a].kind == Function && a < (a + idx.addresses[a].size) % U64
  }

  ghost predicate NoneStale(idx: Index, ss: seq<Symbol>) {
    forall a: nat :: !Stale(idx, ss, a)
  }

  /** A first parse, or any snapshot that has all earlier addresses, leaves nothing behind. */
  lemma NothingLost(idx: Index, ss: seq<Symbol>)
    requires idx.addresses.Keys <= Addrs(ss)
    ensures NoneStale(idx, ss)
  {
  }

  /** An entry that the new snapshot lost matches from its own address on, exactly when it is stale. */
  lemma LostMatch(idx: Index, ss: seq<Symbol>, a: nat)
    requires Sorted(ss) && a !in Addrs(ss)
    ensures (exists query: nat :: Matches(Filled(idx, ss, |ss|), a, query)) <==> Stale(idx, ss, a)
    ensures forall query: nat :: !PredecessorAt(ss, a, query)
  {
    hide Filled, Sorted, Covers, Predecessor;
    FilledOther(idx, ss, |ss|, a);
    assert Stale(idx, ss, a) ==> Matches(Filled(idx, ss, |ss|), a, a);
  }

  lemma NotStale(idx: Index, ss: seq<Symbol>, a: nat)
    requires a in Addrs(ss)
    ensures !Stale(idx, ss, a)
  {
  }

  /** Queries match the entry at `a` exactly when it is the predecessor's. */
  ghost predicate Faithful(idx: Index, ss: seq<Symbol>, a: nat)
    requires Sorted(ss)
  {
    forall query: nat :: Matches(idx, a, query) <==> PredecessorAt(ss, a, query)
  }

  lemma FaithfulExactly(idx: Index, ss: seq<Symbol>, a: nat)
    requires Sorted(ss) && In64(ss)
    ensures Faithful(Filled(idx, ss, |ss|), ss, a) <==> !Stale(idx, ss, a)
  {
    hide Matches, Filled, PredecessorAt, Stale, In64, Sorted;
    if a in Addrs(ss) {
      forall query: nat ensures Matches(Filled(idx, ss, |ss|), a, query) <==> PredecessorAt(ss, a, query) {
        FreshMatch(idx, ss, a, query);
      }
      NotStale(idx, ss, a);
    } else {
      LostMatch(idx, ss, a);
    }
  }

  /** For every query the entries that match are those of the predecessor search. */
  ghost predicate Searches(idx: Index, ss: seq<Symbol>)
    requires Sorted(ss)
  {
    forall a: nat :: Faithful(idx, ss, a)
  }

  /** The exact condition of the search, after any reload: it leaves no stale function behind. */
  lemma SearchExactly(idx: Index, ss: seq<Symbol>)
    requires Sorted(ss) && In64(ss)
    ensures Searches(Filled(idx, ss, |ss|), ss) <==> NoneStale(idx, ss)
  {
    hide Faithful, Stale, Sorted, In64;
    forall a: nat ensures Faithful(Filled(idx, ss, |ss|), ss, a) <==> !Stale(idx, ss, a) {
      FaithfulExactly(idx, ss, a);
    }
    if Searches(Filled(idx, ss, |ss|), ss) {
      forall a: nat ensures !Stale(idx, ss, a) {
        assert Faithful(Filled(idx, ss, |ss|), ss, a);
      }
    }
  }

  /** The only entry that can match is the predecessor's. */
  lemma MatchIsPredecessor(idx: Index, ss: seq<Symbol>, a: nat, query: nat)
    requires Sorted(ss) && In64(ss) && NoneStale(idx, ss)
    ensures Matches(Filled(idx, ss, |ss|), a, query) <==> PredecessorAt(ss, a, query)
  {
    hide Filled, Sorted, In64, Stale, Matches, PredecessorAt;
    assert !Stale(idx, ss, a);
    FaithfulExactly(idx, ss, a);
  }

  /** So at most one entry matches any address, whatever order the sort gave to equal addresses. */
  lemma UniqueMatch(idx: Index, ss: seq<Symbol>, a: nat, b: nat, query: nat)
    requires Sorted(ss) && In64(ss) && NoneStale(idx, ss)
    requires Matches(Filled(idx, ss, |ss|), a, query) && Matches(Filled(idx, ss, |ss|), b, query)
    ensures a == b
  {
    MatchIsPredecessor(idx, ss, a, query);
    MatchIsPredecessor(idx, ss, b, query);
  }

  ghost predicate Unique(idx: Index) {
    forall a: nat, b: nat, query: nat :: Matches(idx, a, query) && Matches(idx, b, query) ==> a == b
  }

  /** The ranges of two functions have an address in common. */
  ghost predicate Overlap(idx: Index, a: nat, b: nat) {
    Matches(idx, a, if a < b then b else a) && Matches(idx, b, if a < b then b else a)
  }

  lemma MatchedTwice(idx: Index, a: nat, b: nat, query: nat)
    requires Matches(idx, a, query) && Matches(idx, b, query)
    ensures Overlap(idx, a, b)
  {
  }

  /** The exact condition for a single match, after any reload: no stale function overlaps another one. */
  lemma UniqueExactly(idx: Index, ss: seq<Symbol>)
    requires Sorted(ss) && In64(ss)
    ensures Unique(Filled(idx, ss, |ss|)) <==>
            forall a: nat, b: nat :: Stale(idx, ss, a) && a != b ==> !Overlap(Filled(idx, ss, |ss|), a, b)
  {
    hide Filled, Sorted, In64, Stale, Matches, PredecessorAt;
    var f := Filled(idx, ss, |ss|);
    if forall a: nat, b: nat :: Stale(idx, ss, a) && a != b ==> !Overlap(f, a, b) {
      forall a: nat, b: nat, query: nat | Matches(f, a, query) && Matches(f, b, query) ensures a == b {
        MatchedTwice(f, a, b, query);
        MatchedTwice(f, b, a, query);
        FaithfulExactly(idx, ss, a);
        FaithfulExactly(idx, ss, b);
        assert !Stale(idx, ss, a) && !Stale(idx, ss, b) ==> PredecessorAt(ss, a, query) && PredecessorAt(ss, b, query);
        OnePredecessor(ss, a, b, query);
      }
    }
  }

  lemma OnePredecessor(ss: seq<Symbol>, a: nat, b: nat, query: nat)
    requires Sorted(ss)
    ensures PredecessorAt(ss, a, query) && PredecessorAt(ss, b, query) ==> a == b
  {
  }

  /** What the scan promises about its answer, for any order of the entries. */
  ghost predicate ScanAnswer(idx: Index, query: nat, r: Resolved) {
    if r == Unknown then forall a :: !Matches(idx, a, query)
    else exists a :: Matches(idx, a, query) && r == Known(idx.addresses[a].name, idx.addresses[a].library)
  }

  /** So the scan does not depend on the iteration order: its answer is the predecessor search. */
  lemma ScanIsSearch(idx: Index, ss: seq<Symbol>, query: nat, r: Resolved)
    requires Sorted(ss) && In64(ss) && NoneStale(idx, ss)
    ensures ScanAnswer(Filled(idx, ss, |ss|), query, r) <==> r == Search(ss, query)
  {
    var f := Filled(idx, ss, |ss|);
    var p := Predecessor(ss, query);
    forall a: nat ensures Matches(f, a, query) <==> PredecessorAt(ss, a, query) {
      MatchIsPredecessor(idx, ss, a, query);
    }
    if p >= 0 && Covers(ss, p, query) {
      assert LastAt(ss, |ss|, p) by {
        assert forall j: nat :: p < j < |ss| ==> ss[p + 1].value <= ss[j].value;
      }
      FilledLast(idx, ss, |ss|, p);
      assert Matches(f, ss[p].value, query);
    }
  }

  /** After a parse that leaves no stale function behind, the resolver is the predecessor search. */
  method ResolveAfterParse(resolver: Resolver, ghost ss: seq<Symbol>, ghost idx: Index, query: nat)
    returns (r: Resolved)
    requires Sorted(ss) && In64(ss) && NoneStale(idx, ss)
    requires resolver.View() == Filled(idx, ss, |ss|)
    ensures r == Search(ss, query)
  {
    hide Filled, Search;
    r := resolver.ResolveFuncSymbol(query);
    assert ScanAnswer(resolver.View(), query, r);
    ScanIsSearch(idx, ss, query, r);
  }

  // ---------- lines and reloads ----------

  predicate Slashed(key: string) {
    '/' in key
  }

  ghost predicate SlashKeys(symbols: map<string, Symbol>) {
    forall k :: k in symbols ==> Slashed(k)
  }

  ghost predicate PlainNames(lines: seq<Line>) {
    forall i :: 0 <= i < |lines| ==> !Slashed(lines[i].name)
  }

  function LineAddrs(lines: seq<Line>): set<nat> {
    set i: nat | i < |lines| && Usable(lines[i]) :: lines[i].addr.value
  }

  /** Every key of the symbol map contains a slash, so the already-cached test never skips a plain name. */
  lemma {:induction false} FilledSlashKeys(idx: Index, ss: seq<Symbol>, n: nat)
    requires n <= |ss| && Sorted(ss) && SlashKeys(idx.symbols)
    ensures SlashKeys(Filled(idx, ss, n).symbols)
  {
    if n > 0 {
      FilledSlashKeys(idx, ss, n - 1);
      var s := SizedAt(ss, n - 1);
      assert KeyOf(s)[|s.library|] == '/';
    }
  }

  /** A reload fails exactly when some usable line has address 0. */
  lemma {:induction false} FailsExactly(symbols: map<string, Symbol>, lines: seq<Line>)
    ensures Fresh(symbols, lines).None? <==>
            exists i :: 0 <= i < |lines| && Usable(lines[i]) && lines[i].addr.value == 0
  {
    if lines != [] {
      FailsExactly(symbols, lines[..|lines| - 1]);
    }
  }

  lemma AddrsOfOneMore(ss: seq<Symbol>, s: Symbol)
    ensures Addrs(ss + [s]) == Addrs(ss) + {s.value}
  {
    var all := ss + [s];
    assert all[|ss|] == s;
    forall v: nat | v in Addrs(ss) ensures v in Addrs(all) {
      var i: nat :| i < |ss| && ss[i].value == v;
      assert all[i].value == v;
    }
    assert all[|ss|].value in Addrs(all);
  }

  /** With slashed keys and plain names nothing is skipped: the symbols are those of all usable lines. */
  lemma {:induction false} NothingSkipped(symbols: map<string, Symbol>, lines: seq<Line>)
    requires SlashKeys(symbols) && PlainNames(lines)
    ensures Fresh(symbols, lines) == Fresh(map[], lines)
    ensures Fresh(symbols, lines).Some? ==> Addrs(Fresh(symbols, lines).value) == LineAddrs(lines)
  {
    if lines != [] {
      var front, l := lines[..|lines| - 1], lines[|lines| - 1];
      NothingSkipped(symbols, front);
      assert LineAddrs(lines) == LineAddrs(front) + if Usable(l) then {l.addr.value} else {};
      if Fresh(symbols, lines).Some? && Usable(l) {
        var f := Fresh(symbols, front).value;
        assert Fresh(symbols, lines).value == f + [SymbolOf(l)];
        AddrsOfOneMore(f, SymbolOf(l));
      }
    }
  }

  lemma SameAddrs(a: seq<Symbol>, b: seq<Symbol>)
    requires multiset(a) == multiset(b)
    ensures Addrs(a) == Addrs(b)
  {
    assert forall s :: s in a <==> s in multiset(a);
    assert forall s :: s in b <==> s in multiset(b);
    forall v | v in Addrs(a) ensures v in Addrs(b) {
      var i :| 0 <= i < |a| && a[i].value == v;
      assert a[i] in b;
    }
    forall v | v in Addrs(b) ensures v in Addrs(a) {
      var i :| 0 <= i < |b| && b[i].value == v;
      assert b[i] in a;
    }
  }

  /** One reload: the lines read, and the order its sort chose. */
  datatype Reload = Reload(lines: seq<Line>, sorted: seq<Symbol>)

  /** `sorted` is an order that the sort may choose for the symbols of the lines. */
  ghost predicate Chosen(idx: Index, lines: seq<Line>, sorted: seq<Symbol>) {
    && Sorted(sorted)
    && Fresh(idx.symbols, lines).Some?
    && multiset(sorted) == multiset(Fresh(idx.symbols, lines).value)
  }

  ghost function IndexAt(rs: seq<Reload>, n: nat): Index
    requires n <= |rs|
  {
    if n == 0 then NO_SYMBOLS
    else if !Sorted(rs[n - 1].sorted) then NO_SYMBOLS
    else Filled(IndexAt(rs, n - 1), rs[n - 1].sorted, |rs[n - 1].sorted|)
  }

  /** Successful reloads of plain names, each snapshot containing all earlier addresses. */
  ghost predicate Growing(rs: seq<Reload>) {
    && (forall k :: 0 <= k < |rs| ==> Chosen(IndexAt(rs, k), rs[k].lines, rs[k].sorted) && PlainNames(rs[k].lines))
    && (forall k :: 0 < k < |rs| ==> LineAddrs(rs[k - 1].lines) <= LineAddrs(rs[k].lines))
  }

  lemma {:induction false} ReloadInvariant(rs: seq<Reload>, n: nat)
    requires Growing(rs) && n <= |rs|
    ensures SlashKeys(IndexAt(rs, n).symbols)
    ensures IndexAt(rs, n).addresses.Keys == if n == 0 then {} else LineAddrs(rs[n - 1].lines)
    ensures n > 0 ==> Addrs(rs[n - 1].sorted) == LineAddrs(rs[n - 1].lines)
  {
    hide Filled, Sorted, PlainNames, Fresh, Addrs, LineAddrs;
    if n > 0 {
      ReloadInvariant(rs, n - 1);
      var before, r := IndexAt(rs, n - 1), rs[n - 1];
      assert Chosen(before, r.lines, r.sorted);
      FilledSlashKeys(before, r.sorted, |r.sorted|);
      FilledKeys(before, r.sorted);
      NothingSkipped(before.symbols, r.lines);
      SameAddrs(r.sorted, Fresh(before.symbols, r.lines).value);
    }
  }

  /** After each reload of a growing run no line was skipped and the scan is again the predecessor search. */
  lemma ReloadsKeepSearch(rs: seq<Reload>, n: nat, query: nat, r: Resolved)
    requires Growing(rs) && n < |rs| && In64(rs[n].sorted)
    ensures Fresh(IndexAt(rs, n).symbols, rs[n].lines) == Fresh(map[], rs[n].lines)
    ensures ScanAnswer(IndexAt(rs, n + 1), query, r) <==> r == Search(rs[n].sorted, query)
  {
    hide Filled, Search, ScanAnswer, Sorted, SlashKeys, PlainNames, Fresh, Addrs, LineAddrs, IndexAt, In64;
    ReloadInvariant(rs, n);
    ReloadInvariant(rs, n + 1);
    NothingSkipped(IndexAt(rs, n).symbols, rs[n].lines);
    IndexStep(rs, n);
    NothingLost(IndexAt(rs, n), rs[n].sorted);
    ScanIsSearch(IndexAt(rs, n), rs[n].sorted, query, r);
  }

  lemma IndexStep(rs: seq<Reload>, n: nat)
    requires n < |rs| && Sorted(rs[n].sorted)
    ensures IndexAt(rs, n + 1) == Filled(IndexAt(rs, n), rs[n].sorted, |rs[n].sorted|)
  {
  }

  /** The address map is the one of a first parse exactly when the new snapshot has all the old addresses. */
  lemma StaleExactly(idx: Index, ss: seq<Symbol>)
    requires Sorted(ss)
    ensures Filled(idx, ss, |ss|).addresses == Filled(NO_SYMBOLS, ss, |ss|).addresses <==>
            idx.addresses.Keys <= Addrs(ss)
  {
    var f, g := Filled(idx, ss, |ss|).addresses, Filled(NO_SYMBOLS, ss, |ss|).addresses;
    FilledKeys(idx, ss);
    FilledKeys(NO_SYMBOLS, ss);
    if idx.addresses.Keys <= Addrs(ss) {
      forall a | a in f ensures f[a] == g[a] {
        var from: nat :| from < |ss| && ss[from].value == a;
        var i := LastOf(ss, a, from);
        FilledLast(idx, ss, |ss|, i);
        FilledLast(NO_SYMBOLS, ss, |ss|, i);
      }
      assert f == g;
    }
  }

  /** Without that, two entries can match one address: a function that disappeared still covers its old range. */
  lemma StaleEntryOverlaps()
    ensures var f := Symbol("f", 100, Function, "system", 0);
            var g := Symbol("g", 200, Function, "m", 0);
            var h := Symbol("h", 300, Function, "system", 0);
            var idx := Filled(Filled(NO_SYMBOLS, [f, g, h], 3), [f, h], 2);
            Matches(idx, 100, 250) && Matches(idx, 200, 250)
  {
    var f := Symbol("f", 100, Function, "system", 0);
    var g := Symbol("g", 200, Function, "m", 0);
    var h := Symbol("h", 300, Function, "system", 0);
    var first := Filled(NO_SYMBOLS, [f, g, h], 3);
    assert LastAt([f, g, h], 3, 1);
    FilledLast(NO_SYMBOLS, [f, g, h], 3, 1);
    assert LastAt([f, h], 2, 0);
    FilledLast(first, [f, h], 2, 0);
    FilledOther(first, [f, h], 2, 200);
  }
}
