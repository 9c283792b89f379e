/** From the lines of a snapshot to what the maps hold and what an address resolves to. */
module KallsymsLines {
  import opened BpfMap
  import opened Kallsyms
  import opened KallsymsRuns

  /** A line of a function or an object with an address. */
  predicate Typed(l: Line) {
    l.kind != NoType && l.addr.Some?
  }

  function ModuleOf(l: Line): string {
    if l.library.Some? then l.library.value else "system"
  }

  /** The symbol carries what stands on the line. */
  predicate Carries(l: Line, s: Symbol) {
    Typed(l) && s.value == l.addr.value && s.name == l.name && s.kind == l.kind && s.library == ModuleOf(l)
  }

  ghost predicate OnSomeLine(lines: seq<Line>, s: Symbol) {
    exists i :: 0 <= i < |lines| && Carries(lines[i], s)
  }

  /** No line is skipped as already cached: the first parse, or a reload of plain names. */
  ghost predicate Unskipped(idx: Index, lines: seq<Line>) {
    idx.symbols == map[] || (SlashKeys(idx.symbols) && PlainNames(lines))
  }

  lemma OnLonger(lines: seq<Line>, l: Line, s: Symbol)
    ensures OnSomeLine(lines + [l], s) <==> OnSomeLine(lines, s) || Carries(l, s)
  {
    var all := lines + [l];
    if OnSomeLine(lines, s) {
      var i :| 0 <= i < |lines| && Carries(lines[i], s);
      assert Carries(all[i], s);
    }
    if Carries(l, s) {
      assert Carries(all[|lines|], s);
    }
  }

  /** The symbols collected are exactly those on the lines whose bare name is no key of the cache. */
  lemma {:induction false} FreshOnLines(symbols: map<string, Symbol>, lines: seq<Line>, s: Symbol)
    requires Fresh(symbols, lines).Some? && s.size == 0
    ensures s in Fresh(symbols, lines).value <==> OnSomeLine(lines, s) && s.name !in symbols
  {
    hide OnSomeLine;
    if lines == [] {
      NoLines(s);
    } else {
      var front, l := lines[..|lines| - 1], lines[|lines| - 1];
      assert lines == front + [l];
      FreshOnLines(symbols, front, s);
      OnLonger(front, l, s);
      assert Usable(l) ==> (Carries(l, s) <==> s == SymbolOf(l));
    }
  }

  lemma PlainFresh(idx: Index, lines: seq<Line>, s: Symbol)
    requires Unskipped(idx, lines) && OnSomeLine(lines, s)
    ensures s.name !in idx.symbols
  {
    hide Slashed;
  }

  lemma NoLines(s: Symbol)
    ensures !OnSomeLine([], s)
  {
  }

  lemma {:induction false} FreshSizes(symbols: map<string, Symbol>, lines: seq<Line>, s: Symbol)
    requires Fresh(symbols, lines).Some? && s in Fresh(symbols, lines).value
    ensures s.size == 0
  {
    if lines != [] && s in Fresh(symbols, lines[..|lines| - 1]).value {
      FreshSizes(symbols, lines[..|lines| - 1], s);
    }
  }

  lemma ChosenOnLines(idx: Index, lines: seq<Line>, sorted: seq<Symbol>, i: nat)
    requires Unskipped(idx, lines) && Chosen(idx, lines, sorted) && i < |sorted|
    ensures OnSomeLine(lines, sorted[i])
  {
    hide Fresh, OnSomeLine, Sorted, Unskipped;
    var fresh' := Fresh(idx.symbols, lines).value;
    assert sorted[i] in multiset(sorted) && sorted[i] in multiset(fresh');
    FreshSizes(idx.symbols, lines, sorted[i]);
    FreshOnLines(idx.symbols, lines, sorted[i]);
  }

  lemma LineChosen(idx: Index, lines: seq<Line>, sorted: seq<Symbol>, j: nat) returns (i: nat)
    requires Unskipped(idx, lines) && Chosen(idx, lines, sorted) && j < |lines| && Typed(lines[j])
    ensures i < |sorted| && Carries(lines[j], sorted[i])
  {
    hide Fresh, Sorted, Unskipped;
    var l := lines[j];
    var s := Symbol(l.name, l.addr.value, l.kind, ModuleOf(l), 0);
    var fresh' := Fresh(idx.symbols, lines).value;
    FreshOnLines(idx.symbols, lines, s);
    assert OnSomeLine(lines, s) by {
      assert Carries(lines[j], s);
    }
    PlainFresh(idx, lines, s);
    assert s in multiset(fresh') && s in multiset(sorted);
    i :| i < |sorted| && sorted[i] == s;
  }

  /** Some typed line stands at address `a`. */
  ghost predicate LineAt(lines: seq<Line>, a: nat) {
    exists j :: 0 <= j < |lines| && Typed(lines[j]) && lines[j].addr.value == a
  }

  /**
   * What both maps hold after a parse, from its lines. Every address of a typed line has an entry; an entry at an
   * address of the lines carries the name, kind and module of such a line.
   */
  lemma EntriesOnLines(idx: Index, lines: seq<Line>, sorted: seq<Symbol>, a: nat)
    requires Unskipped(idx, lines) && Chosen(idx, lines, sorted)
    ensures var addresses := Filled(idx, sorted, |sorted|).addresses;
            if LineAt(lines, a)
            then a in addresses && addresses[a].value == a && OnSomeLine(lines, addresses[a])
            else (a in addresses <==> a in idx.addresses) && (a in addresses ==> addresses[a] == idx.addresses[a])
  {
    hide Filled, Fresh, Unskipped, Sorted, SizedAt;
    if j :| 0 <= j < |lines| && Typed(lines[j]) && lines[j].addr.value == a {
      var from := LineChosen(idx, lines, sorted, j);
      var i := LastOf(sorted, a, from);
      FilledLast(idx, sorted, |sorted|, i);
      ChosenOnLines(idx, lines, sorted, i);
      SizedOnLines(lines, sorted, i);
      SizedKeeps(sorted, i);
    } else {
      forall i: nat | i < |sorted| ensures sorted[i].value != a {
        ChosenOnLines(idx, lines, sorted, i);
      }
      FilledOther(idx, sorted, |sorted|, a);
    }
  }

  /** The size is no part of what a line says. */
  lemma SizedOnLines(lines: seq<Line>, ss: seq<Symbol>, i: nat)
    requires i < |ss| && Sorted(ss) && OnSomeLine(lines, ss[i])
    ensures OnSomeLine(lines, SizedAt(ss, i))
  {
    var j :| 0 <= j < |lines| && Carries(lines[j], ss[i]);
    assert Carries(lines[j], SizedAt(ss, i));
  }

  /**
   * The size kept at an address of the lines: a function reaches exactly to the next address on a typed line;
   * objects, and what stands on the last address, have size 1.
   */
  lemma SizesOnLines(idx: Index, lines: seq<Line>, sorted: seq<Symbol>, a: nat)
    requires Unskipped(idx, lines) && Chosen(idx, lines, sorted) && LineAt(lines, a)
    ensures a in Filled(idx, sorted, |sorted|).addresses
    ensures var e := Filled(idx, sorted, |sorted|).addresses[a];
            if e.kind == Function && Above(lines, a)
            then LineAt(lines, a + e.size) && e.size > 0 && forall b :: a < b < a + e.size ==> !LineAt(lines, b)
            else e.size == 1
  {
    hide Filled, Fresh, Unskipped, Sorted, Chosen;
    var j :| 0 <= j < |lines| && Typed(lines[j]) && lines[j].addr.value == a;
    var from := LineChosen(idx, lines, sorted, j);
    var i := LastOf(sorted, a, from);
    SortedOnes(idx, lines, sorted);
    FilledLast(idx, sorted, |sorted|, i);
    SizedKeeps(sorted, i);
    if i + 1 < |sorted| {
      ChosenOnLines(idx, lines, sorted, i + 1);
      NextValue(sorted, i);
    }
    forall j' | 0 <= j' < |lines| && Typed(lines[j']) && lines[j'].addr.value > a
      ensures i + 1 < |sorted| && sorted[i + 1].value <= lines[j'].addr.value
    {
      var i' := LineChosen(idx, lines, sorted, j');
      BehindLast(sorted, i, i');
    }
  }

  lemma SortedOnes(idx: Index, lines: seq<Line>, sorted: seq<Symbol>)
    requires Chosen(idx, lines, sorted)
    ensures Sorted(sorted)
  {
  }

  lemma NextValue(ss: seq<Symbol>, i: nat)
    requires Sorted(ss) && LastAt(ss, |ss|, i) && i + 1 < |ss|
    ensures ss[i].value < ss[i + 1].value
  {
    assert ss[i + 1].value != ss[i].value;
  }

  lemma BehindLast(ss: seq<Symbol>, i: nat, j: nat)
    requires Sorted(ss) && i < |ss| && j < |ss| && ss[i].value < ss[j].value
    ensures i < j && ss[i + 1].value <= ss[j].value
  {
  }

  lemma {:induction false} FilledSymbols(idx: Index, ss: seq<Symbol>, n: nat, k: string)
    requires n <= |ss| && Sorted(ss)
    ensures k in Filled(idx, ss, n).symbols <==>
            k in idx.symbols || exists i: nat :: i < n && k == ss[i].library + "/" + ss[i].name
    ensures (exists i: nat :: i < n && k == ss[i].library + "/" + ss[i].name) ==>
              exists i: nat :: i < n && k == ss[i].library + "/" + ss[i].name
                               && Filled(idx, ss, n).symbols[k] == SizedAt(ss, i)
  {
    if n > 0 {
      FilledSymbols(idx, ss, n - 1, k);
      assert KeyOf(SizedAt(ss, n - 1)) == ss[n - 1].library + "/" + ss[n - 1].name;
    }
  }

  /** The keys of the symbol map are the module, a slash and the name of the typed lines, with such a symbol. */
  lemma KeysOnLines(idx: Index, lines: seq<Line>, sorted: seq<Symbol>, k: string)
    requires Unskipped(idx, lines) && Chosen(idx, lines, sorted)
    ensures var symbols := Filled(idx, sorted, |sorted|).symbols;
            if exists j :: 0 <= j < |lines| && Typed(lines[j]) && k == ModuleOf(lines[j]) + "/" + lines[j].name
            then k in symbols && k == symbols[k].library + "/" + symbols[k].name && OnSomeLine(lines, symbols[k])
            else k in symbols <==> k in idx.symbols
  {
    hide Filled, Fresh, Unskipped, Sorted, SizedAt;
    FilledSymbols(idx, sorted, |sorted|, k);
    if j :| 0 <= j < |lines| && Typed(lines[j]) && k == ModuleOf(lines[j]) + "/" + lines[j].name {
      var i' := LineChosen(idx, lines, sorted, j);
      var i: nat :| i < |sorted| && k == sorted[i].library + "/" + sorted[i].name
                    && Filled(idx, sorted, |sorted|).symbols[k] == SizedAt(sorted, i);
      ChosenOnLines(idx, lines, sorted, i);
      SizedOnLines(lines, sorted, i);
      SizedKeeps(sorted, i);
    } else {
      forall i: nat | i < |sorted| ensures k != sorted[i].library + "/" + sorted[i].name {
        ChosenOnLines(idx, lines, sorted, i);
      }
    }
  }

  /** Address `a` is the largest one on a typed line that is not above the query. */
  ghost predicate Below(lines: seq<Line>, a: nat, query: nat) {
    && a <= query
    && LineAt(lines, a)
    && forall j :: 0 <= j < |lines| && Typed(lines[j]) && lines[j].addr.value <= query ==> lines[j].addr.value <= a
  }

  /** Some typed line has an address above the query. */
  ghost predicate Above(lines: seq<Line>, query: nat) {
    exists j :: 0 <= j < |lines| && Typed(lines[j]) && lines[j].addr.value > query
  }

  /** A line not above the query stands at or before the predecessor, another one behind it. */
  lemma LineAndPredecessor(idx: Index, lines: seq<Line>, sorted: seq<Symbol>, query: nat, j: nat)
    requires Unskipped(idx, lines) && Chosen(idx, lines, sorted) && j < |lines| && Typed(lines[j])
    ensures var p := Predecessor(sorted, query);
            && (lines[j].addr.value <= query ==> p >= 0 && lines[j].addr.value <= sorted[p].value)
            && (lines[j].addr.value > query ==> p + 1 < |sorted|)
  {
    hide Fresh, Unskipped, Predecessor;
    var p := Predecessor(sorted, query);
    var i := LineChosen(idx, lines, sorted, j);
    if i <= p {
      assert sorted[i].value <= sorted[p].value;
    } else {
      assert sorted[p + 1].value <= sorted[i].value;
    }
  }

  /** The predecessor in the sorted symbols is the largest address on the lines not above the query. */
  lemma PredecessorOnLines(idx: Index, lines: seq<Line>, sorted: seq<Symbol>, query: nat)
    requires Unskipped(idx, lines) && Chosen(idx, lines, sorted)
    ensures var p := Predecessor(sorted, query);
            && (p >= 0 ==> Below(lines, sorted[p].value, query) && OnSomeLine(lines, sorted[p]))
            && (p < 0 ==> forall a :: !Below(lines, a, query))
            && (p + 1 < |sorted| <==> Above(lines, query))
  {
    hide Fresh, Unskipped, Predecessor, Sorted, Chosen;
    var p := PredecessorOf(idx, lines, sorted, query);
    forall j: nat | j < |lines| && Typed(lines[j])
      ensures lines[j].addr.value <= query ==> p >= 0 && lines[j].addr.value <= sorted[p].value
      ensures lines[j].addr.value > query ==> p + 1 < |sorted|
    {
      LineAndPredecessor(idx, lines, sorted, query, j);
    }
    if p >= 0 {
      ChosenOnLines(idx, lines, sorted, p);
    }
    if p + 1 < |sorted| {
      ChosenOnLines(idx, lines, sorted, p + 1);
    }
  }

  lemma PredecessorOf(idx: Index, lines: seq<Line>, sorted: seq<Symbol>, query: nat) returns (p: int)
    requires Chosen(idx, lines, sorted)
    ensures Sorted(sorted) && p == Predecessor(sorted, query)
  {
    p := Predecessor(sorted, query);
  }

  /** The answer is the name and module on a function's line at the largest address not above the query. */
  ghost predicate OnPredecessorLine(lines: seq<Line>, query: nat, r: Resolved) {
    exists j :: 0 <= j < |lines| && Typed(lines[j]) && lines[j].kind == Function
                && Below(lines, lines[j].addr.value, query) && r == Known(lines[j].name, ModuleOf(lines[j]))
  }

  predicate OnlyFunctions(lines: seq<Line>, a: nat) {
    forall j :: 0 <= j < |lines| && Typed(lines[j]) && lines[j].addr.value == a ==> lines[j].kind == Function
  }

  /**
   * End to end, from the lines of a parse that leaves nothing stale, in any order of the sort and of the scan.
   * A known answer is the name and module of a function on the largest address not above the query, and either a
   * typed line follows or the query is that very address. If only functions stand there, the answer is known.
   */
  lemma AnswersOnLines(idx: Index, lines: seq<Line>, sorted: seq<Symbol>, query: nat, r: Resolved)
    requires Unskipped(idx, lines) && Chosen(idx, lines, sorted) && In64(sorted) && NoneStale(idx, sorted)
    requires ScanAnswer(Filled(idx, sorted, |sorted|), query, r)
    ensures r != Unknown ==>
              && OnPredecessorLine(lines, query, r)
              && (Above(lines, query) || (Below(lines, query, query) && query + 1 < U64))
    ensures forall a ::
              Below(lines, a, query) && OnlyFunctions(lines, a)
              && (Above(lines, query) || (a == query && query + 1 < U64)) ==>
                r != Unknown
  {
    hide Filled, Fresh, Unskipped, ScanAnswer, Sorted, Predecessor, Chosen, Below, Above, Stale, In64;
    var p := PredecessorOf(idx, lines, sorted, query);
    ScanIsSearch(idx, sorted, query, r);
    PredecessorOnLines(idx, lines, sorted, query);
    if p >= 0 {
      var j :| 0 <= j < |lines| && Carries(lines[j], sorted[p]);
      forall a | Below(lines, a, query) ensures a == sorted[p].value {
        OneBelow(lines, a, sorted[p].value, query);
      }
    }
  }

  lemma OneBelow(lines: seq<Line>, a: nat, b: nat, query: nat)
    requires Below(lines, a, query) && Below(lines, b, query)
    ensures a == b
  {
  }

  /** A first parse of a snapshot and one query. The parse fails exactly when a typed line has address 0. */
  method ParseThenResolve(lines: seq<Line>, query: nat) returns (ok: bool, r: Resolved)
    requires forall j :: 0 <= j < |lines| && Typed(lines[j]) ==> lines[j].addr.value < U64
    ensures !ok <==> exists j :: 0 <= j < |lines| && Typed(lines[j]) && lines[j].addr.value == 0
    ensures ok && r != Unknown ==>
              && OnPredecessorLine(lines, query, r)
              && (Above(lines, query) || (Below(lines, query, query) && query + 1 < U64))
    ensures ok ==> forall a ::
              Below(lines, a, query) && OnlyFunctions(lines, a)
              && (Above(lines, query) || (a == query && query + 1 < U64)) ==>
                r != Unknown
  {
    hide Filled, Fresh, Sorted, Below, Above, OnPredecessorLine;
    var resolver := new Resolver();
    ghost var sorted;
    ok, sorted := resolver.ParseKallsyms(lines);
    FailsExactly(map[], lines);
    r := Unknown;
    if ok {
      r := resolver.ResolveFuncSymbol(query);
      NothingLost(NO_SYMBOLS, sorted);
      ChosenIn64(lines, sorted);
      assert ScanAnswer(resolver.View(), query, r);
      AnswersOnLines(NO_SYMBOLS, lines, sorted, query, r);
    }
  }

  lemma ChosenIn64(lines: seq<Line>, sorted: seq<Symbol>)
    requires Chosen(NO_SYMBOLS, lines, sorted)
    requires forall j :: 0 <= j < |lines| && Typed(lines[j]) ==> lines[j].addr.value < U64
    ensures In64(sorted)
  {
    hide Fresh, Sorted, Chosen;
    forall i: nat | i < |sorted| ensures sorted[i].value < U64 {
      ChosenOnLines(NO_SYMBOLS, lines, sorted, i);
    }
  }
}
