/**
 * The kernel symbol index: parsed lines are sorted by address, sizes are derived from the next symbol, two
 * maps are filled, and an address is resolved by scanning one of them in arbitrary order.
 */
module Kallsyms {
  import opened BpfMap

  const U64: nat := 0x1_0000_0000_0000_0000

  datatype Kind = NoType | Function | Object

  /** A line of three fields: symbol kind, address if it parses as 64-bit hexadecimal, name, and module if any. */
  datatype Line = Line(kind: Kind, addr: Option<nat>, name: string, library: Option<string>)

  datatype Symbol = Symbol(name: string, value: nat, kind: Kind, library: string, size: nat)

  datatype Index = Index(addresses: map<nat, Symbol>, symbols: map<string, Symbol>)

  const NO_SYMBOLS: Index := Index(map[], map[])

  function SymbolOf(l: Line): Symbol
    requires l.addr.Some?
  {
    Symbol(l.name, l.addr.value, l.kind, l.library.GetOr("system"), 0)
  }

  function KeyOf(s: Symbol): string {
    s.library + "/" + s.name
  }

  /** Lines that carry a typed symbol with an address. */
  predicate Usable(l: Line) {
    l.kind != NoType && l.addr.Some?
  }

  /** The symbols of the lines that are not already a key of the cache; none if some usable line has address 0. */
  function Fresh(symbols: map<string, Symbol>, lines: seq<Line>): Option<seq<Symbol>> {
    if lines == [] then Some([])
    else
      var before := Fresh(symbols, lines[..|lines| - 1]);
      var l := lines[|lines| - 1];
      if before.None? || !Usable(l) then before
      else if l.addr.value == 0 then None
      else if l.name in symbols then before
      else Some(before.value + [SymbolOf(l)])
  }

  predicate Sorted(ss: seq<Symbol>) {
    forall i, j :: 0 <= i < j < |ss| ==> ss[i].value <= ss[j].value
  }

  function Inserted(ss: seq<Symbol>, x: Symbol): (r: seq<Symbol>)
    ensures multiset(r) == multiset(ss) + multiset{x}
    ensures |r| == |ss| + 1 && (r[0] == x || (|ss| > 0 && r[0] == ss[0]))
  {
    if ss == [] then [x]
    else if ss[0].value <= x.value then
      assert ss == [ss[0]] + ss[1..];
      [ss[0]] + Inserted(ss[1..], x)
    else [x] + ss
  }

  lemma {:induction false} InsertedSorted(ss: seq<Symbol>, x: Symbol)
    requires Sorted(ss)
    ensures Sorted(Inserted(ss, x))
  {
    if ss != [] && ss[0].value <= x.value {
      InsertedSorted(ss[1..], x);
      var rest := Inserted(ss[1..], x);
      assert rest[0].value >= ss[0].value;
      assert Inserted(ss, x) == [ss[0]] + rest;
    }
  }

  /** A function reaches up to the next symbol; objects and the last symbol have size 1. */
  function SizedAt(ss: seq<Symbol>, i: nat): Symbol
    requires i < |ss| && Sorted(ss)
  {
    ss[i].(size := if ss[i].kind == Function && i + 1 < |ss| then ss[i + 1].value - ss[i].value else 1)
  }

  /** Both maps after the first `n` symbols of a sorted list were stored. */
  function Filled(idx: Index, ss: seq<Symbol>, n: nat): Index
    requires n <= |ss| && Sorted(ss)
  {
    if n == 0 then idx
    else
      var before := Filled(idx, ss, n - 1);
      var s := SizedAt(ss, n - 1);
      Index(before.addresses[s.value := s], before.symbols[KeyOf(s) := s])
  }

  /** An entry whose range contains the query; the end of the range is a 64-bit sum. */
  predicate Matches(idx: Index, a: nat, query: nat) {
    a in idx.addresses && a <= query < (a + idx.addresses[a].size) % U64 && idx.addresses[a].kind == Function
  }

  datatype Resolved = Unknown | Known(name: string, library: string)

  class Resolver {
    var kernelAddresses: map<nat, Symbol>
    var kernelSymbols: map<string, Symbol>

    constructor ()
      ensures View() == NO_SYMBOLS
    {
      kernelAddresses, kernelSymbols := map[], map[];
    }

    ghost function View(): Index
      reads this
    {
      Index(kernelAddresses, kernelSymbols)
    }

    /** The order of symbols with equal addresses is left to the sort. */
    method SortByValue(ss: seq<Symbol>) returns (r: seq<Symbol>)
      ensures Sorted(r) && multiset(r) == multiset(ss)
    {
      r := [];
      for n := 0 to |ss|
        invariant Sorted(r) && multiset(r) == multiset(ss[..n])
      {
        InsertedSorted(r, ss[n]);
        r := Inserted(r, ss[n]);
        assert ss[..n + 1] == ss[..n] + [ss[n]];
      }
      assert ss[..|ss|] == ss;
    }

    /** A reload; `sorted` is the order the sort chose. */
    method ParseKallsyms(lines: seq<Line>) returns (ok: bool, ghost sorted: seq<Symbol>)
      modifies this
      ensures var fresh' := Fresh(old(View()).symbols, lines);
              && (ok <==> fresh'.Some?)
              && (!ok ==> View() == old(View()))
              && (ok ==> Sorted(sorted) && multiset(sorted) == multiset(fresh'.value)
                         && View() == Filled(old(View()), sorted, |sorted|))
    {
      var kallsyms: seq<Symbol> := [];
      sorted := [];
      for n := 0 to |lines|
        invariant Fresh(kernelSymbols, lines[..n]) == Some(kallsyms)
        invariant View() == old(View())
      {
        assert lines[..n + 1][..n] == lines[..n];
        var line := lines[n];
        if line.kind == NoType || line.addr.None? {
          continue;
        }
        if line.addr.value == 0 {
          HiddenAddress(kernelSymbols, lines, n + 1);
          return false, sorted;
        }
        if line.name in kernelSymbols {
          continue;
        }
        kallsyms := kallsyms + [Symbol(line.name, line.addr.value, line.kind, line.library.GetOr("system"), 0)];
      }
      assert lines[..|lines|] == lines;
      var ss := SortByValue(kallsyms);
      sorted := ss;
      for i := 0 to |ss|
        invariant View() == Filled(old(View()), ss, i)
      {
        var size := 1;
        if ss[i].kind == Function && i < |ss| - 1 {
          size := ss[i + 1].value - ss[i].value;
        }
        var sym := ss[i].(size := size);
        kernelAddresses := kernelAddresses[sym.value := sym];
        kernelSymbols := kernelSymbols[sym.library + "/" + sym.name := sym];
      }
      ok := true;
    }

    /** Scans the address map in an arbitrary order and stops at the first match. */
    method ResolveFuncSymbol(query: nat) returns (r: Resolved)
      ensures r == Unknown ==> forall a :: !Matches(View(), a, query)
      ensures r != Unknown ==>
                exists a :: Matches(View(), a, query) && r == Known(kernelAddresses[a].name, kernelAddresses[a].library)
    {
      var todo := kernelAddresses.Keys;
      while todo != {}
        invariant todo <= kernelAddresses.Keys
        invariant forall a :: a in kernelAddresses && a !in todo ==> !Matches(View(), a, query)
        decreases todo
      {
        var a :| a in todo;
        var symbol := kernelAddresses[a];
        if query >= a && query < (a + symbol.size) % U64 && symbol.kind == Function {
          assert Matches(View(), a, query);
          return Known(symbol.name, symbol.library);
        }
        todo := todo - {a};
      }
      return Unknown;
    }

    method ResolveObjectSymbol(query: nat) returns (r: Resolved)
      ensures r == if query in kernelAddresses && kernelAddresses[query].kind == Object
                   then Known(kernelAddresses[query].name, kernelAddresses[query].library) else Unknown
    {
      var todo := kernelAddresses.Keys;
      while todo != {}
        invariant todo <= kernelAddresses.Keys
        invariant query in kernelAddresses && kernelAddresses[query].kind == Object ==> query in todo
        decreases todo
      {
        var a :| a in todo;
        if query == a && kernelAddresses[a].kind == Object {
          return Known(kernelAddresses[a].name, kernelAddresses[a].library);
        }
        todo := todo - {a};
      }
      return Unknown;
    }
  }

  lemma {:induction false} HiddenAddress(symbols: map<string, Symbol>, lines: seq<Line>, n: nat)
    requires n <= |lines| && Fresh(symbols, lines[..n]).None?
    ensures Fresh(symbols, lines).None?
    decreases |lines|
  {
    if n < |lines| {
      assert lines[..|lines| - 1][..n] == lines[..n];
      HiddenAddress(symbols, lines[..|lines| - 1], n);
    } else {
      assert lines[..n] == lines;
    }
  }
}
