/**
 * The Python symbol table (py/basic_types.py): an insertion-ordered list of
 * strings whose positions are their ids.
 */
module BasicTypes {
  import opened Wrappers

  /** No string occurs twice. */
  predicate Distinct(symbols: seq<string>)
  {
    forall i, j :: 0 <= i < j < |symbols| ==> symbols[i] != symbols[j]
  }

  /** The position of the first occurrence of `s`, if any: what `id` answers. */
  function Lookup(symbols: seq<string>, s: string): (r: Option<nat>)
    ensures r.None? <==> s !in symbols
    ensures r.Some? ==> r.value < |symbols| && symbols[r.value] == s && s !in symbols[..r.value]
  {
    if symbols == [] then None
    else if symbols[0] == s then Some(0)
    else match Lookup(symbols[1..], s)
      case None => None
      case Some(i) =>
        assert symbols[..i + 1] == [symbols[0]] + symbols[1..][..i];
        Some(i + 1)
  }

  /**
   * What `insert` does to the list and what it returns: the existing position
   * of a known symbol, or the new last position of an appended one.
   */
  function Intern(symbols: seq<string>, s: string): (r: (seq<string>, nat))
    ensures r.1 < |r.0| && r.0[r.1] == s
    ensures s in symbols ==> r.0 == symbols
    ensures s !in symbols ==> r.0 == symbols + [s] && r.1 == |symbols|
  {
    match Lookup(symbols, s)
    case Some(i) => (symbols, i)
    case None => (symbols + [s], |symbols|)
  }

  /** Interning each seed in turn, as the constructor does. */
  function InternAll(symbols: seq<string>, seeds: seq<string>): seq<string>
    decreases |seeds|
  {
    if seeds == [] then symbols else InternAll(Intern(symbols, seeds[0]).0, seeds[1..])
  }

  /** Interning keeps the list duplicate-free, so every string has exactly one id. */
  lemma InternDistinct(symbols: seq<string>, s: string)
    requires Distinct(symbols)
    ensures Distinct(Intern(symbols, s).0)
  {
  }

  /** Ids never change: interning only ever appends. */
  lemma InternStable(symbols: seq<string>, s: string)
    ensures |symbols| <= |Intern(symbols, s).0|
    ensures Intern(symbols, s).0[..|symbols|] == symbols
  {
  }

  /** `insert` is idempotent: a second insert returns the same id and changes nothing. */
  lemma InternIdempotent(symbols: seq<string>, s: string)
    ensures Intern(Intern(symbols, s).0, s) == Intern(symbols, s)
  {
    var (t, i) := Intern(symbols, s);
    if s !in symbols {
      assert t[..|symbols|] == symbols;
      assert Lookup(t, s) == Some(|symbols|);
    }
  }

  /** After `insert(s)`, `id(s)` is the id that `insert` returned. */
  lemma LookupAfterIntern(symbols: seq<string>, s: string)
    ensures Lookup(Intern(symbols, s).0, s) == Some(Intern(symbols, s).1)
  {
    var (t, i) := Intern(symbols, s);
    if s !in symbols {
      assert t[..|symbols|] == symbols;
    }
  }

  /** The constructor's list is duplicate-free and extends the list it started from. */
  lemma {:induction false} InternAllDistinct(symbols: seq<string>, seeds: seq<string>)
    requires Distinct(symbols)
    ensures Distinct(InternAll(symbols, seeds))
    ensures |symbols| <= |InternAll(symbols, seeds)|
    ensures InternAll(symbols, seeds)[..|symbols|] == symbols
    decreases |seeds|
  {
    if seeds != [] {
      var t := Intern(symbols, seeds[0]).0;
      InternDistinct(symbols, seeds[0]);
      InternAllDistinct(t, seeds[1..]);
      assert InternAll(t, seeds[1..])[..|t|] == t;
      assert t[..|symbols|] == symbols;
    }
  }

  /** Every seed ends up in the table. */
  lemma {:induction false} InternAllContains(symbols: seq<string>, seeds: seq<string>)
    ensures forall k :: 0 <= k < |seeds| ==> seeds[k] in InternAll(symbols, seeds)
    ensures forall x :: x in symbols ==> x in InternAll(symbols, seeds)
    decreases |seeds|
  {
    if seeds != [] {
      var t := Intern(symbols, seeds[0]).0;
      InternAllContains(t, seeds[1..]);
      forall k | 1 <= k < |seeds| ensures seeds[k] in InternAll(symbols, seeds) {
        assert seeds[k] == seeds[1..][k - 1];
      }
    }
  }

  /** Interning adds nothing but the seeds. */
  lemma {:induction false} InternAllMembers(symbols: seq<string>, seeds: seq<string>)
    ensures forall x :: x in InternAll(symbols, seeds) ==> x in symbols || x in seeds
    decreases |seeds|
  {
    if seeds != [] {
      InternAllMembers(Intern(symbols, seeds[0]).0, seeds[1..]);
    }
  }

  /** Seeds that are all new and pairwise different get consecutive ids, in seed order. */
  lemma {:induction false} InternAllFresh(symbols: seq<string>, seeds: seq<string>)
    requires Distinct(symbols + seeds)
    ensures InternAll(symbols, seeds) == symbols + seeds
    decreases |seeds|
  {
    if seeds != [] {
      assert seeds[0] == (symbols + seeds)[|symbols|];
      assert seeds[0] !in symbols by {
        forall i | 0 <= i < |symbols| ensures symbols[i] != seeds[0] {
          assert symbols[i] == (symbols + seeds)[i];
        }
      }
      assert symbols + seeds == (symbols + [seeds[0]]) + seeds[1..];
      InternAllFresh(symbols + [seeds[0]], seeds[1..]);
    }
  }

  /** The nine dependency types, in the order both implementations seed them. */
  const DependencyTypeNames: seq<string> :=
    ["Depends", "Pre-Depends", "Recommends", "Suggests", "Breaks", "Conflicts", "Provides", "Replaces", "Enhances"]

  /** The meta-architectures, in seeding order. */
  const ArchitectureNames: seq<string> := ["native", "any", "all"]

  /** Both seed lists are free of repeats, so each seed's id is its position. */
  lemma SeedsDistinct()
    ensures Distinct(DependencyTypeNames) && Distinct(ArchitectureNames)
  {
  }

  /** `SymbolTable` of py/basic_types.py. */
  class SymbolTable {
    var symbols: seq<string>

    ghost predicate Valid()
      reads this
    {
      Distinct(symbols)
    }

    /** `__init__`: inserts the seeds in order. */
    constructor (seeds: seq<string>)
      ensures Valid()
      ensures forall s :: s in symbols <==> s in seeds
      ensures Distinct(seeds) ==> symbols == seeds
    {
      symbols := [];
      new;
      var i := 0;
      while i < |seeds|
        invariant 0 <= i <= |seeds|
        invariant Valid()
        invariant InternAll(symbols, seeds[i..]) == InternAll([], seeds)
      {
        assert seeds[i..][1..] == seeds[i + 1..];
        var _ := Insert(seeds[i]);
        i := i + 1;
      }
      InternAllDistinct([], seeds);
      InternAllContains([], seeds);
      InternAllMembers([], seeds);
      if Distinct(seeds) {
        assert [] + seeds == seeds;
        InternAllFresh([], seeds);
      }
    }

    /** `id`: the index of `symbol`, or None; reads only. */
    method Id(symbol: string) returns (r: Option<nat>)
      ensures r == Lookup(symbols, symbol)
    {
      var i := 0;
      while i < |symbols|
        invariant 0 <= i <= |symbols|
        invariant symbol !in symbols[..i]
      {
        if symbols[i] == symbol {
          LookupIsFirst(symbols, symbol, i);
          return Some(i);
        }
        assert symbols[..i + 1] == symbols[..i] + [symbols[i]];
        i := i + 1;
      }
      assert symbols[..i] == symbols;
      return None;
    }

    /** `insert`: the index of `symbol`, appending it first when it is new. */
    method Insert(symbol: string) returns (id: nat)
      requires Valid()
      modifies this
      ensures Valid()
      ensures (symbols, id) == Intern(old(symbols), symbol)
    {
      var i := 0;
      while i < |symbols|
        invariant 0 <= i <= |symbols|
        invariant symbol !in symbols[..i]
      {
        if symbols[i] == symbol {
          LookupIsFirst(symbols, symbol, i);
          return i;
        }
        assert symbols[..i + 1] == symbols[..i] + [symbols[i]];
        i := i + 1;
      }
      assert symbols[..i] == symbols;
      InternDistinct(symbols, symbol);
      symbols := symbols + [symbol];
      return |symbols| - 1;
    }
  }

  /** An index holding `s` with no earlier occurrence is what `Lookup` finds. */
  lemma LookupIsFirst(symbols: seq<string>, s: string, i: nat)
    requires i < |symbols| && symbols[i] == s && s !in symbols[..i]
    ensures Lookup(symbols, s) == Some(i)
  {
  }
}
