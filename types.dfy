/**
 * The C++ core types (include/types.hpp): the query result records and the
 * `SymbolTable` template, whose ids are `uint8_t` for both architectures and
 * dependency types.
 */
module Types {
  import opened Wrappers
  import opened BasicTypes

  /** One reported dependency: `DependencyItem` (and the Python item dict). */
  datatype Item = Item(name: string, dependencyType: string, versionConstraint: string,
                       architectureConstraint: string)

  /** One level of a query result: `DependencyLevel`. */
  datatype Level = Level(direct: seq<Item>, groups: seq<seq<Item>>)

  /** `operator==` on `DependencyItem`: field by field. */
  function ItemEquals(l: Item, r: Item): (eq: bool)
    ensures eq <==> l == r
  {
    l.name == r.name && l.dependencyType == r.dependencyType
    && l.versionConstraint == r.versionConstraint && l.architectureConstraint == r.architectureConstraint
  }

  /** Number of distinct values of the id type (`std::uint8_t`). */
  const IdRange: nat := 256

  /** `static_cast<Id>(n)` for the 8-bit id type. */
  function Narrow(n: nat): (id: nat)
    ensures id < IdRange && id <= n
    ensures n < IdRange ==> id == n
  {
    n % IdRange
  }

  /**
   * What `insert` does to `symbols_` and what it returns: a known symbol keeps
   * the id it was given, a new one is appended and gets the old size narrowed
   * to 8 bits.
   */
  function CppIntern(symbols: seq<string>, s: string): (r: (seq<string>, nat))
    ensures r.1 < IdRange && r.1 < |r.0|
    ensures r.0 == Intern(symbols, s).0
    ensures s in symbols ==> r.1 == Narrow(Lookup(symbols, s).value)
    ensures s !in symbols ==> r.1 == Narrow(|symbols|)
  {
    match Lookup(symbols, s)
    case Some(i) => (symbols, Narrow(i))
    case None => (symbols + [s], Narrow(|symbols|))
  }

  /**
   * `symbol(insert(s)) == s` exactly when the symbol sits at a position below
   * 256; past that, the narrowed id names an earlier symbol.
   */
  lemma SymbolOfInsert(symbols: seq<string>, s: string)
    requires Distinct(symbols)
    ensures var (t, id) := CppIntern(symbols, s);
            t[id] == s <==> Lookup(t, s).value < IdRange
  {
    var (t, id) := CppIntern(symbols, s);
    InternDistinct(symbols, s);
    LookupAfterIntern(symbols, s);
    var p := Lookup(t, s).value;
    assert id == Narrow(p);
    if p >= IdRange {
      assert id < p;
      assert t[id] != t[p];
    }
  }

  /** With 256 symbols already present, a new symbol gets id 0, which names the first symbol. */
  lemma InsertWrapsAround(symbols: seq<string>, s: string)
    requires Distinct(symbols) && |symbols| == IdRange && s !in symbols
    ensures CppIntern(symbols, s).1 == 0
    ensures CppIntern(symbols, s).0[0] != s
  {
  }

  /** `SymbolTable<Id>` of include/types.hpp, for an 8-bit `Id`. */
  class SymbolTable {
    /** `symbols_`. */
    var symbols: seq<string>
    /** `id_to_symbol_`: maps each symbol to its id. */
    var ids: map<string, nat>

    ghost predicate Valid()
      reads this
    {
      && Distinct(symbols)
      && (forall s :: s in ids <==> s in symbols)
      && forall i :: 0 <= i < |symbols| ==> symbols[i] in ids && ids[symbols[i]] == Narrow(i)
    }

    /** The constructor inserts the seeds in list order; duplicates collapse. */
    constructor (seeds: seq<string>)
      ensures Valid()
      ensures forall s :: s in symbols <==> s in seeds
      ensures Distinct(seeds) ==> symbols == seeds
    {
      symbols, ids := [], map[];
      new;
      var i := 0;
      while i < |seeds|
        invariant 0 <= i <= |seeds|
        invariant Valid()
        invariant InternAll(symbols, seeds[i..]) == InternAll([], seeds)
      {
        assert seeds[i..][1..] == seeds[i + 1..];
        var _ := Insert(seeds[i]);
        i := i + 1;
      }
      InternAllContains([], seeds);
      InternAllMembers([], seeds);
      if Distinct(seeds) {
        assert [] + seeds == seeds;
        InternAllFresh([], seeds);
      }
    }

    /** `symbol(id)`: the string with that id. */
    function Symbol(id: nat): (s: string)
      reads this
      requires Valid() && id < |symbols|
      ensures id < IdRange ==> Id(s) == Some(id)
    {
      symbols[id]
    }

    /** `id(s)`: the id of `s`, or nullopt when `s` was never inserted. */
    function Id(s: string): (r: Option<nat>)
      reads this
      requires Valid()
      ensures r.None? <==> s !in symbols
      ensures r.Some? ==> r.value == Narrow(Lookup(symbols, s).value)
    {
      if s in ids then
        var i := Lookup(symbols, s).value;
        assert ids[symbols[i]] == Narrow(i);
        Some(ids[s])
      else None
    }

    /** `insert(s)`: `try_emplace` of `s` with the narrowed size; appends only when new. */
    method Insert(s: string) returns (id: nat)
      requires Valid()
      modifies this
      ensures Valid()
      ensures (symbols, id) == CppIntern(old(symbols), s)
    {
      if s in ids {
        id := ids[s];
        var i := Lookup(symbols, s).value;
        assert ids[symbols[i]] == Narrow(i);
        return;
      }
      id := Narrow(|symbols|);
      InternDistinct(symbols, s);
      ids := ids[s := id];
      symbols := symbols + [s];
      assert forall i :: 0 <= i < |symbols| - 1 ==> symbols[i] != s;
    }
  }
}
