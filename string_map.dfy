/**
 * The hash and equality functors of include/string_map.hpp (and the hash
 * of include/string_pool.hpp) that let an unordered map keyed by handles
 * be probed with plain views. `std::hash` is an abstract function here.
 */
module StringMaps {
  import opened StringPools

  /** `BasicStringEqual`: views are equal exactly when their characters are. */
  function BasicStringEqual<C(==)>(l: seq<C>, r: seq<C>): bool
  {
    l == r
  }

  /** `BasicStringHandleHash` and `StringViewHash` of a handle: the view hash of what it resolves to. */
  function HandleHash<C>(hash: seq<C> -> nat, pool: seq<C>, key: StringView): nat
    requires InPool(pool, key)
  {
    hash(Resolve(pool, key))
  }

  /** Handle/handle equality agrees with `BasicStringEqual` of the resolved strings. */
  lemma HandleEqualIsStringEqual<C>(pool: seq<C>, l: StringView, r: StringView)
    requires InPool(pool, l) && InPool(pool, r)
    ensures HandleEqual(pool, l, r) == BasicStringEqual(Resolve(pool, l), Resolve(pool, r))
  {
  }

  /**
   * Keys the map's equality calls equal hash alike, whichever side is a
   * handle and whichever a view, so a lookup by view finds the entry
   * stored under a handle.
   */
  lemma HashConsistent<C>(hash: seq<C> -> nat, pool: seq<C>, l: StringView, r: StringView, s: seq<C>)
    requires InPool(pool, l) && InPool(pool, r)
    ensures HandleEqual(pool, l, r) ==> HandleHash(hash, pool, l) == HandleHash(hash, pool, r)
    ensures HandleViewEqual(pool, l, s) ==> HandleHash(hash, pool, l) == hash(s)
    ensures ViewHandleEqual(pool, s, r) ==> hash(s) == HandleHash(hash, pool, r)
    ensures BasicStringEqual(s, Resolve(pool, l)) ==> hash(s) == HandleHash(hash, pool, l)
  {
  }

  /** The hash of a handle survives appends to the pool. */
  lemma HandleHashStable<C>(hash: seq<C> -> nat, pool: seq<C>, s: seq<C>, key: StringView)
    requires InPool(pool, key)
    ensures var (grown, _) := Added(pool, s);
            InPool(grown, key) && HandleHash(hash, grown, key) == HandleHash(hash, pool, key)
  {
    AddKeepsHandles(pool, s, key);
  }
}
