/**
 * `StringPool` and `StringView` of include/string_pool.hpp: strings are
 * appended to one character vector and named by an (offset, length)
 * handle whose fields are a 32-bit and an 8-bit unsigned integer.
 */
module StringPools {
  import DiskVectors

  /** `StringView::OffsetType` is `uint32_t`. */
  const OffsetRange: nat := 0x1_0000_0000
  /** `StringView::LengthType` is `uint8_t`. */
  const LengthRange: nat := 0x100

  /** A handle as stored: both fields already narrowed to their widths. */
  datatype StringView = StringView(offset: nat, length: nat)

  predicate Narrow(v: StringView)
  {
    v.offset < OffsetRange && v.length < LengthRange
  }

  /** The `StringView(offset, length)` constructor: each `size_t` is narrowed silently. */
  function MakeView(offset: nat, length: nat): (v: StringView)
    ensures Narrow(v)
    ensures offset < OffsetRange ==> v.offset == offset
    ensures length < LengthRange ==> v.length == length
    ensures length >= LengthRange ==> v.length < length
    ensures v.offset <= offset && v.length <= length
  {
    StringView(offset % OffsetRange, length % LengthRange)
  }

  /** The handle lies inside the pool, so `get` reads no byte past its end. */
  predicate InPool<C>(pool: seq<C>, v: StringView)
  {
    v.offset + v.length <= |pool|
  }

  /** `get(sv)`: the `length` characters starting at `offset`. */
  function Resolve<C>(pool: seq<C>, v: StringView): (r: seq<C>)
    requires InPool(pool, v)
    ensures |r| == v.length
    ensures forall i :: 0 <= i < |r| ==> r[i] == pool[v.offset + i]
  {
    pool[v.offset..v.offset + v.length]
  }

  /** `add(sv)`: the pool after the append, and the handle built from the new size minus the string's. */
  function Added<C>(pool: seq<C>, s: seq<C>): (r: (seq<C>, StringView))
    ensures r.0 == pool + s && InPool(r.0, r.1) && r.1.length <= |s|
  {
    var grown := pool + s;
    (grown, MakeView(|grown| - |s|, |s|))
  }

  /** `get(add(s)) == s` whenever the offset and the length fit their fields. */
  lemma AddThenGet<C>(pool: seq<C>, s: seq<C>)
    requires |pool| < OffsetRange && |s| < LengthRange
    ensures var (grown, v) := Added(pool, s);
            && v == StringView(|pool|, |s|) && InPool(grown, v) && Resolve(grown, v) == s
  {
    var (grown, v) := Added(pool, s);
    assert grown[|pool|..|pool| + |s|] == s;
  }

  /** A string of 256 characters or more comes back cut to its length modulo 256. */
  lemma AddThenGetTruncates<C>(pool: seq<C>, s: seq<C>)
    requires |pool| < OffsetRange
    ensures var (grown, v) := Added(pool, s);
            && InPool(grown, v) && Resolve(grown, v) == s[..|s| % LengthRange]
            && (Resolve(grown, v) == s <==> |s| < LengthRange)
  {
    var (grown, v) := Added(pool, s);
    assert grown[|pool|..|pool| + |s| % LengthRange] == s[..|s| % LengthRange];
  }

  /** The pool is append-only, so `add` leaves every earlier handle resolving to the same string. */
  lemma AddKeepsHandles<C>(pool: seq<C>, s: seq<C>, h: StringView)
    requires InPool(pool, h)
    ensures var (grown, _) := Added(pool, s);
            InPool(grown, h) && Resolve(grown, h) == Resolve(pool, h)
  {
    var (grown, _) := Added(pool, s);
    assert grown[..|pool|] == pool;
  }

  /** `StringViewEqual` on two handles: identical handles are equal without a look at the pool. */
  function HandleEqual<C(==)>(pool: seq<C>, l: StringView, r: StringView): (b: bool)
    requires InPool(pool, l) && InPool(pool, r)
    ensures b <==> Resolve(pool, l) == Resolve(pool, r)
  {
    if l.offset == r.offset && l.length == r.length then true
    else Resolve(pool, l) == Resolve(pool, r)
  }

  /** `StringViewEqual` with the handle on the left and a plain view on the right. */
  function HandleViewEqual<C(==)>(pool: seq<C>, l: StringView, r: seq<C>): bool
    requires InPool(pool, l)
  {
    Resolve(pool, l) == r
  }

  /** `StringViewEqual` with a plain view on the left and the handle on the right. */
  function ViewHandleEqual<C(==)>(pool: seq<C>, l: seq<C>, r: StringView): bool
    requires InPool(pool, r)
  {
    l == Resolve(pool, r)
  }

  /**
   * The three comparisons agree: the two mixed forms are mirror images, and
   * comparing two handles is comparing one with the other's resolved view.
   */
  lemma EqualitiesAgree<C>(pool: seq<C>, l: StringView, r: StringView, s: seq<C>)
    requires InPool(pool, l) && InPool(pool, r)
    ensures HandleViewEqual(pool, l, s) == ViewHandleEqual(pool, s, l)
    ensures HandleEqual(pool, l, r) == HandleViewEqual(pool, l, Resolve(pool, r))
    ensures HandleEqual(pool, l, r) == ViewHandleEqual(pool, Resolve(pool, l), r)
  {
  }

  /** Identical handles compare equal; distinct handles to the same text do too. */
  lemma HandleEqualIsEquivalence<C>(pool: seq<C>, a: StringView, b: StringView, c: StringView)
    requires InPool(pool, a) && InPool(pool, b) && InPool(pool, c)
    ensures HandleEqual(pool, a, a)
    ensures HandleEqual(pool, a, b) == HandleEqual(pool, b, a)
    ensures HandleEqual(pool, a, b) && HandleEqual(pool, b, c) ==> HandleEqual(pool, a, c)
  {
  }

  /** `StringPool`: a handle-issuing front over a `DiskVector<char>`. */
  class StringPool {
    const chars: DiskVectors.DiskVector<char>

    ghost predicate Valid()
      reads this, chars
    {
      chars.Valid()
    }

    /** Wraps an opened vector; opening the file is not part of this model. */
    constructor (chars: DiskVectors.DiskVector<char>)
      ensures this.chars == chars
    {
      this.chars := chars;
    }

    /** `get(sv)`. */
    function Get(v: StringView): (r: string)
      reads this, chars
      requires InPool(chars.items, v)
      ensures r == Resolve(chars.items, v)
    {
      chars.items[v.offset..v.offset + v.length]
    }

    /** `add(sv)`: append the characters in order, then hand out the handle. */
    method Add(s: string) returns (v: StringView)
      requires Valid()
      modifies chars
      ensures Valid() && (chars.items, v) == Added(old(chars.items), s)
      ensures chars.ValidateHeader() == old(chars.ValidateHeader())
    {
      chars.Append(s);
      v := MakeView(chars.Size() - |s|, |s|);
    }
  }
}
