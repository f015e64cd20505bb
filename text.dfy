/**
 * Character searches, `trim` and `split`, as used by the C++ loader
 * (include/util.hpp, src/package_loader.cpp) and the Python loader
 * (py/package_loader.py, through `str.find`, `str.rfind`, `str.strip` and
 * `str.split`).
 */
module Text {

  /** The set `trim` in include/util.hpp skips: " \t\n\r\f\v". */
  const CppSpace: set<char> := {' ', '\t', '\n', '\r', '\U{C}', '\U{B}'}

  /**
   * The characters Python's `str.strip()` removes: every character for which
   * `str.isspace()` holds (the C++ set plus the ASCII separators 0x1C-0x1F and
   * the Unicode spaces).
   */
  const PySpace: set<char> := CppSpace + {
    '\U{1C}', '\U{1D}', '\U{1E}', '\U{1F}', '\U{85}', '\U{A0}', '\U{1680}',
    '\U{2000}', '\U{2001}', '\U{2002}', '\U{2003}', '\U{2004}', '\U{2005}',
    '\U{2006}', '\U{2007}', '\U{2008}', '\U{2009}', '\U{200A}', '\U{2028}',
    '\U{2029}', '\U{202F}', '\U{205F}', '\U{3000}'}

  /** `s.find(c)` / `std::string_view::find`: the first index of `c`, or -1 (npos). */
  function Find(s: string, c: char): (r: int)
    ensures -1 <= r < |s|
    ensures r == -1 <==> c !in s
    ensures r >= 0 ==> s[r] == c && c !in s[..r]
  {
    if s == [] then -1
    else if s[0] == c then 0
    else
      var t := Find(s[1..], c);
      assert s[1..][..t + 1] == s[1..t + 2] by { }
      if t == -1 then -1 else t + 1
  }

  /** `s.rfind(c)` / `std::string_view::rfind`: the last index of `c`, or -1 (npos). */
  function RFind(s: string, c: char): (r: int)
    ensures -1 <= r < |s|
    ensures r == -1 <==> c !in s
    ensures r >= 0 ==> s[r] == c && forall k :: r < k < |s| ==> s[k] != c
  {
    if s == [] then -1
    else if s[|s| - 1] == c then |s| - 1
    else
      var t := RFind(s[..|s| - 1], c);
      assert c in s ==> c in s[..|s| - 1] by {
        if c in s {
          var k :| 0 <= k < |s| && s[k] == c;
          assert s[..|s| - 1][k] == c;
        }
      }
      t
  }

  /** `find_first_not_of(ws)`: the first index whose character is not in `ws`, or -1. */
  function FirstNotOf(s: string, ws: set<char>): (r: int)
    ensures -1 <= r < |s|
    ensures r == -1 <==> forall k :: 0 <= k < |s| ==> s[k] in ws
    ensures r >= 0 ==> s[r] !in ws && forall k :: 0 <= k < r ==> s[k] in ws
  {
    if s == [] then -1
    else if s[0] !in ws then 0
    else
      var t := FirstNotOf(s[1..], ws);
      if t == -1 then -1 else t + 1
  }

  /** `find_last_not_of(ws)`: the last index whose character is not in `ws`, or -1. */
  function LastNotOf(s: string, ws: set<char>): (r: int)
    ensures -1 <= r < |s|
    ensures r == -1 <==> forall k :: 0 <= k < |s| ==> s[k] in ws
    ensures r >= 0 ==> s[r] !in ws && forall k :: r < k < |s| ==> s[k] in ws
  {
    if s == [] then -1
    else if s[|s| - 1] !in ws then |s| - 1
    else LastNotOf(s[..|s| - 1], ws)
  }

  /** All characters of `s` belong to `ws`. */
  predicate AllIn(s: string, ws: set<char>)
  {
    forall k :: 0 <= k < |s| ==> s[k] in ws
  }

  /**
   * `trim` (include/util.hpp:10-14, src/package_loader.cpp:15-20) with the
   * white-space set as a parameter, so that Python's `strip()` is the same
   * function over `PySpace`. The result is the slice of `s` that starts at
   * `Lead(s, ws)`; what it leaves off on either side is white space.
   */
  function Trim(s: string, ws: set<char>): (r: string)
    ensures |r| <= |s|
    ensures r == [] <==> AllIn(s, ws)
    ensures r != [] ==> r[0] !in ws && r[|r| - 1] !in ws
    ensures Lead(s, ws) + |r| <= |s| && r == s[Lead(s, ws)..Lead(s, ws) + |r|]
    ensures AllIn(s[..Lead(s, ws)], ws) && AllIn(s[Lead(s, ws) + |r|..], ws)
  {
    var first := FirstNotOf(s, ws);
    if first == -1 then
      assert s[..|s|] == s;
      ""
    else
      var last := LastNotOf(s, ws);
      s[first..last + 1]
  }

  /** Where the trimmed slice starts: the first non-space index, or |s| if there is none. */
  function Lead(s: string, ws: set<char>): (i: nat)
    ensures i <= |s|
  {
    var first := FirstNotOf(s, ws);
    if first == -1 then |s| else first
  }

  /** C++ `trim`. */
  function CppTrim(s: string): string
  {
    Trim(s, CppSpace)
  }

  /** Python `str.strip()`. */
  function PyStrip(s: string): string
  {
    Trim(s, PySpace)
  }

  /**
   * Trim is determined by its characterisation: stripping white-space ends
   * `a` and `b` off a middle part `m` whose own ends are not white space gives `m`.
   */
  lemma TrimUnique(a: string, m: string, b: string, ws: set<char>)
    requires AllIn(a, ws) && AllIn(b, ws)
    requires m != [] ==> m[0] !in ws && m[|m| - 1] !in ws
    ensures Trim(a + m + b, ws) == m
  {
    var s := a + m + b;
    if m == [] {
      assert AllIn(s, ws) by {
        forall k | 0 <= k < |s| ensures s[k] in ws {
          if k < |a| { assert s[k] == a[k]; } else { assert s[k] == b[k - |a|]; }
        }
      }
    } else {
      var first := FirstNotOf(s, ws);
      var last := LastNotOf(s, ws);
      assert s[|a|] == m[0];
      assert s[|a| + |m| - 1] == m[|m| - 1];
      assert first == |a|;
      assert last == |a| + |m| - 1;
      assert s[|a|..|a| + |m|] == m;
    }
  }

  /** `trim(trim(s)) == trim(s)`. */
  lemma TrimIdempotent(s: string, ws: set<char>)
    ensures Trim(Trim(s, ws), ws) == Trim(s, ws)
  {
    var r := Trim(s, ws);
    assert r == [] + r + [];
    TrimUnique([], r, [], ws);
  }

  /** A string with no white space at either end is returned unchanged. */
  lemma TrimUnchanged(s: string, ws: set<char>)
    requires s != [] ==> s[0] !in ws && s[|s| - 1] !in ws
    ensures Trim(s, ws) == s
  {
    assert s == [] + s + [];
    TrimUnique([], s, [], ws);
  }

  /**
   * Python's `strip()` and C++ `trim` agree on every string that holds none of
   * the characters only Python treats as white space.
   */
  lemma StripAgreesWithTrim(s: string)
    requires forall k :: 0 <= k < |s| ==> s[k] !in PySpace - CppSpace
    ensures PyStrip(s) == CppTrim(s)
  {
    TrimWider(s, CppSpace, PySpace);
  }

  /** Widening the white-space set by characters `s` does not hold leaves the trim unchanged. */
  lemma TrimWider(s: string, ws: set<char>, ws': set<char>)
    requires ws <= ws'
    requires forall k :: 0 <= k < |s| ==> s[k] !in ws' - ws
    ensures Trim(s, ws') == Trim(s, ws)
  {
    var r := Trim(s, ws);
    var i := Lead(s, ws);
    var a, b := s[..i], s[i + |r|..];
    assert s == a + r + b;
    if r != [] {
      assert r[0] == s[i] && r[|r| - 1] == s[i + |r| - 1];
    }
    TrimUnique(a, r, b, ws');
  }

  /** `sep` occurs in `s` at index `k`. */
  predicate MatchAt(s: string, sep: string, k: int)
  {
    0 <= k && k + |sep| <= |s| && s[k..k + |sep|] == sep
  }

  /** A match at `k` > 0 in `s` is a match at `k - 1` in `s[1..]`. */
  lemma MatchShift(s: string, sep: string, k: nat)
    requires |s| > 0 && k > 0
    ensures MatchAt(s, sep, k) <==> MatchAt(s[1..], sep, k - 1)
  {
    if k + |sep| <= |s| {
      assert s[k..k + |sep|] == s[1..][k - 1..k - 1 + |sep|];
    }
  }

  /** The first index at which `sep` occurs in `s`, or -1. */
  function IndexOf(s: string, sep: string): (r: int)
    requires |sep| > 0
    ensures -1 <= r && (r >= 0 ==> r <= |s| - |sep| && MatchAt(s, sep, r))
    ensures forall k :: 0 <= k < (if r == -1 then |s| else r) ==> !MatchAt(s, sep, k)
    decreases |s|
  {
    if |s| < |sep| then -1
    else if s[..|sep|] == sep then 0
    else
      var t := IndexOf(s[1..], sep);
      assert !MatchAt(s, sep, 0);
      assert forall k :: 0 < k < |s| ==> (MatchAt(s, sep, k) <==> MatchAt(s[1..], sep, k - 1)) by {
        forall k | 0 < k < |s| { MatchShift(s, sep, k); }
      }
      if t == -1 then -1 else t + 1
  }

  /** Joins `parts` with `sep` between consecutive parts (the inverse of `Split`). */
  function Join(parts: seq<string>, sep: string): string
  {
    if |parts| == 0 then ""
    else if |parts| == 1 then parts[0]
    else parts[0] + sep + Join(parts[1..], sep)
  }

  /**
   * Python `s.split(sep)`: the pieces between leftmost, non-overlapping
   * occurrences of `sep`; an empty string gives one empty piece.
   */
  function Split(s: string, sep: string): (r: seq<string>)
    requires |sep| > 0
    ensures |r| >= 1
    ensures Join(r, sep) == s
    decreases |s|
  {
    var i := IndexOf(s, sep);
    if i < 0 then [s]
    else
      var rest := Split(s[i + |sep|..], sep);
      assert s == s[..i] + sep + s[i + |sep|..];
      [s[..i]] + rest
  }

  /**
   * C++20 `s | std::views::split(sep)`: as `Split`, except that an empty
   * input has no pieces at all.
   */
  function CppSplit(s: string, sep: string): (r: seq<string>)
    requires |sep| > 0
    ensures s == [] <==> r == []
    ensures r != [] ==> r == Split(s, sep)
  {
    if s == [] then [] else Split(s, sep)
  }

  /** One character `c` occurs in `s` exactly where `[c]` matches. */
  lemma CharMatch(s: string, c: char, k: nat)
    requires k < |s|
    ensures MatchAt(s, [c], k) <==> s[k] == c
  {
    if s[k] == c { assert s[k..k + 1] == [c]; }
  }

  /** Splitting on one character: no piece contains it. */
  lemma {:induction false} SplitPiecesFree(s: string, c: char)
    ensures forall k :: 0 <= k < |Split(s, [c])| ==> c !in Split(s, [c])[k]
    decreases |s|
  {
    var i := IndexOf(s, [c]);
    if i < 0 {
      forall k | 0 <= k < |s| ensures s[k] != c { CharMatch(s, c, k); }
    } else {
      SplitPiecesFree(s[i + 1..], c);
      forall k | 0 <= k < i ensures s[k] != c { CharMatch(s, c, k); }
      var r := Split(s, [c]);
      assert r == [s[..i]] + Split(s[i + 1..], [c]);
    }
  }

  /** Splitting on one character gives one piece per occurrence plus one. */
  lemma {:induction false} SplitPieceCount(s: string, c: char)
    ensures |Split(s, [c])| == 1 + Count(s, c)
    decreases |s|
  {
    var i := IndexOf(s, [c]);
    if i < 0 {
      forall k | 0 <= k < |s| ensures s[k] != c { CharMatch(s, c, k); }
    } else {
      SplitPieceCount(s[i + 1..], c);
      forall k | 0 <= k < i ensures s[k] != c { CharMatch(s, c, k); }
      CharMatch(s, c, i);
      assert c !in s[..i];
      CountAround(s, c, i);
    }
  }

  lemma CountAround(s: string, c: char, i: nat)
    requires i < |s| && s[i] == c
    ensures Count(s, c) == Count(s[..i], c) + 1 + Count(s[i + 1..], c)
  {
    var tail := s[i + 1..];
    assert ([c] + tail)[1..] == tail;
    assert s == s[..i] + ([c] + tail);
    CountConcat(s[..i], [c] + tail, c);
  }

  /** Number of occurrences of `c` in `s`. */
  function Count(s: string, c: char): (n: nat)
    ensures n <= |s|
    ensures n == 0 <==> c !in s
  {
    if s == [] then 0 else (if s[0] == c then 1 else 0) + Count(s[1..], c)
  }

  lemma {:induction false} CountConcat(a: string, b: string, c: char)
    ensures Count(a + b, c) == Count(a, c) + Count(b, c)
  {
    if a == [] {
      assert a + b == b;
    } else {
      assert (a + b)[1..] == a[1..] + b;
      assert (a + b)[0] == a[0];
      CountConcat(a[1..], b, c);
    }
  }
}
