/**
 * The dependency-clause syntax both loaders read (py/package_loader.py
 * `_parse_dependency`, `_parse_dependencies`; src/package_loader.cpp
 * `parse_dependency_`, `parse_dependencies_`): a simplified subset of the
 * relationship fields of section 7.1 of the Debian Policy Manual. `,`
 * separates AND clauses, `|` separates the alternatives of one clause,
 * `name:arch` qualifies the architecture and `(op version)` constrains the
 * version. The two implementations differ in their white-space set, in how
 * an empty text splits, and in the width of the OR-group counter.
 */
module Clauses {
  import opened Text

  datatype Dialect = Python | Cpp

  /** `str.strip()` or `trim`. */
  function Strip(d: Dialect, s: string): string
  {
    if d == Python then PyStrip(s) else CppTrim(s)
  }

  /** The white space `Strip` removes. */
  function Space(d: Dialect): set<char>
  {
    if d == Python then PySpace else CppSpace
  }

  /** The separators of the clause syntax are not white space; the blank is. */
  lemma SpaceMembers(d: Dialect)
    ensures ' ' in Space(d) && ':' !in Space(d)
  {
  }

  /** `str.split(c)` or `views::split(c)`. */
  function SplitOn(d: Dialect, s: string, c: char): seq<string>
  {
    if d == Python then Split(s, [c]) else CppSplit(s, [c])
  }

  /** The alternatives of one AND piece. */
  function Alternatives(d: Dialect, s: string): seq<string>
  {
    SplitOn(d, s, '|')
  }

  /** Python's group counter is an unbounded `int`; the C++ `GroupId` is `uint8_t` and `group++` wraps. */
  function NextGroup(d: Dialect, group: nat): nat
  {
    if d == Python then group + 1 else Wrapped(group + 1)
  }

  /** One alternative as parsed, before its architecture is interned. */
  datatype Clause = Clause(name: string, versionConstraint: string, arch: string, group: nat)

  /** The text before the first `(`, or all of it. */
  function NameAndArch(raw: string): (r: string)
    ensures '(' !in r
  {
    var lpar := Find(raw, '(');
    if lpar == -1 then raw else raw[..lpar]
  }

  /** The stripped text strictly between the first `(` and the last `)`, when `)` comes after `(`. */
  function VersionOf(d: Dialect, raw: string): string
  {
    var lpar := Find(raw, '(');
    var rpar := RFind(raw, ')');
    if lpar != -1 && rpar != -1 && rpar > lpar then Strip(d, raw[lpar + 1..rpar]) else ""
  }

  /** The stripped text before the first `:` of `NameAndArch`, or all of it. */
  function NameOf(d: Dialect, raw: string): string
  {
    var na := NameAndArch(raw);
    var colon := Find(na, ':');
    if colon == -1 then Strip(d, na) else Strip(d, na[..colon])
  }

  /** The stripped text after the first `:` of `NameAndArch`, or `native` when there is no `:`. */
  function ArchOf(d: Dialect, raw: string): string
  {
    var na := NameAndArch(raw);
    var colon := Find(na, ':');
    if colon == -1 then "native" else Strip(d, na[colon + 1..])
  }

  /** `_parse_dependency` / `parse_dependency_` without the interning of the architecture. */
  function ParseClause(d: Dialect, raw: string, group: nat): Clause
  {
    Clause(NameOf(d, raw), VersionOf(d, raw), ArchOf(d, raw), group)
  }

  /** The alternatives of one clause, all in OR-group `group`. */
  function ParseOrs(d: Dialect, ors: seq<string>, group: nat): (r: seq<Clause>)
    ensures |r| == |ors|
    ensures forall k :: 0 <= k < |r| ==> r[k] == ParseClause(d, ors[k], group)
    decreases |ors|
  {
    if ors == [] then [] else [ParseClause(d, ors[0], group)] + ParseOrs(d, ors[1..], group)
  }

  /**
   * The loop over the AND pieces, as the clauses it gives: a piece with more
   * than one alternative gives them all the current group, any other piece
   * is parsed whole in group 0.
   */
  function AndClauses(d: Dialect, ands: seq<string>, group: nat): seq<Clause>
    decreases |ands|
  {
    if ands == [] then []
    else
      var ors := Alternatives(d, ands[0]);
      if |ors| > 1 then ParseOrs(d, ors, group) + AndClauses(d, ands[1..], NextGroup(d, group))
      else [ParseClause(d, ands[0], 0)] + AndClauses(d, ands[1..], group)
  }

  /** The same loop, as the counter it leaves behind: advanced once per piece with several alternatives. */
  function Counter(d: Dialect, ands: seq<string>, group: nat): nat
    decreases |ands|
  {
    if ands == [] then group
    else if |Alternatives(d, ands[0])| > 1 then Counter(d, ands[1..], NextGroup(d, group))
    else Counter(d, ands[1..], group)
  }

  /** `_parse_dependencies` / `parse_dependencies_` on one field value: the clauses and the counter afterwards. */
  function ParseClauses(d: Dialect, raw: string, group: nat): (seq<Clause>, nat)
  {
    var ands := SplitOn(d, raw, ',');
    (AndClauses(d, ands, group), Counter(d, ands, group))
  }

  // ------------------------------------------------------------ one clause

  /** A string that `Strip` leaves alone: no white space at either end. */
  predicate Clean(d: Dialect, s: string)
  {
    s != [] ==> s[0] !in Space(d) && s[|s| - 1] !in Space(d)
  }

  /** A clause that can be written out and read back. */
  predicate Writable(d: Dialect, c: Clause)
  {
    && ':' !in c.name && '(' !in c.name && '(' !in c.arch
    && Clean(d, c.name) && Clean(d, c.arch) && Clean(d, c.versionConstraint)
  }

  /** The clause written as `name:arch (constraint)`. */
  function Render(c: Clause): string
  {
    Head(c) + "(" + c.versionConstraint + ")"
  }

  /** What comes before the `(` of a written clause: `name:arch `. */
  function Head(c: Clause): string
  {
    c.name + ":" + c.arch + " "
  }

  lemma StripClean(d: Dialect, s: string)
    requires Clean(d, s)
    ensures Strip(d, s) == s
  {
    TrimUnchanged(s, Space(d));
  }

  /** A string followed by a space strips back to itself. */
  lemma StripSpaceAfter(d: Dialect, s: string)
    requires Clean(d, s)
    ensures Strip(d, s + " ") == s
  {
    SpaceMembers(d);
    assert [] + s + " " == s + " ";
    TrimUnique([], s, " ", Space(d));
  }

  /** The first occurrence is the one with none before it. */
  lemma FindAt(s: string, c: char, i: nat)
    requires i < |s| && s[i] == c && c !in s[..i]
    ensures Find(s, c) == i
  {
  }

  /** The last occurrence is the one with none after it. */
  lemma RFindAt(s: string, c: char, i: nat)
    requires i < |s| && s[i] == c && forall k :: i < k < |s| ==> s[k] != c
    ensures RFind(s, c) == i
  {
  }

  /** Where the parts of `name:arch ` sit. */
  lemma HeadParts(c: Clause)
    ensures Head(c)[..|c.name|] == c.name && Head(c)[|c.name|] == ':'
    ensures Head(c)[|c.name| + 1..] == c.arch + " "
  {
    var h := Head(c);
    var n := |c.name|;
    assert |h| == n + 1 + |c.arch| + 1;
    assert forall k :: 0 <= k < n ==> h[k] == c.name[k];
    assert h[n + 1..] == c.arch + " " by {
      forall k | 0 <= k < |c.arch| + 1 ensures h[n + 1..][k] == (c.arch + " ")[k] {
        assert h[n + 1 + k] == (c.arch + " ")[k];
      }
    }
  }

  /** Where the parts of `name:arch (constraint)` sit. */
  lemma RenderParts(c: Clause)
    ensures var r := Render(c);
            && |r| == |Head(c)| + |c.versionConstraint| + 2
            && r[..|Head(c)|] == Head(c) && r[|Head(c)|] == '(' && r[|r| - 1] == ')'
            && r[|Head(c)| + 1..|r| - 1] == c.versionConstraint
  {
    var r := Render(c);
    var n := |Head(c)|;
    assert forall k :: 0 <= k < n ==> r[k] == Head(c)[k];
    assert r[n + 1..|r| - 1] == c.versionConstraint by {
      forall k | 0 <= k < |c.versionConstraint| ensures r[n + 1..|r| - 1][k] == c.versionConstraint[k] {
        assert r[n + 1 + k] == c.versionConstraint[k];
      }
    }
  }

  /** Reading a written clause gives it back, in either dialect. */
  lemma ParseRender(d: Dialect, c: Clause)
    requires Writable(d, c)
    ensures ParseClause(d, Render(c), c.group) == c
  {
    var raw := Render(c);
    var head := Head(c);
    RenderParts(c);
    HeadParts(c);
    assert '(' !in head;
    FindAt(raw, '(', |head|);
    RFindAt(raw, ')', |raw| - 1);
    StripClean(d, c.versionConstraint);
    assert VersionOf(d, raw) == c.versionConstraint;
    assert NameAndArch(raw) == head;
    FindAt(head, ':', |c.name|);
    StripClean(d, c.name);
    StripSpaceAfter(d, c.arch);
  }

  /** A clause without `:` before any `(` gets the `native` architecture; the name never holds `:` or `(`. */
  lemma ClauseShape(d: Dialect, raw: string, group: nat)
    ensures var c := ParseClause(d, raw, group);
            && c.group == group
            && (':' !in NameAndArch(raw) <==> c.arch == "native" && c.name == Strip(d, NameAndArch(raw)))
            && '(' !in c.name
            && (':' in NameAndArch(raw) ==> ':' !in c.name)
  {
    var na := NameAndArch(raw);
    var c := ParseClause(d, raw, group);
    var colon := Find(na, ':');
    if colon != -1 {
      var nm := na[..colon];
      TrimSub(nm, Space(d));
      assert ':' !in Strip(d, nm);
      TrimSub(na[colon + 1..], Space(d));
      assert c.arch != "native" || c.name != Strip(d, na) by {
        if c.arch == "native" && c.name == Strip(d, na) {
          TrimSub(na, Space(d));
          SpaceMembers(d);
          TrimFindsAll(na, Space(d), colon);
        }
      }
    } else {
      TrimSub(na, Space(d));
    }
  }

  /** What `Trim` returns is a slice of its input, so it holds no character the input lacks. */
  lemma TrimSub(s: string, ws: set<char>)
    ensures forall x :: x in Trim(s, ws) ==> x in s
  {
    var r := Trim(s, ws);
    var i := Lead(s, ws);
    forall x | x in r ensures x in s {
      var k :| 0 <= k < |r| && r[k] == x;
      assert s[i + k] == x;
    }
  }

  /** A non-space character of `s` survives `Trim`. */
  lemma TrimFindsAll(s: string, ws: set<char>, k: nat)
    requires k < |s| && s[k] !in ws
    ensures s[k] in Trim(s, ws)
  {
    var r := Trim(s, ws);
    var i := Lead(s, ws);
    assert !AllIn(s, ws);
    assert r[k - i] == s[k];
  }

  /** `s` holds no character that only Python counts as white space. */
  predicate SharedSpaceOnly(s: string)
  {
    forall k :: 0 <= k < |s| ==> s[k] !in PySpace - CppSpace
  }

  /** Every slice of such a string is one too, and both dialects strip it alike. */
  lemma StripsAgree(s: string, a: nat, b: nat)
    requires SharedSpaceOnly(s) && a <= b <= |s|
    ensures Strip(Python, s[a..b]) == Strip(Cpp, s[a..b])
  {
    var t := s[a..b];
    forall k | 0 <= k < |t| ensures t[k] !in PySpace - CppSpace {
      assert t[k] == s[a + k];
    }
    StripAgreesWithTrim(t);
  }

  /** On text holding no character only Python counts as white space, both dialects parse a clause alike. */
  lemma ClauseDialectsAgree(raw: string, group: nat)
    requires SharedSpaceOnly(raw)
    ensures ParseClause(Python, raw, group) == ParseClause(Cpp, raw, group)
  {
    VersionsAgree(raw);
    NamesAgree(raw);
  }

  lemma VersionsAgree(raw: string)
    requires SharedSpaceOnly(raw)
    ensures VersionOf(Python, raw) == VersionOf(Cpp, raw)
  {
    var lpar := Find(raw, '(');
    var rpar := RFind(raw, ')');
    if lpar != -1 && rpar != -1 && rpar > lpar {
      StripsAgree(raw, lpar + 1, rpar);
    }
  }

  lemma NamesAgree(raw: string)
    requires SharedSpaceOnly(raw)
    ensures NameOf(Python, raw) == NameOf(Cpp, raw)
    ensures ArchOf(Python, raw) == ArchOf(Cpp, raw)
  {
    var lpar := Find(raw, '(');
    var end := if lpar == -1 then |raw| else lpar;
    var na := NameAndArch(raw);
    assert na == raw[0..end];
    var colon := Find(na, ':');
    if colon == -1 {
      StripsAgree(raw, 0, end);
    } else {
      assert na[..colon] == raw[0..colon];
      assert na[colon + 1..] == raw[colon + 1..end];
      StripsAgree(raw, 0, colon);
      StripsAgree(raw, colon + 1, end);
    }
  }

  // ------------------------------------------------------------- OR-groups

  /** The number of AND pieces with more than one alternative. */
  function MultiCount(d: Dialect, ands: seq<string>): nat
    decreases |ands|
  {
    if ands == [] then 0 else (if |Alternatives(d, ands[0])| > 1 then 1 else 0) + MultiCount(d, ands[1..])
  }

  /** The number of clauses the AND pieces give: every alternative of a multi-alternative piece, one for any other. */
  function ClauseCount(d: Dialect, ands: seq<string>): nat
    decreases |ands|
  {
    if ands == [] then 0
    else
      var n := |Alternatives(d, ands[0])|;
      (if n > 1 then n else 1) + ClauseCount(d, ands[1..])
  }

  /** The OR-group numbers of a list of clauses. */
  function Groups(cs: seq<Clause>): (r: seq<nat>)
    ensures |r| == |cs|
    ensures forall k :: 0 <= k < |r| ==> r[k] == cs[k].group
  {
    if cs == [] then [] else [cs[0].group] + Groups(cs[1..])
  }

  lemma GroupsConcat(a: seq<Clause>, b: seq<Clause>)
    ensures Groups(a + b) == Groups(a) + Groups(b)
  {
  }

  /** `n` copies of `g`. */
  function Repeat(g: nat, n: nat): (r: seq<nat>)
    ensures |r| == n && forall k :: 0 <= k < n ==> r[k] == g
  {
    if n == 0 then [] else [g] + Repeat(g, n - 1)
  }

  /** The group numbers the AND pieces hand out, computed from the alternative counts alone. */
  function GroupList(d: Dialect, ands: seq<string>, group: nat): seq<nat>
    decreases |ands|
  {
    if ands == [] then []
    else
      var n := |Alternatives(d, ands[0])|;
      if n > 1 then Repeat(group, n) + GroupList(d, ands[1..], NextGroup(d, group))
      else [0] + GroupList(d, ands[1..], group)
  }

  /** All alternatives of one piece share its group. */
  lemma OrsGroups(d: Dialect, ors: seq<string>, group: nat)
    ensures Groups(ParseOrs(d, ors, group)) == Repeat(group, |ors|)
  {
  }

  /** A piece with several alternatives contributes its group once per alternative. */
  lemma MultiStep(d: Dialect, ands: seq<string>, group: nat)
    requires ands != [] && |Alternatives(d, ands[0])| > 1
    ensures Groups(AndClauses(d, ands, group))
            == Repeat(group, |Alternatives(d, ands[0])|) + Groups(AndClauses(d, ands[1..], NextGroup(d, group)))
  {
    var ors := Alternatives(d, ands[0]);
    GroupsConcat(ParseOrs(d, ors, group), AndClauses(d, ands[1..], NextGroup(d, group)));
    OrsGroups(d, ors, group);
  }

  /** A piece with one alternative (or none) contributes group 0. */
  lemma SingleStep(d: Dialect, ands: seq<string>, group: nat)
    requires ands != [] && |Alternatives(d, ands[0])| <= 1
    ensures Groups(AndClauses(d, ands, group)) == [0] + Groups(AndClauses(d, ands[1..], group))
  {
    GroupsConcat([ParseClause(d, ands[0], 0)], AndClauses(d, ands[1..], group));
  }

  /** The clauses carry exactly the group numbers `GroupList` predicts. */
  lemma {:induction false} GroupsListed(d: Dialect, ands: seq<string>, group: nat)
    ensures Groups(AndClauses(d, ands, group)) == GroupList(d, ands, group)
    decreases |ands|
  {
    if ands != [] {
      if |Alternatives(d, ands[0])| > 1 {
        MultiStep(d, ands, group);
        GroupsListed(d, ands[1..], NextGroup(d, group));
      } else {
        SingleStep(d, ands, group);
        GroupsListed(d, ands[1..], group);
      }
    }
  }

  /** Every number is 0 or in `[lo, hi)`, and the non-zero ones never decrease. */
  predicate Numbered(gs: seq<nat>, lo: nat, hi: nat)
  {
    && (forall k :: 0 <= k < |gs| ==> gs[k] == 0 || lo <= gs[k] < hi)
    && (forall i, j :: 0 <= i < j < |gs| && gs[i] > 0 && gs[j] > 0 ==> gs[i] <= gs[j])
  }

  /** Putting a block of zeros or of one number below `hi` and no larger than the rest in front keeps the numbering. */
  lemma NumberedCons(block: seq<nat>, gs: seq<nat>, g: nat, g': nat, hi: nat)
    requires Numbered(gs, g', hi) && g <= g'
    requires forall k :: 0 <= k < |block| ==> block[k] == 0 || (block[k] == g && g < hi)
    ensures Numbered(block + gs, g, hi)
  {
    var r := block + gs;
    forall k | 0 <= k < |r| ensures r[k] == 0 || g <= r[k] < hi {
      if k >= |block| {
        assert r[k] == gs[k - |block|];
      }
    }
    forall i, j | 0 <= i < j < |r| && r[i] > 0 && r[j] > 0 ensures r[i] <= r[j] {
      if j >= |block| {
        assert r[j] == gs[j - |block|];
        if i >= |block| { assert r[i] == gs[i - |block|]; }
      }
    }
  }

  /** The Python counter advances once per multi-alternative piece. */
  lemma {:induction false} PythonCounter(ands: seq<string>, group: nat)
    ensures Counter(Python, ands, group) == group + MultiCount(Python, ands)
    decreases |ands|
  {
    if ands != [] {
      if |Alternatives(Python, ands[0])| > 1 {
        PythonCounter(ands[1..], group + 1);
      } else {
        PythonCounter(ands[1..], group);
      }
    }
  }

  /** Each AND piece gives one clause, or one per alternative when it has several. */
  lemma {:induction false} ClausesCounted(d: Dialect, ands: seq<string>, group: nat)
    ensures |AndClauses(d, ands, group)| == ClauseCount(d, ands)
    decreases |ands|
  {
    if ands != [] {
      if |Alternatives(d, ands[0])| > 1 {
        ClausesCounted(d, ands[1..], NextGroup(d, group));
      } else {
        ClausesCounted(d, ands[1..], group);
      }
    }
  }

  lemma {:induction false} PythonGroupList(ands: seq<string>, group: nat)
    ensures Numbered(GroupList(Python, ands, group), group, Counter(Python, ands, group))
    decreases |ands|
  {
    if ands != [] {
      var n := |Alternatives(Python, ands[0])|;
      if n > 1 {
        PythonGroupList(ands[1..], group + 1);
        PythonCounter(ands[1..], group + 1);
        NumberedCons(Repeat(group, n), GroupList(Python, ands[1..], group + 1), group, group + 1, Counter(Python, ands, group));
      } else {
        PythonGroupList(ands[1..], group);
        NumberedCons([0], GroupList(Python, ands[1..], group), group, group, Counter(Python, ands, group));
      }
    }
  }

  /**
   * The Python group numbers: every clause is in group 0 or in one of the
   * groups handed out during this call, and the groups handed out never
   * decrease along the result.
   */
  lemma PythonGroups(ands: seq<string>, group: nat)
    ensures Numbered(Groups(AndClauses(Python, ands, group)), group, Counter(Python, ands, group))
  {
    GroupsListed(Python, ands, group);
    PythonGroupList(ands, group);
  }

  /** `x` reduced to the width of `GroupId`, one wrap-around at a time. */
  function Wrapped(x: nat): (r: nat)
    ensures r < 256
    decreases x
  {
    if x < 256 then x else Wrapped(x - 256)
  }

  /** Advancing before or after the reduction gives the same counter. */
  lemma {:induction false} WrappedStep(x: nat)
    ensures Wrapped(Wrapped(x) + 1) == Wrapped(x + 1)
    decreases x
  {
    if x >= 256 {
      WrappedStep(x - 256);
    }
  }

  /** The C++ counter is the Python one reduced to eight bits. */
  lemma {:induction false} CppCounter(ands: seq<string>, group: nat)
    ensures Counter(Cpp, ands, Wrapped(group)) == Wrapped(group + MultiCount(Cpp, ands))
    decreases |ands|
  {
    if ands != [] {
      if |Alternatives(Cpp, ands[0])| > 1 {
        WrappedStep(group);
        CppCounter(ands[1..], group + 1);
        assert group + MultiCount(Cpp, ands) == group + 1 + MultiCount(Cpp, ands[1..]);
      } else {
        CppCounter(ands[1..], group);
      }
    }
  }

  /** `GroupList` with a counter that never wraps: the numbers an unbounded integer would hand out. */
  function UnboundedGroupList(d: Dialect, ands: seq<string>, group: nat): seq<nat>
    decreases |ands|
  {
    if ands == [] then []
    else
      var n := |Alternatives(d, ands[0])|;
      if n > 1 then Repeat(group, n) + UnboundedGroupList(d, ands[1..], group + 1)
      else [0] + UnboundedGroupList(d, ands[1..], group)
  }

  /** Every number reduced to the width of `GroupId`. */
  function WrapAll(gs: seq<nat>): (r: seq<nat>)
    ensures |r| == |gs| && forall k :: 0 <= k < |gs| ==> r[k] == Wrapped(gs[k])
  {
    if gs == [] then [] else [Wrapped(gs[0])] + WrapAll(gs[1..])
  }

  /** The Python counter is an unbounded integer, so its numbering never wraps. */
  lemma {:induction false} PythonGroupsUnbounded(ands: seq<string>, group: nat)
    ensures GroupList(Python, ands, group) == UnboundedGroupList(Python, ands, group)
    decreases |ands|
  {
    if ands != [] {
      if |Alternatives(Python, ands[0])| > 1 {
        PythonGroupsUnbounded(ands[1..], group + 1);
      } else {
        PythonGroupsUnbounded(ands[1..], group);
      }
    }
  }

  /**
   * Each C++ clause's group is the unbounded number reduced modulo 256: the
   * 256th OR-group counted from 0 gets group 0, the mark of a clause with no
   * alternatives.
   */
  lemma {:induction false} CppGroupsWrapped(ands: seq<string>, group: nat)
    ensures Groups(AndClauses(Cpp, ands, Wrapped(group))) == WrapAll(UnboundedGroupList(Cpp, ands, group))
  {
    GroupsListed(Cpp, ands, Wrapped(group));
    CppGroupListWrapped(ands, group);
  }

  lemma {:induction false} CppGroupListWrapped(ands: seq<string>, group: nat)
    ensures GroupList(Cpp, ands, Wrapped(group)) == WrapAll(UnboundedGroupList(Cpp, ands, group))
    decreases |ands|
  {
    if ands != [] {
      var n := |Alternatives(Cpp, ands[0])|;
      var u := UnboundedGroupList(Cpp, ands, group);
      if n > 1 {
        WrappedStep(group);
        CppGroupListWrapped(ands[1..], group + 1);
        var rest := UnboundedGroupList(Cpp, ands[1..], group + 1);
        assert u == Repeat(group, n) + rest;
        assert WrapAll(u) == Repeat(Wrapped(group), n) + WrapAll(rest);
      } else {
        CppGroupListWrapped(ands[1..], group);
        var rest := UnboundedGroupList(Cpp, ands[1..], group);
        assert u == [0] + rest;
        assert WrapAll(u) == [0] + WrapAll(rest);
      }
    }
  }

  /** A piece of several alternatives numbered 256 lands in group 0, like a clause with no alternatives. */
  lemma GroupWrapsToNone(ands: seq<string>)
    requires ands != [] && |Alternatives(Cpp, ands[0])| > 1
    ensures Groups(AndClauses(Cpp, ands, Wrapped(256)))[0] == 0
  {
    CppGroupsWrapped(ands, 256);
  }
}
