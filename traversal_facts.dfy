/**
 * Properties of the query of module Traversal: the result layout, the
 * frontier expansion rules, the reporting of direct items and OR-groups, and
 * how the C++ query relates to the Python one.
 */
module TraversalFacts {
  import opened Arenas
  import opened Types
  import opened Traversal
  import BasicTypes

  predicate DistinctIds(xs: seq<nat>)
  {
    forall i, j :: 0 <= i < j < |xs| ==> xs[i] != xs[j]
  }

  /**
   * The next frontier collected so far is duplicate-free, avoids everything
   * visited before the level began, and is exactly what the level added to
   * the visited set.
   */
  ghost predicate Fresh(next: seq<nat>, visited: set<nat>, before: set<nat>)
  {
    && DistinctIds(next)
    && visited == before + Elements(next)
    && forall k :: 0 <= k < |next| ==> next[k] !in before
  }

  /** Candidate `c` passes the scan of one target package's versions. */
  ghost predicate Admits(g: Graph, sourceArch: nat, constraint: nat, candidates: seq<nat>, c: nat)
    requires Wf(g) && sourceArch < |g.archs| && constraint < |g.archs| && Bounded(candidates, |g.arenas.versions|)
  {
    c in candidates && ArchMatches(g.archs, sourceArch, constraint, g.arenas.versions[c].architecture)
  }

  /** Edge `d` of version `src` brings version `c` into the next frontier (unless already visited). */
  ghost predicate EdgeAdmits(g: Graph, src: nat, d: nat, expand: bool, c: nat)
    requires Wf(g) && src < |g.arenas.versions| && d < |g.arenas.edges|
  {
    var e := g.arenas.edges[d];
    Expands(g, d, expand)
    && Admits(g, g.arenas.versions[src].architecture, e.architectureConstraint, g.arenas.packages[e.toPackage].versionIds, c)
  }

  /** Some edge among `dids` admits `c`. */
  ghost predicate SomeEdgeAdmits(g: Graph, src: nat, dids: seq<nat>, expand: bool, c: nat)
    requires Wf(g) && src < |g.arenas.versions| && Bounded(dids, |g.arenas.edges|)
    decreases |dids|
  {
    dids != [] && (EdgeAdmits(g, src, dids[0], expand, c) || SomeEdgeAdmits(g, src, dids[1..], expand, c))
  }

  /** Some edge of some version of `frontier` admits `c`. */
  ghost predicate SomeVersionAdmits(g: Graph, frontier: seq<nat>, expand: bool, c: nat)
    requires Wf(g) && Bounded(frontier, |g.arenas.versions|)
    decreases |frontier|
  {
    && frontier != []
    && (|| (EdgeIdsBounded(g, frontier[0]);
            SomeEdgeAdmits(g, frontier[0], g.arenas.versions[frontier[0]].dependencyIds, expand, c))
        || SomeVersionAdmits(g, frontier[1..], expand, c))
  }

  lemma ElementsSnoc(xs: seq<nat>, x: nat)
    ensures Elements(xs + [x]) == Elements(xs) + {x}
  {
    var ys := xs + [x];
    assert forall k :: 0 <= k < |xs| ==> ys[k] == xs[k];
    assert ys[|xs|] == x;
  }

  lemma {:induction false} AdmitFacts(g: Graph, sourceArch: nat, constraint: nat, candidates: seq<nat>,
                                      next: seq<nat>, visited: set<nat>, before: set<nat>)
    requires Wf(g) && sourceArch < |g.archs| && constraint < |g.archs|
    requires Bounded(candidates, |g.arenas.versions|) && Bounded(next, |g.arenas.versions|)
    requires Fresh(next, visited, before)
    ensures var (next', visited') := Admit(g, sourceArch, constraint, candidates, next, visited);
            && Fresh(next', visited', before)
            && forall c :: c in visited' <==> c in visited || Admits(g, sourceArch, constraint, candidates, c)
    decreases |candidates|
  {
    if candidates != [] {
      var c := candidates[0];
      assert forall x :: x in candidates <==> x == c || x in candidates[1..];
      if c !in visited && ArchMatches(g.archs, sourceArch, constraint, g.arenas.versions[c].architecture) {
        ElementsSnoc(next, c);
        assert Fresh(next + [c], visited + {c}, before) by {
          var n := next + [c];
          forall i, j | 0 <= i < j < |n| ensures n[i] != n[j] {
            if j == |next| {
              assert n[i] in Elements(next);
            }
          }
        }
        AdmitFacts(g, sourceArch, constraint, candidates[1..], next + [c], visited + {c}, before);
      } else {
        AdmitFacts(g, sourceArch, constraint, candidates[1..], next, visited, before);
      }
    }
  }

  lemma EdgeFacts(g: Graph, src: nat, d: nat, expand: bool, dedup: bool, acc: Scan, before: set<nat>)
    requires Wf(g) && src < |g.arenas.versions| && d < |g.arenas.edges|
    requires Bounded(acc.next, |g.arenas.versions|) && Fresh(acc.next, acc.visited, before)
    ensures var r := ScanEdge(g, src, d, expand, dedup, acc);
            && Fresh(r.next, r.visited, before)
            && forall c :: c in r.visited <==> c in acc.visited || EdgeAdmits(g, src, d, expand, c)
  {
    var e := g.arenas.edges[d];
    if Expands(g, d, expand) {
      AdmitFacts(g, g.arenas.versions[src].architecture, e.architectureConstraint,
                 g.arenas.packages[e.toPackage].versionIds, acc.next, acc.visited, before);
    }
  }

  lemma {:induction false} EdgesFacts(g: Graph, src: nat, dids: seq<nat>, expand: bool, dedup: bool, acc: Scan,
                                      before: set<nat>)
    requires Wf(g) && src < |g.arenas.versions| && Bounded(dids, |g.arenas.edges|)
    requires Bounded(acc.next, |g.arenas.versions|) && Fresh(acc.next, acc.visited, before)
    ensures var r := ScanEdges(g, src, dids, expand, dedup, acc);
            && Fresh(r.next, r.visited, before)
            && forall c :: c in r.visited <==> c in acc.visited || SomeEdgeAdmits(g, src, dids, expand, c)
    decreases |dids|
  {
    if dids != [] {
      var acc1 := ScanEdge(g, src, dids[0], expand, dedup, acc);
      EdgeFacts(g, src, dids[0], expand, dedup, acc, before);
      EdgesFacts(g, src, dids[1..], expand, dedup, acc1, before);
    }
  }

  lemma {:induction false} FrontierFacts(g: Graph, frontier: seq<nat>, expand: bool, dedup: bool, st: LevelState,
                                         before: set<nat>)
    requires Wf(g) && Bounded(frontier, |g.arenas.versions|)
    requires Bounded(st.next, |g.arenas.versions|) && Fresh(st.next, st.visited, before)
    ensures var r := ScanFrontier(g, frontier, expand, dedup, st);
            && Fresh(r.next, r.visited, before)
            && forall c :: c in r.visited <==> c in st.visited || SomeVersionAdmits(g, frontier, expand, c)
    decreases |frontier|
  {
    if frontier != [] {
      var v := frontier[0];
      EdgeIdsBounded(g, v);
      var dids := g.arenas.versions[v].dependencyIds;
      EdgesFacts(g, v, dids, expand, dedup, Scan(st.direct, [], st.next, st.visited), before);
      FrontierFacts(g, frontier[1..], expand, dedup, ScanVersion(g, v, expand, dedup, st), before);
    }
  }

  /**
   * Soundness and completeness of one level's expansion: the next frontier is
   * duplicate-free, holds no version visited earlier, is what the level adds
   * to the visited set, and holds exactly the unvisited versions that some
   * expanding edge of some frontier version admits.
   */
  lemma NextFrontier(g: Graph, frontier: seq<nat>, expand: bool, dedup: bool, visited: set<nat>)
    requires Wf(g) && Bounded(frontier, |g.arenas.versions|)
    ensures var st := ScanFrontier(g, frontier, expand, dedup, Start(visited));
            && DistinctIds(st.next)
            && st.visited == visited + Elements(st.next)
            && (forall c :: c in Elements(st.next) <==> c !in visited && SomeVersionAdmits(g, frontier, expand, c))
  {
    assert Elements([]) == {};
    FrontierFacts(g, frontier, expand, dedup, Start(visited), visited);
    var st := ScanFrontier(g, frontier, expand, dedup, Start(visited));
    assert forall c :: c in Elements(st.next) ==> c !in visited;
  }

  // ---------------------------------------------------------------- items

  predicate DistinctItems(xs: seq<Item>)
  {
    forall i, j :: 0 <= i < j < |xs| ==> xs[i] != xs[j]
  }

  /** `Put` over a whole list, left to right. */
  function PutAll(acc: seq<Item>, xs: seq<Item>, dedup: bool): seq<Item>
    decreases |xs|
  {
    if xs == [] then acc else PutAll(Put(acc, xs[0], dedup), xs[1..], dedup)
  }

  /** Without deduplication everything is appended. */
  lemma {:induction false} PutAllKeeps(acc: seq<Item>, xs: seq<Item>)
    ensures PutAll(acc, xs, false) == acc + xs
    decreases |xs|
  {
    if xs != [] {
      PutAllKeeps(acc + [xs[0]], xs[1..]);
      assert acc + [xs[0]] + xs[1..] == acc + xs;
    }
  }

  /** Putting two lists in a row is putting their concatenation. */
  lemma {:induction false} PutAllConcat(acc: seq<Item>, xs: seq<Item>, ys: seq<Item>, dedup: bool)
    ensures PutAll(acc, xs + ys, dedup) == PutAll(PutAll(acc, xs, dedup), ys, dedup)
    decreases |xs|
  {
    if xs != [] {
      assert (xs + ys)[0] == xs[0] && (xs + ys)[1..] == xs[1..] + ys;
      PutAllConcat(Put(acc, xs[0], dedup), xs[1..], ys, dedup);
    } else {
      assert xs + ys == ys;
    }
  }

  /** With deduplication the list stays duplicate-free and gains exactly the new items. */
  lemma {:induction false} PutAllDedup(acc: seq<Item>, xs: seq<Item>)
    requires DistinctItems(acc)
    ensures DistinctItems(PutAll(acc, xs, true))
    ensures forall x :: x in PutAll(acc, xs, true) <==> x in acc || x in xs
    decreases |xs|
  {
    if xs != [] {
      assert forall x :: x in xs <==> x == xs[0] || x in xs[1..];
      PutAllDedup(Put(acc, xs[0], true), xs[1..]);
    }
  }

  /**
   * The reference for the C++ deduplication: the first occurrence of every
   * item, in order, defined from the end of the list.
   */
  function Dedup(xs: seq<Item>): (r: seq<Item>)
    decreases |xs|
  {
    if xs == [] then []
    else
      var init := xs[..|xs| - 1];
      if xs[|xs| - 1] in init then Dedup(init) else Dedup(init) + [xs[|xs| - 1]]
  }

  lemma PutAllSnoc(acc: seq<Item>, xs: seq<Item>, x: Item, dedup: bool)
    ensures PutAll(acc, xs + [x], dedup) == Put(PutAll(acc, xs, dedup), x, dedup)
  {
    PutAllConcat(acc, xs, [x], dedup);
  }

  /** Deduplicating `Put` from an empty list computes `Dedup`, which keeps every item once. */
  lemma {:induction false} DedupIsPutAll(xs: seq<Item>)
    ensures PutAll([], xs, true) == Dedup(xs)
    ensures DistinctItems(Dedup(xs)) && forall x :: x in Dedup(xs) <==> x in xs
    decreases |xs|
  {
    PutAllDedup([], xs);
    if xs != [] {
      var init := xs[..|xs| - 1];
      assert xs == init + [xs[|xs| - 1]];
      DedupIsPutAll(init);
      PutAllSnoc([], init, xs[|xs| - 1], true);
    }
  }

  /** The items of the edges among `dids` that are outside every OR-group, in order. */
  function DirectItems(g: Graph, dids: seq<nat>): seq<Item>
    requires Wf(g) && Bounded(dids, |g.arenas.edges|)
    decreases |dids|
  {
    if dids == [] then []
    else (if g.arenas.edges[dids[0]].group == 0 then [ItemOf(g, dids[0])] else []) + DirectItems(g, dids[1..])
  }

  /** The items of the edges among `dids` in OR-group `grp`, in order. */
  function GroupItems(g: Graph, dids: seq<nat>, grp: nat): seq<Item>
    requires Wf(g) && Bounded(dids, |g.arenas.edges|)
    decreases |dids|
  {
    if dids == [] then []
    else (if g.arenas.edges[dids[0]].group == grp then [ItemOf(g, dids[0])] else []) + GroupItems(g, dids[1..], grp)
  }

  /** The largest group number among `dids` (0 when none is in an OR-group). */
  function MaxGroup(g: Graph, dids: seq<nat>): nat
    requires Wf(g) && Bounded(dids, |g.arenas.edges|)
    decreases |dids|
  {
    if dids == [] then 0 else Max(g.arenas.edges[dids[0]].group, MaxGroup(g, dids[1..]))
  }

  function Max(a: nat, b: nat): nat
  {
    if a < b then b else a
  }

  /** Slot `k` of a slot list, empty past its end. */
  function Slot(slots: seq<seq<Item>>, k: nat): seq<Item>
  {
    if k < |slots| then slots[k] else []
  }

  lemma {:induction false} EdgesDirect(g: Graph, src: nat, dids: seq<nat>, expand: bool, dedup: bool, acc: Scan)
    requires Wf(g) && src < |g.arenas.versions| && Bounded(dids, |g.arenas.edges|)
    requires Bounded(acc.next, |g.arenas.versions|)
    ensures ScanEdges(g, src, dids, expand, dedup, acc).direct == PutAll(acc.direct, DirectItems(g, dids), dedup)
    decreases |dids|
  {
    if dids != [] {
      var acc1 := ScanEdge(g, src, dids[0], expand, dedup, acc);
      EdgesDirect(g, src, dids[1..], expand, dedup, acc1);
      var head := if g.arenas.edges[dids[0]].group == 0 then [ItemOf(g, dids[0])] else [];
      PutAllConcat(acc.direct, head, DirectItems(g, dids[1..]), dedup);
      if head != [] {
        assert head[1..] == [];
      }
    }
  }

  lemma GroupsGrow(g: Graph, slots: seq<seq<Item>>, d: nat, dedup: bool, k: nat)
    requires Wf(g) && d < |g.arenas.edges| && g.arenas.edges[d].group > 0
    ensures var r := Place(slots, g.arenas.edges[d].group, ItemOf(g, d), dedup);
            && |r| == Max(|slots|, g.arenas.edges[d].group)
            && Slot(r, k) == if k + 1 == g.arenas.edges[d].group then Put(Slot(slots, k), ItemOf(g, d), dedup)
                             else Slot(slots, k)
  {
  }

  lemma {:induction false} EdgesSlots(g: Graph, src: nat, dids: seq<nat>, expand: bool, dedup: bool, acc: Scan)
    requires Wf(g) && src < |g.arenas.versions| && Bounded(dids, |g.arenas.edges|)
    requires Bounded(acc.next, |g.arenas.versions|)
    ensures var r := ScanEdges(g, src, dids, expand, dedup, acc);
            && |r.slots| == Max(|acc.slots|, MaxGroup(g, dids))
            && forall k :: 0 <= k < |r.slots| ==>
                 r.slots[k] == PutAll(Slot(acc.slots, k), GroupItems(g, dids, k + 1), dedup)
    decreases |dids|
  {
    if dids != [] {
      var d := dids[0];
      var acc1 := ScanEdge(g, src, d, expand, dedup, acc);
      EdgesSlots(g, src, dids[1..], expand, dedup, acc1);
      var r := ScanEdges(g, src, dids, expand, dedup, acc);
      forall k | 0 <= k < |r.slots|
        ensures r.slots[k] == PutAll(Slot(acc.slots, k), GroupItems(g, dids, k + 1), dedup)
      {
        var grp := g.arenas.edges[d].group;
        if grp > 0 {
          GroupsGrow(g, acc.slots, d, dedup, k);
        }
        var head := if grp == k + 1 then [ItemOf(g, d)] else [];
        PutAllConcat(Slot(acc.slots, k), head, GroupItems(g, dids[1..], k + 1), dedup);
        if head != [] {
          assert head[1..] == [];
        }
      }
      if g.arenas.edges[d].group > 0 {
        GroupsGrow(g, acc.slots, d, dedup, 0);
      }
    }
  }

  /** The first `n` OR-group slots of `dids`: slot `k` holds group `k + 1`. */
  function GroupSlots(g: Graph, dids: seq<nat>, n: nat, dedup: bool): (r: seq<seq<Item>>)
    requires Wf(g) && Bounded(dids, |g.arenas.edges|)
    ensures |r| == n
    decreases n
  {
    if n == 0 then [] else GroupSlots(g, dids, n - 1, dedup) + [PutAll([], GroupItems(g, dids, n), dedup)]
  }

  lemma {:induction false} GroupSlotsAt(g: Graph, dids: seq<nat>, n: nat, dedup: bool, k: nat)
    requires Wf(g) && Bounded(dids, |g.arenas.edges|) && k < n
    ensures GroupSlots(g, dids, n, dedup)[k] == PutAll([], GroupItems(g, dids, k + 1), dedup)
    decreases n
  {
    if k < n - 1 {
      GroupSlotsAt(g, dids, n - 1, dedup, k);
    }
  }

  /** The OR-group slots one frontier version contributes: slot `k` holds group `k + 1`. */
  function VersionSlots(g: Graph, v: nat, dedup: bool): (r: seq<seq<Item>>)
    requires Wf(g) && v < |g.arenas.versions|
  {
    EdgeIdsBounded(g, v);
    var dids := g.arenas.versions[v].dependencyIds;
    GroupSlots(g, dids, MaxGroup(g, dids), dedup)
  }

  /** The direct items of every frontier version's edges, frontier first, then edge order. */
  function FrontierDirect(g: Graph, frontier: seq<nat>): seq<Item>
    requires Wf(g) && Bounded(frontier, |g.arenas.versions|)
    decreases |frontier|
  {
    if frontier == [] then []
    else
      EdgeIdsBounded(g, frontier[0]);
      DirectItems(g, g.arenas.versions[frontier[0]].dependencyIds) + FrontierDirect(g, frontier[1..])
  }

  /** The OR-group slots of every frontier version, in frontier order. */
  function FrontierGroups(g: Graph, frontier: seq<nat>, dedup: bool): seq<seq<Item>>
    requires Wf(g) && Bounded(frontier, |g.arenas.versions|)
    decreases |frontier|
  {
    if frontier == [] then [] else VersionSlots(g, frontier[0], dedup) + FrontierGroups(g, frontier[1..], dedup)
  }

  /** The slots one version's edge loop leaves behind, starting from none. */
  lemma VersionSlotsOfScan(g: Graph, v: nat, expand: bool, dedup: bool, acc: Scan)
    requires Wf(g) && v < |g.arenas.versions| && Bounded(acc.next, |g.arenas.versions|) && acc.slots == []
    ensures (EdgeIdsBounded(g, v); ScanEdges(g, v, g.arenas.versions[v].dependencyIds, expand, dedup, acc).slots
             == VersionSlots(g, v, dedup))
  {
    EdgeIdsBounded(g, v);
    var dids := g.arenas.versions[v].dependencyIds;
    EdgesSlots(g, v, dids, expand, dedup, acc);
    var r := ScanEdges(g, v, dids, expand, dedup, acc);
    forall k | 0 <= k < |r.slots| ensures r.slots[k] == VersionSlots(g, v, dedup)[k] {
      assert Slot(acc.slots, k) == [];
      GroupSlotsAt(g, dids, MaxGroup(g, dids), dedup, k);
    }
  }

  lemma VersionReportDirect(g: Graph, v: nat, expand: bool, dedup: bool, st: LevelState)
    requires Wf(g) && v < |g.arenas.versions| && Bounded(st.next, |g.arenas.versions|)
    ensures ScanVersion(g, v, expand, dedup, st).direct
            == PutAll(st.direct, DirectItems(g, g.arenas.versions[v].dependencyIds), dedup)
  {
    EdgeIdsBounded(g, v);
    EdgesDirect(g, v, g.arenas.versions[v].dependencyIds, expand, dedup, Scan(st.direct, [], st.next, st.visited));
  }

  lemma VersionReportGroups(g: Graph, v: nat, expand: bool, dedup: bool, st: LevelState)
    requires Wf(g) && v < |g.arenas.versions| && Bounded(st.next, |g.arenas.versions|)
    ensures ScanVersion(g, v, expand, dedup, st).groups == st.groups + VersionSlots(g, v, dedup)
  {
    VersionSlotsOfScan(g, v, expand, dedup, Scan(st.direct, [], st.next, st.visited));
  }

  lemma {:induction false} FrontierReportDirect(g: Graph, frontier: seq<nat>, expand: bool, dedup: bool, st: LevelState)
    requires Wf(g) && Bounded(frontier, |g.arenas.versions|) && Bounded(st.next, |g.arenas.versions|)
    ensures ScanFrontier(g, frontier, expand, dedup, st).direct == PutAll(st.direct, FrontierDirect(g, frontier), dedup)
    decreases |frontier|
  {
    if frontier != [] {
      var v := frontier[0];
      EdgeIdsBounded(g, v);
      var items := DirectItems(g, g.arenas.versions[v].dependencyIds);
      var st1 := ScanVersion(g, v, expand, dedup, st);
      assert FrontierDirect(g, frontier) == items + FrontierDirect(g, frontier[1..]);
      VersionReportDirect(g, v, expand, dedup, st);
      FrontierReportDirect(g, frontier[1..], expand, dedup, st1);
      PutAllConcat(st.direct, items, FrontierDirect(g, frontier[1..]), dedup);
    }
  }

  lemma {:induction false} FrontierReportGroups(g: Graph, frontier: seq<nat>, expand: bool, dedup: bool, st: LevelState)
    requires Wf(g) && Bounded(frontier, |g.arenas.versions|) && Bounded(st.next, |g.arenas.versions|)
    ensures ScanFrontier(g, frontier, expand, dedup, st).groups == st.groups + FrontierGroups(g, frontier, dedup)
    decreases |frontier|
  {
    if frontier != [] {
      var v := frontier[0];
      var st1 := ScanVersion(g, v, expand, dedup, st);
      VersionReportGroups(g, v, expand, dedup, st);
      FrontierReportGroups(g, frontier[1..], expand, dedup, st1);
      var a, b := VersionSlots(g, v, dedup), FrontierGroups(g, frontier[1..], dedup);
      var r1 := ScanFrontier(g, frontier[1..], expand, dedup, st1);
      assert ScanFrontier(g, frontier, expand, dedup, st) == r1;
      assert FrontierGroups(g, frontier, dedup) == a + b;
      assert r1.groups == (st.groups + a) + b == st.groups + (a + b);
    }
  }

  /** What one scan of the frontier reports, from an empty start. */
  lemma ScanReport(g: Graph, frontier: seq<nat>, expand: bool, dedup: bool, visited: set<nat>)
    requires Wf(g) && Bounded(frontier, |g.arenas.versions|)
    ensures var st := ScanFrontier(g, frontier, expand, dedup, Start(visited));
            && st.direct == (if dedup then Dedup(FrontierDirect(g, frontier)) else FrontierDirect(g, frontier))
            && st.groups == FrontierGroups(g, frontier, dedup)
  {
    var st := ScanFrontier(g, frontier, expand, dedup, Start(visited));
    var items := FrontierDirect(g, frontier);
    FrontierReportDirect(g, frontier, expand, dedup, Start(visited));
    FrontierReportGroups(g, frontier, expand, dedup, Start(visited));
    assert st.direct == PutAll([], items, dedup);
    if dedup {
      DedupIsPutAll(items);
    } else {
      PutAllKeeps([], items);
      assert [] + items == items;
    }
  }

  /**
   * One level of the query: the direct items of all frontier versions in
   * frontier-then-edge order, then each version's OR-groups in ascending group
   * number; the C++ query keeps the first occurrence of each item only.
   */
  lemma LevelReport(g: Graph, frontier: seq<nat>, visited: set<nat>, level: nat, depth: nat, dedup: bool)
    requires Wf(g) && Bounded(frontier, |g.arenas.versions|) && level < depth
    ensures var r := Levels(g, frontier, visited, level, depth, dedup)[0];
            && r.direct == (if dedup then Dedup(FrontierDirect(g, frontier)) else FrontierDirect(g, frontier))
            && r.groups == FrontierGroups(g, frontier, dedup)
  {
    LevelsStep(g, frontier, visited, level, depth, dedup);
    ScanReport(g, frontier, level + 1 < depth, dedup, visited);
  }

  /** Python: slot `k` of a version is exactly the items of its edges in group `k + 1`, possibly none. */
  lemma PythonSlots(g: Graph, v: nat)
    requires Wf(g) && v < |g.arenas.versions|
    ensures var dids := (EdgeIdsBounded(g, v); g.arenas.versions[v].dependencyIds);
            var r := VersionSlots(g, v, false);
            && |r| == MaxGroup(g, dids)
            && forall k :: 0 <= k < |r| ==> r[k] == GroupItems(g, dids, k + 1)
  {
    EdgeIdsBounded(g, v);
    var dids := g.arenas.versions[v].dependencyIds;
    forall k | 0 <= k < MaxGroup(g, dids) ensures VersionSlots(g, v, false)[k] == GroupItems(g, dids, k + 1) {
      GroupSlotsAt(g, dids, MaxGroup(g, dids), false, k);
      PutAllKeeps([], GroupItems(g, dids, k + 1));
    }
  }

  /** C++: slot `k` of a version holds each item of group `k + 1` exactly once. */
  lemma CppSlots(g: Graph, v: nat)
    requires Wf(g) && v < |g.arenas.versions|
    ensures var dids := (EdgeIdsBounded(g, v); g.arenas.versions[v].dependencyIds);
            var r := VersionSlots(g, v, true);
            && |r| == MaxGroup(g, dids)
            && forall k :: 0 <= k < |r| ==> r[k] == Dedup(GroupItems(g, dids, k + 1)) && DistinctItems(r[k])
  {
    EdgeIdsBounded(g, v);
    var dids := g.arenas.versions[v].dependencyIds;
    forall k | 0 <= k < MaxGroup(g, dids)
      ensures VersionSlots(g, v, true)[k] == Dedup(GroupItems(g, dids, k + 1))
      ensures DistinctItems(VersionSlots(g, v, true)[k])
    {
      var xs := GroupItems(g, dids, k + 1);
      GroupSlotsAt(g, dids, MaxGroup(g, dids), true, k);
      DedupIsPutAll(xs);
    }
  }

  // ------------------------------------------------------- Python and C++

  /** Every list of items deduplicated. */
  function DedupGroups(groups: seq<seq<Item>>): (r: seq<seq<Item>>)
    ensures |r| == |groups|
    decreases |groups|
  {
    if groups == [] then [] else [Dedup(groups[0])] + DedupGroups(groups[1..])
  }

  lemma {:induction false} DedupGroupsAt(groups: seq<seq<Item>>, k: nat)
    requires k < |groups|
    ensures DedupGroups(groups)[k] == Dedup(groups[k])
    decreases k
  {
    if k > 0 {
      DedupGroupsAt(groups[1..], k - 1);
    }
  }

  lemma {:induction false} DedupGroupsConcat(a: seq<seq<Item>>, b: seq<seq<Item>>)
    ensures DedupGroups(a + b) == DedupGroups(a) + DedupGroups(b)
    decreases |a|
  {
    if a != [] {
      assert (a + b)[1..] == a[1..] + b;
      DedupGroupsConcat(a[1..], b);
    } else {
      assert a + b == b;
    }
  }

  /** The C++ form of a Python result: every direct list and every OR-group deduplicated. */
  function DedupLevels(levels: seq<Level>): (r: seq<Level>)
    ensures |r| == |levels|
    decreases |levels|
  {
    if levels == [] then []
    else [Level(Dedup(levels[0].direct), DedupGroups(levels[0].groups))] + DedupLevels(levels[1..])
  }

  /** Deduplication does not affect which versions are expanded. */
  lemma {:induction false} FrontierIgnoresDedup(g: Graph, frontier: seq<nat>, expand: bool, st: LevelState, st': LevelState)
    requires Wf(g) && Bounded(frontier, |g.arenas.versions|) && Bounded(st.next, |g.arenas.versions|)
    requires st.next == st'.next && st.visited == st'.visited
    ensures ScanFrontier(g, frontier, expand, true, st).next == ScanFrontier(g, frontier, expand, false, st').next
    ensures ScanFrontier(g, frontier, expand, true, st).visited == ScanFrontier(g, frontier, expand, false, st').visited
    decreases |frontier|
  {
    if frontier != [] {
      var v := frontier[0];
      EdgeIdsBounded(g, v);
      EdgesIgnoreDedup(g, v, g.arenas.versions[v].dependencyIds, expand,
                       Scan(st.direct, [], st.next, st.visited), Scan(st'.direct, [], st'.next, st'.visited));
      FrontierIgnoresDedup(g, frontier[1..], expand, ScanVersion(g, v, expand, true, st), ScanVersion(g, v, expand, false, st'));
    }
  }

  lemma {:induction false} EdgesIgnoreDedup(g: Graph, src: nat, dids: seq<nat>, expand: bool, acc: Scan, acc': Scan)
    requires Wf(g) && src < |g.arenas.versions| && Bounded(dids, |g.arenas.edges|)
    requires Bounded(acc.next, |g.arenas.versions|) && acc.next == acc'.next && acc.visited == acc'.visited
    ensures ScanEdges(g, src, dids, expand, true, acc).next == ScanEdges(g, src, dids, expand, false, acc').next
    ensures ScanEdges(g, src, dids, expand, true, acc).visited == ScanEdges(g, src, dids, expand, false, acc').visited
    decreases |dids|
  {
    if dids != [] {
      EdgesIgnoreDedup(g, src, dids[1..], expand, ScanEdge(g, src, dids[0], expand, true, acc),
                       ScanEdge(g, src, dids[0], expand, false, acc'));
    }
  }

  lemma {:induction false} GroupSlotsDedup(g: Graph, dids: seq<nat>, n: nat)
    requires Wf(g) && Bounded(dids, |g.arenas.edges|)
    ensures GroupSlots(g, dids, n, true) == DedupGroups(GroupSlots(g, dids, n, false))
    decreases n
  {
    if n > 0 {
      var xs := GroupItems(g, dids, n);
      GroupSlotsDedup(g, dids, n - 1);
      DedupGroupsConcat(GroupSlots(g, dids, n - 1, false), [PutAll([], xs, false)]);
      PutAllKeeps([], xs);
      assert [] + xs == xs;
      DedupIsPutAll(xs);
      assert DedupGroups([xs]) == [Dedup(xs)];
    }
  }

  lemma {:induction false} FrontierGroupsDedup(g: Graph, frontier: seq<nat>)
    requires Wf(g) && Bounded(frontier, |g.arenas.versions|)
    ensures FrontierGroups(g, frontier, true) == DedupGroups(FrontierGroups(g, frontier, false))
    decreases |frontier|
  {
    if frontier != [] {
      var v := frontier[0];
      FrontierGroupsDedup(g, frontier[1..]);
      EdgeIdsBounded(g, v);
      var dids := g.arenas.versions[v].dependencyIds;
      GroupSlotsDedup(g, dids, MaxGroup(g, dids));
      DedupGroupsConcat(VersionSlots(g, v, false), FrontierGroups(g, frontier[1..], false));
    }
  }

  /** Deduplicating a result level by level. */
  lemma DedupLevelsCons(x: Level, rest: seq<Level>)
    ensures DedupLevels([x] + rest) == [Level(Dedup(x.direct), DedupGroups(x.groups))] + DedupLevels(rest)
  {
    assert ([x] + rest)[1..] == rest;
  }

  /** Each C++ level is the Python level with duplicates dropped. */
  lemma {:induction false} LevelsDedup(g: Graph, frontier: seq<nat>, visited: set<nat>, level: nat, depth: nat)
    requires Wf(g) && Bounded(frontier, |g.arenas.versions|)
    ensures Levels(g, frontier, visited, level, depth, true) == DedupLevels(Levels(g, frontier, visited, level, depth, false))
    decreases depth - level
  {
    if level < depth {
      var expand := level + 1 < depth;
      var py := ScanFrontier(g, frontier, expand, false, Start(visited));
      LevelsStep(g, frontier, visited, level, depth, true);
      LevelsStep(g, frontier, visited, level, depth, false);
      ScanReport(g, frontier, expand, true, visited);
      ScanReport(g, frontier, expand, false, visited);
      FrontierGroupsDedup(g, frontier);
      FrontierIgnoresDedup(g, frontier, expand, Start(visited), Start(visited));
      LevelsDedup(g, py.next, py.visited, level + 1, depth);
      DedupLevelsCons(Level(py.direct, py.groups), Levels(g, py.next, py.visited, level + 1, depth, false));
    }
  }

  /** The C++ query answers the Python query with every direct list and OR-group deduplicated. */
  lemma QueryDedup(g: Graph, name: string, version: string, arch: string, depth: nat)
    requires Wf(g)
    ensures Query(g, name, version, arch, depth, true) == DedupLevels(Query(g, name, version, arch, depth, false))
  {
    var frontier := InitialFrontier(g, name, version, arch);
    LevelsDedup(g, frontier, Elements(frontier), 0, depth);
  }

  /** Within one C++ level no two direct items are equal, and no direct item of the Python level is lost. */
  lemma CppDirectDistinct(g: Graph, frontier: seq<nat>, visited: set<nat>, level: nat, depth: nat)
    requires Wf(g) && Bounded(frontier, |g.arenas.versions|) && level < depth
    ensures var r := Levels(g, frontier, visited, level, depth, true)[0];
            && DistinctItems(r.direct)
            && forall x :: x in r.direct <==> x in Levels(g, frontier, visited, level, depth, false)[0].direct
  {
    LevelReport(g, frontier, visited, level, depth, true);
    LevelReport(g, frontier, visited, level, depth, false);
    DedupIsPutAll(FrontierDirect(g, frontier));
  }

  // ------------------------------------------------------------ layout

  /** An empty frontier yields only empty levels: the early return and the `break`. */
  lemma {:induction false} EmptyFrontierLevels(g: Graph, visited: set<nat>, level: nat, depth: nat, dedup: bool)
    requires Wf(g) && level <= depth
    ensures Levels(g, [], visited, level, depth, dedup) == EmptyLevels(depth - level)
    decreases depth - level
  {
    if level < depth {
      EmptyFrontierLevels(g, visited, level + 1, depth, dedup);
      assert EmptyLevels(depth - level) == [Level([], [])] + EmptyLevels(depth - level - 1);
    }
  }

  /** A version is in the initial frontier exactly when it belongs to the named package and passes both filters. */
  lemma {:induction false} SelectVersionsMembers(g: Graph, ids: seq<nat>, version: string, arch: string)
    requires Wf(g) && Bounded(ids, |g.arenas.versions|)
    ensures forall v :: v in SelectVersions(g, ids, version, arch) <==> v in ids && Selected(g, v, version, arch)
    decreases |ids|
  {
    if ids != [] {
      SelectVersionsMembers(g, ids[1..], version, arch);
      assert forall v :: v in ids <==> v == ids[0] || v in ids[1..];
    }
  }

  lemma {:induction false} NoneSelected(g: Graph, ids: seq<nat>, version: string, arch: string)
    requires Wf(g) && Bounded(ids, |g.arenas.versions|)
    ensures (forall v :: v in ids ==> !Selected(g, v, version, arch)) ==> SelectVersions(g, ids, version, arch) == []
    decreases |ids|
  {
    if ids != [] {
      NoneSelected(g, ids[1..], version, arch);
      assert forall v :: v in ids[1..] ==> v in ids;
    }
  }

  /** Empty filters select every version of the package, in order. */
  lemma {:induction false} NoFilterSelectsAll(g: Graph, ids: seq<nat>)
    requires Wf(g) && Bounded(ids, |g.arenas.versions|)
    ensures SelectVersions(g, ids, [], []) == ids
    decreases |ids|
  {
    if ids != [] {
      NoFilterSelectsAll(g, ids[1..]);
    }
  }

  /** The initial frontier keeps the package's creation order and so has no duplicates. */
  lemma {:induction false} SelectVersionsIncreasing(g: Graph, ids: seq<nat>, version: string, arch: string)
    requires Wf(g) && Bounded(ids, |g.arenas.versions|) && Increasing(ids)
    ensures Increasing(SelectVersions(g, ids, version, arch))
    decreases |ids|
  {
    if ids != [] {
      SelectVersionsIncreasing(g, ids[1..], version, arch);
      SelectVersionsMembers(g, ids[1..], version, arch);
      var rest := SelectVersions(g, ids[1..], version, arch);
      assert forall k :: 0 <= k < |rest| ==> rest[k] in ids[1..];
    }
  }

  /**
   * The result has exactly `depth` levels, all empty when the package is
   * unknown or no version passes the filters.
   */
  lemma QueryShape(g: Graph, name: string, version: string, arch: string, depth: nat, dedup: bool)
    requires Wf(g)
    ensures |Query(g, name, version, arch, depth, dedup)| == depth
    ensures name !in g.arenas.names ==> Query(g, name, version, arch, depth, dedup) == EmptyLevels(depth)
    ensures name in g.arenas.names
            && (forall v :: v in g.arenas.packages[g.arenas.names[name]].versionIds ==> !Selected(g, v, version, arch))
            ==> Query(g, name, version, arch, depth, dedup) == EmptyLevels(depth)
  {
    var frontier := InitialFrontier(g, name, version, arch);
    if name in g.arenas.names {
      NoneSelected(g, g.arenas.packages[g.arenas.names[name]].versionIds, version, arch);
    }
    if frontier == [] {
      EmptyFrontierLevels(g, Elements(frontier), 0, depth, dedup);
    }
  }

  /** The frontier of every level, starting from `frontier` at `level`. */
  function Frontiers(g: Graph, frontier: seq<nat>, visited: set<nat>, level: nat, depth: nat, dedup: bool)
    : (r: seq<seq<nat>>)
    requires Wf(g) && Bounded(frontier, |g.arenas.versions|)
    ensures |r| == if level < depth then depth - level else 0
    decreases depth - level
  {
    if depth <= level then []
    else
      var st := ScanFrontier(g, frontier, level + 1 < depth, dedup, Start(visited));
      [frontier] + Frontiers(g, st.next, st.visited, level + 1, depth, dedup)
  }

  /** Duplicate-free frontiers, pairwise disjoint, and all but the first disjoint from `visited`. */
  predicate DisjointFrontiers(fs: seq<seq<nat>>, visited: set<nat>)
  {
    && (forall i :: 0 <= i < |fs| ==> DistinctIds(fs[i]))
    && (forall i :: 1 <= i < |fs| ==> Elements(fs[i]) !! visited)
    && (forall i, j :: 0 <= i < j < |fs| ==> Elements(fs[i]) !! Elements(fs[j]))
  }

  /** Putting a frontier whose versions are all visited in front of frontiers that avoid the visited set. */
  lemma DisjointCons(f: seq<nat>, rest: seq<seq<nat>>, visited: set<nat>, visited': set<nat>)
    requires DistinctIds(f) && Elements(f) <= visited && visited <= visited'
    requires DisjointFrontiers(rest, visited')
    requires |rest| > 0 ==> Elements(rest[0]) !! visited
    ensures DisjointFrontiers([f] + rest, visited)
  {
    var fs := [f] + rest;
    forall i | 1 <= i < |fs| ensures Elements(fs[i]) !! visited {
      assert fs[i] == rest[i - 1];
    }
    forall i, j | 0 <= i < j < |fs| ensures Elements(fs[i]) !! Elements(fs[j]) {
      assert fs[j] == rest[j - 1];
      if i > 0 {
        assert fs[i] == rest[i - 1];
      } else {
        forall x | x in Elements(fs[0]) ensures x !in Elements(fs[j]) {
          assert x in visited;
        }
      }
    }
  }

  /** No version enters two frontiers, and no frontier holds a version twice: the traversal terminates. */
  lemma {:induction false} FrontiersDisjoint(g: Graph, frontier: seq<nat>, visited: set<nat>, level: nat, depth: nat,
                                             dedup: bool)
    requires Wf(g) && Bounded(frontier, |g.arenas.versions|)
    requires DistinctIds(frontier) && Elements(frontier) <= visited
    ensures DisjointFrontiers(Frontiers(g, frontier, visited, level, depth, dedup), visited)
    decreases depth - level
  {
    if level < depth {
      var st := ScanFrontier(g, frontier, level + 1 < depth, dedup, Start(visited));
      NextFrontier(g, frontier, level + 1 < depth, dedup, visited);
      FrontiersDisjoint(g, st.next, st.visited, level + 1, depth, dedup);
      var rest := Frontiers(g, st.next, st.visited, level + 1, depth, dedup);
      assert Frontiers(g, frontier, visited, level, depth, dedup) == [frontier] + rest;
      assert |rest| > 0 ==> rest[0] == st.next;
      DisjointCons(frontier, rest, visited, st.visited);
    }
  }

  /** The initial frontier of a query meets the conditions of `FrontiersDisjoint`. */
  lemma InitialFrontierDistinct(g: Graph, name: string, version: string, arch: string)
    requires Wf(g) && Valid(g.arenas)
    ensures DistinctIds(InitialFrontier(g, name, version, arch))
  {
    if name in g.arenas.names {
      SelectVersionsIncreasing(g, g.arenas.packages[g.arenas.names[name]].versionIds, version, arch);
    }
  }

  /**
   * With the seeded table (`native`, `any`, `all` at ids 0, 1, 2 and no other
   * copy of them), the architecture test reads as a test on ids.
   */
  lemma ArchMatchesByIds(archs: seq<string>, sourceArch: nat, constraint: nat, candidate: nat)
    requires |archs| >= 3 && archs[..3] == ["native", "any", "all"] && BasicTypes.Distinct(archs)
    requires sourceArch < |archs| && constraint < |archs| && candidate < |archs|
    ensures ArchMatches(archs, sourceArch, constraint, candidate)
            <==> if constraint == 0 then candidate == sourceArch || candidate == 2
                 else constraint == 1 || candidate == constraint
  {
    assert archs[0] == "native" && archs[1] == "any" && archs[2] == "all";
  }
}
