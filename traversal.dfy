/**
 * The in-memory bounded-depth breadth-first dependency query shared by
 * `query_dependencies` of py/dependency_graph.py (CPU branch) and of
 * src/dependency_graph.cpp (non-GPU path). The two differ in one point:
 * the C++ query drops an item already emitted in the same level (direct
 * items) or in the same OR-group slot of the same version, the Python one
 * keeps duplicates. The flag `dedup` selects the C++ behaviour.
 */
module Traversal {
  import opened Arenas
  import opened Types

  /** The arenas together with the two symbol lists the query reads. */
  datatype Graph = Graph(arenas: Store, archs: seq<string>, types: seq<string>)

  /** Every stored id points into its arena, and every architecture and dependency-type id names a symbol. */
  ghost predicate Wf(g: Graph)
  {
    && Indexed(g.arenas)
    && (forall v :: 0 <= v < |g.arenas.versions| ==> g.arenas.versions[v].architecture < |g.archs|)
    && (forall d :: 0 <= d < |g.arenas.edges| ==>
          g.arenas.edges[d].architectureConstraint < |g.archs| && g.arenas.edges[d].dependencyType < |g.types|)
  }

  /** A graph with empty arenas is well formed whatever its tables hold. */
  lemma EmptyWf(archs: seq<string>, types: seq<string>)
    ensures Wf(Graph(Empty, archs, types))
  {
  }

  /** `create_package` keeps the graph well formed. */
  lemma WfAddPackage(g: Graph, name: string)
    requires Wf(g) && Valid(g.arenas)
    ensures Wf(g.(arenas := AddPackage(g.arenas, name).0))
  {
    ValidIndexed(AddPackage(g.arenas, name).0);
  }

  /** `create_version` with a known architecture keeps the graph well formed. */
  lemma WfAddVersion(g: Graph, pid: nat, version: string, arch: nat)
    requires Wf(g) && Valid(g.arenas) && pid < |g.arenas.packages| && arch < |g.archs|
    ensures Wf(g.(arenas := AddVersion(g.arenas, pid, version, arch).0))
  {
    var t := AddVersion(g.arenas, pid, version, arch).0;
    ValidIndexed(t);
    assert forall v :: 0 <= v < |t.versions| ==> t.versions[v].architecture < |g.archs| by {
      forall v | 0 <= v < |t.versions| ensures t.versions[v].architecture < |g.archs| {
        if v < |g.arenas.versions| {
          assert t.versions[v] == g.arenas.versions[v];
        }
      }
    }
  }

  /** `create_dependency` with known architecture and type ids keeps the graph well formed. */
  lemma WfAddDependency(g: Graph, from: nat, to: nat, versionConstraint: string, archConstraint: nat,
                        dependencyType: nat, group: nat)
    requires Wf(g) && Valid(g.arenas) && from < |g.arenas.versions| && to < |g.arenas.packages|
    requires archConstraint < |g.archs| && dependencyType < |g.types|
    ensures Wf(g.(arenas := AddDependency(g.arenas, from, to, versionConstraint, archConstraint, dependencyType, group).0))
  {
    var t := AddDependency(g.arenas, from, to, versionConstraint, archConstraint, dependencyType, group).0;
    ValidIndexed(t);
    assert forall v :: 0 <= v < |t.versions| ==> t.versions[v].architecture < |g.archs| by {
      forall v | 0 <= v < |t.versions| ensures t.versions[v].architecture < |g.archs| {
        assert t.versions[v].architecture == g.arenas.versions[v].architecture;
      }
    }
  }

  predicate Bounded(xs: seq<nat>, n: nat)
  {
    forall k :: 0 <= k < |xs| ==> xs[k] < n
  }

  /** `to_item` (and the Python item dict): the edge as reported. */
  function ItemOf(g: Graph, d: nat): Item
    requires Wf(g) && d < |g.arenas.edges|
  {
    var e := g.arenas.edges[d];
    Item(g.arenas.packages[e.toPackage].name, g.types[e.dependencyType], e.versionConstraint,
         g.archs[e.architectureConstraint])
  }

  /**
   * The architecture test a candidate version must pass: a `native`
   * constraint wants the source version's architecture or `all`, `any`
   * accepts everything, any other constraint wants exactly that id.
   */
  function ArchMatches(archs: seq<string>, sourceArch: nat, constraint: nat, candidate: nat): bool
    requires sourceArch < |archs| && constraint < |archs| && candidate < |archs|
  {
    if archs[constraint] == "native" then candidate == sourceArch || archs[candidate] == "all"
    else if archs[constraint] == "any" then true
    else candidate == constraint
  }

  /** An edge that is followed to the next level: a `Depends` edge outside every OR-group, not at the last level. */
  predicate Expands(g: Graph, d: nat, expand: bool)
    requires Wf(g) && d < |g.arenas.edges|
  {
    expand && g.types[g.arenas.edges[d].dependencyType] == "Depends" && g.arenas.edges[d].group == 0
  }

  /** Appending an item to a list, skipping it when deduplicating and already present. */
  function Put(xs: seq<Item>, x: Item, dedup: bool): seq<Item>
  {
    if dedup && x in xs then xs else xs + [x]
  }

  /** `n` empty OR-groups. */
  function Blank(n: nat): (r: seq<seq<Item>>)
    ensures |r| == n && forall k :: 0 <= k < n ==> r[k] == []
  {
    seq(n, _ => [])
  }

  /** Placing an item of OR-group `group` (1-based): the slots grow to `group` first. */
  function Place(slots: seq<seq<Item>>, group: nat, x: Item, dedup: bool): (r: seq<seq<Item>>)
    requires group > 0
  {
    var padded := if |slots| < group then slots + Blank(group - |slots|) else slots;
    padded[group - 1 := Put(padded[group - 1], x, dedup)]
  }

  /**
   * The scan over one target package's versions: each candidate not yet
   * visited whose architecture matches joins the next frontier and the
   * visited set.
   */
  function Admit(g: Graph, sourceArch: nat, constraint: nat, candidates: seq<nat>, next: seq<nat>, visited: set<nat>)
    : (r: (seq<nat>, set<nat>))
    requires Wf(g) && sourceArch < |g.archs| && constraint < |g.archs|
    requires Bounded(candidates, |g.arenas.versions|) && Bounded(next, |g.arenas.versions|)
    ensures Bounded(r.0, |g.arenas.versions|)
    decreases |candidates|
  {
    if candidates == [] then (next, visited)
    else
      var c := candidates[0];
      if c !in visited && ArchMatches(g.archs, sourceArch, constraint, g.arenas.versions[c].architecture) then
        Admit(g, sourceArch, constraint, candidates[1..], next + [c], visited + {c})
      else
        Admit(g, sourceArch, constraint, candidates[1..], next, visited)
  }

  /** What the scan of one version's edges accumulates. */
  datatype Scan = Scan(direct: seq<Item>, slots: seq<seq<Item>>, next: seq<nat>, visited: set<nat>)

  /** The loop body for one edge `d` leaving version `src`. */
  function ScanEdge(g: Graph, src: nat, d: nat, expand: bool, dedup: bool, acc: Scan): (r: Scan)
    requires Wf(g) && src < |g.arenas.versions| && d < |g.arenas.edges|
    requires Bounded(acc.next, |g.arenas.versions|)
    ensures Bounded(r.next, |g.arenas.versions|)
  {
    var e := g.arenas.edges[d];
    var item := ItemOf(g, d);
    var reported :=
      if e.group > 0 then acc.(slots := Place(acc.slots, e.group, item, dedup))
      else acc.(direct := Put(acc.direct, item, dedup));
    if Expands(g, d, expand) then
      var (next, visited) := Admit(g, g.arenas.versions[src].architecture, e.architectureConstraint,
                                   g.arenas.packages[e.toPackage].versionIds, acc.next, acc.visited);
      reported.(next := next, visited := visited)
    else reported
  }

  /** The edge loop over `dids`, in order. */
  function ScanEdges(g: Graph, src: nat, dids: seq<nat>, expand: bool, dedup: bool, acc: Scan): (r: Scan)
    requires Wf(g) && src < |g.arenas.versions| && Bounded(dids, |g.arenas.edges|)
    requires Bounded(acc.next, |g.arenas.versions|)
    ensures Bounded(r.next, |g.arenas.versions|)
    decreases |dids|
  {
    if dids == [] then acc
    else ScanEdges(g, src, dids[1..], expand, dedup, ScanEdge(g, src, dids[0], expand, dedup, acc))
  }

  /** The edge ids of a version are edge ids. */
  lemma EdgeIdsBounded(g: Graph, v: nat)
    requires Wf(g) && v < |g.arenas.versions|
    ensures Bounded(g.arenas.versions[v].dependencyIds, |g.arenas.edges|)
  {
  }

  /** The version ids of a package are version ids. */
  lemma VersionIdsBounded(g: Graph, p: nat)
    requires Wf(g) && p < |g.arenas.packages|
    ensures Bounded(g.arenas.packages[p].versionIds, |g.arenas.versions|)
  {
  }

  /** What the scan of one level accumulates. */
  datatype LevelState = LevelState(direct: seq<Item>, groups: seq<seq<Item>>, next: seq<nat>, visited: set<nat>)

  /** One frontier version: its edges are scanned with fresh OR-group slots, which are then appended. */
  function ScanVersion(g: Graph, v: nat, expand: bool, dedup: bool, st: LevelState): (r: LevelState)
    requires Wf(g) && v < |g.arenas.versions| && Bounded(st.next, |g.arenas.versions|)
    ensures Bounded(r.next, |g.arenas.versions|)
  {
    EdgeIdsBounded(g, v);
    var sc := ScanEdges(g, v, g.arenas.versions[v].dependencyIds, expand, dedup, Scan(st.direct, [], st.next, st.visited));
    LevelState(sc.direct, st.groups + sc.slots, sc.next, sc.visited)
  }

  /** The frontier loop of one level, in frontier order. */
  function ScanFrontier(g: Graph, frontier: seq<nat>, expand: bool, dedup: bool, st: LevelState): (r: LevelState)
    requires Wf(g) && Bounded(frontier, |g.arenas.versions|) && Bounded(st.next, |g.arenas.versions|)
    ensures Bounded(r.next, |g.arenas.versions|)
    decreases |frontier|
  {
    if frontier == [] then st
    else ScanFrontier(g, frontier[1..], expand, dedup, ScanVersion(g, frontier[0], expand, dedup, st))
  }

  /** The state a level starts from: nothing reported, an empty next frontier, the visited set so far. */
  function Start(visited: set<nat>): LevelState
  {
    LevelState([], [], [], visited)
  }

  /** Levels `level` to `depth - 1`, starting from `frontier`. */
  function Levels(g: Graph, frontier: seq<nat>, visited: set<nat>, level: nat, depth: nat, dedup: bool)
    : (r: seq<Level>)
    requires Wf(g) && Bounded(frontier, |g.arenas.versions|)
    ensures |r| == if level < depth then depth - level else 0
    decreases depth - level
  {
    if depth <= level then []
    else
      var st := ScanFrontier(g, frontier, level + 1 < depth, dedup, Start(visited));
      [Level(st.direct, st.groups)] + Levels(g, st.next, st.visited, level + 1, depth, dedup)
  }

  /** One step of `Levels`: the level scanned from `frontier`, then the levels after it. */
  lemma LevelsStep(g: Graph, frontier: seq<nat>, visited: set<nat>, level: nat, depth: nat, dedup: bool)
    requires Wf(g) && Bounded(frontier, |g.arenas.versions|) && level < depth
    ensures var st := ScanFrontier(g, frontier, level + 1 < depth, dedup, Start(visited));
            Levels(g, frontier, visited, level, depth, dedup) == [Level(st.direct, st.groups)] + Levels(g, st.next, st.visited, level + 1, depth, dedup)
  {
  }

  /** One iteration of the level loop: the level just scanned lands at index `level`, the levels after it are still to come. */
  lemma LevelAdvance(g: Graph, res: seq<Level>, level: nat, depth: nat, frontier: seq<nat>, visited: set<nat>,
                     dedup: bool, st: LevelState, all: seq<Level>)
    requires Wf(g) && Bounded(frontier, |g.arenas.versions|) && level < depth && |res| == depth
    requires res[..level] + Levels(g, frontier, visited, level, depth, dedup) == all
    requires st == ScanFrontier(g, frontier, level + 1 < depth, dedup, Start(visited))
    ensures res[level := Level(st.direct, st.groups)][..level + 1] + Levels(g, st.next, st.visited, level + 1, depth, dedup) == all
  {
    LevelsStep(g, frontier, visited, level, depth, dedup);
    PrefixStep(res, level, Level(st.direct, st.groups), Levels(g, st.next, st.visited, level + 1, depth, dedup));
  }

  /** Writing index `level` extends the finished prefix by one element. */
  lemma PrefixStep<T>(res: seq<T>, level: nat, x: T, rest: seq<T>)
    requires level < |res|
    ensures res[..level] + ([x] + rest) == res[level := x][..level + 1] + rest
  {
    assert res[level := x][..level + 1] == res[..level] + [x];
  }

  /** A version passes the query's filters; an empty filter accepts everything. */
  predicate Selected(g: Graph, v: nat, version: string, arch: string)
    requires Wf(g) && v < |g.arenas.versions|
  {
    && (version == [] || g.arenas.versions[v].version == version)
    && (arch == [] || g.archs[g.arenas.versions[v].architecture] == arch)
  }

  /** The versions among `ids` that pass the filters, in order. */
  function SelectVersions(g: Graph, ids: seq<nat>, version: string, arch: string): (r: seq<nat>)
    requires Wf(g) && Bounded(ids, |g.arenas.versions|)
    ensures Bounded(r, |g.arenas.versions|)
    decreases |ids|
  {
    if ids == [] then []
    else (if Selected(g, ids[0], version, arch) then [ids[0]] else []) + SelectVersions(g, ids[1..], version, arch)
  }

  /** One step of `SelectVersions` over the suffix of `ids` from `i`, after the versions kept so far. */
  lemma SelectVersionsStep(g: Graph, ids: seq<nat>, i: nat, version: string, arch: string, kept: seq<nat>)
    requires Wf(g) && Bounded(ids, |g.arenas.versions|) && i < |ids|
    ensures Selected(g, ids[i], version, arch) ==>
              kept + SelectVersions(g, ids[i..], version, arch) == (kept + [ids[i]]) + SelectVersions(g, ids[i + 1..], version, arch)
    ensures !Selected(g, ids[i], version, arch) ==>
              SelectVersions(g, ids[i..], version, arch) == SelectVersions(g, ids[i + 1..], version, arch)
  {
    assert ids[i..][1..] == ids[i + 1..];
    var rest := SelectVersions(g, ids[i + 1..], version, arch);
    if Selected(g, ids[i], version, arch) {
      assert kept + ([ids[i]] + rest) == (kept + [ids[i]]) + rest;
    } else {
      assert [] + rest == rest;
    }
  }

  /** The initial frontier: the selected versions of the named package, or none for an unknown name. */
  function InitialFrontier(g: Graph, name: string, version: string, arch: string): (r: seq<nat>)
    requires Wf(g)
    ensures Bounded(r, |g.arenas.versions|)
  {
    if name !in g.arenas.names then []
    else SelectVersions(g, g.arenas.packages[g.arenas.names[name]].versionIds, version, arch)
  }

  /** Elements of a frontier as a set. */
  function Elements(xs: seq<nat>): set<nat>
  {
    set k | 0 <= k < |xs| :: xs[k]
  }

  /** `query_dependencies`: `depth` levels, the visited set seeded with the initial frontier. */
  function Query(g: Graph, name: string, version: string, arch: string, depth: nat, dedup: bool): (r: seq<Level>)
    requires Wf(g)
    ensures |r| == depth
  {
    var frontier := InitialFrontier(g, name, version, arch);
    Levels(g, frontier, Elements(frontier), 0, depth, dedup)
  }

  /** `depth` empty levels: what the result is initialised to. */
  function EmptyLevels(n: nat): (r: seq<Level>)
    ensures |r| == n && forall k :: 0 <= k < n ==> r[k] == Level([], [])
  {
    seq(n, _ => Level([], []))
  }

  /**
   * The loop that adds one version's OR-group slots to the level's groups,
   * in slot order: `or_items.append` over `group_items` in Python,
   * `or_dependencies.emplace_back` over `curr_grps` in C++.
   */
  method AppendGroups(orItems0: seq<seq<Item>>, groups: seq<seq<Item>>) returns (orItems: seq<seq<Item>>)
    ensures orItems == orItems0 + groups
  {
    orItems := orItems0;
    var m := 0;
    while m < |groups|
      invariant 0 <= m <= |groups|
      invariant orItems == orItems0 + groups[..m]
    {
      orItems := orItems + [groups[m]];
      assert groups[..m + 1] == groups[..m] + [groups[m]];
      m := m + 1;
    }
    assert groups[..m] == groups;
  }
}
