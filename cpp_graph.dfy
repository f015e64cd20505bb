/**
 * `DependencyGraph` of src/dependency_graph.cpp: the three node vectors and
 * the name index as fields, the two 8-bit symbol tables, the `create_*`
 * operations, `to_item` and the non-GPU path of `query_dependencies`, which
 * keeps a per-level set of emitted direct items and a per-version set for
 * each OR-group slot.
 */
module CppGraph {
  import opened Arenas
  import opened Types
  import BasicTypes
  import opened Traversal
  import TraversalFacts

  /** The items of a list as a set: what the C++ `unordered_set` of emitted items holds. */
  function ItemSet(xs: seq<Item>): (r: set<Item>)
    ensures forall x :: x in r <==> x in xs
  {
    set x | x in xs
  }

  /** `visited_grp_items[k]` holds exactly the items of `curr_grps[k]`, for every slot. */
  predicate SeenMatches(slots: seq<seq<Item>>, seen: seq<set<Item>>)
  {
    |seen| == |slots| && forall k :: 0 <= k < |slots| ==> seen[k] == ItemSet(slots[k])
  }

  /** `n` empty item sets: what `visited_grp_items.resize` adds. */
  function NoSets(n: nat): (r: seq<set<Item>>)
    ensures |r| == n && forall k :: 0 <= k < n ==> r[k] == {}
  {
    if n == 0 then [] else NoSets(n - 1) + [{}]
  }

  /**
   * The OR-group branch of the edge loop: both vectors are resized to
   * `group` when shorter, and the item is appended to slot `group - 1` only
   * when that slot's set did not hold it yet.
   */
  method PlaceDistinct(slots0: seq<seq<Item>>, seen0: seq<set<Item>>, group: nat, item: Item)
    returns (slots: seq<seq<Item>>, seen: seq<set<Item>>)
    requires group > 0 && SeenMatches(slots0, seen0)
    ensures slots == Place(slots0, group, item, true)
    ensures SeenMatches(slots, seen)
  {
    slots, seen := slots0, seen0;
    if |slots| < group {
      seen := seen + NoSets(group - |slots|);
      slots := slots + Blank(group - |slots|);
    }
    if item !in seen[group - 1] {
      seen := seen[group - 1 := seen[group - 1] + {item}];
      slots := slots[group - 1 := slots[group - 1] + [item]];
    }
  }

  /** The direct branch: the item is appended only when the level's set did not hold it yet. */
  method PutDistinct(direct0: seq<Item>, seen0: set<Item>, item: Item) returns (direct: seq<Item>, seen: set<Item>)
    requires seen0 == ItemSet(direct0)
    ensures direct == Put(direct0, item, true)
    ensures seen == ItemSet(direct)
  {
    direct, seen := direct0, seen0;
    if item !in seen {
      seen := seen + {item};
      direct := direct + [item];
    }
  }

  /** A result whose levels from `level` on are still empty, after the loop stopped at an empty frontier. */
  lemma EmptyTail(res: seq<Level>, level: nat)
    requires level <= |res| && forall k :: level <= k < |res| ==> res[k] == Level([], [])
    ensures res == res[..level] + EmptyLevels(|res| - level)
  {
  }

  class DependencyGraph {
    /** `package_nodes_`. */
    var packages: seq<PackageNode>
    /** `version_nodes_`. */
    var versions: seq<VersionNode>
    /** `dependency_edges_`. */
    var dependencies: seq<DependencyEdge>
    /** `name_to_package_id_`. */
    var nameToPackage: map<string, nat>
    const architectures: Types.SymbolTable
    const dependencyTypes: Types.SymbolTable

    /** The arenas and the name index as one value. */
    function Contents(): Store
      reads this
    {
      Store(packages, versions, dependencies, nameToPackage)
    }

    /** What a query reads. */
    function View(): Graph
      reads this, architectures, dependencyTypes
    {
      Graph(Contents(), architectures.symbols, dependencyTypes.symbols)
    }

    ghost predicate Valid()
      reads this, architectures, dependencyTypes
    {
      && architectures != dependencyTypes
      && architectures.Valid() && dependencyTypes.Valid()
      && Arenas.Valid(Contents()) && Wf(View())
    }

    /** The constructor: empty arenas, `native`, `any`, `all` as architectures 0-2 and the nine dependency types. */
    constructor ()
      ensures Valid() && fresh(architectures) && fresh(dependencyTypes)
      ensures Contents() == Empty
      ensures architectures.symbols == BasicTypes.ArchitectureNames
      ensures dependencyTypes.symbols == BasicTypes.DependencyTypeNames
    {
      BasicTypes.SeedsDistinct();
      architectures := new Types.SymbolTable(BasicTypes.ArchitectureNames);
      dependencyTypes := new Types.SymbolTable(BasicTypes.DependencyTypeNames);
      packages, versions, dependencies, nameToPackage := [], [], [], map[];
      new;
      EmptyWf(architectures.symbols, dependencyTypes.symbols);
    }

    /** `create_package`: `try_emplace` of the name with the current package count; a new node only when it took. */
    method CreatePackage(name: string) returns (pid: nat)
      requires Valid()
      modifies this
      ensures Valid()
      ensures (Contents(), pid) == (AddPackage(old(Contents()), name).0, AddPackage(old(Contents()), name).1)
    {
      if name in nameToPackage {
        return nameToPackage[name];
      }
      ghost var r := AddPackage(Contents(), name);
      pid := |packages|;
      WfAddPackage(View(), name);
      nameToPackage := nameToPackage[name := pid];
      packages := packages + [PackageNode(name, [])];
      assert Contents() == r.0;
    }

    /** `create_version`: the version of `pid` with this key, else a new node whose id joins `version_ids`. */
    method CreateVersion(pid: nat, version: string, arch: nat) returns (vid: nat)
      requires Valid() && pid < |packages| && arch < |architectures.symbols|
      modifies this
      ensures Valid()
      ensures (Contents(), vid) == (AddVersion(old(Contents()), pid, version, arch).0, AddVersion(old(Contents()), pid, version, arch).1)
    {
      var found := ScanVersions(versions, packages[pid].versionIds, version, arch);
      if found.Some? {
        return found.value;
      }
      ghost var r := AddVersion(Contents(), pid, version, arch);
      WfAddVersion(View(), pid, version, arch);
      vid := |versions|;
      packages := packages[pid := packages[pid].(versionIds := packages[pid].versionIds + [vid])];
      versions := versions + [VersionNode(version, arch, [])];
      assert Contents() == r.0;
    }

    /** `create_dependency`: always a new edge, its id recorded in the source version's `dependency_ids`. */
    method CreateDependency(from: nat, to: nat, versionConstraint: string, archConstraint: nat,
                            dependencyType: nat, group: nat) returns (did: nat)
      requires Valid() && from < |versions| && to < |packages|
      requires archConstraint < |architectures.symbols| && dependencyType < |dependencyTypes.symbols|
      modifies this
      ensures Valid()
      ensures (Contents(), did) == AddDependency(old(Contents()), from, to, versionConstraint, archConstraint, dependencyType, group)
    {
      ghost var r := AddDependency(Contents(), from, to, versionConstraint, archConstraint, dependencyType, group);
      WfAddDependency(View(), from, to, versionConstraint, archConstraint, dependencyType, group);
      did := |dependencies|;
      versions := versions[from := versions[from].(dependencyIds := versions[from].dependencyIds + [did])];
      dependencies := dependencies + [DependencyEdge(from, to, versionConstraint, archConstraint, dependencyType, group)];
      assert Contents() == r.0;
      assert forall v :: 0 <= v < |versions| && v != from ==> versions[v] == old(versions)[v];
    }

    /** `to_item`: the target package's name, the type and architecture symbols, the constraint text. */
    method ToItem(d: nat) returns (item: Item)
      requires Wf(View()) && architectures.Valid() && dependencyTypes.Valid() && d < |dependencies|
      ensures item == ItemOf(View(), d)
    {
      var e := dependencies[d];
      var typeName := dependencyTypes.Symbol(e.dependencyType);
      var archName := architectures.Symbol(e.architectureConstraint);
      item := Item(packages[e.toPackage].name, typeName, e.versionConstraint, archName);
    }

    // ------------------------------------------------------------- query

    /** `query_dependencies` with `use_gpu` false: the C++ query, duplicates dropped. */
    method Query(name: string, version: string, arch: string, depth: nat) returns (res: seq<Level>)
      requires Valid()
      ensures res == Traversal.Query(View(), name, version, arch, depth, true)
    {
      var frontier := SelectFrontier(name, version, arch);
      var visited := set k | 0 <= k < |frontier| :: frontier[k];
      res := ScanLevels(EmptyLevels(depth), frontier, visited, depth);
    }

    /** The level loop: stops early at an empty frontier, leaving the remaining levels empty. */
    method ScanLevels(res0: seq<Level>, frontier0: seq<nat>, visited0: set<nat>, depth: nat) returns (res: seq<Level>)
      requires Wf(View()) && architectures.Valid() && dependencyTypes.Valid()
      requires res0 == EmptyLevels(depth) && Bounded(frontier0, |versions|)
      ensures res == Levels(View(), frontier0, visited0, 0, depth, true)
    {
      ghost var g := View();
      ghost var all := Levels(g, frontier0, visited0, 0, depth, true);
      res := res0;
      var frontier, visited := frontier0, visited0;
      var level := 0;
      while level < depth
        invariant 0 <= level <= depth && |res| == depth
        invariant Bounded(frontier, |g.arenas.versions|)
        invariant forall k :: level <= k < depth ==> res[k] == Level([], [])
        invariant res[..level] + Levels(g, frontier, visited, level, depth, true) == all
      {
        if |frontier| == 0 {
          assert frontier == [];
          TraversalFacts.EmptyFrontierLevels(g, visited, level, depth, true);
          EmptyTail(res, level);
          return;
        }
        var direct, orItems, next, visited' := ScanLevel(frontier, level + 1 < depth, visited);
        LevelAdvance(g, res, level, depth, frontier, visited, true, LevelState(direct, orItems, next, visited'), all);
        res := res[level := Level(direct, orItems)];
        frontier, visited := next, visited';
        level := level + 1;
      }
      assert res[..level] == res;
    }

    /** The frontier selection: the named package's versions passing both filters, in order. */
    method SelectFrontier(name: string, version: string, arch: string) returns (frontier: seq<nat>)
      requires Wf(View()) && architectures.Valid()
      ensures frontier == InitialFrontier(View(), name, version, arch)
    {
      ghost var g := View();
      frontier := [];
      if name !in nameToPackage {
        return;
      }
      var ids := packages[nameToPackage[name]].versionIds;
      VersionIdsBounded(g, nameToPackage[name]);
      assert ids[0..] == ids;
      var i := 0;
      while i < |ids|
        invariant 0 <= i <= |ids|
        invariant frontier + SelectVersions(g, ids[i..], version, arch) == SelectVersions(g, ids, version, arch)
      {
        var v := ids[i];
        SelectVersionsStep(g, ids, i, version, arch, frontier);
        var selected := Passes(v, version, arch);
        if selected {
          frontier := frontier + [v];
        }
        i := i + 1;
      }
      assert ids[i..] == [];
    }

    /** The two `continue` tests of the frontier loop: an empty filter lets every version through. */
    method Passes(v: nat, version: string, arch: string) returns (selected: bool)
      requires Wf(View()) && architectures.Valid() && v < |versions|
      ensures selected == Selected(View(), v, version, arch)
    {
      if version != [] && versions[v].version != version {
        return false;
      }
      if arch != [] && architectures.Symbol(versions[v].architecture) != arch {
        return false;
      }
      return true;
    }

    /** One level: a fresh set of emitted direct items, then the frontier loop. */
    method ScanLevel(frontier: seq<nat>, expand: bool, visited0: set<nat>)
      returns (direct: seq<Item>, orItems: seq<seq<Item>>, next: seq<nat>, visited: set<nat>)
      requires Wf(View()) && architectures.Valid() && dependencyTypes.Valid() && Bounded(frontier, |versions|)
      ensures Bounded(next, |versions|)
      ensures LevelState(direct, orItems, next, visited) == ScanFrontier(View(), frontier, expand, true, Start(visited0))
    {
      ghost var g := View();
      direct, orItems, next, visited := [], [], [], visited0;
      var seenDirect: set<Item> := {};
      var j := 0;
      while j < |frontier|
        invariant 0 <= j <= |frontier|
        invariant Bounded(next, |versions|) && seenDirect == ItemSet(direct)
        invariant ScanFrontier(g, frontier[j..], expand, true, LevelState(direct, orItems, next, visited))
                  == ScanFrontier(g, frontier, expand, true, Start(visited0))
      {
        var v := frontier[j];
        ghost var st := LevelState(direct, orItems, next, visited);
        var groups;
        direct, seenDirect, groups, next, visited := ScanVersionEdges(v, expand, direct, seenDirect, next, visited);
        orItems := AppendGroups(orItems, groups);
        assert LevelState(direct, orItems, next, visited) == ScanVersion(g, v, expand, true, st);
        assert frontier[j..][1..] == frontier[j + 1..];
        j := j + 1;
      }
    }

    /** The edge loop of frontier version `v`, with its own `curr_grps` and `visited_grp_items`. */
    method ScanVersionEdges(v: nat, expand: bool, direct0: seq<Item>, seenDirect0: set<Item>, next0: seq<nat>, visited0: set<nat>)
      returns (direct: seq<Item>, seenDirect: set<Item>, slots: seq<seq<Item>>, next: seq<nat>, visited: set<nat>)
      requires Wf(View()) && architectures.Valid() && dependencyTypes.Valid()
      requires v < |versions| && Bounded(next0, |versions|) && seenDirect0 == ItemSet(direct0)
      ensures Bounded(next, |versions|) && seenDirect == ItemSet(direct)
      ensures (EdgeIdsBounded(View(), v);
               Scan(direct, slots, next, visited)
               == ScanEdges(View(), v, versions[v].dependencyIds, expand, true, Scan(direct0, [], next0, visited0)))
    {
      ghost var g := View();
      var dids := versions[v].dependencyIds;
      EdgeIdsBounded(g, v);
      direct, seenDirect, slots, next, visited := direct0, seenDirect0, [], next0, visited0;
      var seenGroups: seq<set<Item>> := [];
      var k := 0;
      while k < |dids|
        invariant 0 <= k <= |dids|
        invariant Bounded(next, |versions|) && seenDirect == ItemSet(direct) && SeenMatches(slots, seenGroups)
        invariant ScanEdges(g, v, dids[k..], expand, true, Scan(direct, slots, next, visited))
                  == ScanEdges(g, v, dids, expand, true, Scan(direct0, [], next0, visited0))
      {
        var d := dids[k];
        direct, seenDirect, slots, seenGroups, next, visited := ScanEdgeOf(v, d, expand, direct, seenDirect, slots, seenGroups, next, visited);
        assert dids[k..][1..] == dids[k + 1..];
        k := k + 1;
      }
    }

    /** The loop body for edge `d` of version `v`: report the item unless already emitted, then follow a plain `Depends` edge. */
    method ScanEdgeOf(v: nat, d: nat, expand: bool, direct0: seq<Item>, seenDirect0: set<Item>,
                      slots0: seq<seq<Item>>, seenGroups0: seq<set<Item>>, next0: seq<nat>, visited0: set<nat>)
      returns (direct: seq<Item>, seenDirect: set<Item>, slots: seq<seq<Item>>, seenGroups: seq<set<Item>>,
               next: seq<nat>, visited: set<nat>)
      requires Wf(View()) && architectures.Valid() && dependencyTypes.Valid()
      requires v < |versions| && d < |dependencies| && Bounded(next0, |versions|)
      requires seenDirect0 == ItemSet(direct0) && SeenMatches(slots0, seenGroups0)
      ensures Bounded(next, |versions|) && seenDirect == ItemSet(direct) && SeenMatches(slots, seenGroups)
      ensures Scan(direct, slots, next, visited) == ScanEdge(View(), v, d, expand, true, Scan(direct0, slots0, next0, visited0))
    {
      var e := dependencies[d];
      var item := ToItem(d);
      direct, seenDirect, slots, seenGroups, next, visited := direct0, seenDirect0, slots0, seenGroups0, next0, visited0;
      if e.group > 0 {
        slots, seenGroups := PlaceDistinct(slots, seenGroups, e.group, item);
      } else {
        direct, seenDirect := PutDistinct(direct, seenDirect, item);
      }
      var typeName := dependencyTypes.Symbol(e.dependencyType);
      if expand && typeName == "Depends" && e.group == 0 {
        VersionIdsBounded(View(), e.toPackage);
        next, visited := AdmitCandidates(versions[v].architecture, e.architectureConstraint,
                                         packages[e.toPackage].versionIds, next, visited);
      }
    }

    /** The candidate loop over the target package's `version_ids`. */
    method AdmitCandidates(sourceArch: nat, constraint: nat, candidates: seq<nat>, next0: seq<nat>, visited0: set<nat>)
      returns (next: seq<nat>, visited: set<nat>)
      requires Wf(View()) && architectures.Valid()
      requires sourceArch < |architectures.symbols| && constraint < |architectures.symbols|
      requires Bounded(candidates, |versions|) && Bounded(next0, |versions|)
      ensures Bounded(next, |versions|)
      ensures (next, visited) == Admit(View(), sourceArch, constraint, candidates, next0, visited0)
    {
      next, visited := next0, visited0;
      var c := 0;
      while c < |candidates|
        invariant 0 <= c <= |candidates| && Bounded(next, |versions|)
        invariant Admit(View(), sourceArch, constraint, candidates[c..], next, visited)
                  == Admit(View(), sourceArch, constraint, candidates, next0, visited0)
      {
        var cand := candidates[c];
        assert candidates[c..][1..] == candidates[c + 1..];
        if cand !in visited {
          var constraintName := architectures.Symbol(constraint);
          var isMatch;
          if constraintName == "native" {
            var candName := architectures.Symbol(versions[cand].architecture);
            isMatch := versions[cand].architecture == sourceArch || candName == "all";
          } else if constraintName == "any" {
            isMatch := true;
          } else {
            isMatch := versions[cand].architecture == constraint;
          }
          if isMatch {
            next, visited := next + [cand], visited + {cand};
          }
        }
        c := c + 1;
      }
    }
  }
}
