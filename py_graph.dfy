/**
 * `DependencyGraph` of py/dependency_graph.py: the arenas as list fields, the
 * name index as a dict field, two symbol tables, the `create_*` operations,
 * the list building of `build_cugraph` and the CPU branch of
 * `query_dependencies`.
 */
module PyGraph {
  import opened Wrappers
  import opened Arenas
  import opened Types
  import BasicTypes
  import opened Traversal
  import TraversalFacts
  import EdgeList

  /** The four parallel columns hold exactly the rows `rows`. */
  predicate Columns(src: seq<int>, dst: seq<int>, did: seq<int>, gid: seq<int>, rows: seq<EdgeList.Row>)
  {
    && |src| == |dst| == |did| == |gid| == |rows|
    && forall k :: 0 <= k < |rows| ==> EdgeList.Row(src[k], dst[k], did[k], gid[k]) == rows[k]
  }

  /** Appending one row to each column appends it to the rows. */
  lemma ColumnsSnoc(src: seq<int>, dst: seq<int>, did: seq<int>, gid: seq<int>, rows: seq<EdgeList.Row>, r: EdgeList.Row)
    requires Columns(src, dst, did, gid, rows)
    ensures Columns(src + [r.src], dst + [r.dst], did + [r.did], gid + [r.gid], rows + [r])
  {
  }

  /** `group_items[group - 1].append(item)` after growing `group_items` with empty lists up to `group`. */
  method PlaceInGroup(slots0: seq<seq<Item>>, group: nat, item: Item) returns (slots: seq<seq<Item>>)
    requires group > 0
    ensures slots == Place(slots0, group, item, false)
  {
    slots := slots0;
    while |slots| < group
      invariant |slots0| <= |slots| && slots == slots0 + Blank(|slots| - |slots0|)
      invariant |slots| > |slots0| ==> |slots| <= group
      decreases group - |slots|
    {
      slots := slots + [[]];
    }
    assert |slots0| >= group ==> slots == slots0;
    slots := slots[group - 1 := slots[group - 1] + [item]];
  }

  class DependencyGraph {
    var packages: seq<PackageNode>
    var versions: seq<VersionNode>
    var dependencies: seq<DependencyEdge>
    var nameToPackage: map<string, nat>
    const dependencyTypes: BasicTypes.SymbolTable
    const architectures: BasicTypes.SymbolTable

    /** The arenas and the name index as one value. */
    function Contents(): Store
      reads this
    {
      Store(packages, versions, dependencies, nameToPackage)
    }

    /** What a query reads. */
    function View(): Graph
      reads this, architectures, dependencyTypes
    {
      Graph(Contents(), architectures.symbols, dependencyTypes.symbols)
    }

    ghost predicate Valid()
      reads this, architectures, dependencyTypes
    {
      && architectures != dependencyTypes
      && architectures.Valid() && dependencyTypes.Valid()
      && Arenas.Valid(Contents()) && Wf(View())
    }

    /** `__init__`: empty arenas and the two seeded tables. */
    constructor ()
      ensures Valid() && fresh(architectures) && fresh(dependencyTypes)
      ensures Contents() == Empty
      ensures architectures.symbols == BasicTypes.ArchitectureNames
      ensures dependencyTypes.symbols == BasicTypes.DependencyTypeNames
    {
      BasicTypes.SeedsDistinct();
      dependencyTypes := new BasicTypes.SymbolTable(BasicTypes.DependencyTypeNames);
      architectures := new BasicTypes.SymbolTable(BasicTypes.ArchitectureNames);
      packages, versions, dependencies, nameToPackage := [], [], [], map[];
      new;
      EmptyWf(architectures.symbols, dependencyTypes.symbols);
    }

    /** `create_package`: the id of the package named `name`, created when unknown. */
    method CreatePackage(name: string) returns (pid: nat)
      requires Valid()
      modifies this
      ensures Valid()
      ensures (Contents(), pid) == (AddPackage(old(Contents()), name).0, AddPackage(old(Contents()), name).1)
    {
      if name in nameToPackage {
        return nameToPackage[name];
      }
      ghost var r := AddPackage(Contents(), name);
      pid := |packages|;
      WfAddPackage(View(), name);
      packages := packages + [PackageNode(name, [])];
      nameToPackage := nameToPackage[name := pid];
      assert Contents() == r.0;
    }

    /** `create_version`: the id of the version of `pid` with this key, created when there is none. */
    method CreateVersion(pid: nat, version: string, arch: nat) returns (vid: nat)
      requires Valid() && pid < |packages| && arch < |architectures.symbols|
      modifies this
      ensures Valid()
      ensures (Contents(), vid) == (AddVersion(old(Contents()), pid, version, arch).0, AddVersion(old(Contents()), pid, version, arch).1)
    {
      var found := ScanVersions(versions, packages[pid].versionIds, version, arch);
      if found.Some? {
        return found.value;
      }
      ghost var r := AddVersion(Contents(), pid, version, arch);
      WfAddVersion(View(), pid, version, arch);
      vid := |versions|;
      versions := versions + [VersionNode(version, arch, [])];
      packages := packages[pid := packages[pid].(versionIds := packages[pid].versionIds + [vid])];
      assert Contents() == r.0;
    }

    /** `create_dependency`: always a new edge, recorded in its source version's list. */
    method CreateDependency(from: nat, to: nat, versionConstraint: string, archConstraint: nat,
                            dependencyType: nat, group: nat) returns (did: nat)
      requires Valid() && from < |versions| && to < |packages|
      requires archConstraint < |architectures.symbols| && dependencyType < |dependencyTypes.symbols|
      modifies this
      ensures Valid()
      ensures (Contents(), did) == AddDependency(old(Contents()), from, to, versionConstraint, archConstraint, dependencyType, group)
    {
      ghost var r := AddDependency(Contents(), from, to, versionConstraint, archConstraint, dependencyType, group);
      WfAddDependency(View(), from, to, versionConstraint, archConstraint, dependencyType, group);
      did := |dependencies|;
      dependencies := dependencies + [DependencyEdge(from, to, versionConstraint, archConstraint, dependencyType, group)];
      versions := versions[from := versions[from].(dependencyIds := versions[from].dependencyIds + [did])];
      assert Contents() == r.0;
      assert forall v :: 0 <= v < |versions| && v != from ==> versions[v] == old(versions)[v];
    }

    /** The list-building loops of `build_cugraph`: the four columns of the edge list, row by row. */
    method BuildEdgeList() returns (src: seq<int>, dst: seq<int>, did: seq<int>, gid: seq<int>)
      requires Valid()
      ensures Columns(src, dst, did, gid, EdgeList.Rows(Contents()))
    {
      ghost var s := Contents();
      Arenas.ValidIndexed(s);
      src, dst, did, gid := [], [], [], [];
      var p := 0;
      while p < |packages|
        invariant 0 <= p <= |packages|
        invariant Columns(src, dst, did, gid, EdgeList.PackageRows(s, p))
      {
        src, dst, did, gid := AppendPackageRows(p, src, dst, did, gid);
        p := p + 1;
      }
    }

    /** The rows of package `p`: for each of its versions, the ownership row and then the version's edges. */
    method AppendPackageRows(p: nat, src0: seq<int>, dst0: seq<int>, did0: seq<int>, gid0: seq<int>)
      returns (src: seq<int>, dst: seq<int>, did: seq<int>, gid: seq<int>)
      requires Indexed(Contents()) && p < |packages|
      requires Columns(src0, dst0, did0, gid0, EdgeList.PackageRows(Contents(), p))
      ensures Columns(src, dst, did, gid, EdgeList.PackageRows(Contents(), p + 1))
    {
      ghost var s := Contents();
      ghost var before := EdgeList.PackageRows(s, p);
      var vids := packages[p].versionIds;
      src, dst, did, gid := src0, dst0, did0, gid0;
      ghost var rows := before;
      var j := 0;
      while j < |vids|
        invariant 0 <= j <= |vids|
        invariant rows == before + EdgeList.VersionRows(s, p, vids[..j])
        invariant Columns(src, dst, did, gid, rows)
      {
        var v := vids[j];
        src, dst, did, gid := AppendVersionRows(p, v, rows, src, dst, did, gid);
        EdgeList.VersionRowsSnocAfter(s, p, vids, j, before);
        rows := rows + [EdgeList.OwnRow(s, p, v)] + EdgeList.EdgeRows(s, v, s.versions[v].dependencyIds);
        j := j + 1;
      }
      assert vids[..j] == vids;
    }

    /** One version's rows: its ownership row, then the rows of its edges. */
    method AppendVersionRows(p: nat, v: nat, ghost rows0: seq<EdgeList.Row>,
                             src0: seq<int>, dst0: seq<int>, did0: seq<int>, gid0: seq<int>)
      returns (src: seq<int>, dst: seq<int>, did: seq<int>, gid: seq<int>)
      requires Indexed(Contents()) && v < |versions|
      requires Columns(src0, dst0, did0, gid0, rows0)
      ensures Columns(src, dst, did, gid, rows0 + [EdgeList.OwnRow(Contents(), p, v)]
                                          + EdgeList.EdgeRows(Contents(), v, versions[v].dependencyIds))
    {
      ghost var own := EdgeList.OwnRow(Contents(), p, v);
      assert Bounded(versions[v].dependencyIds, |dependencies|);
      ColumnsSnoc(src0, dst0, did0, gid0, rows0, own);
      src, dst, did, gid := src0 + [|versions| + p], dst0 + [v], did0 + [-1], gid0 + [-1];
      src, dst, did, gid := AppendEdgeRows(v, rows0 + [own], src, dst, did, gid);
    }

    /** The rows of the edges leaving version `v`, appended after `rows0`. */
    method AppendEdgeRows(v: nat, ghost rows0: seq<EdgeList.Row>, src0: seq<int>, dst0: seq<int>, did0: seq<int>, gid0: seq<int>)
      returns (src: seq<int>, dst: seq<int>, did: seq<int>, gid: seq<int>)
      requires v < |versions| && Bounded(versions[v].dependencyIds, |dependencies|)
      requires Columns(src0, dst0, did0, gid0, rows0)
      ensures Columns(src, dst, did, gid, rows0 + EdgeList.EdgeRows(Contents(), v, versions[v].dependencyIds))
    {
      ghost var s := Contents();
      var dids := versions[v].dependencyIds;
      src, dst, did, gid := src0, dst0, did0, gid0;
      var k := 0;
      while k < |dids|
        invariant 0 <= k <= |dids|
        invariant Columns(src, dst, did, gid, rows0 + EdgeList.EdgeRows(s, v, dids[..k]))
      {
        var d := dids[k];
        var e := dependencies[d];
        ghost var rows := rows0 + EdgeList.EdgeRows(s, v, dids[..k]);
        ColumnsSnoc(src, dst, did, gid, rows, EdgeList.DepRow(s, v, d));
        src, dst, did, gid := src + [v], dst + [|versions| + e.toPackage], did + [d], gid + [e.group];
        EdgeList.EdgeRowsSnoc(s, v, dids, k);
        assert rows + [EdgeList.DepRow(s, v, d)] == rows0 + EdgeList.EdgeRows(s, v, dids[..k + 1]);
        k := k + 1;
      }
      assert dids[..k] == dids;
    }

    // ------------------------------------------------------------- query

    /**
     * `query_dependencies` with `use_gpu` false. `depth` is a Python `int`: a
     * negative one makes `range(depth)` empty, so no level is reported.
     */
    method Query(name: string, version: string, arch: string, depth: int) returns (res: seq<Level>)
      requires Valid()
      ensures depth <= 0 ==> res == []
      ensures depth >= 0 ==> res == Traversal.Query(View(), name, version, arch, depth, false)
    {
      if depth < 0 {
        // `res` starts as `range(depth)`, which is empty, and the level loop never runs
        return [];
      }
      res := EmptyLevels(depth);
      var frontier := SelectFrontier(name, version, arch);
      if |frontier| == 0 {
        assert frontier == [];
        TraversalFacts.EmptyFrontierLevels(View(), Elements(frontier), 0, depth, false);
        return;
      }
      var visited := set k | 0 <= k < |frontier| :: frontier[k];
      res := ScanLevels(res, frontier, visited, depth);
    }

    /** The level loop of `query_dependencies`: level `level` is written into `res[level]`. */
    method ScanLevels(res0: seq<Level>, frontier0: seq<nat>, visited0: set<nat>, depth: nat) returns (res: seq<Level>)
      requires Wf(View()) && |res0| == depth && Bounded(frontier0, |versions|)
      ensures res == Levels(View(), frontier0, visited0, 0, depth, false)
    {
      ghost var g := View();
      ghost var all := Levels(g, frontier0, visited0, 0, depth, false);
      res := res0;
      var frontier, visited := frontier0, visited0;
      var level := 0;
      while level < depth
        invariant 0 <= level <= depth && |res| == depth
        invariant Bounded(frontier, |g.arenas.versions|)
        invariant res[..level] + Levels(g, frontier, visited, level, depth, false) == all
      {
        var direct, orItems, next, visited' := ScanLevel(frontier, level + 1 < depth, visited);
        LevelAdvance(g, res, level, depth, frontier, visited, false, LevelState(direct, orItems, next, visited'), all);
        res := res[level := Level(direct, orItems)];
        frontier, visited := next, visited';
        level := level + 1;
      }
      assert res[..level] == res;
    }

    /** The frontier selection of `query_dependencies`. */
    method SelectFrontier(name: string, version: string, arch: string) returns (frontier: seq<nat>)
      requires Wf(View())
      ensures frontier == InitialFrontier(View(), name, version, arch)
    {
      ghost var g := View();
      frontier := [];
      if name !in nameToPackage {
        return;
      }
      var ids := packages[nameToPackage[name]].versionIds;
      VersionIdsBounded(g, nameToPackage[name]);
      assert ids[0..] == ids;
      var i := 0;
      while i < |ids|
        invariant 0 <= i <= |ids|
        invariant frontier + SelectVersions(g, ids[i..], version, arch) == SelectVersions(g, ids, version, arch)
      {
        var v := ids[i];
        SelectVersionsStep(g, ids, i, version, arch, frontier);
        var keep := (version == [] || versions[v].version == version)
                    && (arch == [] || architectures.symbols[versions[v].architecture] == arch);
        assert keep == Selected(g, v, version, arch);
        if keep {
          frontier := frontier + [v];
        }
        i := i + 1;
      }
      assert ids[i..] == [];
    }

    /** One level: the frontier loop, each version's OR-groups appended after its edges. */
    method ScanLevel(frontier: seq<nat>, expand: bool, visited0: set<nat>)
      returns (direct: seq<Item>, orItems: seq<seq<Item>>, next: seq<nat>, visited: set<nat>)
      requires Wf(View()) && Bounded(frontier, |versions|)
      ensures Bounded(next, |versions|)
      ensures LevelState(direct, orItems, next, visited) == ScanFrontier(View(), frontier, expand, false, Start(visited0))
    {
      ghost var g := View();
      direct, orItems, next, visited := [], [], [], visited0;
      var j := 0;
      while j < |frontier|
        invariant 0 <= j <= |frontier|
        invariant Bounded(next, |versions|)
        invariant ScanFrontier(g, frontier[j..], expand, false, LevelState(direct, orItems, next, visited))
                  == ScanFrontier(g, frontier, expand, false, Start(visited0))
      {
        var v := frontier[j];
        ghost var st := LevelState(direct, orItems, next, visited);
        var groupItems;
        direct, groupItems, next, visited := ScanVersionEdges(v, expand, direct, next, visited);
        orItems := AppendGroups(orItems, groupItems);
        assert LevelState(direct, orItems, next, visited) == ScanVersion(g, v, expand, false, st);
        assert frontier[j..][1..] == frontier[j + 1..];
        j := j + 1;
      }
    }

    /** The edge loop for frontier version `v`, with its own OR-group slots. */
    method ScanVersionEdges(v: nat, expand: bool, direct0: seq<Item>, next0: seq<nat>, visited0: set<nat>)
      returns (direct: seq<Item>, slots: seq<seq<Item>>, next: seq<nat>, visited: set<nat>)
      requires Wf(View()) && v < |versions| && Bounded(next0, |versions|)
      ensures Bounded(next, |versions|)
      ensures (EdgeIdsBounded(View(), v);
               Scan(direct, slots, next, visited)
               == ScanEdges(View(), v, versions[v].dependencyIds, expand, false, Scan(direct0, [], next0, visited0)))
    {
      ghost var g := View();
      var dids := versions[v].dependencyIds;
      EdgeIdsBounded(g, v);
      direct, slots, next, visited := direct0, [], next0, visited0;
      var k := 0;
      while k < |dids|
        invariant 0 <= k <= |dids|
        invariant Bounded(next, |versions|)
        invariant ScanEdges(g, v, dids[k..], expand, false, Scan(direct, slots, next, visited))
                  == ScanEdges(g, v, dids, expand, false, Scan(direct0, [], next0, visited0))
      {
        var d := dids[k];
        ghost var acc := Scan(direct, slots, next, visited);
        direct, slots, next, visited := ScanEdgeOf(v, d, expand, direct, slots, next, visited);
        assert dids[k..][1..] == dids[k + 1..];
        k := k + 1;
      }
    }

    /** The loop body for edge `d` of version `v`: report the item, then follow a plain `Depends` edge. */
    method ScanEdgeOf(v: nat, d: nat, expand: bool, direct0: seq<Item>, slots0: seq<seq<Item>>, next0: seq<nat>, visited0: set<nat>)
      returns (direct: seq<Item>, slots: seq<seq<Item>>, next: seq<nat>, visited: set<nat>)
      requires Wf(View()) && v < |versions| && d < |dependencies| && Bounded(next0, |versions|)
      ensures Bounded(next, |versions|)
      ensures Scan(direct, slots, next, visited) == ScanEdge(View(), v, d, expand, false, Scan(direct0, slots0, next0, visited0))
    {
      var e := dependencies[d];
      var item := EdgeItem(d);
      direct, slots, next, visited := direct0, slots0, next0, visited0;
      if e.group > 0 {
        slots := PlaceInGroup(slots, e.group, item);
      } else {
        direct := direct + [item];
      }
      if expand && dependencyTypes.symbols[e.dependencyType] == "Depends" && e.group == 0 {
        VersionIdsBounded(View(), e.toPackage);
        next, visited := AdmitCandidates(versions[v].architecture, e.architectureConstraint,
                                         packages[e.toPackage].versionIds, next, visited);
      }
    }

    /** The item dict built for edge `d`. */
    method EdgeItem(d: nat) returns (item: Item)
      requires Wf(View()) && d < |dependencies|
      ensures item == ItemOf(View(), d)
    {
      var e := dependencies[d];
      item := Item(packages[e.toPackage].name, dependencyTypes.symbols[e.dependencyType], e.versionConstraint,
                   architectures.symbols[e.architectureConstraint]);
    }

    /** The candidate loop over the target package's versions. */
    method AdmitCandidates(sourceArch: nat, constraint: nat, candidates: seq<nat>, next0: seq<nat>, visited0: set<nat>)
      returns (next: seq<nat>, visited: set<nat>)
      requires Wf(View()) && sourceArch < |architectures.symbols| && constraint < |architectures.symbols|
      requires Bounded(candidates, |versions|) && Bounded(next0, |versions|)
      ensures Bounded(next, |versions|)
      ensures (next, visited) == Admit(View(), sourceArch, constraint, candidates, next0, visited0)
    {
      next, visited := next0, visited0;
      var c := 0;
      while c < |candidates|
        invariant 0 <= c <= |candidates| && Bounded(next, |versions|)
        invariant Admit(View(), sourceArch, constraint, candidates[c..], next, visited)
                  == Admit(View(), sourceArch, constraint, candidates, next0, visited0)
      {
        var cand := candidates[c];
        assert candidates[c..][1..] == candidates[c + 1..];
        if cand !in visited {
          var isMatch;
          if architectures.symbols[constraint] == "native" {
            isMatch := versions[cand].architecture == sourceArch || architectures.symbols[versions[cand].architecture] == "all";
          } else if architectures.symbols[constraint] == "any" {
            isMatch := true;
          } else {
            isMatch := versions[cand].architecture == constraint;
          }
          if isMatch {
            next, visited := next + [cand], visited + {cand};
          }
        }
        c := c + 1;
      }
    }
  }
}
