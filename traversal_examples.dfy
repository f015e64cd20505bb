/**
 * A worked query: package A has one version with a `Depends` edge to B
 * outside any OR-group and two `Depends` edges to C and D in OR-group 1.
 */
module TraversalExamples {
  import opened Arenas
  import opened Types
  import opened Traversal
  import opened TraversalFacts
  import BasicTypes

  const Archs: seq<string> := ["native", "any", "all", "amd64"]

  function SampleGraph(): (g: Graph)
    ensures Wf(g)
  {
    SampleWf();
    Graph(SampleStore(), Archs, BasicTypes.DependencyTypeNames)
  }

  function Dep(name: string): Item
  {
    Item(name, "Depends", "", "native")
  }

  function SampleStore(): Store
  {
    Store(
        [PackageNode("A", [0]), PackageNode("B", [1]), PackageNode("C", [2]), PackageNode("D", [3])],
        [VersionNode("1", 3, [0, 1, 2]), VersionNode("1", 3, []), VersionNode("1", 3, []), VersionNode("1", 3, [])],
        [DependencyEdge(0, 1, "", 0, 0, 0), DependencyEdge(0, 2, "", 0, 0, 1), DependencyEdge(0, 3, "", 0, 0, 1)],
        map["A" := 0, "B" := 1, "C" := 2, "D" := 3])
  }

  lemma SampleWf()
    ensures Wf(Graph(SampleStore(), Archs, BasicTypes.DependencyTypeNames))
  {
    var s := SampleStore();
    SampleValid();
    ValidIndexed(s);
    forall v | 0 <= v < |s.versions| ensures s.versions[v].architecture < |Archs| {
      assert v == 0 || v == 1 || v == 2 || v == 3;
    }
    forall d | 0 <= d < |s.edges|
      ensures s.edges[d].architectureConstraint < |Archs| && s.edges[d].dependencyType < |BasicTypes.DependencyTypeNames|
    {
      assert d == 0 || d == 1 || d == 2;
    }
  }

  /** The sample store satisfies every invariant of the arenas. */
  lemma SampleValid()
    ensures Valid(SampleStore())
  {
    SampleNames();
    SampleVersionLists();
    SampleEdgeLists();
  }

  lemma SampleNames()
    ensures NamesValid(SampleStore())
  {
    var s := SampleStore();
    forall p | 0 <= p < |s.packages| ensures s.packages[p].name in s.names && s.names[s.packages[p].name] == p {
      assert p == 0 || p == 1 || p == 2 || p == 3;
    }
  }

  lemma SampleVersionLists()
    ensures VersionListsValid(SampleStore())
  {
    var s := SampleStore();
    forall p | 0 <= p < |s.packages| ensures |s.packages[p].versionIds| == 1 && s.packages[p].versionIds[0] == p {
      assert p == 0 || p == 1 || p == 2 || p == 3;
    }
  }

  lemma SampleEdgeLists()
    ensures EdgeListsValid(SampleStore())
  {
    var s := SampleStore();
    SampleEdgeIds();
    assert Increasing([0, 1, 2]) && Increasing([]);
    forall v, k | 0 <= v < |s.versions| && 0 <= k < |s.versions[v].dependencyIds|
      ensures s.versions[v].dependencyIds[k] < |s.edges| && s.edges[s.versions[v].dependencyIds[k]].fromVersion == v
    {
      assert v == 0 && s.versions[0].dependencyIds[k] == k;
    }
    forall d | 0 <= d < |s.edges|
      ensures s.edges[d].fromVersion == 0 && s.edges[d].toPackage < |s.packages| && d in s.versions[0].dependencyIds
    {
      assert s.versions[0].dependencyIds[d] == d;
    }
  }

  lemma SampleEdgeIds()
    ensures forall v :: 0 <= v < |SampleStore().versions| ==>
              SampleStore().versions[v].dependencyIds == if v == 0 then [0, 1, 2] else []
  {
    var s := SampleStore();
    forall v | 0 <= v < |s.versions| ensures s.versions[v].dependencyIds == if v == 0 then [0, 1, 2] else [] {
      assert v == 0 || v == 1 || v == 2 || v == 3;
    }
  }

  /** At depth 1, querying A reports B as a direct item and [C, D] as one OR-group, in both versions of the query. */
  lemma SampleQuery(dedup: bool)
    ensures Query(SampleGraph(), "A", "", "", 1, dedup) == [Level([Dep("B")], [[Dep("C"), Dep("D")]])]
  {
    var g := SampleGraph();
    SampleFrontier();
    assert Elements([0]) == {0};
    var levels := Levels(g, [0], {0}, 0, 1, dedup);
    assert Query(g, "A", "", "", 1, dedup) == levels;
    LevelReport(g, [0], {0}, 0, 1, dedup);
    SampleDirect(dedup);
    SampleGroups(dedup);
    assert levels == [levels[0]];
  }

  lemma SampleFrontier()
    ensures InitialFrontier(SampleGraph(), "A", "", "") == [0]
  {
    NoFilterSelectsAll(SampleGraph(), [0]);
  }

  lemma SampleDirect(dedup: bool)
    ensures (if dedup then Dedup(FrontierDirect(SampleGraph(), [0])) else FrontierDirect(SampleGraph(), [0])) == [Dep("B")]
  {
    var g := SampleGraph();
    SampleDirectEdges();
    assert FrontierDirect(g, [0]) == [Dep("B")];
    assert Dedup([Dep("B")]) == [Dep("B")];
  }

  /** Of A's three edges only the first, to B, has group 0. */
  lemma SampleDirectEdges()
    ensures DirectItems(SampleGraph(), SampleGraph().arenas.versions[0].dependencyIds) == [Dep("B")]
  {
    var g := SampleGraph();
    var dids := g.arenas.versions[0].dependencyIds;
    assert dids == [0, 1, 2] && dids[1..] == [1, 2] && dids[2..] == [2] && dids[3..] == [];
    assert DirectItems(g, [2]) == [];
    assert DirectItems(g, [1, 2]) == [];
  }

  lemma SampleGroups(dedup: bool)
    ensures FrontierGroups(SampleGraph(), [0], dedup) == [[Dep("C"), Dep("D")]]
  {
    var g := SampleGraph();
    var dids := g.arenas.versions[0].dependencyIds;
    assert dids == [0, 1, 2] && dids[1..] == [1, 2] && dids[2..] == [2] && dids[3..] == [];
    assert MaxGroup(g, dids) == 1;
    assert GroupItems(g, [2], 1) == [Dep("D")];
    assert GroupItems(g, dids, 1) == [Dep("C"), Dep("D")];
    assert PutAll([], [Dep("C"), Dep("D")], dedup) == [Dep("C"), Dep("D")];
    assert VersionSlots(g, 0, dedup) == [[Dep("C"), Dep("D")]];
  }
}
