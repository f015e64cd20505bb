/**
 * The append-only in-memory graph arenas shared by py/dependency_graph.py,
 * src/dependency_graph.cpp and src/buffer_graph.cpp: packages deduplicated by
 * name, versions deduplicated by (version string, architecture) within their
 * package, dependency edges never deduplicated. A node's id is its index in
 * its arena (the Python node objects carry the same number in their `id`
 * field and are reached by reference; here they are reached by index).
 */
module Arenas {
  import opened Wrappers

  datatype PackageNode = PackageNode(name: string, versionIds: seq<nat>)

  datatype VersionNode = VersionNode(version: string, architecture: nat, dependencyIds: seq<nat>)

  datatype DependencyEdge = DependencyEdge(fromVersion: nat, toPackage: nat, versionConstraint: string,
                                           architectureConstraint: nat, dependencyType: nat, group: nat)

  /** The three arenas and the name index. */
  datatype Store = Store(packages: seq<PackageNode>, versions: seq<VersionNode>,
                         edges: seq<DependencyEdge>, names: map<string, nat>)

  /** A freshly constructed (or cleared) graph. */
  const Empty: Store := Store([], [], [], map[])

  predicate Increasing(ids: seq<nat>)
  {
    forall i, j :: 0 <= i < j < |ids| ==> ids[i] < ids[j]
  }

  /** Every id stored in the arenas or the name index points into its arena. */
  ghost predicate Indexed(s: Store)
  {
    && (forall n :: n in s.names ==> s.names[n] < |s.packages|)
    && (forall p, k :: 0 <= p < |s.packages| && 0 <= k < |s.packages[p].versionIds| ==>
          s.packages[p].versionIds[k] < |s.versions|)
    && (forall v, k :: 0 <= v < |s.versions| && 0 <= k < |s.versions[v].dependencyIds| ==>
          s.versions[v].dependencyIds[k] < |s.edges|)
    && (forall d :: 0 <= d < |s.edges| ==> s.edges[d].toPackage < |s.packages|)
  }

  /** The name index maps every name to the package carrying it, and every package is indexed. */
  ghost predicate NamesValid(s: Store)
  {
    && (forall n :: n in s.names ==> s.names[n] < |s.packages| && s.packages[s.names[n]].name == n)
    && (forall p :: 0 <= p < |s.packages| ==> s.packages[p].name in s.names && s.names[s.packages[p].name] == p)
  }

  /** Each package lists existing versions, in creation order, with no two equal (version, architecture). */
  ghost predicate VersionListsValid(s: Store)
  {
    && (forall p :: 0 <= p < |s.packages| ==> Increasing(s.packages[p].versionIds))
    && (forall p, k :: 0 <= p < |s.packages| && 0 <= k < |s.packages[p].versionIds| ==>
          s.packages[p].versionIds[k] < |s.versions|)
    && (forall p, i, j :: 0 <= p < |s.packages| && 0 <= i < j < |s.packages[p].versionIds| ==>
          SameKey(s.versions, s.packages[p].versionIds[i], s.packages[p].versionIds[j]) == false)
  }

  /** Each version lists exactly the edges leaving it, in creation order. */
  ghost predicate EdgeListsValid(s: Store)
  {
    && (forall v :: 0 <= v < |s.versions| ==> Increasing(s.versions[v].dependencyIds))
    && (forall v, k :: 0 <= v < |s.versions| && 0 <= k < |s.versions[v].dependencyIds| ==>
          s.versions[v].dependencyIds[k] < |s.edges| && s.edges[s.versions[v].dependencyIds[k]].fromVersion == v)
    && (forall d :: 0 <= d < |s.edges| ==>
          s.edges[d].fromVersion < |s.versions| && s.edges[d].toPackage < |s.packages|
          && d in s.versions[s.edges[d].fromVersion].dependencyIds)
  }

  ghost predicate Valid(s: Store)
  {
    NamesValid(s) && VersionListsValid(s) && EdgeListsValid(s)
  }

  /** The invariant keeps every id in range. */
  lemma ValidIndexed(s: Store)
    requires Valid(s)
    ensures Indexed(s)
  {
  }

  /** Two versions that the dedup rule treats as the same node. */
  function SameKey(versions: seq<VersionNode>, a: nat, b: nat): bool
    requires a < |versions| && b < |versions|
  {
    versions[a].version == versions[b].version && versions[a].architecture == versions[b].architecture
  }

  /** The version `v` has the given version string and architecture. */
  predicate HasKey(versions: seq<VersionNode>, v: nat, version: string, arch: nat)
    requires v < |versions|
  {
    versions[v].version == version && versions[v].architecture == arch
  }

  /** The first id in `ids` whose version has the given key: what the `create_version` scans find. */
  function FindVersion(versions: seq<VersionNode>, ids: seq<nat>, version: string, arch: nat): (r: Option<nat>)
    requires forall k :: 0 <= k < |ids| ==> ids[k] < |versions|
    ensures r.None? <==> forall k :: 0 <= k < |ids| ==> !HasKey(versions, ids[k], version, arch)
    ensures r.Some? ==> exists k :: 0 <= k < |ids| && ids[k] == r.value && HasKey(versions, r.value, version, arch)
  {
    if ids == [] then None
    else if HasKey(versions, ids[0], version, arch) then Some(ids[0])
    else
      var r := FindVersion(versions, ids[1..], version, arch);
      assert r.Some? ==> ids[1..] <= ids[1..] && r.value in ids[1..];
      r
  }

  /** The scanning loop of every `create_version`. */
  method ScanVersions(versions: seq<VersionNode>, ids: seq<nat>, version: string, arch: nat) returns (r: Option<nat>)
    requires forall k :: 0 <= k < |ids| ==> ids[k] < |versions|
    ensures r == FindVersion(versions, ids, version, arch)
  {
    var i := 0;
    while i < |ids|
      invariant 0 <= i <= |ids|
      invariant FindVersion(versions, ids[i..], version, arch) == FindVersion(versions, ids, version, arch)
    {
      if HasKey(versions, ids[i], version, arch) {
        return Some(ids[i]);
      }
      assert ids[i..][1..] == ids[i + 1..];
      i := i + 1;
    }
    return None;
  }

  /**
   * `create_package`: the package already carrying `name`, or a new one at
   * the end of the arena, registered in the name index.
   */
  function AddPackage(s: Store, name: string): (r: (Store, nat, bool))
    requires Valid(s)
    ensures Valid(r.0)
    ensures r.1 < |r.0.packages| && r.0.packages[r.1].name == name && r.0.names[name] == r.1
    ensures r.2 <==> name !in s.names
    ensures r.2 ==> r.1 == |s.packages| && r.0.packages == s.packages + [PackageNode(name, [])]
    ensures !r.2 ==> r.0 == s
    ensures r.0.versions == s.versions && r.0.edges == s.edges
  {
    if name in s.names then (s, s.names[name], false)
    else
      var pid := |s.packages|;
      var t := s.(packages := s.packages + [PackageNode(name, [])], names := s.names[name := pid]);
      NewPackageValid(s, name);
      (t, pid, true)
  }

  /** Appending a package under a new name, indexed at its position, keeps the store valid. */
  lemma NewPackageValid(s: Store, name: string)
    requires Valid(s) && name !in s.names
    ensures Valid(s.(packages := s.packages + [PackageNode(name, [])], names := s.names[name := |s.packages|]))
  {
    NewPackageNames(s, name);
    NewPackageLists(s, name);
  }

  lemma NewPackageNames(s: Store, name: string)
    requires NamesValid(s) && name !in s.names
    ensures NamesValid(s.(packages := s.packages + [PackageNode(name, [])], names := s.names[name := |s.packages|]))
  {
    var pid := |s.packages|;
    var t := s.(packages := s.packages + [PackageNode(name, [])], names := s.names[name := pid]);
    forall p | 0 <= p < |t.packages| ensures t.packages[p].name in t.names && t.names[t.packages[p].name] == p {
      if p < pid {
        assert t.packages[p] == s.packages[p];
      }
    }
  }

  lemma NewPackageLists(s: Store, name: string)
    requires VersionListsValid(s) && EdgeListsValid(s)
    ensures var t := s.(packages := s.packages + [PackageNode(name, [])], names := s.names[name := |s.packages|]);
            VersionListsValid(t) && EdgeListsValid(t)
  {
    var t := s.(packages := s.packages + [PackageNode(name, [])], names := s.names[name := |s.packages|]);
    assert forall p :: 0 <= p < |s.packages| ==> t.packages[p] == s.packages[p];
  }

  /**
   * `create_version`: the first version of the package with the same version
   * string and architecture, or a new version (without edges) appended to the
   * arena and to the package's list.
   */
  function AddVersion(s: Store, pid: nat, version: string, arch: nat): (r: (Store, nat, bool))
    requires Valid(s) && pid < |s.packages|
    ensures Valid(r.0)
    ensures |r.0.packages| == |s.packages|
    ensures r.1 < |r.0.versions| && HasKey(r.0.versions, r.1, version, arch) && r.1 in r.0.packages[pid].versionIds
    ensures r.2 <==> forall k :: 0 <= k < |s.packages[pid].versionIds| ==>
                       !HasKey(s.versions, s.packages[pid].versionIds[k], version, arch)
    ensures r.2 ==> r.1 == |s.versions| && r.0.versions == s.versions + [VersionNode(version, arch, [])]
                    && r.0.packages == s.packages[pid := PackageNode(s.packages[pid].name, s.packages[pid].versionIds + [r.1])]
    ensures !r.2 ==> r.0 == s
    ensures r.0.edges == s.edges && r.0.names == s.names
  {
    match FindVersion(s.versions, s.packages[pid].versionIds, version, arch)
    case Some(v) => (s, v, false)
    case None =>
      WithVersionValid(s, pid, version, arch);
      (WithVersion(s, pid, version, arch), |s.versions|, true)
  }

  /** The arenas after appending a new version to package `pid`. */
  function WithVersion(s: Store, pid: nat, version: string, arch: nat): Store
    requires pid < |s.packages|
  {
    s.(versions := s.versions + [VersionNode(version, arch, [])],
       packages := s.packages[pid := s.packages[pid].(versionIds := s.packages[pid].versionIds + [|s.versions|])])
  }

  lemma WithVersionValid(s: Store, pid: nat, version: string, arch: nat)
    requires Valid(s) && pid < |s.packages|
    requires FindVersion(s.versions, s.packages[pid].versionIds, version, arch).None?
    ensures Valid(WithVersion(s, pid, version, arch))
  {
    var t := WithVersion(s, pid, version, arch);
    assert NamesValid(t);
    WithVersionLists(s, pid, version, arch);
    WithVersionEdges(s, pid, version, arch);
  }

  lemma WithVersionLists(s: Store, pid: nat, version: string, arch: nat)
    requires VersionListsValid(s) && pid < |s.packages|
    requires FindVersion(s.versions, s.packages[pid].versionIds, version, arch).None?
    ensures VersionListsValid(WithVersion(s, pid, version, arch))
  {
    var t := WithVersion(s, pid, version, arch);
    var ids := s.packages[pid].versionIds;
    forall p | 0 <= p < |t.packages| ensures Increasing(t.packages[p].versionIds) {
      if p == pid {
        assert forall k :: 0 <= k < |ids| ==> ids[k] < |s.versions|;
      }
    }
    forall p, i, j | 0 <= p < |t.packages| && 0 <= i < j < |t.packages[p].versionIds|
      ensures !SameKey(t.versions, t.packages[p].versionIds[i], t.packages[p].versionIds[j])
    {
      if p == pid && j == |ids| {
        assert !HasKey(s.versions, ids[i], version, arch);
      } else {
        assert !SameKey(s.versions, s.packages[p].versionIds[i], s.packages[p].versionIds[j]);
      }
    }
  }

  lemma WithVersionEdges(s: Store, pid: nat, version: string, arch: nat)
    requires EdgeListsValid(s) && pid < |s.packages|
    ensures EdgeListsValid(WithVersion(s, pid, version, arch))
  {
    var t := WithVersion(s, pid, version, arch);
    assert forall v :: 0 <= v < |s.versions| ==> t.versions[v] == s.versions[v];
  }

  /**
   * `create_dependency`: a new edge appended to the arena and to its source
   * version's list; never deduplicated.
   */
  function AddDependency(s: Store, from: nat, to: nat, versionConstraint: string, archConstraint: nat,
                         dependencyType: nat, group: nat): (r: (Store, nat))
    requires Valid(s) && from < |s.versions| && to < |s.packages|
    ensures Valid(r.0)
    ensures r.1 == |s.edges|
    ensures r.0.edges == s.edges + [DependencyEdge(from, to, versionConstraint, archConstraint, dependencyType, group)]
    ensures r.0.versions == s.versions[from := s.versions[from].(dependencyIds := s.versions[from].dependencyIds + [r.1])]
    ensures r.0.packages == s.packages && r.0.names == s.names
  {
    WithDependencyValid(s, from, to, versionConstraint, archConstraint, dependencyType, group);
    (WithDependency(s, from, to, versionConstraint, archConstraint, dependencyType, group), |s.edges|)
  }

  /** The arenas after appending a new edge leaving `from`. */
  function WithDependency(s: Store, from: nat, to: nat, versionConstraint: string, archConstraint: nat,
                          dependencyType: nat, group: nat): Store
    requires from < |s.versions|
  {
    s.(edges := s.edges + [DependencyEdge(from, to, versionConstraint, archConstraint, dependencyType, group)],
       versions := s.versions[from := s.versions[from].(dependencyIds := s.versions[from].dependencyIds + [|s.edges|])])
  }

  lemma WithDependencyValid(s: Store, from: nat, to: nat, versionConstraint: string, archConstraint: nat,
                            dependencyType: nat, group: nat)
    requires Valid(s) && from < |s.versions| && to < |s.packages|
    ensures Valid(WithDependency(s, from, to, versionConstraint, archConstraint, dependencyType, group))
  {
    var t := WithDependency(s, from, to, versionConstraint, archConstraint, dependencyType, group);
    assert NamesValid(t);
    WithDependencyLists(s, from, to, versionConstraint, archConstraint, dependencyType, group);
    WithDependencyEdges(s, from, to, versionConstraint, archConstraint, dependencyType, group);
  }

  lemma WithDependencyLists(s: Store, from: nat, to: nat, versionConstraint: string, archConstraint: nat,
                            dependencyType: nat, group: nat)
    requires VersionListsValid(s) && from < |s.versions|
    ensures VersionListsValid(WithDependency(s, from, to, versionConstraint, archConstraint, dependencyType, group))
  {
    var t := WithDependency(s, from, to, versionConstraint, archConstraint, dependencyType, group);
    forall p, i, j | 0 <= p < |t.packages| && 0 <= i < j < |t.packages[p].versionIds|
      ensures !SameKey(t.versions, t.packages[p].versionIds[i], t.packages[p].versionIds[j])
    {
      assert !SameKey(s.versions, s.packages[p].versionIds[i], s.packages[p].versionIds[j]);
    }
  }

  lemma WithDependencyEdges(s: Store, from: nat, to: nat, versionConstraint: string, archConstraint: nat,
                            dependencyType: nat, group: nat)
    requires EdgeListsValid(s) && from < |s.versions| && to < |s.packages|
    ensures EdgeListsValid(WithDependency(s, from, to, versionConstraint, archConstraint, dependencyType, group))
  {
    var t := WithDependency(s, from, to, versionConstraint, archConstraint, dependencyType, group);
    var did := |s.edges|;
    forall v | 0 <= v < |t.versions| ensures Increasing(t.versions[v].dependencyIds) {
      if v == from {
        assert forall k :: 0 <= k < |s.versions[v].dependencyIds| ==> s.versions[v].dependencyIds[k] < did;
      }
    }
    forall d | 0 <= d < |t.edges|
      ensures d in t.versions[t.edges[d].fromVersion].dependencyIds
    {
      if d < did {
        assert d in s.versions[s.edges[d].fromVersion].dependencyIds;
      } else {
        assert t.versions[from].dependencyIds[|t.versions[from].dependencyIds| - 1] == d;
      }
    }
  }

  /** A second `create_package` of the same name returns the same package and changes nothing. */
  lemma AddPackageIdempotent(s: Store, name: string)
    requires Valid(s)
    ensures var (t, pid, _) := AddPackage(s, name);
            AddPackage(t, name) == (t, pid, false)
  {
  }

  /** A second `create_version` with the same key returns the same version and changes nothing. */
  lemma AddVersionIdempotent(s: Store, pid: nat, version: string, arch: nat)
    requires Valid(s) && pid < |s.packages|
    ensures var (t, vid, _) := AddVersion(s, pid, version, arch);
            AddVersion(t, pid, version, arch) == (t, vid, false)
  {
    var (t, vid, created) := AddVersion(s, pid, version, arch);
    var ids := t.packages[pid].versionIds;
    var r := FindVersion(t.versions, ids, version, arch);
    assert r.Some?;
    var k :| 0 <= k < |ids| && ids[k] == r.value && HasKey(t.versions, r.value, version, arch);
    var j :| 0 <= j < |ids| && ids[j] == vid;
    assert SameKey(t.versions, ids[k], ids[j]);
  }

  /** Versions of one package that differ in architecture are different nodes. */
  lemma ArchitectureSeparatesVersions(s: Store, pid: nat, version: string, a1: nat, a2: nat)
    requires Valid(s) && pid < |s.packages| && a1 != a2
    ensures var (t, v1, _) := AddVersion(s, pid, version, a1);
            AddVersion(t, pid, version, a2).1 != v1
  {
  }

  /** Two names get the same package exactly when they are equal. */
  lemma PackagesByName(s: Store, n1: string, n2: string)
    requires Valid(s)
    ensures var (t, p1, _) := AddPackage(s, n1);
            (AddPackage(t, n2).1 == p1 <==> n1 == n2)
  {
  }
}
