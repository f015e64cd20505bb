/**
 * `BufferGraph` of src/buffer_graph.cpp: the staging graph the loader fills
 * before `DiskGraph::ingest`. Same arenas and dedup rules as the in-memory
 * graphs, no symbol tables; each `create_*` also says whether it created.
 */
module BufferGraph {
  import opened Arenas

  class BufferGraph {
    /** `package_nodes_`. */
    var packages: seq<PackageNode>
    /** `version_nodes_`. */
    var versions: seq<VersionNode>
    /** `dependency_edges_`. */
    var dependencies: seq<DependencyEdge>
    /** `name_to_package_id_`. */
    var nameToPackage: map<string, nat>

    /** The arenas and the name index as one value. */
    function Contents(): Store
      reads this
    {
      Store(packages, versions, dependencies, nameToPackage)
    }

    ghost predicate Valid()
      reads this
    {
      Arenas.Valid(Contents())
    }

    /** The defaulted constructor: all arenas empty. */
    constructor ()
      ensures Valid() && Contents() == Empty
    {
      packages, versions, dependencies, nameToPackage := [], [], [], map[];
    }

    /** `create_package`: `(existing id, false)` for a known name, else `(package_count(), true)`. */
    method CreatePackage(name: string) returns (pid: nat, created: bool)
      requires Valid()
      modifies this
      ensures Valid()
      ensures (Contents(), pid, created) == AddPackage(old(Contents()), name)
    {
      pid := |packages|;
      if name in nameToPackage {
        return nameToPackage[name], false;
      }
      ghost var r := AddPackage(Contents(), name);
      nameToPackage := nameToPackage[name := pid];
      packages := packages + [PackageNode(name, [])];
      created := true;
      assert Contents() == r.0;
    }

    /** `create_version`: `(vid, false)` for an equal (version, arch) of the package, else a new version. */
    method CreateVersion(pid: nat, version: string, arch: nat) returns (vid: nat, created: bool)
      requires Valid() && pid < |packages|
      modifies this
      ensures Valid()
      ensures (Contents(), vid, created) == AddVersion(old(Contents()), pid, version, arch)
    {
      var found := ScanVersions(versions, packages[pid].versionIds, version, arch);
      if found.Some? {
        return found.value, false;
      }
      ghost var r := AddVersion(Contents(), pid, version, arch);
      vid := |versions|;
      packages := packages[pid := packages[pid].(versionIds := packages[pid].versionIds + [vid])];
      versions := versions + [VersionNode(version, arch, [])];
      created := true;
      assert Contents() == r.0;
    }

    /** `create_dependency`: always `(dependency_count(), true)`, the id recorded in the source version. */
    method CreateDependency(from: nat, to: nat, versionConstraint: string, archConstraint: nat,
                            dependencyType: nat, group: nat) returns (did: nat, created: bool)
      requires Valid() && from < |versions| && to < |packages|
      modifies this
      ensures Valid() && created
      ensures (Contents(), did) == AddDependency(old(Contents()), from, to, versionConstraint, archConstraint, dependencyType, group)
    {
      ghost var r := AddDependency(Contents(), from, to, versionConstraint, archConstraint, dependencyType, group);
      did := |dependencies|;
      versions := versions[from := versions[from].(dependencyIds := versions[from].dependencyIds + [did])];
      dependencies := dependencies + [DependencyEdge(from, to, versionConstraint, archConstraint, dependencyType, group)];
      created := true;
      assert Contents() == r.0;
    }

    /** `clear`: all three arenas and the name map emptied. */
    method Clear()
      modifies this
      ensures Valid() && Contents() == Empty
    {
      packages, versions, dependencies, nameToPackage := [], [], [], map[];
    }
  }
}
