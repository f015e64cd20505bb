/**
 * `DiskGraph` of src/disk_graph.cpp: the persistent graph. Each arena is a
 * field the methods reassign; every method is proved to do what the
 * matching function of `DiskStore` says, and the properties of the layout
 * are proved about those functions.
 */
module DiskGraph {
  import opened Wrappers
  import opened StringPools
  import opened DiskStore
  import Arenas
  import BufferGraph

  class DiskGraph {
    /** `package_nodes_`. */
    var packages: seq<PackageRecord>
    /** `version_nodes_`. */
    var versions: seq<VersionRecord>
    /** `dependency_edges_`. */
    var edges: seq<EdgeRecord>
    /** `version_lists_`. */
    var lists: seq<VersionList>
    /** `string_pool_`. */
    var pool: string
    /** `name_to_package_id_`, keyed by the text a handle resolves to. */
    var names: map<string, nat>
    /** The control block. */
    var control: Control
    /** `architectures_.size()` and `dependency_types_.size()`. */
    var architectureCount: nat
    var dependencyTypeCount: nat

    function Contents(): Disk
      reads this
    {
      Disk(packages, versions, edges, lists, pool, names)
    }

    ghost predicate Valid()
      reads this
    {
      DiskStore.Valid(Contents())
    }

    /** A graph whose files were just created: empty arenas and the given symbol counts. */
    constructor (architectureCount: nat, dependencyTypeCount: nat)
      ensures Valid() && Contents() == Empty && ValidateControl()
      ensures this.architectureCount == architectureCount && this.dependencyTypeCount == dependencyTypeCount
    {
      packages, versions, edges, lists, pool, names := [], [], [], [], [], map[];
      this.architectureCount, this.dependencyTypeCount := architectureCount, dependencyTypeCount;
      control := Control(Magic, architectureCount, dependencyTypeCount, 0, 0, 0, 0, 0);
    }

    /** `validate_control`, check by check. */
    predicate ValidateControl()
      reads this
      ensures ValidateControl() <==> ControlValid(control, Contents(), architectureCount, dependencyTypeCount)
    {
      if control.magic != Magic then false
      else if control.packageCount != |packages| then false
      else if control.versionCount != |versions| then false
      else if control.dependencyCount != |edges| then false
      else if control.versionListCount != |lists| then false
      else if control.architectureCount != architectureCount then false
      else if control.dependencyTypeCount != dependencyTypeCount then false
      else control.stringPoolSize == |pool|
    }

    /** The counter updates of `sync`; the magic is left as it is. */
    method Sync()
      modifies this
      ensures control == Synced(old(control), Contents(), architectureCount, dependencyTypeCount)
      ensures ValidateControl() <==> old(control).magic == Magic
      ensures Contents() == old(Contents())
      ensures architectureCount == old(architectureCount) && dependencyTypeCount == old(dependencyTypeCount)
    {
      control := control.(packageCount := |packages|, versionCount := |versions|, dependencyCount := |edges|,
                          versionListCount := |lists|, architectureCount := architectureCount,
                          dependencyTypeCount := dependencyTypeCount, stringPoolSize := |pool|);
    }

    /** `create_package`. */
    method CreatePackage(name: string) returns (pid: nat, created: bool)
      requires Valid()
      modifies this
      ensures Valid() && (Contents(), pid, created) == PackageAdded(old(Contents()), name)
      ensures control == old(control) && architectureCount == old(architectureCount)
      ensures dependencyTypeCount == old(dependencyTypeCount)
    {
      if name in names {
        return names[name], false;
      }
      ghost var r := PackageAdded(Contents(), name);
      pid := |packages|;
      var (grown, handle) := Added(pool, name);
      var key := Resolve(grown, handle);
      packages := packages + [PackageRecord(handle, EndList)];
      pool := grown;
      if key !in names {
        names := names[key := pid];
      }
      created := true;
      assert Contents() == r.0;
    }

    /** The inner scan of `create_version` over one list's id range. */
    method ScanList(l: VersionList, ghost rest: seq<nat>, version: string, arch: nat) returns (found: Option<nat>)
      requires Scannable(Contents(), Span(l.begin, l.count) + rest) && Scannable(Contents(), rest)
      ensures found.Some? ==> found == FirstMatch(Contents(), Span(l.begin, l.count) + rest, version, arch)
      ensures found.None? ==> FirstMatch(Contents(), Span(l.begin, l.count) + rest, version, arch)
                              == FirstMatch(Contents(), rest, version, arch)
    {
      ghost var d := Contents();
      ghost var target := FirstMatch(d, Span(l.begin, l.count) + rest, version, arch);
      var vid := l.begin;
      while vid < l.begin + l.count
        invariant l.begin <= vid <= l.begin + l.count
        invariant Scannable(d, Span(vid, l.begin + l.count - vid) + rest)
        invariant FirstMatch(d, Span(vid, l.begin + l.count - vid) + rest, version, arch) == target
      {
        FirstMatchFront(d, vid, l.begin + l.count - vid, rest, version, arch);
        var text := Resolve(pool, versions[vid].version);
        if text == version && versions[vid].architecture == arch {
          return Some(vid);
        }
        vid := vid + 1;
      }
      assert Span(vid, 0) + rest == rest;
      return None;
    }

    /** `create_version`: the chain scan, then a new unattached version. */
    method CreateVersion(pid: nat, version: string, arch: nat, didBegin: nat, dcount: nat) returns (vid: nat, created: bool)
      requires Valid() && pid < |packages|
      modifies this
      ensures Valid() && (Contents(), vid, created) == VersionAdded(old(Contents()), pid, version, arch, didBegin, dcount)
      ensures control == old(control) && architectureCount == old(architectureCount)
      ensures dependencyTypeCount == old(dependencyTypeCount)
    {
      ghost var all := PackageVersions(Contents(), pid);
      assert PackageValid(Contents(), pid);
      var vlid := packages[pid].versionList;
      ChainScannable(Contents(), vlid);
      while vlid != EndList
        invariant Contents() == old(Contents()) && Valid() && ListsValid(lists, |versions|) && HeadIn(vlid, |lists|)
        invariant control == old(control) && architectureCount == old(architectureCount)
        invariant dependencyTypeCount == old(dependencyTypeCount)
        invariant Scannable(Contents(), Chain(lists, vlid))
        invariant FirstMatch(Contents(), Chain(lists, vlid), version, arch) == FirstMatch(Contents(), all, version, arch)
        decreases if vlid == EndList then 0 else vlid + 1
      {
        var l := lists[vlid];
        assert HeadIn(l.next, |lists|) && Chain(lists, vlid) == Span(l.begin, l.count) + Chain(lists, l.next);
        ChainScannable(Contents(), l.next);
        var found := ScanList(l, Chain(lists, l.next), version, arch);
        if found.Some? {
          return found.value, false;
        }
        vlid := l.next;
      }
      ghost var r := VersionAdded(Contents(), pid, version, arch, didBegin, dcount);
      var (grown, handle) := Added(pool, version);
      vid := |versions|;
      versions := versions + [VersionRecord(handle, arch, dcount, didBegin)];
      pool := grown;
      created := true;
      assert Contents() == r.0;
    }

    /** `create_dependency`. */
    method CreateDependency(from: nat, to: nat, versionConstraint: string, archConstraint: nat,
                            dependencyType: nat, group: nat) returns (did: nat, created: bool)
      requires Valid()
      modifies this
      ensures Valid() && created
      ensures (Contents(), did) == DependencyAdded(old(Contents()), from, to, versionConstraint, archConstraint, dependencyType, group)
      ensures control == old(control) && architectureCount == old(architectureCount)
      ensures dependencyTypeCount == old(dependencyTypeCount)
    {
      ghost var r := DependencyAdded(Contents(), from, to, versionConstraint, archConstraint, dependencyType, group);
      did := |edges|;
      var (grown, handle) := Added(pool, versionConstraint);
      edges := edges + [EdgeRecord(from, to, handle, archConstraint, dependencyType, group)];
      pool := grown;
      created := true;
      assert Contents() == r.0;
    }

    /** `attach_versions`. */
    method AttachVersions(pid: nat, vidBegin: nat, vcount: nat)
      requires Valid() && pid < |packages| && vidBegin + vcount <= |versions|
      modifies this
      ensures Valid() && Contents() == VersionsAttached(old(Contents()), pid, vidBegin, vcount)
      ensures control == old(control) && architectureCount == old(architectureCount)
      ensures dependencyTypeCount == old(dependencyTypeCount)
    {
      if vcount == 0 {
        return;
      }
      ghost var r := VersionsAttached(Contents(), pid, vidBegin, vcount);
      var vlid := |lists| % ListRange;
      lists := lists + [VersionList(vcount, vidBegin, packages[pid].versionList)];
      packages := packages[pid := packages[pid].(versionList := vlid)];
      assert Contents() == r;
    }

    /** The inner loop of `get_package`: append one list's ids in ascending order. */
    static method AppendRange(vids: seq<nat>, begin: nat, count: nat) returns (r: seq<nat>)
      ensures r == vids + Span(begin, count)
    {
      r := vids;
      var vid := begin;
      while vid < begin + count
        invariant begin <= vid <= begin + count
        invariant r == vids + Span(begin, vid - begin)
      {
        assert Span(begin, vid + 1 - begin) == Span(begin, vid - begin) + [vid];
        r := r + [vid];
        vid := vid + 1;
      }
    }

    /** `get_package(pid)`: the name, and the versions enumerated chain by chain. */
    method GetPackage(pid: nat) returns (name: string, vids: seq<nat>)
      requires Valid() && pid < |packages|
      ensures InPool(pool, packages[pid].name) && name == Resolve(pool, packages[pid].name)
      ensures vids == PackageVersions(Contents(), pid)
    {
      assert PackageValid(Contents(), pid);
      ghost var all := PackageVersions(Contents(), pid);
      name := Resolve(pool, packages[pid].name);
      vids := [];
      var vlid := packages[pid].versionList;
      while vlid != EndList
        invariant ListsValid(lists, |versions|) && HeadIn(vlid, |lists|)
        invariant vids + Chain(lists, vlid) == all
        decreases if vlid == EndList then 0 else vlid + 1
      {
        var l := lists[vlid];
        vids := AppendRange(vids, l.begin, l.count);
        vlid := l.next;
      }
    }

    /** `get_version(vid)`: the version text, the architecture id, and the edge ids of its range in order. */
    method GetVersion(vid: nat) returns (version: string, architecture: nat, dids: seq<nat>)
      requires Valid() && vid < |versions|
      ensures version == Resolve(pool, versions[vid].version) && architecture == versions[vid].architecture
      ensures dids == Span(versions[vid].dependencyBegin, versions[vid].dependencyCount)
    {
      var v := versions[vid];
      version := Resolve(pool, v.version);
      architecture := v.architecture;
      dids := [];
      var did := v.dependencyBegin;
      while did < v.dependencyBegin + v.dependencyCount
        invariant v.dependencyBegin <= did <= v.dependencyBegin + v.dependencyCount
        invariant dids == Span(v.dependencyBegin, did - v.dependencyBegin)
      {
        dids := dids + [did];
        did := did + 1;
      }
    }

    /** `get_package(name)`: the package indexed under the text, if any. */
    function PackageByName(name: string): (r: Option<nat>)
      reads this
      requires Valid()
      ensures r.None? <==> name !in names
      ensures r.Some? ==> r.value < |packages| && InPool(pool, packages[r.value].name)
                          && Resolve(pool, packages[r.value].name) == name
    {
      if name in names then
        assert NameValid(Contents(), name);
        Some(names[name])
      else None
    }

    /** One iteration of the innermost loop of `ingest`. */
    method IngestEdge(src: Arenas.Store, vid: nat, bdid: nat)
      requires Valid() && Arenas.Indexed(src) && bdid < |src.edges|
      modifies this
      ensures Valid() && Contents() == EdgeCopied(old(Contents()), src, vid, bdid)
      ensures control == old(control) && architectureCount == old(architectureCount)
      ensures dependencyTypeCount == old(dependencyTypeCount)
    {
      var e := src.edges[bdid];
      var tpid, _ := CreatePackage(src.packages[e.toPackage].name);
      var _, _ := CreateDependency(vid, tpid, e.versionConstraint, e.architectureConstraint, e.dependencyType, e.group);
    }

    /** The innermost loop of `ingest`: copy a buffer version's edges in order. */
    method IngestEdges(src: Arenas.Store, vid: nat, dids: seq<nat>)
      requires Valid() && Arenas.Indexed(src) && forall j :: 0 <= j < |dids| ==> dids[j] < |src.edges|
      modifies this
      ensures Valid() && Contents() == EdgesCopied(old(Contents()), src, vid, dids, 0)
      ensures control == old(control) && architectureCount == old(architectureCount)
      ensures dependencyTypeCount == old(dependencyTypeCount)
    {
      var k := 0;
      while k < |dids|
        invariant k <= |dids| && Valid()
        invariant EdgesCopied(Contents(), src, vid, dids, k) == EdgesCopied(old(Contents()), src, vid, dids, 0)
        invariant control == old(control) && architectureCount == old(architectureCount)
        invariant dependencyTypeCount == old(dependencyTypeCount)
      {
        IngestEdge(src, vid, dids[k]);
        k := k + 1;
      }
    }

    /** One iteration of the middle loop of `ingest`. */
    method IngestVersion(src: Arenas.Store, pid: nat, bvid: nat) returns (created: bool)
      requires Valid() && Arenas.Indexed(src) && pid < |packages| && bvid < |src.versions|
      modifies this
      ensures Valid() && (Contents(), created) == VersionCopied(old(Contents()), src, pid, bvid)
      ensures control == old(control) && architectureCount == old(architectureCount)
      ensures dependencyTypeCount == old(dependencyTypeCount)
    {
      var bv := src.versions[bvid];
      var didBegin := |edges|;
      var dcount := Count16(|bv.dependencyIds|);
      var vid;
      vid, created := CreateVersion(pid, bv.version, bv.architecture, didBegin, dcount);
      if !created {
        return;
      }
      IngestEdges(src, vid, bv.dependencyIds);
    }

    /**
     * The middle loop's body for `ids[k]`, with its `uint16_t` counter of
     * created versions; `n` counts them without the wrap-around. What is
     * left of the loop still ends in `final`.
     */
    method IngestVersionCounted(src: Arenas.Store, pid: nat, ids: seq<nat>, k: nat, vcount: nat, ghost n: nat,
                                ghost final: Disk)
      returns (count: nat, ghost n': nat)
      requires Valid() && Arenas.Indexed(src) && pid < |packages| && k < |ids|
      requires forall j :: 0 <= j < |ids| ==> ids[j] < |src.versions|
      requires VersionsCopied(Contents(), src, pid, ids, k) == final
      requires vcount == Count16(n)
      modifies this
      ensures Valid() && pid < |packages| && VersionsCopied(Contents(), src, pid, ids, k + 1) == final
      ensures count == Count16(n') && |versions| == old(|versions|) + (n' - n) && n <= n'
      ensures control == old(control) && architectureCount == old(architectureCount)
      ensures dependencyTypeCount == old(dependencyTypeCount)
    {
      var created := IngestVersion(src, pid, ids[k]);
      if created {
        count, n' := Inc16(vcount), n + 1;
      } else {
        count, n' := vcount, n;
      }
    }

    /**
     * The middle loop of `ingest`: copy the buffer versions `ids` into
     * package `pid`, counting the versions created in a `uint16_t`.
     */
    method IngestVersions(src: Arenas.Store, pid: nat, ids: seq<nat>) returns (vcount: nat, ghost n: nat)
      requires Valid() && Arenas.Indexed(src) && pid < |packages|
      requires forall j :: 0 <= j < |ids| ==> ids[j] < |src.versions|
      modifies this
      ensures Valid() && Contents() == VersionsCopied(old(Contents()), src, pid, ids, 0)
      ensures vcount == Count16(n) && |versions| == old(|versions|) + n
      ensures control == old(control) && architectureCount == old(architectureCount)
      ensures dependencyTypeCount == old(dependencyTypeCount)
    {
      ghost var final := VersionsCopied(Contents(), src, pid, ids, 0);
      vcount, n := 0, 0;
      var k := 0;
      while k < |ids|
        invariant k <= |ids| && Valid() && pid < |packages|
        invariant vcount == Count16(n) && |versions| == old(|versions|) + n
        invariant VersionsCopied(Contents(), src, pid, ids, k) == final
        invariant control == old(control) && architectureCount == old(architectureCount)
        invariant dependencyTypeCount == old(dependencyTypeCount)
      {
        vcount, n := IngestVersionCounted(src, pid, ids, k, vcount, n, final);
        k := k + 1;
      }
    }

    /**
     * One iteration of the outer loop of `ingest`, stage by stage: the
     * package created or found, the disk after its versions are copied,
     * and the version list attached.
     */
    method IngestPackage(src: Arenas.Store, bp: nat) returns (ghost t: Disk, ghost pid: nat, ghost u: Disk)
      requires Valid() && Arenas.Indexed(src) && bp < |src.packages|
      modifies this
      ensures t == PackageAdded(old(Contents()), src.packages[bp].name).0
      ensures pid == PackageAdded(old(Contents()), src.packages[bp].name).1 && DiskStore.Valid(t) && pid < |t.packages|
      ensures u == VersionsCopied(t, src, pid, src.packages[bp].versionIds, 0)
      ensures Valid() && Contents() == VersionsAttached(u, pid, |old(Contents()).versions|, Count16(|u.versions| - |t.versions|))
      ensures control == old(control) && architectureCount == old(architectureCount)
      ensures dependencyTypeCount == old(dependencyTypeCount)
    {
      var vidBegin := |versions|;
      var p, _ := CreatePackage(src.packages[bp].name);
      t, pid := Contents(), p;
      var vcount, n := IngestVersions(src, p, src.packages[bp].versionIds);
      u := Contents();
      assert vcount == Count16(|u.versions| - |t.versions|);
      if vcount > 0 {
        AttachVersions(p, vidBegin, vcount);
      }
    }

    /**
     * `ingest`: copy every buffer package, its new versions, and their
     * edges. The buffer graph is only read, so its arenas are taken once.
     */
    method Ingest(b: BufferGraph.BufferGraph)
      requires Valid() && Arenas.Indexed(b.Contents())
      modifies this
      ensures Valid() && Contents() == PackagesCopied(old(Contents()), b.Contents(), 0)
      ensures control == old(control) && architectureCount == old(architectureCount)
      ensures dependencyTypeCount == old(dependencyTypeCount)
    {
      var src := b.Contents();
      var i := 0;
      while i < |src.packages|
        invariant i <= |src.packages| && Valid()
        invariant PackagesCopied(Contents(), src, i) == PackagesCopied(old(Contents()), src, 0)
        invariant control == old(control) && architectureCount == old(architectureCount)
        invariant dependencyTypeCount == old(dependencyTypeCount)
      {
        ghost var d := Contents();
        ghost var t, pid, u := IngestPackage(src, i);
        PackageCopiedStages(d, src, i, t, pid, u);
        i := i + 1;
      }
    }
  }
}
