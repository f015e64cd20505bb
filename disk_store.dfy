/**
 * The arenas of `DiskGraph` (src/disk_graph.cpp, layouts in
 * include/disk_graph.hpp) as one value. Strings live in a single pool and
 * nodes hold (offset, length) handles into it. A package reaches its
 * versions through a chain of version lists, each one a contiguous id range,
 * inserted at the head. A version's edges are one contiguous id range that
 * the version records when it is created.
 */
module DiskStore {
  import opened Wrappers
  import opened StringPools
  import Arenas

  /** `kVersionListEndId`: `uint32_t(-1)` ends a chain. */
  const EndList: nat := 0xFFFF_FFFF
  /** `VersionListId` is `uint32_t`. */
  const ListRange: nat := 0x1_0000_0000
  /** `VersionCountType` and `DependencyCountType` are `uint16_t`. */
  const CountRange: nat := 0x1_0000
  /** `kMagicNumber`, the bytes "DISKGRPH". */
  const Magic: nat := 0x485052474b534944

  /** `PackageNode`: the name handle and the head of the version-list chain. */
  datatype PackageRecord = PackageRecord(name: StringView, versionList: nat)

  /** `VersionNode`: the version handle, the architecture, and the edge range. */
  datatype VersionRecord = VersionRecord(version: StringView, architecture: nat, dependencyCount: nat, dependencyBegin: nat)

  /** `DependencyEdge`. */
  datatype EdgeRecord = EdgeRecord(fromVersion: nat, toPackage: nat, versionConstraint: StringView,
                                   architectureConstraint: nat, dependencyType: nat, group: nat)

  /** `VersionList`: `count` versions from `begin`, then the list `next`. */
  datatype VersionList = VersionList(count: nat, begin: nat, next: nat)

  /** `Control`: the magic and the seven stored counters. */
  datatype Control = Control(magic: nat, architectureCount: nat, dependencyTypeCount: nat, packageCount: nat,
                             versionCount: nat, dependencyCount: nat, versionListCount: nat, stringPoolSize: nat)

  /**
   * The four arenas, the string pool, and `name_to_package_id_`. That map
   * hashes and compares handles by their resolved text, so it is keyed here
   * by the resolved text.
   */
  datatype Disk = Disk(packages: seq<PackageRecord>, versions: seq<VersionRecord>, edges: seq<EdgeRecord>,
                       lists: seq<VersionList>, pool: string, names: map<string, nat>)

  const Empty: Disk := Disk([], [], [], [], [], map[])

  /** A chain pointer into the first `count` lists: the end marker or an earlier list. */
  predicate HeadIn(head: nat, count: nat)
  {
    head == EndList || head < count
  }

  /** Every list points only to older lists, so every chain ends. */
  predicate Linked(lists: seq<VersionList>)
  {
    forall i :: 0 <= i < |lists| ==> HeadIn(lists[i].next, i)
  }

  /** Linked, and every list's range names existing versions. */
  predicate ListsValid(lists: seq<VersionList>, versionCount: nat)
  {
    Linked(lists) && forall i :: 0 <= i < |lists| ==> lists[i].begin + lists[i].count <= versionCount
  }

  predicate PackageValid(d: Disk, p: nat)
    requires p < |d.packages|
  {
    && InPool(d.pool, d.packages[p].name)
    && Resolve(d.pool, d.packages[p].name) in d.names
    && HeadIn(d.packages[p].versionList, |d.lists|)
  }

  predicate NameValid(d: Disk, n: string)
    requires n in d.names
  {
    d.names[n] < |d.packages| && InPool(d.pool, d.packages[d.names[n]].name)
    && Resolve(d.pool, d.packages[d.names[n]].name) == n
  }

  /**
   * Every handle lies in the pool, the name index maps each text to a
   * package carrying it and covers every package, and the chains are
   * well formed.
   */
  ghost predicate Valid(d: Disk)
  {
    && (forall p :: 0 <= p < |d.packages| ==> PackageValid(d, p))
    && (forall n :: n in d.names ==> NameValid(d, n))
    && (forall v :: 0 <= v < |d.versions| ==> InPool(d.pool, d.versions[v].version))
    && (forall e :: 0 <= e < |d.edges| ==> InPool(d.pool, d.edges[e].versionConstraint))
    && ListsValid(d.lists, |d.versions|)
  }

  /** The ids `[begin, begin + count)` in ascending order. */
  function Span(begin: nat, count: nat): (r: seq<nat>)
    ensures |r| == count && forall k :: 0 <= k < count ==> r[k] == begin + k
  {
    seq(count, k requires 0 <= k => begin + k)
  }

  /** The version ids a chain enumerates: head list first, each list's range ascending. */
  function Chain(lists: seq<VersionList>, head: nat): seq<nat>
    requires Linked(lists) && HeadIn(head, |lists|)
    decreases if head == EndList then 0 else head + 1
  {
    if head == EndList then []
    else Span(lists[head].begin, lists[head].count) + Chain(lists, lists[head].next)
  }

  /** Every id a chain enumerates names an existing version. */
  lemma {:induction false} ChainInRange(lists: seq<VersionList>, versionCount: nat, head: nat)
    requires ListsValid(lists, versionCount) && HeadIn(head, |lists|)
    ensures forall k :: 0 <= k < |Chain(lists, head)| ==> Chain(lists, head)[k] < versionCount
    decreases if head == EndList then 0 else head + 1
  {
    if head != EndList {
      ChainInRange(lists, versionCount, lists[head].next);
    }
  }

  /** Appending a list leaves every existing chain as it was. */
  lemma {:induction false} ChainKept(lists: seq<VersionList>, l: VersionList, head: nat)
    requires Linked(lists) && Linked(lists + [l]) && HeadIn(head, |lists|)
    ensures Chain(lists + [l], head) == Chain(lists, head)
    decreases if head == EndList then 0 else head + 1
  {
    if head != EndList {
      assert (lists + [l])[head] == lists[head];
      ChainKept(lists, l, lists[head].next);
    }
  }

  /** The version `vid` carries the text `version` and the architecture `arch`. */
  predicate Matches(d: Disk, vid: nat, version: string, arch: nat)
    requires vid < |d.versions| && InPool(d.pool, d.versions[vid].version)
  {
    Resolve(d.pool, d.versions[vid].version) == version && d.versions[vid].architecture == arch
  }

  predicate Scannable(d: Disk, ids: seq<nat>)
  {
    forall k :: 0 <= k < |ids| ==> ids[k] < |d.versions| && InPool(d.pool, d.versions[ids[k]].version)
  }

  /** The first id of `ids` whose version matches: what the `create_version` scan stops at. */
  function FirstMatch(d: Disk, ids: seq<nat>, version: string, arch: nat): (r: Option<nat>)
    requires Scannable(d, ids)
    ensures r.None? <==> forall k :: 0 <= k < |ids| ==> !Matches(d, ids[k], version, arch)
    ensures r.Some? ==> exists k :: 0 <= k < |ids| && ids[k] == r.value && Matches(d, r.value, version, arch)
  {
    if ids == [] then None
    else if Matches(d, ids[0], version, arch) then Some(ids[0])
    else
      var r := FirstMatch(d, ids[1..], version, arch);
      assert forall k :: 1 <= k < |ids| ==> ids[k] == ids[1..][k - 1];
      r
  }

  /** A span split after its first id. */
  lemma SpanFront(begin: nat, count: nat, rest: seq<nat>)
    requires count > 0
    ensures Span(begin, count) + rest == [begin] + (Span(begin + 1, count - 1) + rest)
  {
    assert Span(begin, count) == [begin] + Span(begin + 1, count - 1);
  }

  /** The scan over a span looks at the span's first id, then at the rest. */
  lemma FirstMatchFront(d: Disk, begin: nat, count: nat, rest: seq<nat>, version: string, arch: nat)
    requires count > 0 && Scannable(d, Span(begin, count) + rest)
    ensures Scannable(d, Span(begin + 1, count - 1) + rest)
    ensures begin < |d.versions| && InPool(d.pool, d.versions[begin].version)
    ensures FirstMatch(d, Span(begin, count) + rest, version, arch)
            == if Matches(d, begin, version, arch) then Some(begin) else FirstMatch(d, Span(begin + 1, count - 1) + rest, version, arch)
  {
    var ids := Span(begin, count) + rest;
    SpanFront(begin, count, rest);
    assert ids[0] == begin && ids[1..] == Span(begin + 1, count - 1) + rest;
  }

  /** A valid store can scan any chain. */
  lemma ChainScannable(d: Disk, head: nat)
    requires Valid(d) && HeadIn(head, |d.lists|)
    ensures Scannable(d, Chain(d.lists, head))
  {
    ChainInRange(d.lists, |d.versions|, head);
  }

  /** The versions `pid` reaches through its chain. */
  ghost function PackageVersions(d: Disk, pid: nat): (r: seq<nat>)
    requires Valid(d) && pid < |d.packages|
    ensures Scannable(d, r)
  {
    assert PackageValid(d, pid);
    ChainInRange(d.lists, |d.versions|, d.packages[pid].versionList);
    Chain(d.lists, d.packages[pid].versionList)
  }

  /** A longer pool keeps every handle and what it resolves to. */
  lemma GrowPool(d: Disk, s: string)
    requires Valid(d)
    ensures Valid(d.(pool := d.pool + s))
  {
    var t := d.(pool := d.pool + s);
    forall p | 0 <= p < |t.packages| ensures PackageValid(t, p) {
      assert PackageValid(d, p);
      AddKeepsHandles(d.pool, s, d.packages[p].name);
    }
    forall n | n in t.names ensures NameValid(t, n) {
      assert NameValid(d, n);
      AddKeepsHandles(d.pool, s, d.packages[d.names[n]].name);
    }
  }

  /** A short string added to a small pool resolves back to itself. */
  lemma ShortKey(pool: string, s: string)
    ensures |pool| < OffsetRange && |s| < LengthRange ==> Resolve(Added(pool, s).0, Added(pool, s).1) == s
  {
    if |pool| < OffsetRange && |s| < LengthRange {
      AddThenGet(pool, s);
    }
  }

  /** A new package named `name`, with an empty chain, indexed under the text its handle resolves to. */
  function WithPackage(d: Disk, name: string): Disk
  {
    var (grown, h) := Added(d.pool, name);
    var key := Resolve(grown, h);
    d.(pool := grown, packages := d.packages + [PackageRecord(h, EndList)],
       names := if key in d.names then d.names else d.names[key := |d.packages|])
  }

  lemma WithPackageValid(d: Disk, name: string)
    requires Valid(d)
    ensures Valid(WithPackage(d, name))
  {
    var g := d.(pool := d.pool + name);
    GrowPool(d, name);
    var t := WithPackage(d, name);
    forall p | 0 <= p < |t.packages| ensures PackageValid(t, p) {
      if p < |d.packages| {
        assert PackageValid(g, p) && t.packages[p] == g.packages[p];
      }
    }
    forall n | n in t.names ensures NameValid(t, n) {
      if n in d.names {
        assert NameValid(g, n) && t.names[n] == g.names[n];
      }
    }
  }

  /** A new version, attached to nothing. */
  function WithVersion(d: Disk, version: string, arch: nat, didBegin: nat, dcount: nat): Disk
  {
    var (grown, h) := Added(d.pool, version);
    d.(pool := grown, versions := d.versions + [VersionRecord(h, arch, dcount, didBegin)])
  }

  lemma WithVersionValid(d: Disk, version: string, arch: nat, didBegin: nat, dcount: nat)
    requires Valid(d)
    ensures Valid(WithVersion(d, version, arch, didBegin, dcount))
  {
    var g := d.(pool := d.pool + version);
    GrowPool(d, version);
    var t := WithVersion(d, version, arch, didBegin, dcount);
    assert forall p :: 0 <= p < |t.packages| ==> PackageValid(g, p) ==> PackageValid(t, p);
    assert forall n :: n in t.names ==> NameValid(g, n) ==> NameValid(t, n);
  }

  /** A new edge. */
  function WithEdge(d: Disk, from: nat, to: nat, versionConstraint: string, archConstraint: nat,
                    dependencyType: nat, group: nat): Disk
  {
    var (grown, h) := Added(d.pool, versionConstraint);
    d.(pool := grown, edges := d.edges + [EdgeRecord(from, to, h, archConstraint, dependencyType, group)])
  }

  lemma WithEdgeValid(d: Disk, from: nat, to: nat, versionConstraint: string, archConstraint: nat,
                      dependencyType: nat, group: nat)
    requires Valid(d)
    ensures Valid(WithEdge(d, from, to, versionConstraint, archConstraint, dependencyType, group))
  {
    var g := d.(pool := d.pool + versionConstraint);
    GrowPool(d, versionConstraint);
    var t := WithEdge(d, from, to, versionConstraint, archConstraint, dependencyType, group);
    assert forall p :: 0 <= p < |t.packages| ==> PackageValid(g, p) ==> PackageValid(t, p);
    assert forall n :: n in t.names ==> NameValid(g, n) ==> NameValid(t, n);
  }

  /** A new list for `[vidBegin, vidBegin + vcount)` made the head of `pid`'s chain. */
  function WithList(d: Disk, pid: nat, vidBegin: nat, vcount: nat): Disk
    requires pid < |d.packages|
  {
    var p := d.packages[pid];
    d.(lists := d.lists + [VersionList(vcount, vidBegin, p.versionList)],
       packages := d.packages[pid := p.(versionList := |d.lists| % ListRange)])
  }

  lemma WithListValid(d: Disk, pid: nat, vidBegin: nat, vcount: nat)
    requires Valid(d) && pid < |d.packages| && vidBegin + vcount <= |d.versions|
    ensures Valid(WithList(d, pid, vidBegin, vcount))
  {
    var t := WithList(d, pid, vidBegin, vcount);
    assert PackageValid(d, pid);
    forall q | 0 <= q < |t.packages| ensures PackageValid(t, q) {
      assert PackageValid(d, q);
    }
    forall n | n in t.names ensures NameValid(t, n) {
      assert NameValid(d, n);
    }
  }

  /**
   * `create_package(name)`: the mapped package for a known text, or a new
   * package with an empty chain whose name handle is indexed under the text
   * it resolves to, unless an earlier package already holds that text.
   */
  ghost function PackageAdded(d: Disk, name: string): (r: (Disk, nat, bool))
    requires Valid(d)
    ensures Valid(r.0) && r.1 < |r.0.packages|
    ensures r.2 <==> name !in d.names
    ensures !r.2 ==> r.0 == d && r.1 == d.names[name]
    ensures r.2 ==> && r.1 == |d.packages|
                    && r.0.packages == d.packages + [PackageRecord(Added(d.pool, name).1, EndList)]
                    && r.0.pool == d.pool + name
    ensures r.0.versions == d.versions && r.0.edges == d.edges && r.0.lists == d.lists
    ensures |d.pool| < OffsetRange && |name| < LengthRange ==> name in r.0.names && r.0.names[name] == r.1
  {
    if name in d.names then (d, d.names[name], false)
    else
      WithPackageValid(d, name);
      ShortKey(d.pool, name);
      (WithPackage(d, name), |d.packages|, true)
  }

  /**
   * `create_version`: the first version reachable through the package's
   * chain with the same text and architecture, or a new version holding the
   * given edge range and attached to nothing.
   */
  ghost function VersionAdded(d: Disk, pid: nat, version: string, arch: nat, didBegin: nat, dcount: nat): (r: (Disk, nat, bool))
    requires Valid(d) && pid < |d.packages|
    ensures Valid(r.0)
    ensures r.2 <==> forall k :: 0 <= k < |PackageVersions(d, pid)| ==> !Matches(d, PackageVersions(d, pid)[k], version, arch)
    ensures !r.2 ==> r.0 == d && r.1 in PackageVersions(d, pid) && Matches(d, r.1, version, arch)
    ensures r.2 ==> && r.1 == |d.versions|
                    && r.0.versions == d.versions + [VersionRecord(Added(d.pool, version).1, arch, dcount, didBegin)]
                    && r.0.pool == d.pool + version
    ensures r.0.packages == d.packages && r.0.edges == d.edges && r.0.lists == d.lists && r.0.names == d.names
  {
    var found := FirstMatch(d, PackageVersions(d, pid), version, arch);
    if found.Some? then (d, found.value, false)
    else
      WithVersionValid(d, version, arch, didBegin, dcount);
      (WithVersion(d, version, arch, didBegin, dcount), |d.versions|, true)
  }

  /** `create_dependency`: always a new edge at the end carrying every field as given. */
  ghost function DependencyAdded(d: Disk, from: nat, to: nat, versionConstraint: string, archConstraint: nat,
                                 dependencyType: nat, group: nat): (r: (Disk, nat))
    requires Valid(d)
    ensures Valid(r.0) && r.1 == |d.edges|
    ensures r.0.edges == d.edges + [EdgeRecord(from, to, Added(d.pool, versionConstraint).1, archConstraint, dependencyType, group)]
    ensures r.0.pool == d.pool + versionConstraint
    ensures r.0.packages == d.packages && r.0.versions == d.versions && r.0.lists == d.lists && r.0.names == d.names
  {
    WithEdgeValid(d, from, to, versionConstraint, archConstraint, dependencyType, group);
    (WithEdge(d, from, to, versionConstraint, archConstraint, dependencyType, group), |d.edges|)
  }

  /**
   * `attach_versions`: nothing for an empty range, otherwise a new list for
   * the range becomes the package's head and points at the old head.
   */
  ghost function VersionsAttached(d: Disk, pid: nat, vidBegin: nat, vcount: nat): (r: Disk)
    requires Valid(d) && pid < |d.packages| && vidBegin + vcount <= |d.versions|
    ensures Valid(r)
    ensures vcount == 0 ==> r == d
    ensures vcount > 0 ==> && r.lists == d.lists + [VersionList(vcount, vidBegin, d.packages[pid].versionList)]
                           && r.packages == d.packages[pid := PackageRecord(d.packages[pid].name, |d.lists| % ListRange)]
    ensures r.versions == d.versions && r.edges == d.edges && r.pool == d.pool && r.names == d.names
  {
    if vcount == 0 then d
    else
      WithListValid(d, pid, vidBegin, vcount);
      WithList(d, pid, vidBegin, vcount)
  }

  /**
   * Attaching a range puts it in front of the package's enumeration, as
   * long as the new list's id is not the end marker.
   */
  lemma AttachedInFront(d: Disk, pid: nat, vidBegin: nat, vcount: nat)
    requires Valid(d) && pid < |d.packages| && vidBegin + vcount <= |d.versions| && vcount > 0 && |d.lists| < EndList
    ensures PackageVersions(VersionsAttached(d, pid, vidBegin, vcount), pid) == Span(vidBegin, vcount) + PackageVersions(d, pid)
  {
    var l := VersionList(vcount, vidBegin, d.packages[pid].versionList);
    assert PackageValid(d, pid);
    assert |d.lists| % ListRange == |d.lists|;
    ChainKept(d.lists, l, d.packages[pid].versionList);
  }

  /** Attaching versions to one package leaves every other package's enumeration as it was. */
  lemma AttachedElsewhere(d: Disk, pid: nat, vidBegin: nat, vcount: nat, other: nat)
    requires Valid(d) && pid < |d.packages| && other < |d.packages| && other != pid
    requires vidBegin + vcount <= |d.versions|
    ensures PackageVersions(VersionsAttached(d, pid, vidBegin, vcount), other) == PackageVersions(d, other)
  {
    if vcount > 0 {
      var t := VersionsAttached(d, pid, vidBegin, vcount);
      var l := VersionList(vcount, vidBegin, d.packages[pid].versionList);
      assert PackageValid(d, other) && t.lists == d.lists + [l];
      ChainKept(d.lists, l, d.packages[other].versionList);
    }
  }

  /** `b` starts with `a`. */
  ghost predicate Grows<T>(a: seq<T>, b: seq<T>)
  {
    |a| <= |b| && forall i :: 0 <= i < |a| ==> b[i] == a[i]
  }

  lemma GrowsTrans<T>(a: seq<T>, b: seq<T>, c: seq<T>)
    requires Grows(a, b) && Grows(b, c)
    ensures Grows(a, c)
  {
  }

  /** Every edge from position `lo` on leaves the version `vid`. */
  predicate AllFrom(edges: seq<EdgeRecord>, lo: nat, vid: nat)
  {
    forall j :: lo <= j < |edges| ==> edges[j].fromVersion == vid
  }

  lemma AllFromExtended(a: seq<EdgeRecord>, t: seq<EdgeRecord>, r: seq<EdgeRecord>, vid: nat)
    requires |t| == |a| + 1 && Grows(t, r) && t[|a|].fromVersion == vid && AllFrom(r, |t|, vid)
    ensures AllFrom(r, |a|, vid)
  {
  }

  /**
   * One iteration of `ingest`'s innermost loop: the edge's target package is
   * found or created by name, then the edge is copied with `vid` as its source.
   */
  ghost function EdgeCopied(d: Disk, b: Arenas.Store, vid: nat, bdid: nat): (r: Disk)
    requires Valid(d) && Arenas.Indexed(b) && bdid < |b.edges|
    ensures Valid(r) && r.versions == d.versions && r.lists == d.lists
    ensures Grows(d.packages, r.packages)
    ensures |r.edges| == |d.edges| + 1 && Grows(d.edges, r.edges) && r.edges[|d.edges|].fromVersion == vid
  {
    var e := b.edges[bdid];
    var (t, tpid, _) := PackageAdded(d, b.packages[e.toPackage].name);
    DependencyAdded(t, vid, tpid, e.versionConstraint, e.architectureConstraint, e.dependencyType, e.group).0
  }

  /** The innermost loop from position `k` of the buffer version's edge list. */
  ghost function EdgesCopied(d: Disk, b: Arenas.Store, vid: nat, dids: seq<nat>, k: nat): (r: Disk)
    requires Valid(d) && Arenas.Indexed(b) && k <= |dids|
    requires forall j :: 0 <= j < |dids| ==> dids[j] < |b.edges|
    ensures Valid(r) && r.versions == d.versions && r.lists == d.lists
    ensures Grows(d.packages, r.packages)
    ensures |r.edges| == |d.edges| + |dids| - k && Grows(d.edges, r.edges)
    ensures AllFrom(r.edges, |d.edges|, vid)
    decreases |dids| - k
  {
    if k == |dids| then d
    else
      var t := EdgeCopied(d, b, vid, dids[k]);
      var r := EdgesCopied(t, b, vid, dids, k + 1);
      GrowsTrans(d.packages, t.packages, r.packages);
      GrowsTrans(d.edges, t.edges, r.edges);
      AllFromExtended(d.edges, t.edges, r.edges, vid);
      r
  }

  /** One iteration of `ingest`'s middle loop: the version is found or created, and a created one gets its edges. */
  ghost function VersionCopied(d: Disk, b: Arenas.Store, pid: nat, bvid: nat): (r: (Disk, bool))
    requires Valid(d) && Arenas.Indexed(b) && pid < |d.packages| && bvid < |b.versions|
    ensures Valid(r.0) && r.0.lists == d.lists
    ensures Grows(d.packages, r.0.packages)
    ensures |r.0.versions| == |d.versions| + (if r.1 then 1 else 0) && Grows(d.versions, r.0.versions)
  {
    var bv := b.versions[bvid];
    var (t, vid, created) := VersionAdded(d, pid, bv.version, bv.architecture, |d.edges|, Count16(|bv.dependencyIds|));
    if !created then (t, false)
    else
      var r := EdgesCopied(t, b, vid, bv.dependencyIds, 0);
      assert Grows(d.versions, r.versions);
      (r, true)
  }

  /**
   * A version the package already reaches is skipped and nothing changes.
   * A new version records the next free edge id and its edge count
   * narrowed to `uint16_t`, and its edges are then copied, so with fewer
   * than 65536 of them its recorded range is exactly the edges just
   * appended, all leaving it.
   */
  lemma VersionCopiedLayout(d: Disk, b: Arenas.Store, pid: nat, bvid: nat)
    requires Valid(d) && Arenas.Indexed(b) && pid < |d.packages| && bvid < |b.versions|
    ensures var (r, created) := VersionCopied(d, b, pid, bvid);
            var bv := b.versions[bvid];
            && created == VersionAdded(d, pid, bv.version, bv.architecture, |d.edges|, Count16(|bv.dependencyIds|)).2
            && (!created ==> r == d)
            && (created ==>
                  && r.versions[|d.versions|].architecture == bv.architecture
                  && r.versions[|d.versions|].dependencyBegin == |d.edges|
                  && r.versions[|d.versions|].dependencyCount == Count16(|bv.dependencyIds|)
                  && |r.edges| == |d.edges| + |bv.dependencyIds| && Grows(d.edges, r.edges)
                  && AllFrom(r.edges, |d.edges|, |d.versions|))
  {
    var bv := b.versions[bvid];
    var (t, vid, created) := VersionAdded(d, pid, bv.version, bv.architecture, |d.edges|, Count16(|bv.dependencyIds|));
    if created {
      var r := EdgesCopied(t, b, vid, bv.dependencyIds, 0);
      assert r.versions[|d.versions|] == t.versions[|d.versions|];
    }
  }

  /** The middle loop from position `k` of the package's version list. */
  ghost function VersionsCopied(d: Disk, b: Arenas.Store, pid: nat, bvids: seq<nat>, k: nat): (r: Disk)
    requires Valid(d) && Arenas.Indexed(b) && pid < |d.packages| && k <= |bvids|
    requires forall j :: 0 <= j < |bvids| ==> bvids[j] < |b.versions|
    ensures Valid(r) && r.lists == d.lists
    ensures Grows(d.packages, r.packages) && Grows(d.versions, r.versions)
    ensures |r.versions| <= |d.versions| + |bvids| - k
    decreases |bvids| - k
  {
    if k == |bvids| then d
    else
      var t := VersionCopied(d, b, pid, bvids[k]).0;
      var u := VersionsCopied(t, b, pid, bvids, k + 1);
      GrowsTrans(d.versions, t.versions, u.versions);
      GrowsTrans(d.packages, t.packages, u.packages);
      u
  }

  /** `++` on a `uint16_t`: 65535 wraps to 0. */
  function Inc16(c: nat): (r: nat)
    ensures r < CountRange || c + 1 > CountRange
  {
    if c + 1 == CountRange then 0 else c + 1
  }

  /** A `uint16_t` counter after `n` increments from zero: how a count is narrowed into a 16-bit field. */
  function Count16(n: nat): (r: nat)
    ensures r <= n && r < CountRange && (n < CountRange ==> r == n)
  {
    if n == 0 then 0 else Inc16(Count16(n - 1))
  }

  /** The narrowing is the C++ conversion to `uint16_t`: reduction modulo 65536. */
  lemma {:induction false} Count16IsModulo(n: nat)
    ensures Count16(n) == n % CountRange
  {
    if n > 0 {
      Count16IsModulo(n - 1);
      var q := (n - 1) / CountRange;
      assert n - 1 == q * CountRange + Count16(n - 1);
      if Count16(n - 1) + 1 == CountRange {
        assert n == (q + 1) * CountRange;
      } else {
        assert n == q * CountRange + (Count16(n - 1) + 1);
      }
    }
  }

  /**
   * One iteration of `ingest`'s outer loop, with the package's id and the
   * number of versions it created: the package is found or created by name,
   * its buffer versions are copied, and the versions created, which are the
   * ids from the version count before the loop on, are attached as one list
   * when their count narrowed to `uint16_t` is not zero.
   */
  ghost function PackageCopied(d: Disk, b: Arenas.Store, bp: nat): (r: (Disk, nat, nat))
    requires Valid(d) && Arenas.Indexed(b) && bp < |b.packages|
    ensures Valid(r.0)
  {
    var (t, pid, _) := PackageAdded(d, b.packages[bp].name);
    var u := VersionsCopied(t, b, pid, b.packages[bp].versionIds, 0);
    var n := |u.versions| - |t.versions|;
    (VersionsAttached(u, pid, |d.versions|, Count16(n)), pid, n)
  }

  /** `PackageCopied` read back from its three stages. */
  lemma PackageCopiedStages(d: Disk, b: Arenas.Store, bp: nat, t: Disk, pid: nat, u: Disk)
    requires Valid(d) && Arenas.Indexed(b) && bp < |b.packages|
    requires t == PackageAdded(d, b.packages[bp].name).0 && pid == PackageAdded(d, b.packages[bp].name).1
    requires u == VersionsCopied(t, b, pid, b.packages[bp].versionIds, 0)
    ensures PackageCopied(d, b, bp).0 == VersionsAttached(u, pid, |d.versions|, Count16(|u.versions| - |t.versions|))
  {
    var (t', pid', _) := PackageAdded(d, b.packages[bp].name);
    var u' := VersionsCopied(t', b, pid', b.packages[bp].versionIds, 0);
    var n := |u'.versions| - |t'.versions|;
    assert PackageCopied(d, b, bp) == (VersionsAttached(u', pid', |d.versions|, Count16(n)), pid', n);
  }

  /**
   * The package copied is the one `create_package` returns; the versions
   * created take the ids from the old version count on; and the version
   * lists grow by one list for them, headed from the package, exactly when
   * their count narrowed to `uint16_t` is not zero.
   */
  lemma PackageCopiedLayout(d: Disk, b: Arenas.Store, bp: nat)
    requires Valid(d) && Arenas.Indexed(b) && bp < |b.packages|
    ensures var (r, pid, n) := PackageCopied(d, b, bp);
            var (t, tpid, _) := PackageAdded(d, b.packages[bp].name);
            && pid == tpid && pid < |r.packages|
            && |r.versions| == |d.versions| + n && Grows(d.versions, r.versions)
            && (Count16(n) == 0 ==> r.lists == d.lists)
            && (Count16(n) > 0 ==>
                  && r.lists == d.lists + [VersionList(Count16(n), |d.versions|, t.packages[pid].versionList)]
                  && r.packages[pid].versionList == |d.lists| % ListRange)
  {
    var (t, pid, _) := PackageAdded(d, b.packages[bp].name);
    var u := VersionsCopied(t, b, pid, b.packages[bp].versionIds, 0);
    var n := |u.versions| - |t.versions|;
    var r := VersionsAttached(u, pid, |d.versions|, Count16(n));
    assert PackageCopied(d, b, bp) == (r, pid, n);
    assert u.packages[pid] == t.packages[pid] && u.lists == d.lists;
    assert |t.versions| == |d.versions| && Grows(d.versions, u.versions);
  }

  /** Copying versions never changes which versions a package's chain reaches. */
  lemma CopiedKeepsChain(t: Disk, b: Arenas.Store, pid: nat, bvids: seq<nat>)
    requires Valid(t) && Arenas.Indexed(b) && pid < |t.packages|
    requires forall j :: 0 <= j < |bvids| ==> bvids[j] < |b.versions|
    ensures var u := VersionsCopied(t, b, pid, bvids, 0);
            pid < |u.packages| && |u.lists| == |t.lists| && PackageVersions(u, pid) == PackageVersions(t, pid)
  {
    var u := VersionsCopied(t, b, pid, bvids, 0);
    assert u.packages[pid] == t.packages[pid] && u.lists == t.lists;
  }

  /**
   * Attaching the versions just copied puts exactly them in front of what
   * the package reached before.
   */
  lemma CopiedThenAttached(t: Disk, b: Arenas.Store, pid: nat, bvids: seq<nat>)
    requires Valid(t) && Arenas.Indexed(b) && pid < |t.packages| && |t.lists| < EndList
    requires forall j :: 0 <= j < |bvids| ==> bvids[j] < |b.versions|
    ensures var u := VersionsCopied(t, b, pid, bvids, 0);
            var n := |u.versions| - |t.versions|;
            0 < n < CountRange ==>
              PackageVersions(VersionsAttached(u, pid, |t.versions|, Count16(n)), pid) == Span(|t.versions|, n) + PackageVersions(t, pid)
  {
    var u := VersionsCopied(t, b, pid, bvids, 0);
    var n := |u.versions| - |t.versions|;
    CopiedKeepsChain(t, b, pid, bvids);
    if 0 < n < CountRange {
      AttachedAfterCopy(t, u, pid, n);
    }
  }

  /** The attaching step of `CopiedThenAttached`, stated over the copied disk alone. */
  lemma AttachedAfterCopy(t: Disk, u: Disk, pid: nat, n: nat)
    requires Valid(t) && Valid(u) && pid < |t.packages| && pid < |u.packages|
    requires |u.lists| == |t.lists| < EndList && |u.versions| == |t.versions| + n && 0 < n < CountRange
    requires PackageVersions(u, pid) == PackageVersions(t, pid)
    ensures PackageVersions(VersionsAttached(u, pid, |t.versions|, Count16(n)), pid) == Span(|t.versions|, n) + PackageVersions(t, pid)
  {
    AttachedInFront(u, pid, |t.versions|, n);
  }

  /**
   * After one outer iteration that created between 1 and 65535 versions,
   * the package enumerates exactly those versions, in id order, ahead of
   * the ones it reached before.
   */
  lemma IngestedInFront(d: Disk, b: Arenas.Store, bp: nat)
    requires Valid(d) && Arenas.Indexed(b) && bp < |b.packages| && |d.lists| < EndList
    ensures var (r, pid, n) := PackageCopied(d, b, bp);
            0 < n < CountRange ==>
              PackageVersions(r, pid) == Span(|d.versions|, n) + PackageVersions(PackageAdded(d, b.packages[bp].name).0, pid)
  {
    var (t, pid, _) := PackageAdded(d, b.packages[bp].name);
    CopiedThenAttached(t, b, pid, b.packages[bp].versionIds);
  }

  /** `ingest`: the outer loop from buffer package `i` on. */
  ghost function PackagesCopied(d: Disk, b: Arenas.Store, i: nat): (r: Disk)
    requires Valid(d) && Arenas.Indexed(b) && i <= |b.packages|
    ensures Valid(r)
    decreases |b.packages| - i
  {
    if i == |b.packages| then d else PackagesCopied(PackageCopied(d, b, i).0, b, i + 1)
  }

  /** `validate_control`: the magic and all seven counters agree with the arenas. */
  predicate ControlValid(c: Control, d: Disk, architectureCount: nat, dependencyTypeCount: nat)
  {
    && c.magic == Magic
    && c.packageCount == |d.packages| && c.versionCount == |d.versions| && c.dependencyCount == |d.edges|
    && c.versionListCount == |d.lists| && c.architectureCount == architectureCount
    && c.dependencyTypeCount == dependencyTypeCount && c.stringPoolSize == |d.pool|
  }

  /** The counter part of `sync`: every counter set from the arenas, the magic kept. */
  function Synced(c: Control, d: Disk, architectureCount: nat, dependencyTypeCount: nat): (r: Control)
    ensures r.magic == c.magic
    ensures ControlValid(r, d, architectureCount, dependencyTypeCount) <==> c.magic == Magic
  {
    Control(c.magic, architectureCount, dependencyTypeCount, |d.packages|, |d.versions|, |d.edges|, |d.lists|, |d.pool|)
  }
}
