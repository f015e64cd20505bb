/**
 * The vertex/edge-list encoding that `build_cugraph` in
 * py/dependency_graph.py prepares for the accelerated backend: versions are
 * vertices 0..V-1 and package `p` is vertex V + p; each package owns its
 * versions through an edge tagged -1/-1, and each dependency edge runs from
 * its version to its target package, tagged with its id and group.
 */
module EdgeList {
  import opened Arenas

  /** One row of the `src`, `dst`, `did`, `gid` columns. */
  datatype Row = Row(src: int, dst: int, did: int, gid: int)

  /** The row for package `p` owning version `v`. */
  function OwnRow(s: Store, p: nat, v: nat): Row
  {
    Row(|s.versions| + p, v, -1, -1)
  }

  /** The row for dependency edge `d` leaving version `v`. */
  function DepRow(s: Store, v: nat, d: nat): Row
    requires d < |s.edges|
  {
    Row(v, |s.versions| + s.edges[d].toPackage, d, s.edges[d].group)
  }

  /** Rows of the edges `dids` of version `v`, in order. */
  function EdgeRows(s: Store, v: nat, dids: seq<nat>): seq<Row>
    requires forall k :: 0 <= k < |dids| ==> dids[k] < |s.edges|
  {
    if dids == [] then [] else EdgeRows(s, v, dids[..|dids| - 1]) + [DepRow(s, v, dids[|dids| - 1])]
  }

  /** Rows of the versions `vids` of package `p`: each ownership row followed by that version's edge rows. */
  function VersionRows(s: Store, p: nat, vids: seq<nat>): seq<Row>
    requires Indexed(s) && forall k :: 0 <= k < |vids| ==> vids[k] < |s.versions|
  {
    if vids == [] then []
    else
      var v := vids[|vids| - 1];
      VersionRows(s, p, vids[..|vids| - 1]) + [OwnRow(s, p, v)] + EdgeRows(s, v, s.versions[v].dependencyIds)
  }

  /** Rows of the first `n` packages. */
  function PackageRows(s: Store, n: nat): seq<Row>
    requires Indexed(s) && n <= |s.packages|
  {
    if n == 0 then [] else PackageRows(s, n - 1) + VersionRows(s, n - 1, s.packages[n - 1].versionIds)
  }

  /** The rows of a prefix of `dids` grow by one edge row per edge. */
  lemma EdgeRowsSnoc(s: Store, v: nat, dids: seq<nat>, k: nat)
    requires forall i :: 0 <= i < |dids| ==> dids[i] < |s.edges|
    requires k < |dids|
    ensures EdgeRows(s, v, dids[..k + 1]) == EdgeRows(s, v, dids[..k]) + [DepRow(s, v, dids[k])]
  {
    assert dids[..k + 1][..k] == dids[..k];
  }

  /** The rows of a prefix of `vids` grow by one ownership row and that version's edge rows. */
  lemma VersionRowsSnoc(s: Store, p: nat, vids: seq<nat>, j: nat)
    requires Indexed(s) && forall i :: 0 <= i < |vids| ==> vids[i] < |s.versions|
    requires j < |vids|
    ensures VersionRows(s, p, vids[..j + 1])
            == VersionRows(s, p, vids[..j]) + [OwnRow(s, p, vids[j])] + EdgeRows(s, vids[j], s.versions[vids[j]].dependencyIds)
  {
    assert vids[..j + 1][..j] == vids[..j];
  }

  /** The same step after rows already written. */
  lemma VersionRowsSnocAfter(s: Store, p: nat, vids: seq<nat>, j: nat, before: seq<Row>)
    requires Indexed(s) && forall i :: 0 <= i < |vids| ==> vids[i] < |s.versions|
    requires j < |vids|
    ensures before + VersionRows(s, p, vids[..j + 1])
            == before + VersionRows(s, p, vids[..j]) + [OwnRow(s, p, vids[j])] + EdgeRows(s, vids[j], s.versions[vids[j]].dependencyIds)
  {
    VersionRowsSnoc(s, p, vids, j);
  }

  /** The whole edge list. */
  function Rows(s: Store): seq<Row>
    requires Indexed(s)
  {
    PackageRows(s, |s.packages|)
  }

  /** Package `p` owns version `v`. */
  predicate Owns(s: Store, p: nat, v: nat)
  {
    p < |s.packages| && v in s.packages[p].versionIds
  }

  /** An ownership row: some package `p` owns the version, source V + p, no id, no group. */
  ghost predicate IsOwnRow(s: Store, r: Row)
  {
    exists p: nat :: OwnsRow(s, p, r)
  }

  /** `r` is the row of package `p` owning version `r.dst`. */
  predicate OwnsRow(s: Store, p: nat, r: Row)
  {
    0 <= r.dst && Owns(s, p, r.dst as nat) && r == OwnRow(s, p, r.dst as nat)
  }

  /** A dependency row: the edge `did` leaves an owned version `src` for the package V + `dst`, with its group. */
  ghost predicate IsDepRow(s: Store, r: Row)
  {
    && 0 <= r.did < |s.edges| && 0 <= r.src
    && r == DepRow(s, r.src, r.did)
    && s.edges[r.did].fromVersion == r.src
    && exists p: nat :: Owns(s, p, r.src)
  }

  lemma {:induction false} EdgeRowsMembers(s: Store, v: nat, dids: seq<nat>)
    requires forall k :: 0 <= k < |dids| ==> dids[k] < |s.edges|
    ensures forall r :: r in EdgeRows(s, v, dids) <==> exists k :: 0 <= k < |dids| && r == DepRow(s, v, dids[k])
    decreases |dids|
  {
    if dids != [] {
      var init := dids[..|dids| - 1];
      EdgeRowsMembers(s, v, init);
      forall r ensures r in EdgeRows(s, v, dids) <==> exists k :: 0 <= k < |dids| && r == DepRow(s, v, dids[k]) {
        if r in EdgeRows(s, v, init) {
          var k :| 0 <= k < |init| && r == DepRow(s, v, init[k]);
          assert dids[k] == init[k];
        }
        if exists k :: 0 <= k < |dids| && r == DepRow(s, v, dids[k]) {
          var k :| 0 <= k < |dids| && r == DepRow(s, v, dids[k]);
          if k < |init| {
            assert init[k] == dids[k];
          }
        }
      }
    }
  }

  /** Every ownership row of the versions `vids` of `p` is there, and every row is one of them or an edge row of one of them. */
  lemma {:induction false} VersionRowsMembers(s: Store, p: nat, vids: seq<nat>)
    requires Indexed(s) && forall k :: 0 <= k < |vids| ==> vids[k] < |s.versions|
    ensures forall r :: r in VersionRows(s, p, vids) <==>
              exists k :: 0 <= k < |vids| &&
                (r == OwnRow(s, p, vids[k]) || r in EdgeRows(s, vids[k], s.versions[vids[k]].dependencyIds))
    decreases |vids|
  {
    if vids != [] {
      var init := vids[..|vids| - 1];
      VersionRowsMembers(s, p, init);
      forall r ensures r in VersionRows(s, p, vids) <==>
              exists k :: 0 <= k < |vids| &&
                (r == OwnRow(s, p, vids[k]) || r in EdgeRows(s, vids[k], s.versions[vids[k]].dependencyIds))
      {
        if r in VersionRows(s, p, init) {
          var k :| 0 <= k < |init| &&
            (r == OwnRow(s, p, init[k]) || r in EdgeRows(s, init[k], s.versions[init[k]].dependencyIds));
          assert vids[k] == init[k];
        }
        if exists k :: 0 <= k < |vids| &&
             (r == OwnRow(s, p, vids[k]) || r in EdgeRows(s, vids[k], s.versions[vids[k]].dependencyIds)) {
          var k :| 0 <= k < |vids| &&
            (r == OwnRow(s, p, vids[k]) || r in EdgeRows(s, vids[k], s.versions[vids[k]].dependencyIds));
          if k < |init| {
            assert init[k] == vids[k];
          }
        }
      }
    }
  }

  /** The row for a (package, version) pair or a (version, edge) pair, as the edge list classifies it. */
  ghost predicate RowOfPackage(s: Store, p: nat, r: Row)
    requires Indexed(s) && p < |s.packages|
  {
    exists k :: 0 <= k < |s.packages[p].versionIds| &&
      var v := s.packages[p].versionIds[k];
      (r == OwnRow(s, p, v) || r in EdgeRows(s, v, s.versions[v].dependencyIds))
  }

  lemma {:induction false} PackageRowsMembers(s: Store, n: nat)
    requires Indexed(s) && n <= |s.packages|
    ensures forall r :: r in PackageRows(s, n) <==> exists p :: 0 <= p < n && RowOfPackage(s, p, r)
    decreases n
  {
    if n > 0 {
      PackageRowsMembers(s, n - 1);
      VersionRowsMembers(s, n - 1, s.packages[n - 1].versionIds);
      forall r ensures r in PackageRows(s, n) <==> exists p :: 0 <= p < n && RowOfPackage(s, p, r) {
        assert r in VersionRows(s, n - 1, s.packages[n - 1].versionIds) <==> RowOfPackage(s, n - 1, r);
        if exists p :: 0 <= p < n && RowOfPackage(s, p, r) {
          var p :| 0 <= p < n && RowOfPackage(s, p, r);
          if p < n - 1 {
            assert r in PackageRows(s, n - 1);
          }
        }
      }
    }
  }

  /**
   * Soundness and completeness of `build_cugraph`'s lists: a row is in the
   * list exactly when it is an ownership row of some package and one of its
   * versions, or the row of a dependency edge whose source version is owned by
   * some package.
   */
  lemma RowsClassified(s: Store)
    requires Valid(s)
    ensures (ValidIndexed(s); forall r :: r in Rows(s) <==> IsOwnRow(s, r) || IsDepRow(s, r))
  {
    ValidIndexed(s);
    PackageRowsMembers(s, |s.packages|);
    forall r ensures r in Rows(s) <==> IsOwnRow(s, r) || IsDepRow(s, r) {
      if r in Rows(s) {
        RowSound(s, r);
      }
      if IsOwnRow(s, r) || IsDepRow(s, r) {
        RowComplete(s, r);
      }
    }
  }

  /** A row of package `p` is an ownership row or the row of an edge of a version `p` owns. */
  lemma RowSound(s: Store, r: Row)
    requires Indexed(s) && EdgeListsValid(s)
    requires exists p :: 0 <= p < |s.packages| && RowOfPackage(s, p, r)
    ensures IsOwnRow(s, r) || IsDepRow(s, r)
  {
    var p :| 0 <= p < |s.packages| && RowOfPackage(s, p, r);
    var k :| 0 <= k < |s.packages[p].versionIds| &&
      var v := s.packages[p].versionIds[k];
      (r == OwnRow(s, p, v) || r in EdgeRows(s, v, s.versions[v].dependencyIds));
    var v := s.packages[p].versionIds[k];
    assert Owns(s, p, v);
    if r != OwnRow(s, p, v) {
      var dids := s.versions[v].dependencyIds;
      EdgeRowsMembers(s, v, dids);
      var j :| 0 <= j < |dids| && r == DepRow(s, v, dids[j]);
      assert s.edges[dids[j]].fromVersion == v;
      assert r.src == v && r.did == dids[j];
      assert IsDepRow(s, r);
    } else {
      assert OwnsRow(s, p, r);
    }
  }

  /** Every ownership row and every row of an owned version's edge belongs to its package's rows. */
  lemma RowComplete(s: Store, r: Row)
    requires Valid(s) && Indexed(s)
    requires IsOwnRow(s, r) || IsDepRow(s, r)
    ensures exists p :: 0 <= p < |s.packages| && RowOfPackage(s, p, r)
  {
    if IsOwnRow(s, r) {
      var p: nat :| OwnsRow(s, p, r);
      var k :| 0 <= k < |s.packages[p].versionIds| && s.packages[p].versionIds[k] == r.dst as nat;
      assert RowOfPackage(s, p, r);
    } else {
      var v := r.src as nat;
      var p: nat :| Owns(s, p, v);
      var k :| 0 <= k < |s.packages[p].versionIds| && s.packages[p].versionIds[k] == v;
      var dids := s.versions[v].dependencyIds;
      var j :| 0 <= j < |dids| && dids[j] == r.did;
      EdgeRowsMembers(s, v, dids);
      assert r in EdgeRows(s, v, dids);
      assert RowOfPackage(s, p, r);
    }
  }
}
