/**
 * What the package loaders (py/package_loader.py `_load_raw_packages`,
 * src/package_loader.cpp `load_raw_packages_`) do to a graph, as functions
 * of the arenas and the architecture table: a file is a list of stanzas
 * separated by blank lines; each stanza creates or reuses its package and
 * version, then every present dependency field, in dependency-type order,
 * is parsed into clauses whose architectures are interned and which become
 * one edge each. One OR-group counter, starting at 1, runs across all the
 * fields of a stanza.
 */
module Loading {
  import opened Wrappers
  import opened Text
  import opened BasicTypes
  import opened Types
  import opened Arenas
  import opened Clauses

  /** The record `_parse_dependency` / `parse_dependency_` returns: a clause with its architecture interned. */
  datatype Record = Record(name: string, versionConstraint: string, archConstraint: nat, group: nat)

  function Resolve(c: Clause, archId: nat): Record
  {
    Record(c.name, c.versionConstraint, archId, c.group)
  }

  /** `architectures.insert` (Python) or `architectures().add` (C++, 8-bit ids). */
  function InternArch(d: Dialect, archs: seq<string>, arch: string): (r: (seq<string>, nat))
    ensures r.0 == Intern(archs, arch).0 && r.1 < |r.0|
    ensures d == Python ==> r.1 == Intern(archs, arch).1
    ensures d == Cpp ==> r.1 < IdRange
  {
    if d == Python then Intern(archs, arch) else CppIntern(archs, arch)
  }

  /** One clause parsed and its architecture interned: the record and the table afterwards. */
  function ParseDependency(d: Dialect, archs: seq<string>, raw: string, group: nat): (Record, seq<string>)
  {
    var c := ParseClause(d, raw, group);
    var (t, id) := InternArch(d, archs, c.arch);
    (Resolve(c, id), t)
  }

  /** Interning the architectures of a list of clauses, left to right. */
  function InternClauses(d: Dialect, archs: seq<string>, cs: seq<Clause>): (r: (seq<Record>, seq<string>))
    ensures |r.0| == |cs|
    decreases |cs|
  {
    if cs == [] then ([], archs)
    else
      var (t, id) := InternArch(d, archs, cs[0].arch);
      var rest := InternClauses(d, t, cs[1..]);
      ([Resolve(cs[0], id)] + rest.0, rest.1)
  }

  /** `_parse_dependencies` / `parse_dependencies_`: the records, the table and the counter afterwards. */
  function ParseDependencies(d: Dialect, archs: seq<string>, raw: string, group: nat): (seq<Record>, seq<string>, nat)
  {
    var (cs, next) := ParseClauses(d, raw, group);
    var (rs, t) := InternClauses(d, archs, cs);
    (rs, t, next)
  }

  /** `x` extends `archs`: every existing id keeps its symbol. */
  predicate Extends(archs: seq<string>, x: seq<string>)
  {
    |archs| <= |x| && x[..|archs|] == archs
  }

  /**
   * Each record is its clause with an architecture id that names the
   * clause's architecture in the final table; in C++ that holds while the
   * table has at most 256 symbols, and the id is 8 bits wide.
   */
  lemma {:induction false} InternClausesResolve(d: Dialect, archs: seq<string>, cs: seq<Clause>)
    ensures var (rs, t) := InternClauses(d, archs, cs);
            && Extends(archs, t)
            && forall k :: 0 <= k < |cs| ==>
                 && rs[k] == Resolve(cs[k], rs[k].archConstraint)
                 && rs[k].archConstraint < |t|
                 && (d == Python || |t| <= IdRange ==> t[rs[k].archConstraint] == cs[k].arch)
                 && (d == Cpp ==> rs[k].archConstraint < IdRange)
    decreases |cs|
  {
    if cs != [] {
      var (t1, id) := InternArch(d, archs, cs[0].arch);
      InternStable(archs, cs[0].arch);
      InternClausesResolve(d, t1, cs[1..]);
      var (rs, t) := InternClauses(d, archs, cs);
      assert t[..|t1|] == t1;
      assert t[..|archs|] == t1[..|archs|];
      if d == Cpp && |t| <= IdRange {
        CppInternResolves(archs, cs[0].arch);
      }
      assert t[id] == t1[id];
      forall k | 1 <= k < |cs|
        ensures rs[k] == Resolve(cs[k], rs[k].archConstraint) && rs[k].archConstraint < |t|
      {
        assert rs[k] == InternClauses(d, t1, cs[1..]).0[k - 1];
      }
    }
  }

  /** The records of one field value have ids inside the table that results, which extends the old one. */
  lemma ParsedInTable(d: Dialect, archs: seq<string>, raw: string, group: nat)
    ensures var (rs, t, _) := ParseDependencies(d, archs, raw, group);
            Extends(archs, t) && forall i :: 0 <= i < |rs| ==> rs[i].archConstraint < |t|
  {
    InternClausesResolve(d, archs, ParseClauses(d, raw, group).0);
  }

  /** A C++ id names its symbol while the table fits the id type. */
  lemma CppInternResolves(archs: seq<string>, arch: string)
    requires |Intern(archs, arch).0| <= IdRange
    ensures CppIntern(archs, arch).1 == Intern(archs, arch).1
  {
  }

  /** Interning a list whose first clause is `c`: that clause's record, then the rest against the grown table. */
  lemma InternCons(d: Dialect, archs: seq<string>, c: Clause, rest: seq<Clause>)
    ensures var (t, id) := InternArch(d, archs, c.arch);
            InternClauses(d, archs, [c] + rest)
              == ([Resolve(c, id)] + InternClauses(d, t, rest).0, InternClauses(d, t, rest).1)
  {
    assert ([c] + rest)[1..] == rest;
  }

  /** `rs` followed by the records of the clauses `cs` still to intern into `archs` gives `final`. */
  predicate Pending(d: Dialect, rs: seq<Record>, archs: seq<string>, cs: seq<Clause>, final: (seq<Record>, seq<string>))
  {
    rs + InternClauses(d, archs, cs).0 == final.0 && InternClauses(d, archs, cs).1 == final.1
  }

  /** Interning the next pending clause moves its record over. */
  lemma PendingStep(d: Dialect, rs: seq<Record>, archs: seq<string>, c: Clause, rest: seq<Clause>,
                    final: (seq<Record>, seq<string>))
    requires Pending(d, rs, archs, [c] + rest, final)
    ensures var (t, id) := InternArch(d, archs, c.arch);
            Pending(d, rs + [Resolve(c, id)], t, rest, final)
  {
    InternCons(d, archs, c, rest);
    var (t, id) := InternArch(d, archs, c.arch);
    assert rs + ([Resolve(c, id)] + InternClauses(d, t, rest).0) == rs + [Resolve(c, id)] + InternClauses(d, t, rest).0;
  }

  /** What `ParseDependencies` is, spelled out for a loop over the AND pieces. */
  lemma ParseDependenciesIs(d: Dialect, archs: seq<string>, raw: string, group: nat)
    ensures var ands := SplitOn(d, raw, ',');
            var (rs, t, next) := ParseDependencies(d, archs, raw, group);
            Pending(d, [], archs, AndClauses(d, ands, group), (rs, t)) && next == Counter(d, ands, group)
  {
    var ands := SplitOn(d, raw, ',');
    assert [] + InternClauses(d, archs, AndClauses(d, ands, group)).0 == InternClauses(d, archs, AndClauses(d, ands, group)).0;
  }

  /** The alternatives from position `j` on, followed by `rest`: the one at `j`, then the others. */
  lemma OrsStep(d: Dialect, ors: seq<string>, j: nat, group: nat, rest: seq<Clause>)
    requires j < |ors|
    ensures ParseOrs(d, ors[j..], group) + rest == [ParseClause(d, ors[j], group)] + (ParseOrs(d, ors[j + 1..], group) + rest)
  {
    assert ors[j..][1..] == ors[j + 1..];
    var first, others := ParseClause(d, ors[j], group), ParseOrs(d, ors[j + 1..], group);
    assert ParseOrs(d, ors[j..], group) == [first] + others;
    ConsAssoc(first, others, rest);
  }

  /** Prepending an element commutes with appending a tail. */
  lemma ConsAssoc<T>(x: T, xs: seq<T>, rest: seq<T>)
    ensures [x] + xs + rest == [x] + (xs + rest)
  {
  }

  /** The AND pieces, when the first has several alternatives: those, then the rest with the next group. */
  lemma AndStepMulti(d: Dialect, ands: seq<string>, group: nat)
    requires ands != [] && |Alternatives(d, ands[0])| > 1
    ensures AndClauses(d, ands, group)
            == ParseOrs(d, Alternatives(d, ands[0]), group) + AndClauses(d, ands[1..], NextGroup(d, group))
    ensures Counter(d, ands, group) == Counter(d, ands[1..], NextGroup(d, group))
  {
  }

  /** The AND pieces, when the first has one alternative: it whole in group 0, then the rest. */
  lemma AndStepSingle(d: Dialect, ands: seq<string>, group: nat)
    requires ands != [] && |Alternatives(d, ands[0])| <= 1
    ensures AndClauses(d, ands, group) == [ParseClause(d, ands[0], 0)] + AndClauses(d, ands[1..], group)
    ensures Counter(d, ands, group) == Counter(d, ands[1..], group)
  {
  }

  // ------------------------------------------------------------------ edges

  /** Edge `e` of store `s` is the one a record gives: from `from`, to the package named by the record. */
  predicate Carries(s: Store, e: DependencyEdge, from: nat, dtid: nat, rec: Record)
  {
    && e.fromVersion == from && e.toPackage < |s.packages| && s.packages[e.toPackage].name == rec.name
    && e.versionConstraint == rec.versionConstraint && e.architectureConstraint == rec.archConstraint
    && e.dependencyType == dtid && e.group == rec.group
  }

  /** One parsed item: `create_package` of its target, then `create_dependency`. */
  function AddRecord(s: Store, from: nat, dtid: nat, rec: Record): (r: Store)
    requires Valid(s) && from < |s.versions|
    ensures Valid(r) && |r.versions| == |s.versions|
  {
    var (s1, pid, _) := AddPackage(s, rec.name);
    AddDependency(s1, from, pid, rec.versionConstraint, rec.archConstraint, dtid, rec.group).0
  }

  /** The loop over the parsed items. */
  function AddRecords(s: Store, from: nat, dtid: nat, rs: seq<Record>): (r: Store)
    requires Valid(s) && from < |s.versions|
    ensures Valid(r) && |r.versions| == |s.versions|
    decreases |rs|
  {
    if rs == [] then s else AddRecords(AddRecord(s, from, dtid, rs[0]), from, dtid, rs[1..])
  }

  /**
   * `r` only adds to `s`: packages and edges are appended, names keep their
   * packages, and the versions keep their keys.
   */
  predicate Appends(s: Store, r: Store)
  {
    && |s.packages| <= |r.packages| && r.packages[..|s.packages|] == s.packages
    && (forall n :: n in s.names ==> n in r.names && r.names[n] == s.names[n])
    && |r.versions| == |s.versions|
    && (forall v :: 0 <= v < |s.versions| ==>
          r.versions[v].version == s.versions[v].version && r.versions[v].architecture == s.versions[v].architecture)
    && |s.edges| <= |r.edges| && r.edges[..|s.edges|] == s.edges
  }

  lemma AppendsTransitive(s: Store, m: Store, r: Store)
    requires Appends(s, m) && Appends(m, r)
    ensures Appends(s, r)
  {
    assert r.packages[..|s.packages|] == r.packages[..|m.packages|][..|s.packages|];
    assert r.edges[..|s.edges|] == r.edges[..|m.edges|][..|s.edges|];
  }

  /** `create_package` only adds. */
  lemma PackageAppends(s: Store, name: string)
    requires Valid(s)
    ensures Appends(s, AddPackage(s, name).0)
  {
    var r := AddPackage(s, name).0;
    assert r.edges[..|s.edges|] == s.edges;
    if name !in s.names {
      assert r.packages[..|s.packages|] == s.packages;
    } else {
      assert r.packages[..|s.packages|] == s.packages;
    }
  }

  /** `create_dependency` only adds, and the edge it adds carries its arguments. */
  lemma DependencyAppends(s: Store, from: nat, to: nat, dtid: nat, rec: Record)
    requires Valid(s) && from < |s.versions| && to < |s.packages| && s.packages[to].name == rec.name
    ensures var r := AddDependency(s, from, to, rec.versionConstraint, rec.archConstraint, dtid, rec.group).0;
            Appends(s, r) && |r.edges| == |s.edges| + 1 && Carries(r, r.edges[|s.edges|], from, dtid, rec)
  {
    var r := AddDependency(s, from, to, rec.versionConstraint, rec.archConstraint, dtid, rec.group).0;
    assert r.packages[..|s.packages|] == s.packages;
    assert r.edges[..|s.edges|] == s.edges;
  }

  /** One item appends exactly one edge, carrying the record. */
  lemma RecordAppendsEdge(s: Store, from: nat, dtid: nat, rec: Record)
    requires Valid(s) && from < |s.versions|
    ensures var r := AddRecord(s, from, dtid, rec);
            Appends(s, r) && |r.edges| == |s.edges| + 1 && Carries(r, r.edges[|s.edges|], from, dtid, rec)
  {
    var (s1, pid, _) := AddPackage(s, rec.name);
    PackageAppends(s, rec.name);
    DependencyAppends(s1, from, pid, dtid, rec);
    var r := AddDependency(s1, from, pid, rec.versionConstraint, rec.archConstraint, dtid, rec.group).0;
    AppendsTransitive(s, s1, r);
  }

  /** An edge that carries a record keeps carrying it as the store grows. */
  lemma CarriesKept(m: Store, r: Store, i: nat, from: nat, dtid: nat, rec: Record)
    requires Appends(m, r) && i < |m.edges| && Carries(m, m.edges[i], from, dtid, rec)
    ensures i < |r.edges| && Carries(r, r.edges[i], from, dtid, rec)
  {
    assert r.edges[i] == r.edges[..|m.edges|][i];
    var p := m.edges[i].toPackage;
    assert r.packages[p] == r.packages[..|m.packages|][p];
  }

  /** The edges of `r` from position `base` on carry the records `rs`, one each. */
  predicate AllCarry(r: Store, base: nat, from: nat, dtid: nat, rs: seq<Record>)
  {
    base + |rs| <= |r.edges| && forall k :: 0 <= k < |rs| ==> Carries(r, r.edges[base + k], from, dtid, rs[k])
  }

  lemma AllCarryCons(r: Store, base: nat, from: nat, dtid: nat, rs: seq<Record>)
    requires rs != [] && base < |r.edges| && Carries(r, r.edges[base], from, dtid, rs[0])
    requires AllCarry(r, base + 1, from, dtid, rs[1..])
    ensures AllCarry(r, base, from, dtid, rs)
  {
    forall k | 1 <= k < |rs| ensures Carries(r, r.edges[base + k], from, dtid, rs[k]) {
      assert rs[k] == rs[1..][k - 1];
      assert base + k == base + 1 + (k - 1);
    }
  }

  /** Each record appends exactly one edge, carrying the record, and nothing earlier changes. */
  lemma {:induction false} RecordsAppendEdges(s: Store, from: nat, dtid: nat, rs: seq<Record>)
    requires Valid(s) && from < |s.versions|
    ensures var r := AddRecords(s, from, dtid, rs);
            Appends(s, r) && |r.edges| == |s.edges| + |rs| && AllCarry(r, |s.edges|, from, dtid, rs)
    decreases |rs|
  {
    if rs != [] {
      var s1 := AddRecord(s, from, dtid, rs[0]);
      RecordAppendsEdge(s, from, dtid, rs[0]);
      RecordsAppendEdges(s1, from, dtid, rs[1..]);
      var r := AddRecords(s, from, dtid, rs);
      AppendsTransitive(s, s1, r);
      CarriesKept(s1, r, |s.edges|, from, dtid, rs[0]);
      AllCarryCons(r, |s.edges|, from, dtid, rs);
    }
  }

  // ---------------------------------------------------------------- stanzas

  /** Whether a stanza's field for a dependency type is processed: Python wants a non-empty value, C++ a key. */
  predicate Present(d: Dialect, kv: map<string, string>, dtype: string)
  {
    dtype in kv && (d == Cpp || kv[dtype] != "")
  }

  /** The type id passed to `create_dependency`: `dependency_types.id(dtype)`, or the C++ loop index. */
  function TypeId(d: Dialect, types: seq<string>, k: nat): (r: nat)
    requires k < |types|
    ensures r < |types| && types[r] == types[k]
  {
    if d == Python then Lookup(types, types[k]).value else k
  }

  /** With a duplicate-free type table, both loaders pass the type's own position. */
  lemma TypeIdIsIndex(d: Dialect, types: seq<string>, k: nat)
    requires Distinct(types) && k < |types|
    ensures TypeId(d, types, k) == k
  {
  }

  /**
   * The field of dependency type `k`, when present: parsed with the running
   * counter, its architectures interned and its records added as edges
   * leaving version `vid`. Returns the store, the table and the counter.
   */
  function LoadField(d: Dialect, s: Store, archs: seq<string>, types: seq<string>, vid: nat,
                     kv: map<string, string>, k: nat, group: nat): (r: (Store, seq<string>, nat))
    requires Valid(s) && vid < |s.versions| && k < |types|
    ensures Valid(r.0) && |r.0.versions| == |s.versions|
  {
    if !Present(d, kv, types[k]) then (s, archs, group)
    else
      var (rs, t, next) := ParseDependencies(d, archs, kv[types[k]], group);
      (AddRecords(s, vid, TypeId(d, types, k), rs), t, next)
  }

  /** The loop over the dependency types from position `k` on. */
  function LoadFields(d: Dialect, s: Store, archs: seq<string>, types: seq<string>, vid: nat,
                      kv: map<string, string>, k: nat, group: nat): (r: (Store, seq<string>))
    requires Valid(s) && vid < |s.versions| && k <= |types|
    ensures Valid(r.0)
    decreases |types| - k
  {
    if k == |types| then (s, archs)
    else
      var (s1, t, next) := LoadField(d, s, archs, types, vid, kv, k, group);
      LoadFields(d, s1, t, types, vid, kv, k + 1, next)
  }

  /**
   * An edge the fields from position `k` on can give: it leaves `vid`, has
   * the type id of a present field, and in Python its architecture is in
   * table `t`.
   */
  predicate FieldEdge(d: Dialect, e: DependencyEdge, t: seq<string>, types: seq<string>, vid: nat,
                      kv: map<string, string>, k: nat)
  {
    && e.fromVersion == vid
    && (exists j :: k <= j < |types| && Present(d, kv, types[j]) && e.dependencyType == TypeId(d, types, j))
    && (d == Python ==> e.architectureConstraint < |t|)
  }

  /** Every edge of `r` from position `lo` on is a `FieldEdge`. */
  predicate FieldEdges(d: Dialect, r: Store, lo: nat, t: seq<string>, types: seq<string>, vid: nat,
                       kv: map<string, string>, k: nat)
  {
    lo <= |r.edges| && forall e :: lo <= e < |r.edges| ==> FieldEdge(d, r.edges[e], t, types, vid, kv, k)
  }

  /** A field edge stays one for a larger table and an earlier starting position. */
  lemma FieldEdgeWeaken(d: Dialect, e: DependencyEdge, t: seq<string>, t': seq<string>, types: seq<string>, vid: nat,
                        kv: map<string, string>, k: nat, k': nat)
    requires FieldEdge(d, e, t, types, vid, kv, k') && k <= k' && |t| <= |t'|
    ensures FieldEdge(d, e, t', types, vid, kv, k)
  {
  }

  /** The edges one present field appends are field edges. */
  lemma BlockEdges(d: Dialect, s1: Store, base: nat, t: seq<string>, types: seq<string>, vid: nat,
                   kv: map<string, string>, k: nat, rs: seq<Record>)
    requires k < |types| && Present(d, kv, types[k])
    requires AllCarry(s1, base, vid, TypeId(d, types, k), rs) && base + |rs| == |s1.edges|
    requires forall i :: 0 <= i < |rs| ==> rs[i].archConstraint < |t|
    ensures FieldEdges(d, s1, base, t, types, vid, kv, k)
  {
    forall e | base <= e < |s1.edges| ensures FieldEdge(d, s1.edges[e], t, types, vid, kv, k) {
      assert Carries(s1, s1.edges[base + (e - base)], vid, TypeId(d, types, k), rs[e - base]);
    }
  }

  /** Appending the later fields' edges keeps the earlier block's edges field edges. */
  lemma FieldEdgesJoin(d: Dialect, s: Store, s1: Store, r: Store, t1: seq<string>, t: seq<string>,
                       types: seq<string>, vid: nat, kv: map<string, string>, k: nat)
    requires Appends(s1, r) && |s.edges| <= |s1.edges| && |t1| <= |t|
    requires FieldEdges(d, s1, |s.edges|, t1, types, vid, kv, k)
    requires FieldEdges(d, r, |s1.edges|, t, types, vid, kv, k + 1)
    ensures FieldEdges(d, r, |s.edges|, t, types, vid, kv, k)
  {
    forall e | |s.edges| <= e < |r.edges| ensures FieldEdge(d, r.edges[e], t, types, vid, kv, k) {
      if e < |s1.edges| {
        assert r.edges[e] == r.edges[..|s1.edges|][e];
        FieldEdgeWeaken(d, r.edges[e], t1, t, types, vid, kv, k, k);
      } else {
        FieldEdgeWeaken(d, r.edges[e], t, t, types, vid, kv, k, k + 1);
      }
    }
  }

  /**
   * What the fields add: edges only, each leaving the stanza's version with
   * the type id of a present field; the table only grows, and in Python
   * every edge's architecture is in it.
   */
  lemma {:induction false} FieldsAppendEdges(d: Dialect, s: Store, archs: seq<string>, types: seq<string>, vid: nat,
                                             kv: map<string, string>, k: nat, group: nat)
    requires Valid(s) && vid < |s.versions| && k <= |types|
    ensures var (r, t) := LoadFields(d, s, archs, types, vid, kv, k, group);
            Appends(s, r) && Extends(archs, t) && FieldEdges(d, r, |s.edges|, t, types, vid, kv, k)
    decreases |types| - k
  {
    if k < |types| {
      var (s1, t1, next) := LoadField(d, s, archs, types, vid, kv, k, group);
      FieldAppendsEdges(d, s, archs, types, vid, kv, k, group);
      FieldsAppendEdges(d, s1, t1, types, vid, kv, k + 1, next);
      var (r, t) := LoadFields(d, s1, t1, types, vid, kv, k + 1, next);
      assert LoadFields(d, s, archs, types, vid, kv, k, group) == (r, t);
      AppendsTransitive(s, s1, r);
      assert t[..|archs|] == t[..|t1|][..|archs|];
      FieldEdgesJoin(d, s, s1, r, t1, t, types, vid, kv, k);
    } else {
      assert s.edges[..|s.edges|] == s.edges && s.packages[..|s.packages|] == s.packages;
    }
  }

  /** What one field adds: field edges only; the table only grows. */
  lemma FieldAppendsEdges(d: Dialect, s: Store, archs: seq<string>, types: seq<string>, vid: nat,
                          kv: map<string, string>, k: nat, group: nat)
    requires Valid(s) && vid < |s.versions| && k < |types|
    ensures var (r, t, _) := LoadField(d, s, archs, types, vid, kv, k, group);
            Appends(s, r) && Extends(archs, t) && FieldEdges(d, r, |s.edges|, t, types, vid, kv, k)
  {
    if Present(d, kv, types[k]) {
      var (rs, t, next) := ParseDependencies(d, archs, kv[types[k]], group);
      RecordsAppendEdges(s, vid, TypeId(d, types, k), rs);
      ParsedInTable(d, archs, kv[types[k]], group);
      BlockEdges(d, AddRecords(s, vid, TypeId(d, types, k), rs), |s.edges|, t, types, vid, kv, k, rs);
    } else {
      assert s.edges[..|s.edges|] == s.edges && s.packages[..|s.packages|] == s.packages;
    }
  }

  /** The three keys every stanza needs. */
  predicate Complete(kv: map<string, string>)
  {
    "Package" in kv && "Architecture" in kv && "Version" in kv
  }

  /**
   * The start of a Python stanza (`kv` is what `deb822.Deb822` returns for
   * it): its package, its architecture interned, its version. Returns the
   * store, the table and the version's id.
   */
  function PyHead(s: Store, archs: seq<string>, kv: map<string, string>): (r: (Store, seq<string>, nat))
    requires Valid(s) && Complete(kv)
    ensures Valid(r.0) && r.2 < |r.0.versions|
  {
    var (s1, pid, _) := AddPackage(s, kv["Package"]);
    var (a1, aid) := Intern(archs, kv["Architecture"]);
    var (s2, vid, _) := AddVersion(s1, pid, kv["Version"], aid);
    (s2, a1, vid)
  }

  /** One Python stanza: its head, then the fields with the counter at 1. */
  function PyStanza(s: Store, archs: seq<string>, types: seq<string>, kv: map<string, string>): (r: (Store, seq<string>))
    requires Valid(s) && Complete(kv)
    ensures Valid(r.0)
  {
    var (s2, a1, vid) := PyHead(s, archs, kv);
    LoadFields(Python, s2, a1, types, vid, kv, 0, 1)
  }

  /** The version a stanza names: in package `name`'s list, with the given string and architecture. */
  predicate Names(r: Store, t: seq<string>, v: nat, kv: map<string, string>)
    requires Complete(kv)
  {
    && kv["Package"] in r.names && r.names[kv["Package"]] < |r.packages|
    && v < |r.versions| && v in r.packages[r.names[kv["Package"]]].versionIds
    && r.versions[v].version == kv["Version"] && r.versions[v].architecture < |t|
    && t[r.versions[v].architecture] == kv["Architecture"]
  }

  /** The head creates no edges and leaves a version named by the stanza. */
  lemma PyHeadFacts(s: Store, archs: seq<string>, kv: map<string, string>)
    requires Valid(s) && Complete(kv)
    ensures var (s2, a1, vid) := PyHead(s, archs, kv);
            s2.edges == s.edges && Extends(archs, a1) && Names(s2, a1, vid, kv)
  {
    InternStable(archs, kv["Architecture"]);
  }

  /** A version named by the stanza stays named as the fields add to the store and the table. */
  lemma NamesKept(s2: Store, a1: seq<string>, r: Store, t: seq<string>, v: nat, kv: map<string, string>)
    requires Complete(kv) && Names(s2, a1, v, kv) && Appends(s2, r) && Extends(a1, t)
    ensures Names(r, t, v, kv)
  {
    var pid := s2.names[kv["Package"]];
    assert r.packages[pid] == r.packages[..|s2.packages|][pid];
    assert t[s2.versions[v].architecture] == t[..|a1|][s2.versions[v].architecture];
  }

  lemma ExtendsTransitive(a: seq<string>, b: seq<string>, c: seq<string>)
    requires Extends(a, b) && Extends(b, c)
    ensures Extends(a, c)
  {
    assert c[..|a|] == c[..|b|][..|a|];
  }

  /**
   * One C++ stanza: `kv.at` throws on a missing key, after the effects of
   * the earlier steps; the flag says whether the stanza completed.
   */
  function CppStanza(s: Store, archs: seq<string>, types: seq<string>, kv: map<string, string>): (r: (Store, seq<string>, bool))
    requires Valid(s)
    ensures Valid(r.0)
  {
    if "Package" !in kv then (s, archs, false)
    else
      var (s1, pid, _) := AddPackage(s, kv["Package"]);
      if "Architecture" !in kv then (s1, archs, false)
      else
        var (a1, aid) := CppIntern(archs, kv["Architecture"]);
        if "Version" !in kv then (s1, a1, false)
        else
          var (s2, vid, _) := AddVersion(s1, pid, kv["Version"], aid);
          var (s3, a2) := LoadFields(Cpp, s2, a1, types, vid, kv, 0, Wrapped(1));
          (s3, a2, true)
  }

  /**
   * A complete stanza leaves its package, with a version of the given
   * string and architecture; earlier edges stay, and every edge it adds
   * leaves that version.
   */
  lemma PyStanzaFacts(s: Store, archs: seq<string>, types: seq<string>, kv: map<string, string>)
    requires Valid(s) && Complete(kv)
    ensures var (r, t) := PyStanza(s, archs, types, kv);
            && Extends(archs, t) && |s.edges| <= |r.edges| && r.edges[..|s.edges|] == s.edges
            && exists v :: Names(r, t, v, kv) && forall e :: |s.edges| <= e < |r.edges| ==> r.edges[e].fromVersion == v
  {
    var (s2, a1, vid) := PyHead(s, archs, kv);
    var (r, t) := LoadFields(Python, s2, a1, types, vid, kv, 0, 1);
    assert PyStanza(s, archs, types, kv) == (r, t);
    PyHeadFacts(s, archs, kv);
    assert Appends(s2, r) && Extends(a1, t) && forall e :: |s.edges| <= e < |r.edges| ==> r.edges[e].fromVersion == vid by {
      FieldsAppendEdges(Python, s2, a1, types, vid, kv, 0, 1);
      assert FieldEdges(Python, r, |s2.edges|, t, types, vid, kv, 0);
    }
    ExtendsTransitive(archs, a1, t);
    NamesKept(s2, a1, r, t, vid, kv);
  }

  /** Whether a piece between blank lines is itself blank, and skipped. */
  predicate BlankPiece(d: Dialect, piece: string)
  {
    Strip(d, piece) == ""
  }

  /** `parse` gives the three keys of a stanza for every non-blank piece. */
  predicate Readable(pieces: seq<string>, parse: string -> map<string, string>)
  {
    forall k :: 0 <= k < |pieces| && !BlankPiece(Python, pieces[k]) ==> Complete(parse(pieces[k]))
  }

  /**
   * The Python stanza loop over the pieces of a file; `parse` stands for
   * `deb822.Deb822`, and every non-blank piece must give the three keys.
   */
  function PyLoad(s: Store, archs: seq<string>, types: seq<string>, pieces: seq<string>,
                  parse: string -> map<string, string>): (r: (Store, seq<string>))
    requires Valid(s)
    requires Readable(pieces, parse)
    ensures Valid(r.0)
    decreases |pieces|
  {
    if pieces == [] then (s, archs)
    else if BlankPiece(Python, pieces[0]) then PyLoad(s, archs, types, pieces[1..], parse)
    else
      var (s1, a1) := PyStanza(s, archs, types, parse(pieces[0]));
      PyLoad(s1, a1, types, pieces[1..], parse)
  }

  /** The stanzas of a file: the pieces between the blank lines. */
  function Pieces(d: Dialect, raw: string): seq<string>
  {
    if d == Python then Split(raw, BlankLine) else CppSplit(raw, BlankLine)
  }

  /** What ends a line of a stanza. */
  const LineBreak: string := "\n"

  /** What separates two stanzas. */
  const BlankLine: string := "\n\n"

  // ------------------------------------------------------------ C++ stanzas

  /** A key and its value, as one line of a C++ stanza gives them. */
  datatype Entry = Entry(key: string, value: string)

  /** What a line says: for a non-empty line with a `:`, the trimmed text before it and the trimmed rest. */
  function LineEntry(line: string): Option<Entry>
  {
    if line == [] then None
    else
      var pos := Find(line, ':');
      if pos < 0 then None else Some(Entry(CppTrim(line[..pos]), CppTrim(line[pos + 1..])))
  }

  /** One line of a C++ stanza: `kv[trim(key)] = trim(rest)` when it says anything. */
  function KvLine(kv: map<string, string>, line: string): map<string, string>
  {
    match LineEntry(line)
    case None => kv
    case Some(e) => kv[e.key := e.value]
  }

  /** The lines of a stanza, in order. */
  function KvLines(kv: map<string, string>, lines: seq<string>): map<string, string>
    decreases |lines|
  {
    if lines == [] then kv else KvLines(KvLine(kv, lines[0]), lines[1..])
  }

  /** The lines from the first on: the first line applied, then the others. */
  lemma KvLinesStep(kv: map<string, string>, lines: seq<string>)
    requires lines != []
    ensures KvLines(kv, lines) == KvLines(KvLine(kv, lines[0]), lines[1..])
  {
  }

  /** The key-value map of a C++ stanza. */
  function StanzaFields(raw: string): map<string, string>
  {
    KvLines(map[], CppSplit(raw, LineBreak))
  }

  /** Line `line` sets key `key`. */
  predicate Sets(line: string, key: string)
  {
    LineEntry(line).Some? && LineEntry(line).value.key == key
  }

  /** A key no line sets keeps what it had. */
  lemma {:induction false} KvUntouched(kv: map<string, string>, lines: seq<string>, key: string)
    requires forall i :: 0 <= i < |lines| ==> !Sets(lines[i], key)
    ensures key in KvLines(kv, lines) <==> key in kv
    ensures key in kv ==> KvLines(kv, lines)[key] == kv[key]
    decreases |lines|
  {
    if lines != [] {
      KvUntouched(KvLine(kv, lines[0]), lines[1..], key);
    }
  }

  /** A later line overwrites an earlier one: the value of a key comes from the last line that sets it. */
  lemma {:induction false} KvLastLineWins(kv: map<string, string>, lines: seq<string>, key: string, j: nat)
    requires j < |lines| && Sets(lines[j], key)
    requires forall i :: j < i < |lines| ==> !Sets(lines[i], key)
    ensures key in KvLines(kv, lines) && KvLines(kv, lines)[key] == LineEntry(lines[j]).value.value
    decreases |lines|
  {
    var tail := lines[1..];
    forall i | j <= i < |tail|
      ensures !Sets(tail[i], key)
    {
      assert tail[i] == lines[i + 1];
    }
    if j == 0 {
      KvUntouched(KvLine(kv, lines[0]), tail, key);
    } else {
      assert tail[j - 1] == lines[j];
      KvLastLineWins(KvLine(kv, lines[0]), tail, key, j - 1);
    }
  }

  /** The C++ stanza loop over the pieces of a file; it stops at the first stanza that throws. */
  function CppLoad(s: Store, archs: seq<string>, types: seq<string>, pieces: seq<string>): (r: (Store, seq<string>, bool))
    requires Valid(s)
    ensures Valid(r.0)
    decreases |pieces|
  {
    if pieces == [] then (s, archs, true)
    else if BlankPiece(Cpp, pieces[0]) then CppLoad(s, archs, types, pieces[1..])
    else
      var (s1, a1, ok) := CppStanza(s, archs, types, StanzaFields(pieces[0]));
      if !ok then (s1, a1, false) else CppLoad(s1, a1, types, pieces[1..])
  }

  /**
   * A stanza lacking `Package`, `Architecture` or `Version` throws before
   * any version or edge is created for it; a complete one does not throw.
   */
  lemma CppStanzaThrows(s: Store, archs: seq<string>, types: seq<string>, kv: map<string, string>)
    requires Valid(s)
    ensures var (r, t, ok) := CppStanza(s, archs, types, kv);
            && (ok <==> Complete(kv))
            && (!ok ==> r.versions == s.versions && r.edges == s.edges && Extends(archs, t))
  {
    if "Package" in kv && "Architecture" in kv && "Version" !in kv {
      InternStable(archs, kv["Architecture"]);
    }
  }

  /** Blank pieces are skipped: a file of blank pieces changes nothing. */
  lemma {:induction false} BlankPiecesSkipped(d: Dialect, s: Store, archs: seq<string>, types: seq<string>,
                                              pieces: seq<string>, parse: string -> map<string, string>)
    requires Valid(s) && forall k :: 0 <= k < |pieces| ==> BlankPiece(d, pieces[k])
    ensures d == Python ==> PyLoad(s, archs, types, pieces, parse) == (s, archs)
    ensures d == Cpp ==> CppLoad(s, archs, types, pieces) == (s, archs, true)
    decreases |pieces|
  {
    if pieces != [] {
      BlankPiecesSkipped(d, s, archs, types, pieces[1..], parse);
    }
  }
}
