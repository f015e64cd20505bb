/**
 * `PackageLoader` of py/package_loader.py: it fills a `DependencyGraph`
 * from the text of a Packages file. Each method is proved against the
 * functions of module `Loading`; `deb822.Deb822`, the parser of one stanza,
 * is a parameter.
 */
module PyLoader {
  import opened Text
  import opened Arenas
  import opened Traversal
  import opened Clauses
  import opened Loading
  import BasicTypes
  import PyGraph

  /** A larger architecture table keeps a graph well formed. */
  lemma WfGrowArchs(g: Graph, archs: seq<string>)
    requires Wf(g) && |g.archs| <= |archs|
    ensures Wf(g.(archs := archs))
  {
  }

  class PackageLoader {
    const graph: PyGraph.DependencyGraph

    /** `__init__`. */
    constructor (graph: PyGraph.DependencyGraph)
      ensures this.graph == graph
    {
      this.graph := graph;
    }

    /**
     * `_parse_dependency`: the clause fields of `raw`, with its architecture
     * interned into `graph.architectures` (which may grow).
     */
    method ParseDependency(raw: string, group: nat) returns (rec: Record)
      requires graph.Valid()
      modifies graph.architectures
      ensures graph.Valid()
      ensures (rec, graph.architectures.symbols)
              == Loading.ParseDependency(Python, old(graph.architectures.symbols), raw, group)
    {
      var c := ParseClause(Python, raw, group);
      ghost var g := graph.View();
      var id := graph.architectures.Insert(c.arch);
      rec := Resolve(c, id);
      BasicTypes.InternStable(old(graph.architectures.symbols), c.arch);
      WfGrowArchs(g, graph.architectures.symbols);
    }

    /**
     * The inner loop of `_parse_dependencies` over the alternatives `ors`
     * of one `,` piece, all in group `group`: their records are appended
     * to `rs`.
     */
    method ParseAlternatives(ors: seq<string>, group: nat, rs: seq<Record>, ghost rest: seq<Clause>,
                             ghost final: (seq<Record>, seq<string>)) returns (out: seq<Record>)
      requires graph.Valid()
      requires Pending(Python, rs, graph.architectures.symbols, ParseOrs(Python, ors, group) + rest, final)
      modifies graph.architectures
      ensures graph.Valid()
      ensures Pending(Python, out, graph.architectures.symbols, rest, final)
    {
      assert ors[0..] == ors;
      out := rs;
      var j := 0;
      while j < |ors|
        invariant 0 <= j <= |ors| && graph.Valid()
        invariant Pending(Python, out, graph.architectures.symbols, ParseOrs(Python, ors[j..], group) + rest, final)
      {
        OrsStep(Python, ors, j, group, rest);
        PendingStep(Python, out, graph.architectures.symbols, ParseClause(Python, ors[j], group),
                    ParseOrs(Python, ors[j + 1..], group) + rest, final);
        var rec := ParseDependency(ors[j], group);
        out := out + [rec];
        j := j + 1;
      }
      assert ParseOrs(Python, ors[j..], group) + rest == rest;
    }

    /**
     * One turn of the outer loop of `_parse_dependencies`: the `,` piece
     * `piece`, first of the pieces `todo`, split at `|`; several
     * alternatives share group `group`, which then advances, a single one
     * is in group 0.
     */
    method ParsePiece(piece: string, group: nat, rs: seq<Record>, ghost todo: seq<string>,
                      ghost final: (seq<Record>, seq<string>)) returns (out: seq<Record>, next: nat)
      requires graph.Valid() && todo != [] && todo[0] == piece
      requires Pending(Python, rs, graph.architectures.symbols, AndClauses(Python, todo, group), final)
      modifies graph.architectures
      ensures graph.Valid()
      ensures Pending(Python, out, graph.architectures.symbols, AndClauses(Python, todo[1..], next), final)
      ensures Counter(Python, todo[1..], next) == Counter(Python, todo, group)
    {
      var ors := Split(piece, "|");
      assert ors == Alternatives(Python, todo[0]);
      if |ors| > 1 {
        AndStepMulti(Python, todo, group);
        out := ParseAlternatives(ors, group, rs, AndClauses(Python, todo[1..], group + 1), final);
        next := group + 1;
      } else {
        AndStepSingle(Python, todo, group);
        PendingStep(Python, rs, graph.architectures.symbols, ParseClause(Python, piece, 0),
                    AndClauses(Python, todo[1..], group), final);
        var rec := ParseDependency(piece, 0);
        out, next := rs + [rec], group;
      }
    }

    /**
     * `_parse_dependencies`: one record per alternative of each `,` piece;
     * the alternatives of a piece with several share `group[0]`, which then
     * advances, and a single alternative is in group 0. The `group` cell is
     * passed in and handed back.
     */
    method ParseDependencies(raw: string, group: nat) returns (rs: seq<Record>, next: nat)
      requires graph.Valid()
      modifies graph.architectures
      ensures graph.Valid()
      ensures (rs, graph.architectures.symbols, next)
              == Loading.ParseDependencies(Python, old(graph.architectures.symbols), raw, group)
      ensures forall k :: 0 <= k < |rs| ==> rs[k].archConstraint < |graph.architectures.symbols|
    {
      ParsedInTable(Python, graph.architectures.symbols, raw, group);
      var ands := Split(raw, ",");
      ghost var final := Loading.ParseDependencies(Python, graph.architectures.symbols, raw, group);
      ParseDependenciesIs(Python, graph.architectures.symbols, raw, group);
      ghost var todo := ands;
      rs, next := [], group;
      var i := 0;
      while i < |ands|
        invariant 0 <= i <= |ands| && graph.Valid() && todo == ands[i..]
        invariant Pending(Python, rs, graph.architectures.symbols, AndClauses(Python, todo, next), (final.0, final.1))
        invariant Counter(Python, todo, next) == final.2
      {
        assert todo[0] == ands[i];
        rs, next := ParsePiece(ands[i], next, rs, todo, (final.0, final.1));
        todo := todo[1..];
        i := i + 1;
      }
      assert rs == final.0;
    }

    /** One parsed item: `create_package` of its target, then `create_dependency`. */
    method AddItem(vid: nat, dtid: nat, rec: Record)
      requires graph.Valid() && vid < |graph.versions| && dtid < |graph.dependencyTypes.symbols|
      requires rec.archConstraint < |graph.architectures.symbols|
      modifies graph
      ensures graph.Valid()
      ensures graph.Contents() == AddRecord(old(graph.Contents()), vid, dtid, rec)
    {
      var pid := graph.CreatePackage(rec.name);
      var _ := graph.CreateDependency(vid, pid, rec.versionConstraint, rec.archConstraint, dtid, rec.group);
    }

    /** The loop over the parsed items of one field: target package, then one edge each. */
    method AddItems(vid: nat, dtid: nat, rs: seq<Record>)
      requires graph.Valid() && vid < |graph.versions| && dtid < |graph.dependencyTypes.symbols|
      requires forall k :: 0 <= k < |rs| ==> rs[k].archConstraint < |graph.architectures.symbols|
      modifies graph
      ensures graph.Valid()
      ensures graph.Contents() == AddRecords(old(graph.Contents()), vid, dtid, rs)
    {
      ghost var todo := rs;
      var i := 0;
      while i < |rs|
        invariant 0 <= i <= |rs| && todo == rs[i..] && graph.Valid() && vid < |graph.versions|
        invariant AddRecords(graph.Contents(), vid, dtid, todo) == AddRecords(old(graph.Contents()), vid, dtid, rs)
      {
        assert rs[i] == todo[0];
        AddItem(vid, dtid, rs[i]);
        todo := todo[1..];
        i := i + 1;
      }
    }

    /** A field that is present: its value parsed with the counter and added as edges from `vid`. */
    method LoadPresentField(vid: nat, kv: map<string, string>, k: nat, group: nat) returns (next: nat)
      requires graph.Valid() && vid < |graph.versions| && k < |graph.dependencyTypes.symbols|
      requires Present(Python, kv, graph.dependencyTypes.symbols[k])
      modifies graph, graph.architectures
      ensures graph.Valid() && graph.dependencyTypes.symbols == old(graph.dependencyTypes.symbols)
      ensures (graph.Contents(), graph.architectures.symbols, next)
              == Loading.LoadField(Python, old(graph.Contents()), old(graph.architectures.symbols),
                                   graph.dependencyTypes.symbols, vid, kv, k, group)
    {
      var dtype := graph.dependencyTypes.symbols[k];
      var dtid := graph.dependencyTypes.Id(dtype);
      var rs;
      rs, next := ParseDependencies(kv[dtype], group);
      AddItems(vid, dtid.value, rs);
    }

    /**
     * One turn of the loop over `graph.dependency_types` in
     * `_load_raw_packages`: the field of type `k`, when its value is
     * non-empty, parsed with the counter and added as edges from `vid`.
     */
    method LoadField(vid: nat, kv: map<string, string>, k: nat, group: nat) returns (next: nat)
      requires graph.Valid() && vid < |graph.versions| && k < |graph.dependencyTypes.symbols|
      modifies graph, graph.architectures
      ensures graph.Valid() && graph.dependencyTypes.symbols == old(graph.dependencyTypes.symbols)
      ensures (graph.Contents(), graph.architectures.symbols, next)
              == Loading.LoadField(Python, old(graph.Contents()), old(graph.architectures.symbols),
                                   graph.dependencyTypes.symbols, vid, kv, k, group)
    {
      var dtype := graph.dependencyTypes.symbols[k];
      if dtype in kv && kv[dtype] != "" {
        next := LoadPresentField(vid, kv, k, group);
      } else {
        next := group;
      }
    }

    /** The head of a stanza: `create_package`, the architecture interned, `create_version`. */
    method LoadHead(kv: map<string, string>) returns (vid: nat)
      requires graph.Valid() && Complete(kv)
      modifies graph, graph.architectures
      ensures graph.Valid() && vid < |graph.versions|
      ensures (graph.Contents(), graph.architectures.symbols, vid)
              == PyHead(old(graph.Contents()), old(graph.architectures.symbols), kv)
    {
      var pid := graph.CreatePackage(kv["Package"]);
      ghost var g := graph.View();
      var arch := graph.architectures.Insert(kv["Architecture"]);
      WfGrowArchs(g, graph.architectures.symbols);
      vid := graph.CreateVersion(pid, kv["Version"], arch);
    }

    /**
     * The loop over `graph.dependency_types` for version `vid`: every
     * field whose value is non-empty, with the counter starting at 1.
     */
    method LoadStanzaFields(vid: nat, kv: map<string, string>)
      requires graph.Valid() && vid < |graph.versions|
      modifies graph, graph.architectures
      ensures graph.Valid() && graph.dependencyTypes.symbols == old(graph.dependencyTypes.symbols)
      ensures (graph.Contents(), graph.architectures.symbols)
              == LoadFields(Python, old(graph.Contents()), old(graph.architectures.symbols),
                            graph.dependencyTypes.symbols, vid, kv, 0, 1)
    {
      ghost var types := graph.dependencyTypes.symbols;
      var group := 1;
      var k := 0;
      while k < |graph.dependencyTypes.symbols|
        invariant 0 <= k <= |types| && graph.Valid() && vid < |graph.versions|
        invariant graph.dependencyTypes.symbols == types
        invariant LoadFields(Python, graph.Contents(), graph.architectures.symbols, types, vid, kv, k, group)
                  == LoadFields(Python, old(graph.Contents()), old(graph.architectures.symbols), types, vid, kv, 0, 1)
      {
        group := LoadField(vid, kv, k, group);
        k := k + 1;
      }
    }

    /**
     * The body of the stanza loop of `_load_raw_packages` for one stanza's
     * key-value map: package, architecture, version, then every field whose
     * value is non-empty, in the order of `graph.dependency_types`, with the
     * counter starting at 1.
     */
    method LoadStanza(kv: map<string, string>)
      requires graph.Valid() && Complete(kv)
      modifies graph, graph.architectures
      ensures graph.Valid() && graph.dependencyTypes.symbols == old(graph.dependencyTypes.symbols)
      ensures (graph.Contents(), graph.architectures.symbols)
              == PyStanza(old(graph.Contents()), old(graph.architectures.symbols), graph.dependencyTypes.symbols, kv)
    {
      var vid := LoadHead(kv);
      LoadStanzaFields(vid, kv);
    }

    /** One turn of the stanza loop: a blank piece is skipped, any other loaded as a stanza. */
    method LoadPiece(piece: string, parse: string -> map<string, string>, ghost todo: seq<string>)
      requires graph.Valid() && todo != [] && todo[0] == piece
      requires Readable(todo, parse)
      modifies graph, graph.architectures
      ensures graph.Valid() && graph.dependencyTypes.symbols == old(graph.dependencyTypes.symbols)
      ensures Readable(todo[1..], parse)
      ensures PyLoad(graph.Contents(), graph.architectures.symbols, graph.dependencyTypes.symbols, todo[1..], parse)
              == PyLoad(old(graph.Contents()), old(graph.architectures.symbols), graph.dependencyTypes.symbols, todo, parse)
    {
      if PyStrip(piece) != "" {
        LoadStanza(parse(piece));
      }
    }

    /**
     * `_load_raw_packages`: the pieces of `raw` between blank lines, each
     * non-blank one read by `parse` and loaded as a stanza.
     */
    method LoadRawPackages(raw: string, parse: string -> map<string, string>)
      requires graph.Valid()
      requires Readable(Pieces(Python, raw), parse)
      modifies graph, graph.architectures
      ensures graph.Valid()
      ensures (graph.Contents(), graph.architectures.symbols)
              == PyLoad(old(graph.Contents()), old(graph.architectures.symbols), graph.dependencyTypes.symbols,
                        Pieces(Python, raw), parse)
    {
      var pieces := Split(raw, BlankLine);
      ghost var types := graph.dependencyTypes.symbols;
      while pieces != []
        invariant graph.Valid() && graph.dependencyTypes.symbols == types && Readable(pieces, parse)
        invariant PyLoad(graph.Contents(), graph.architectures.symbols, types, pieces, parse)
                  == PyLoad(old(graph.Contents()), old(graph.architectures.symbols), types, Pieces(Python, raw), parse)
        decreases |pieces|
      {
        LoadPiece(pieces[0], parse, pieces);
        pieces := pieces[1..];
      }
    }
  }
}
