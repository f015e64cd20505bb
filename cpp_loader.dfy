/**
 * `PackageLoader` of src/package_loader.cpp: it fills the staging graph
 * from the text of a Packages file. The graph facade it calls
 * (`graph_.create_package`, `graph_.architectures().add`, ...) is modelled
 * by a `BufferGraph` and the two 8-bit `SymbolTable`s of include/types.hpp.
 * `kv.at` on a missing key throws `std::out_of_range`, which nothing in
 * the loader catches: a result `ok` of false stands for that exception
 * escaping, with the arenas and tables as they were at the throw. Each
 * method is proved against the functions of module `Loading`.
 */
module CppLoader {
  import opened Text
  import opened Arenas
  import opened Clauses
  import opened Loading
  import Types
  import BufferGraph

  class PackageLoader {
    const graph: BufferGraph.BufferGraph
    const architectures: Types.SymbolTable
    const dependencyTypes: Types.SymbolTable

    ghost predicate Valid()
      reads this, graph, architectures
    {
      architectures != dependencyTypes && graph.Valid() && architectures.Valid()
    }

    /** `PackageLoader(graph)`: binds the graph; the two tables stand for `graph_.architectures()` and `graph_.dependency_types()`. */
    constructor (graph: BufferGraph.BufferGraph, architectures: Types.SymbolTable, dependencyTypes: Types.SymbolTable)
      ensures this.graph == graph && this.architectures == architectures && this.dependencyTypes == dependencyTypes
    {
      this.graph := graph;
      this.architectures := architectures;
      this.dependencyTypes := dependencyTypes;
    }

    /** `parse_dependency_`: the clause fields of `raw`, its architecture added to `architectures()`. */
    method ParseDependency(raw: string, group: nat) returns (rec: Record)
      requires Valid()
      modifies architectures
      ensures Valid()
      ensures (rec, architectures.symbols) == Loading.ParseDependency(Cpp, old(architectures.symbols), raw, group)
    {
      var c := ParseClause(Cpp, raw, group);
      var id := architectures.Insert(c.arch);
      rec := Resolve(c, id);
    }

    /** The inner loop of `parse_dependencies_` over the alternatives `ors`, all in group `group`. */
    method ParseAlternatives(ors: seq<string>, group: nat, rs: seq<Record>, ghost rest: seq<Clause>,
                             ghost final: (seq<Record>, seq<string>)) returns (out: seq<Record>)
      requires Valid()
      requires Pending(Cpp, rs, architectures.symbols, ParseOrs(Cpp, ors, group) + rest, final)
      modifies architectures
      ensures Valid()
      ensures Pending(Cpp, out, architectures.symbols, rest, final)
    {
      assert ors[0..] == ors;
      out := rs;
      var j := 0;
      while j < |ors|
        invariant 0 <= j <= |ors| && Valid()
        invariant Pending(Cpp, out, architectures.symbols, ParseOrs(Cpp, ors[j..], group) + rest, final)
      {
        OrsStep(Cpp, ors, j, group, rest);
        PendingStep(Cpp, out, architectures.symbols, ParseClause(Cpp, ors[j], group),
                    ParseOrs(Cpp, ors[j + 1..], group) + rest, final);
        var rec := ParseDependency(ors[j], group);
        out := out + [rec];
        j := j + 1;
      }
      assert ParseOrs(Cpp, ors[j..], group) + rest == rest;
    }

    /**
     * One turn of the outer loop of `parse_dependencies_`: the `,` piece
     * `piece`, first of `todo`; more than one alternative share `group`,
     * which then advances as a `uint8_t`, any other piece is in group 0.
     */
    method ParsePiece(piece: string, group: nat, rs: seq<Record>, ghost todo: seq<string>,
                      ghost final: (seq<Record>, seq<string>)) returns (out: seq<Record>, next: nat)
      requires Valid() && todo != [] && todo[0] == piece
      requires Pending(Cpp, rs, architectures.symbols, AndClauses(Cpp, todo, group), final)
      modifies architectures
      ensures Valid()
      ensures Pending(Cpp, out, architectures.symbols, AndClauses(Cpp, todo[1..], next), final)
      ensures Counter(Cpp, todo[1..], next) == Counter(Cpp, todo, group)
    {
      var ors := CppSplit(piece, "|");
      assert ors == Alternatives(Cpp, todo[0]);
      if |ors| > 1 {
        AndStepMulti(Cpp, todo, group);
        out := ParseAlternatives(ors, group, rs, AndClauses(Cpp, todo[1..], NextGroup(Cpp, group)), final);
        next := Wrapped(group + 1);
      } else {
        AndStepSingle(Cpp, todo, group);
        PendingStep(Cpp, rs, architectures.symbols, ParseClause(Cpp, piece, 0),
                    AndClauses(Cpp, todo[1..], group), final);
        var rec := ParseDependency(piece, 0);
        out, next := rs + [rec], group;
      }
    }

    /**
     * `parse_dependencies_`: one record per alternative of each `,` piece,
     * the `group` reference passed in and handed back.
     */
    method ParseDependencies(raw: string, group: nat) returns (rs: seq<Record>, next: nat)
      requires Valid()
      modifies architectures
      ensures Valid()
      ensures (rs, architectures.symbols, next) == Loading.ParseDependencies(Cpp, old(architectures.symbols), raw, group)
    {
      var ands := CppSplit(raw, ",");
      ghost var final := Loading.ParseDependencies(Cpp, architectures.symbols, raw, group);
      ParseDependenciesIs(Cpp, architectures.symbols, raw, group);
      ghost var todo := ands;
      rs, next := [], group;
      var i := 0;
      while i < |ands|
        invariant 0 <= i <= |ands| && Valid() && todo == ands[i..]
        invariant Pending(Cpp, rs, architectures.symbols, AndClauses(Cpp, todo, next), (final.0, final.1))
        invariant Counter(Cpp, todo, next) == final.2
      {
        assert todo[0] == ands[i];
        rs, next := ParsePiece(ands[i], next, rs, todo, (final.0, final.1));
        todo := todo[1..];
        i := i + 1;
      }
      assert rs == final.0;
    }

    /** One parsed item: `create_package` of its target, then `create_dependency`. */
    method AddItem(vid: nat, dtid: nat, rec: Record)
      requires Valid() && vid < |graph.versions|
      modifies graph
      ensures Valid()
      ensures graph.Contents() == AddRecord(old(graph.Contents()), vid, dtid, rec)
    {
      var pid, _ := graph.CreatePackage(rec.name);
      var _, _ := graph.CreateDependency(vid, pid, rec.versionConstraint, rec.archConstraint, dtid, rec.group);
    }

    /** The loop over the items `parse_dependencies_` gave for one field. */
    method AddItems(vid: nat, dtid: nat, rs: seq<Record>)
      requires Valid() && vid < |graph.versions|
      modifies graph
      ensures Valid()
      ensures graph.Contents() == AddRecords(old(graph.Contents()), vid, dtid, rs)
    {
      ghost var todo := rs;
      var i := 0;
      while i < |rs|
        invariant 0 <= i <= |rs| && todo == rs[i..] && Valid() && vid < |graph.versions|
        invariant AddRecords(graph.Contents(), vid, dtid, todo) == AddRecords(old(graph.Contents()), vid, dtid, rs)
      {
        assert rs[i] == todo[0];
        AddItem(vid, dtid, rs[i]);
        todo := todo[1..];
        i := i + 1;
      }
    }

    /** A field the stanza has: its value parsed with the counter and added as edges of type `dtid`. */
    method LoadPresentField(vid: nat, kv: map<string, string>, dtid: nat, group: nat) returns (next: nat)
      requires Valid() && vid < |graph.versions| && dtid < |dependencyTypes.symbols|
      requires dependencyTypes.symbols[dtid] in kv
      modifies graph, architectures
      ensures Valid()
      ensures (graph.Contents(), architectures.symbols, next)
              == Loading.LoadField(Cpp, old(graph.Contents()), old(architectures.symbols),
                                   dependencyTypes.symbols, vid, kv, dtid, group)
    {
      var rs;
      rs, next := ParseDependencies(kv[dependencyTypes.symbols[dtid]], group);
      AddItems(vid, dtid, rs);
    }

    /** One turn of the loop over the dependency types: `kv.find(dtype)`, and the field when found. */
    method LoadField(vid: nat, kv: map<string, string>, dtid: nat, group: nat) returns (next: nat)
      requires Valid() && vid < |graph.versions| && dtid < |dependencyTypes.symbols|
      modifies graph, architectures
      ensures Valid()
      ensures (graph.Contents(), architectures.symbols, next)
              == Loading.LoadField(Cpp, old(graph.Contents()), old(architectures.symbols),
                                   dependencyTypes.symbols, vid, kv, dtid, group)
    {
      var dtype := dependencyTypes.symbols[dtid];
      if dtype in kv {
        next := LoadPresentField(vid, kv, dtid, group);
      } else {
        next := group;
      }
    }

    /**
     * The loop over `dependency_types()` for version `vid`, with the
     * counter starting at 1. Its `uint8_t` index only reaches the end of a
     * table of fewer than 256 types.
     */
    method LoadStanzaFields(vid: nat, kv: map<string, string>)
      requires Valid() && vid < |graph.versions| && |dependencyTypes.symbols| < Types.IdRange
      modifies graph, architectures
      ensures Valid()
      ensures (graph.Contents(), architectures.symbols)
              == LoadFields(Cpp, old(graph.Contents()), old(architectures.symbols), dependencyTypes.symbols, vid, kv, 0, Wrapped(1))
    {
      var group := 1;
      assert group == Wrapped(1);
      var dtid := 0;
      while dtid < |dependencyTypes.symbols|
        invariant 0 <= dtid <= |dependencyTypes.symbols| && Valid() && vid < |graph.versions|
        invariant LoadFields(Cpp, graph.Contents(), architectures.symbols, dependencyTypes.symbols, vid, kv, dtid, group)
                  == LoadFields(Cpp, old(graph.Contents()), old(architectures.symbols), dependencyTypes.symbols,
                                vid, kv, 0, Wrapped(1))
      {
        group := LoadField(vid, kv, dtid, group);
        dtid := dtid + 1;
      }
    }

    /** One line of a stanza: the key it names, if any, is set to its value. */
    method ReadLine(kv: map<string, string>, line: string) returns (out: map<string, string>)
      ensures out == KvLine(kv, line)
    {
      var entry := LineEntry(line);
      out := kv;
      if entry.Some? {
        out := out[entry.value.key := entry.value.value];
      }
    }

    /**
     * The line loop of `load_raw_packages_`: each non-empty line with a
     * `:` sets the trimmed key to the trimmed rest. It reads nothing else.
     */
    method ParseStanza(raw: string) returns (kv: map<string, string>)
      ensures kv == StanzaFields(raw)
    {
      var lines := CppSplit(raw, LineBreak);
      kv := map[];
      while lines != []
        invariant KvLines(kv, lines) == StanzaFields(raw)
        decreases |lines|
      {
        KvLinesStep(kv, lines);
        kv := ReadLine(kv, lines[0]);
        lines := lines[1..];
      }
    }

    /**
     * The body of the stanza loop for one key-value map: `kv.at` of
     * `Package`, `Architecture` and `Version`, each of which throws when
     * missing (`ok` false, earlier steps kept), then the fields.
     */
    method LoadStanza(kv: map<string, string>) returns (ok: bool)
      requires Valid() && |dependencyTypes.symbols| < Types.IdRange
      modifies graph, architectures
      ensures Valid()
      ensures (graph.Contents(), architectures.symbols, ok)
              == CppStanza(old(graph.Contents()), old(architectures.symbols), dependencyTypes.symbols, kv)
    {
      if "Package" !in kv {
        return false;
      }
      var pid, _ := graph.CreatePackage(kv["Package"]);
      if "Architecture" !in kv {
        return false;
      }
      var arch := architectures.Insert(kv["Architecture"]);
      if "Version" !in kv {
        return false;
      }
      var vid, _ := graph.CreateVersion(pid, kv["Version"], arch);
      LoadStanzaFields(vid, kv);
      ok := true;
    }

    /** One turn of the stanza loop: a blank piece is skipped, any other parsed and loaded. */
    method LoadPiece(piece: string) returns (ok: bool)
      requires Valid() && |dependencyTypes.symbols| < Types.IdRange
      modifies graph, architectures
      ensures Valid()
      ensures (graph.Contents(), architectures.symbols, ok)
              == (if BlankPiece(Cpp, piece) then (old(graph.Contents()), old(architectures.symbols), true)
                  else CppStanza(old(graph.Contents()), old(architectures.symbols), dependencyTypes.symbols,
                                 StanzaFields(piece)))
    {
      if CppTrim(piece) == "" {
        return true;
      }
      var kv := ParseStanza(piece);
      ok := LoadStanza(kv);
    }

    /**
     * `load_raw_packages_`: the pieces of `raw` between blank lines, each
     * non-blank one loaded as a stanza; `ok` is false when a stanza threw,
     * and no later piece is read.
     */
    method LoadRawPackages(raw: string) returns (ok: bool)
      requires Valid() && |dependencyTypes.symbols| < Types.IdRange
      modifies graph, architectures
      ensures Valid()
      ensures (graph.Contents(), architectures.symbols, ok)
              == CppLoad(old(graph.Contents()), old(architectures.symbols), dependencyTypes.symbols, Pieces(Cpp, raw))
    {
      var pieces := CppSplit(raw, BlankLine);
      ok := true;
      while pieces != []
        invariant Valid()
        invariant CppLoad(graph.Contents(), architectures.symbols, dependencyTypes.symbols, pieces)
                  == CppLoad(old(graph.Contents()), old(architectures.symbols), dependencyTypes.symbols, Pieces(Cpp, raw))
        decreases |pieces|
      {
        ok := LoadPiece(pieces[0]);
        if !ok {
          return;
        }
        pieces := pieces[1..];
      }
    }
  }
}
