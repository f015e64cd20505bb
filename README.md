# Debian package dependency graph, modelled in Dafny

This project models the core of a package dependency graph built from Debian
`Packages` metadata. The graph answers bounded-depth "what does X depend on"
queries. The system exists twice, as a Python program (`py/`) and as a C++
program (`src/`, `include/`), and the model covers both. Where the two differ,
the difference is written into the shared specifications as a parameter. For
example, the C++ query drops duplicate items and the Python one does not.

Modules, one per file:

- `Wrappers`: `Option`, for "not found" answers.
- `BasicTypes`: the Python `SymbolTable` (py/basic_types.py). `insert`, `id` and the seeding constructor, as a class over a `seq<string>`.
- `Types`: the C++ `SymbolTable` and `DependencyItem` equality (include/types.hpp). Ids are narrowed to the 8-bit `ArchitectureType`/`DependencyType`.
- `Text`: `find`/`rfind`/`strip`/`split` and the C++ `trim` (include/util.hpp, src/package_loader.cpp). Each language has its own whitespace set and its own split of an empty range.
- `Clauses`: the dependency-clause parser for relationship fields (section 7.1 of the Debian Policy Manual, simplified). It covers name, `:arch` qualifier, `(op ver)` constraint, `|` alternatives and `,` clauses. The OR-group counter is an unbounded Python `int`, or the C++ 8-bit `GroupId`. A `Dialect` selects Python or C++.
- `Arenas`: the append-only in-memory arenas shared by both `DependencyGraph`s and `BufferGraph`. Packages are deduplicated by name, versions by (version, architecture) within their package, and edges are never deduplicated. Ids are arena indices.
- `Traversal`, `TraversalFacts`, `TraversalExamples`: the reference bounded-depth BFS query (`query_dependencies` without the GPU). `TraversalFacts` gives each level's report, frontier expansion through `Depends` group-0 edges only, native/any/exact architecture matching, disjoint frontiers through the visited set, and the C++ query as the deduplicated Python one. `TraversalExamples` is a worked example.
- `EdgeList`: the vertex and edge columns `build_cugraph` builds (py/dependency_graph.py:78-93).
- `PyGraph`, `CppGraph`, `BufferGraph`: the graph classes. Each `create_*` method and the query loops are proved equal to the `Arenas` and `Traversal` specifications.
- `Loading`, `PyLoader`, `CppLoader`: the per-stanza graph building of `_load_raw_packages` / `load_raw_packages_` (stanzas in the style of section 5.1 of the Debian Policy Manual, simplified). `Loading` holds the value-level specification, and the two `PackageLoader` classes are proved against it.
- `DiskVectors`: `DiskVector<T>` (include/disk_vector.hpp). It covers size, capacity and chunk rounding, `at`, `reserve`, `resize`, `clear`, `push_back`, `append` and the `open` decision table. File-system answers are an input.
- `StringPools`, `StringMaps`: the `StringPool` add/get round trip with its 8-bit length, and the handle equality and hash functors.
- `DiskStore`, `DiskGraph`: `DiskGraph` (src/disk_graph.cpp). `DiskStore` specifies it as a value. It has head-inserted version-list chains of contiguous id ranges, contiguous edge ranges per version, 16-bit counts, `ingest` of a buffer graph, `validate_control` and `sync`.

## Model

| member | source | states |
|---|---|---|
| BasicTypes.Lookup | py/basic_types.py:7-11 | `id` answers None exactly when the symbol is absent, otherwise the index of its first occurrence |
| BasicTypes.Intern | py/basic_types.py:13-18 | `insert` returns an index holding the symbol; a known symbol leaves the list unchanged, a new one is appended and gets the old length |
| BasicTypes.InternDistinct | py/basic_types.py:13-18 | inserting keeps the list free of repeats |
| BasicTypes.InternStable | py/basic_types.py:13-18 | inserting only appends: every earlier id keeps its symbol |
| BasicTypes.InternIdempotent | py/basic_types.py:13-18 | a second insert of the same symbol returns the same id and changes nothing |
| BasicTypes.LookupAfterIntern | py/basic_types.py:7-18 | after `insert(s)`, `id(s)` returns the id `insert` gave |
| BasicTypes.InternAllDistinct | py/basic_types.py:2-5 | the constructor's list is free of repeats and extends the list it started from |
| BasicTypes.InternAllContains | py/basic_types.py:2-5 | every seed ends up in the table |
| BasicTypes.InternAllMembers | py/basic_types.py:2-5 | the table holds nothing but the seeds |
| BasicTypes.InternAllFresh | py/basic_types.py:2-5 | pairwise different new seeds get consecutive ids in seed order |
| BasicTypes.SeedsDistinct | py/dependency_graph.py:32-35 | the nine dependency types and the three meta-architectures are free of repeats, so each seed's id is its position |
| BasicTypes.SymbolTable.constructor | py/basic_types.py:2-5 | the table holds exactly the seeds, and equals the seed list when the seeds are distinct |
| BasicTypes.SymbolTable.Id | py/basic_types.py:7-11 | the linear scan returns the first index holding the symbol, or None |
| BasicTypes.SymbolTable.Insert | py/basic_types.py:13-18 | the scan-then-append updates the list and returns the id as `Intern` says, keeping it free of repeats |
| BasicTypes.LookupIsFirst | py/basic_types.py:8-10 | an index holding the symbol with no earlier occurrence is what `id` returns |
| Types.ItemEquals | include/types.hpp:42-45 | `operator==` on items holds exactly when all four fields are equal |
| Types.Narrow | include/types.hpp:100 | `static_cast` to the 8-bit id is below 256 and is the identity below 256 |
| Types.CppIntern | include/types.hpp:99-104 | `insert` appends only new symbols; it returns a known symbol's stored id, or a new symbol's old table size narrowed to 8 bits |
| Types.SymbolOfInsert | include/types.hpp:92-104 | `symbol(insert(s)) == s` holds exactly when the symbol's position is below 256 |
| Types.InsertWrapsAround | include/types.hpp:99-104 | with 256 symbols present, a new symbol gets id 0, which names a different, earlier symbol |
| Types.SymbolTable.constructor | include/types.hpp:88 | the table holds exactly the seeds, and equals the seed list when the seeds are distinct |
| Types.SymbolTable.Symbol | include/types.hpp:92 | for ids below 256, looking up the returned symbol gives the id back |
| Types.SymbolTable.Id | include/types.hpp:94-97 | nullopt exactly for symbols never inserted, otherwise the symbol's first position narrowed to 8 bits |
| Types.SymbolTable.Insert | include/types.hpp:99-104 | `try_emplace` plus `emplace_back` update the table and return the id as `CppIntern` says |
| Text.Find | src/package_loader.cpp:25 | `find('(')` returns -1 (npos) exactly when the character is absent, otherwise its first index |
| Text.RFind | src/package_loader.cpp:27 | `rfind(')')` returns -1 exactly when the character is absent, otherwise its last index |
| Text.FirstNotOf | include/util.hpp:11 | `find_first_not_of` gives npos exactly when every character is white space, otherwise the first other index |
| Text.LastNotOf | include/util.hpp:13 | `find_last_not_of` gives npos exactly when every character is white space, otherwise the last other index |
| Text.Trim | include/util.hpp:10-15 | the result is a slice of the input that is empty exactly for all-space input, begins and ends with a non-space, and leaves only white space on either side |
| Text.TrimUnique | src/package_loader.cpp:15-20 | trimming white-space ends off a middle part whose ends are not white space gives that part back, so the slice above is the only one |
| Text.TrimIdempotent | include/util.hpp:10-15 | `trim(trim(s)) == trim(s)` |
| Text.TrimUnchanged | include/util.hpp:10-15 | a string with non-space ends is returned unchanged |
| Text.StripAgreesWithTrim | py/package_loader.py:36 | Python `strip()` and C++ `trim` agree on strings free of the characters only Python counts as white space |
| Text.TrimWider | py/package_loader.py:41 | widening the white-space set by characters the string does not hold leaves the trim unchanged |
| Text.IndexOf | py/package_loader.py:60 | the separator search returns the leftmost match, and -1 only when there is none |
| Text.Split | py/package_loader.py:49-50 | `str.split` yields at least one piece, and joining the pieces with the separator gives the input back |
| Text.CppSplit | src/package_loader.cpp:42-43 | `views::split` has no pieces for empty input and otherwise the pieces of Python's `split` |
| Text.SplitPiecesFree | src/package_loader.cpp:42-44 | after a split on one character, no piece contains that character |
| Text.SplitPieceCount | py/package_loader.py:50-51 | a split on one character has one piece more than the character's occurrences, so `len(or_s) > 1` means a `|` is present |
| Text.Count | py/package_loader.py:50-51 | the occurrence count is at most the length and zero exactly when the character is absent |
| Clauses.NameAndArch | py/package_loader.py:37 | the text kept before the version constraint holds no `(` |
| Clauses.ParseOrs | py/package_loader.py:52-53 | every alternative of a clause is parsed, in order, into the same OR-group |
| Clauses.ParseRender | py/package_loader.py:30-45 | reading back a clause written as `name:arch (constraint)` with clean parts gives the same name, constraint, architecture and group, in either dialect |
| Clauses.ClauseShape | src/package_loader.cpp:31-35 | the architecture is `native` exactly when there is no `:` before the `(`, and the name then is the stripped text; the name never holds `(`, nor `:` when an architecture was given |
| Clauses.ClauseDialectsAgree | src/package_loader.cpp:22-37 | the C++ and Python clause parsers agree on text free of the characters only Python counts as white space |
| Clauses.VersionsAgree | src/package_loader.cpp:25-30 | both dialects extract the same version constraint from such text |
| Clauses.NamesAgree | src/package_loader.cpp:31-34 | both dialects extract the same name and architecture from such text |
| Clauses.OrsGroups | src/package_loader.cpp:44 | all alternatives of one clause carry the clause's group |
| Clauses.MultiStep | py/package_loader.py:51-54 | a piece with several alternatives puts each of them in the current group and advances the counter |
| Clauses.SingleStep | py/package_loader.py:55-56 | a piece with one alternative is one clause in group 0 and leaves the counter alone |
| Clauses.GroupsListed | py/package_loader.py:47-57 | the group numbers of all clauses are determined by the alternative counts of the pieces alone |
| Clauses.ClausesCounted | src/package_loader.cpp:42-46 | the number of clauses is one per single piece plus one per alternative of each multi-alternative piece |
| Clauses.PythonCounter | py/package_loader.py:54 | the counter ends advanced by exactly the number of multi-alternative pieces |
| Clauses.PythonGroupList | py/package_loader.py:47-57 | the predicted group numbers are 0 or within the range handed out during the call, and the non-zero ones never decrease |
| Clauses.PythonGroups | py/package_loader.py:47-57 | every clause is in group 0 or in a group handed out by this call, and the groups handed out never decrease along the result |
| Clauses.Wrapped | include/types.hpp:20 | reduction to the width of the 8-bit `GroupId` lands below 256 |
| Clauses.WrappedStep | src/package_loader.cpp:45 | `group++` on the 8-bit counter equals reducing the unbounded increment |
| Clauses.CppCounter | src/package_loader.cpp:39-48 | the C++ counter ends at the Python counter's value reduced to 8 bits |
| Clauses.WrapAll | include/types.hpp:20 | each group number reduced to the 8-bit width of `GroupId` |
| Clauses.PythonGroupsUnbounded | py/package_loader.py:47-57 | the Python numbering is the unbounded one: it never wraps |
| Clauses.CppGroupListWrapped | src/package_loader.cpp:39-48 | the C++ group list is the unbounded numbering with every group reduced modulo 256 |
| Clauses.CppGroupsWrapped | src/package_loader.cpp:39-48 | each clause's C++ group is its unbounded group number modulo 256 |
| Clauses.GroupWrapsToNone | src/package_loader.cpp:42-46 | an OR-group numbered 256 gets C++ group 0, the number of a clause with no alternatives |
| Loading.InternArch | py/package_loader.py:43 | interning an architecture grows the table as `insert` does; Python returns the symbol's position, C++ an id below 256 |
| Loading.InternClauses | py/package_loader.py:43 | one record per clause |
| Loading.InternClausesResolve | src/package_loader.cpp:35 | each record is its clause with an architecture id naming the clause's architecture in the final table (in C++ while the table has at most 256 symbols), and the table only grows |
| Loading.ParsedInTable | py/package_loader.py:47-57 | every record of a field value has its architecture id inside the table afterwards, which extends the old one |
| Loading.CppInternResolves | src/package_loader.cpp:35 | a C++ architecture id is the symbol's position while the table fits the 8-bit id type |
| Loading.ParseDependenciesIs | src/package_loader.cpp:39-48 | the records of a field value are those of the clauses of its AND pieces, and the counter afterwards is the clause counter |
| Loading.AddRecord | py/package_loader.py:72-74 | `create_package` then `create_dependency` keep the store well formed and add no version |
| Loading.AddRecords | src/package_loader.cpp:69-72 | the loop over the parsed items keeps the store well formed and adds no version |
| Loading.PackageAppends | py/package_loader.py:72 | `create_package` only adds to the store |
| Loading.DependencyAppends | py/package_loader.py:73-74 | `create_dependency` only adds, and the one edge it appends carries its arguments |
| Loading.RecordAppendsEdge | src/package_loader.cpp:70-71 | one parsed item appends exactly one edge, leaving the stanza's version for the package the item names |
| Loading.RecordsAppendEdges | py/package_loader.py:71-74 | the items append one edge each, in order, carrying their records, and nothing earlier changes |
| Loading.TypeId | py/package_loader.py:70 | the type id passed names the field's dependency type |
| Loading.TypeIdIsIndex | src/package_loader.cpp:66-67 | with the duplicate-free type table, both loaders pass the type's position |
| Loading.LoadField | py/package_loader.py:68-74 | one dependency field keeps the store well formed and adds no version |
| Loading.LoadFields | src/package_loader.cpp:66-73 | the loop over the dependency types keeps the store well formed |
| Loading.FieldsAppendEdges | py/package_loader.py:67-74 | the fields only add edges, each leaving the stanza's version with the type id of a present field; the architecture table only grows and, in Python, holds every new edge's architecture |
| Loading.FieldAppendsEdges | src/package_loader.cpp:68-72 | one present field adds only such edges |
| Loading.PyHead | py/package_loader.py:63-65 | the stanza's package, architecture and version are created or reused, and the version id is valid |
| Loading.PyHeadFacts | py/package_loader.py:63-65 | the head creates no edge and leaves a version of the stanza's package with the stanza's version string and architecture |
| Loading.PyStanza | py/package_loader.py:61-74 | one stanza keeps the store well formed |
| Loading.PyStanzaFacts | py/package_loader.py:61-74 | a stanza leaves a version of its package with its version string and architecture, keeps every earlier edge, and every edge it adds leaves that version |
| Loading.CppStanza | src/package_loader.cpp:53-73 | a C++ stanza keeps the store well formed, whether or not `kv.at` throws |
| Loading.CppStanzaThrows | src/package_loader.cpp:61-63 | a stanza lacking `Package`, `Architecture` or `Version` throws before any version or edge is created for it, and a complete one does not throw |
| Loading.PyLoad | py/package_loader.py:59-74 | the Python stanza loop keeps the store well formed |
| Loading.CppLoad | src/package_loader.cpp:50-75 | the C++ stanza loop keeps the store well formed and stops at the first stanza that throws |
| Loading.KvUntouched | src/package_loader.cpp:54-59 | a key no line of the stanza sets keeps what it had |
| Loading.KvLastLineWins | src/package_loader.cpp:57-58 | the value of a key comes from the last line that sets it |
| Loading.BlankPiecesSkipped | src/package_loader.cpp:52 | blank pieces are skipped: a file of blank pieces changes nothing |
| PyLoader.WfGrowArchs | py/package_loader.py:43 | growing the architecture table, as `architectures.insert` does here and at py/package_loader.py:64, keeps the graph well formed |
| PyLoader.PackageLoader.constructor | py/package_loader.py:7-8 | the loader is bound to the given graph |
| PyLoader.PackageLoader.ParseDependency | py/package_loader.py:30-45 | the record is the parsed clause, and the architecture table grows as `Loading.ParseDependency` says |
| PyLoader.PackageLoader.ParseAlternatives | py/package_loader.py:52-53 | the alternatives' records are appended in order, each interning its architecture |
| PyLoader.PackageLoader.ParsePiece | py/package_loader.py:50-56 | one `,` piece gives its records and advances the counter as the clause functions say |
| PyLoader.PackageLoader.ParseDependencies | py/package_loader.py:47-57 | the records, the table and the counter are those of `Loading.ParseDependencies`, and every record's architecture id is in the table |
| PyLoader.PackageLoader.AddItem | py/package_loader.py:72-74 | the graph becomes `Loading.AddRecord` of the old one |
| PyLoader.PackageLoader.AddItems | py/package_loader.py:71-74 | the graph becomes `Loading.AddRecords` of the old one |
| PyLoader.PackageLoader.LoadPresentField | py/package_loader.py:68-74 | a non-empty field updates the graph, the table and the counter as `Loading.LoadField` says |
| PyLoader.PackageLoader.LoadField | py/package_loader.py:67-74 | one turn of the loop over the dependency types does what `Loading.LoadField` says |
| PyLoader.PackageLoader.LoadHead | py/package_loader.py:63-65 | package, architecture and version are created as `Loading.PyHead` says |
| PyLoader.PackageLoader.LoadStanzaFields | py/package_loader.py:66-74 | the fields of a stanza, with the counter starting at 1, do what `Loading.LoadFields` says |
| PyLoader.PackageLoader.LoadStanza | py/package_loader.py:61-74 | one stanza does what `Loading.PyStanza` says |
| PyLoader.PackageLoader.LoadPiece | py/package_loader.py:60-62 | a blank piece is skipped and any other loaded, as one step of `Loading.PyLoad` |
| PyLoader.PackageLoader.LoadRawPackages | py/package_loader.py:59-74 | the whole file updates the graph and the table as `Loading.PyLoad` says |
| CppLoader.PackageLoader.constructor | include/package_loader.hpp:6 | the loader is bound to the graph; its two `SymbolTable` fields stand for `graph_.architectures()` and `graph_.dependency_types()` |
| CppLoader.PackageLoader.ParseDependency | src/package_loader.cpp:22-37 | the record is the parsed clause, and the architecture table grows as `Loading.ParseDependency` says |
| CppLoader.PackageLoader.ParseAlternatives | src/package_loader.cpp:44 | the alternatives' records are appended in order |
| CppLoader.PackageLoader.ParsePiece | src/package_loader.cpp:43-46 | one `,` piece gives its records and advances the 8-bit counter as the clause functions say |
| CppLoader.PackageLoader.ParseDependencies | src/package_loader.cpp:39-48 | the records, the table and the counter are those of `Loading.ParseDependencies` |
| CppLoader.PackageLoader.AddItem | src/package_loader.cpp:70-71 | the graph becomes `Loading.AddRecord` of the old one |
| CppLoader.PackageLoader.AddItems | src/package_loader.cpp:69-72 | the graph becomes `Loading.AddRecords` of the old one |
| CppLoader.PackageLoader.LoadPresentField | src/package_loader.cpp:68-72 | a field the stanza has updates the graph, the table and the counter as `Loading.LoadField` says |
| CppLoader.PackageLoader.LoadField | src/package_loader.cpp:66-73 | one turn of the loop over the dependency types does what `Loading.LoadField` says |
| CppLoader.PackageLoader.LoadStanzaFields | src/package_loader.cpp:64-73 | the fields of a stanza, with the counter starting at 1, do what `Loading.LoadFields` says |
| CppLoader.PackageLoader.ReadLine | src/package_loader.cpp:55-58 | one line sets its trimmed key to its trimmed value when it is non-empty and holds a `:` |
| CppLoader.PackageLoader.ParseStanza | src/package_loader.cpp:53-59 | the key-value map is `Loading.StanzaFields` of the stanza |
| CppLoader.PackageLoader.LoadStanza | src/package_loader.cpp:61-73 | one stanza does what `Loading.CppStanza` says, throwing on a missing key after the earlier steps |
| CppLoader.PackageLoader.LoadPiece | src/package_loader.cpp:51-52 | a blank piece is skipped and any other parsed and loaded |
| CppLoader.PackageLoader.LoadRawPackages | src/package_loader.cpp:50-75 | the whole file does what `Loading.CppLoad` says and stops at the first stanza that throws |
| Arenas.FindVersion | py/dependency_graph.py:62-64 | the scan finds nothing exactly when no listed version has the version string and architecture, and otherwise a listed version that has them |
| Arenas.ScanVersions | src/buffer_graph.cpp:17-20 | the scanning loop returns what `FindVersion` specifies |
| Arenas.AddPackage | py/dependency_graph.py:52-59 | `create_package` returns a package carrying the name and indexed under it; it creates one, at the end of the arena, exactly when the name was unknown, and otherwise changes nothing; the invariant is kept |
| Arenas.AddVersion | src/dependency_graph.cpp:22-27 | `create_version` returns a version of the package with the given key; it appends one exactly when none of the package's versions has that key, and otherwise changes nothing; the invariant is kept |
| Arenas.AddDependency | py/dependency_graph.py:70-76 | `create_dependency` always appends one edge, with the next id and its arguments, to the arena and to its source version's list; the invariant is kept |
| Arenas.NewPackageValid | src/buffer_graph.cpp:5-12 | appending a package under a new name, indexed at its position, keeps the invariant |
| Arenas.WithVersionValid | src/buffer_graph.cpp:21-26 | appending a version whose key the package lacks keeps the invariant |
| Arenas.WithDependencyValid | src/buffer_graph.cpp:29-42 | appending an edge between existing nodes keeps the invariant |
| Arenas.AddPackageIdempotent | src/dependency_graph.cpp:17-20 | a second `create_package` of the same name returns the same package and changes nothing |
| Arenas.AddVersionIdempotent | py/dependency_graph.py:61-68 | a second `create_version` with the same key returns the same version and changes nothing |
| Arenas.ArchitectureSeparatesVersions | src/buffer_graph.cpp:19 | versions of one package that differ in architecture are different nodes |
| Arenas.PackagesByName | src/buffer_graph.cpp:7-8 | two names get the same package exactly when they are equal |
| EdgeList.EdgeRowsMembers | py/dependency_graph.py:89-93 | a version's edge rows are exactly the rows of its edges |
| EdgeList.VersionRowsMembers | py/dependency_graph.py:84-93 | a package's rows are exactly the ownership rows of its versions and the edge rows of those versions |
| EdgeList.PackageRowsMembers | py/dependency_graph.py:83-93 | the rows of the first n packages are exactly the rows of those packages |
| EdgeList.RowsClassified | py/dependency_graph.py:78-95 | a row is in the edge list exactly when it is an ownership row of a package and one of its versions, or the row of an edge whose source version some package owns |
| EdgeList.RowSound | py/dependency_graph.py:85-93 | every row the loops emit is an ownership row or an owned version's edge row |
| EdgeList.RowComplete | py/dependency_graph.py:83-93 | every ownership row and every owned version's edge row is emitted |
| Traversal.EmptyWf | src/dependency_graph.cpp:11-13 | a freshly constructed graph is well formed whatever its symbol tables hold |
| Traversal.WfAddPackage | py/dependency_graph.py:52-59 | `create_package` keeps every stored id in range |
| Traversal.WfAddVersion | py/dependency_graph.py:61-68 | `create_version` with a known architecture keeps every stored id in range |
| Traversal.WfAddDependency | py/dependency_graph.py:70-76 | `create_dependency` with known architecture and type ids keeps every stored id in range |
| Traversal.Blank | py/dependency_graph.py:158-159 | padding creates the requested number of empty OR-group slots |
| Traversal.Admit | py/dependency_graph.py:166-178 | the candidate scan only adds existing versions to the next frontier |
| Traversal.ScanEdge | src/dependency_graph.cpp:66-95 | one edge's turn keeps the next frontier inside the version arena |
| Traversal.ScanEdges | py/dependency_graph.py:150-178 | the edge loop keeps the next frontier inside the version arena |
| Traversal.ScanVersion | src/dependency_graph.cpp:62-98 | one frontier version's turn keeps the next frontier inside the version arena |
| Traversal.ScanFrontier | py/dependency_graph.py:148-180 | the frontier loop keeps the next frontier inside the version arena |
| Traversal.Levels | py/dependency_graph.py:144-182 | the level loop yields one result per remaining level |
| Traversal.LevelsStep | src/dependency_graph.cpp:58-100 | each level is the scan of its frontier, and the next level starts from the frontier and visited set that scan leaves |
| Traversal.LevelAdvance | py/dependency_graph.py:181-182 | storing the scanned level at its index keeps the result equal to the finished levels followed by those still to come |
| Traversal.SelectVersions | py/dependency_graph.py:102-107 | the filtered versions are existing versions |
| Traversal.SelectVersionsStep | src/dependency_graph.cpp:49-54 | the filter loop keeps a version exactly when it passes both filters, in order |
| Traversal.InitialFrontier | src/dependency_graph.cpp:47-54 | the initial frontier holds only existing versions, none for an unknown name |
| Traversal.Query | py/dependency_graph.py:97-183 | the query returns exactly `depth` levels |
| Traversal.EmptyLevels | py/dependency_graph.py:98 | the result starts as `depth` levels with no items |
| Traversal.AppendGroups | src/dependency_graph.cpp:97 | one version's OR-group slots are appended, in slot order, after the level's groups so far (the same loop as py/dependency_graph.py:179-180) |
| TraversalFacts.AdmitFacts | py/dependency_graph.py:166-178 | the candidate scan adds exactly the unvisited candidates whose architecture matches, without duplicates, and marks each visited |
| TraversalFacts.EdgeFacts | src/dependency_graph.cpp:79-95 | one edge adds exactly the versions it admits when it is an expanding `Depends` edge outside every OR-group |
| TraversalFacts.EdgesFacts | src/dependency_graph.cpp:66-96 | a version's edge loop adds exactly the versions some of its edges admit |
| TraversalFacts.FrontierFacts | py/dependency_graph.py:148-180 | a level's frontier loop adds exactly the versions some edge of some frontier version admits |
| TraversalFacts.NextFrontier | py/dependency_graph.py:164-178 | the next frontier is free of duplicates, is what the level adds to the visited set, and holds exactly the unvisited versions some expanding edge of some frontier version admits |
| TraversalFacts.PutAllKeeps | py/dependency_graph.py:160-162 | without deduplication every item is appended |
| TraversalFacts.PutAllConcat | src/dependency_graph.cpp:74-77 | putting two lists in a row is putting their concatenation |
| TraversalFacts.PutAllDedup | src/dependency_graph.cpp:74-77 | with deduplication the list stays free of duplicates and gains exactly the new items |
| TraversalFacts.PutAllSnoc | src/dependency_graph.cpp:76-77 | putting one more item is one more `Put` |
| TraversalFacts.DedupIsPutAll | src/dependency_graph.cpp:76-77 | deduplicating insertion from an empty list keeps the first occurrence of every item, each once |
| TraversalFacts.EdgesDirect | py/dependency_graph.py:161-162 | a version's edge loop reports its edges outside every OR-group, in edge order |
| TraversalFacts.GroupsGrow | py/dependency_graph.py:157-160 | placing an item of group g pads the slots to g and changes slot g-1 only |
| TraversalFacts.EdgesSlots | src/dependency_graph.cpp:69-75 | after a version's edge loop there are as many slots as the largest group number, and slot k holds the items of group k+1 in edge order |
| TraversalFacts.GroupSlots | src/dependency_graph.cpp:70-73 | the slot list has the requested length |
| TraversalFacts.GroupSlotsAt | src/dependency_graph.cpp:74-75 | slot k holds the items of group k+1 |
| TraversalFacts.VersionSlotsOfScan | py/dependency_graph.py:149-160 | a version's edge loop, from no slots, leaves its group slots |
| TraversalFacts.VersionReportDirect | src/dependency_graph.cpp:62-77 | one frontier version adds its direct items to the level's list |
| TraversalFacts.VersionReportGroups | py/dependency_graph.py:179-180 | one frontier version appends its slots to the level's OR-groups |
| TraversalFacts.FrontierReportDirect | py/dependency_graph.py:148-162 | the level's direct list gains the direct items of every frontier version in frontier-then-edge order |
| TraversalFacts.FrontierReportGroups | src/dependency_graph.cpp:97 | the level's OR-groups are every frontier version's slots in frontier order |
| TraversalFacts.ScanReport | py/dependency_graph.py:145-181 | one scan of the frontier reports the direct items (deduplicated in C++) and the OR-groups as the reference functions say |
| TraversalFacts.LevelReport | src/dependency_graph.cpp:58-98 | a result level holds the direct items of all frontier versions in frontier-then-edge order, the C++ one keeping first occurrences only, then each version's OR-groups by ascending group number |
| TraversalFacts.PythonSlots | py/dependency_graph.py:157-160 | in Python slot k of a version holds exactly its items of group k+1, possibly none, and there is one slot per group number up to the largest |
| TraversalFacts.CppSlots | src/dependency_graph.cpp:69-75 | in C++ slot k of a version holds each item of group k+1 exactly once |
| TraversalFacts.DedupGroups | src/dependency_graph.cpp:74 | deduplicating every group keeps the number of groups |
| TraversalFacts.DedupGroupsAt | src/dependency_graph.cpp:74 | group k of the deduplicated groups is group k deduplicated |
| TraversalFacts.DedupGroupsConcat | src/dependency_graph.cpp:97 | deduplicating groups commutes with concatenation |
| TraversalFacts.DedupLevels | src/dependency_graph.cpp:46 | deduplicating a result keeps its number of levels |
| TraversalFacts.FrontierIgnoresDedup | src/dependency_graph.cpp:79-95 | the duplicate check on reported items does not change the next frontier or the visited set |
| TraversalFacts.EdgesIgnoreDedup | src/dependency_graph.cpp:66-96 | the same for one version's edge loop |
| TraversalFacts.GroupSlotsDedup | src/dependency_graph.cpp:74-75 | the C++ slots are the Python slots deduplicated |
| TraversalFacts.FrontierGroupsDedup | src/dependency_graph.cpp:97 | the C++ OR-groups of a level are the Python ones deduplicated |
| TraversalFacts.DedupLevelsCons | src/dependency_graph.cpp:46 | deduplicating a result works level by level |
| TraversalFacts.LevelsDedup | src/dependency_graph.cpp:58-100 | each C++ level is the Python level with duplicates dropped |
| TraversalFacts.QueryDedup | src/dependency_graph.cpp:44-102 | the C++ query's answer is the Python query's answer with every direct list and every OR-group deduplicated |
| TraversalFacts.CppDirectDistinct | src/dependency_graph.cpp:76-77 | within one C++ level no two direct items are equal, and no direct item of the Python level is lost |
| TraversalFacts.EmptyFrontierLevels | src/dependency_graph.cpp:60 | an empty frontier yields only empty levels |
| TraversalFacts.SelectVersionsMembers | py/dependency_graph.py:100-107 | a version is in the initial frontier exactly when it belongs to the named package and passes both filters |
| TraversalFacts.NoneSelected | py/dependency_graph.py:108-109 | when no version passes the filters the initial frontier is empty |
| TraversalFacts.NoFilterSelectsAll | src/dependency_graph.cpp:51-52 | empty filters select every version of the package, in order |
| TraversalFacts.SelectVersionsIncreasing | src/dependency_graph.cpp:49-54 | the initial frontier keeps creation order and so has no duplicates |
| TraversalFacts.QueryShape | py/dependency_graph.py:98-109 | the result has exactly `depth` levels, all empty when the package is unknown or no version passes the filters |
| TraversalFacts.Frontiers | py/dependency_graph.py:182 | there is one frontier per remaining level |
| TraversalFacts.DisjointCons | src/dependency_graph.cpp:57 | a visited frontier in front of frontiers that avoid the visited set keeps them pairwise disjoint |
| TraversalFacts.FrontiersDisjoint | py/dependency_graph.py:143-182 | no version enters two frontiers and no frontier holds a version twice |
| TraversalFacts.InitialFrontierDistinct | src/dependency_graph.cpp:57 | the initial frontier is free of duplicates |
| TraversalFacts.ArchMatchesByIds | src/dependency_graph.cpp:85-89 | with the seeded architecture table, `native` accepts the source's architecture or `all`, `any` accepts every candidate, and any other constraint wants its own id |
| TraversalExamples.SampleGraph | py/dependency_graph.py:97-183 | the sample graph is well formed |
| TraversalExamples.SampleValid | py/dependency_graph.py:52-76 | the sample store satisfies every invariant the create operations keep |
| TraversalExamples.SampleQuery | src/dependency_graph.cpp:44-102 | querying A at depth 1 reports B as a direct item and [C, D] as one OR-group, with and without deduplication |
| TraversalExamples.SampleFrontier | py/dependency_graph.py:100-107 | the unfiltered query of A starts from A's one version |
| TraversalExamples.SampleDirect | py/dependency_graph.py:161-162 | the sample level's only direct item is B |
| TraversalExamples.SampleGroups | py/dependency_graph.py:157-160 | the sample level's only OR-group is [C, D] |
| TraversalExamples.SampleDirectEdges | py/dependency_graph.py:148-150 | of the sample version's three edges only the group-0 one becomes a direct item |
| PyGraph.ColumnsSnoc | py/dependency_graph.py:85-93 | appending one value to each of the four columns appends one row |
| PyGraph.PlaceInGroup | py/dependency_graph.py:157-160 | growing `group_items` with empty lists up to the group and appending to slot group-1 is `Place` without deduplication |
| PyGraph.DependencyGraph.constructor | py/dependency_graph.py:31-39 | the graph starts with empty arenas, `native`, `any`, `all` as architectures and the nine dependency types |
| PyGraph.DependencyGraph.CreatePackage | py/dependency_graph.py:52-59 | the arenas and the returned id become those of `Arenas.AddPackage` |
| PyGraph.DependencyGraph.CreateVersion | py/dependency_graph.py:61-68 | the arenas and the returned id become those of `Arenas.AddVersion` |
| PyGraph.DependencyGraph.CreateDependency | py/dependency_graph.py:70-76 | the arenas and the returned id become those of `Arenas.AddDependency` |
| PyGraph.DependencyGraph.BuildEdgeList | py/dependency_graph.py:78-94 | the four columns hold exactly the rows `EdgeList.Rows` classifies |
| PyGraph.DependencyGraph.AppendPackageRows | py/dependency_graph.py:83-93 | one more package's rows are appended |
| PyGraph.DependencyGraph.AppendVersionRows | py/dependency_graph.py:84-93 | a version's ownership row, then its edge rows, are appended |
| PyGraph.DependencyGraph.AppendEdgeRows | py/dependency_graph.py:89-93 | a version's edge rows are appended in edge order |
| PyGraph.DependencyGraph.Query | py/dependency_graph.py:97-183 | the CPU query returns `Traversal.Query` without deduplication for a non-negative depth, and no levels for a negative one (`range(depth)` is empty) |
| PyGraph.DependencyGraph.ScanLevels | py/dependency_graph.py:143-183 | the level loop returns the levels `Traversal.Levels` defines |
| PyGraph.DependencyGraph.SelectFrontier | py/dependency_graph.py:99-107 | the frontier loop returns `Traversal.InitialFrontier` |
| PyGraph.DependencyGraph.ScanLevel | py/dependency_graph.py:145-181 | one level's loop computes `Traversal.ScanFrontier` from a fresh start |
| PyGraph.DependencyGraph.ScanVersionEdges | py/dependency_graph.py:149-180 | a frontier version's edge loop computes `Traversal.ScanEdges` with fresh group slots |
| PyGraph.DependencyGraph.ScanEdgeOf | py/dependency_graph.py:150-178 | one edge's turn computes `Traversal.ScanEdge` |
| PyGraph.DependencyGraph.EdgeItem | py/dependency_graph.py:151-156 | the item dict is `Traversal.ItemOf` of the edge |
| PyGraph.DependencyGraph.AdmitCandidates | py/dependency_graph.py:166-178 | the candidate loop computes `Traversal.Admit` |
| CppGraph.ItemSet | src/dependency_graph.cpp:59 | the emitted-item set holds exactly the list's items |
| CppGraph.NoSets | src/dependency_graph.cpp:72 | `resize` adds empty item sets |
| CppGraph.PlaceDistinct | src/dependency_graph.cpp:69-75 | resizing both vectors to the group and inserting into the slot's set is `Place` with deduplication, and each slot's set keeps matching its list |
| CppGraph.PutDistinct | src/dependency_graph.cpp:76-77 | the direct branch is `Put` with deduplication, and the set keeps matching the list |
| CppGraph.EmptyTail | src/dependency_graph.cpp:60 | after the loop stops at an empty frontier, the levels not reached are still empty |
| CppGraph.DependencyGraph.constructor | src/dependency_graph.cpp:11-13 | the graph starts with empty arenas, `native`, `any`, `all` as architectures 0-2 and the nine dependency types |
| CppGraph.DependencyGraph.CreatePackage | src/dependency_graph.cpp:17-20 | the arenas and the returned id become those of `Arenas.AddPackage` |
| CppGraph.DependencyGraph.CreateVersion | src/dependency_graph.cpp:22-27 | the arenas and the returned id become those of `Arenas.AddVersion` |
| CppGraph.DependencyGraph.CreateDependency | src/dependency_graph.cpp:29-33 | the arenas and the returned id become those of `Arenas.AddDependency` |
| CppGraph.DependencyGraph.ToItem | src/dependency_graph.cpp:35-40 | `to_item` is `Traversal.ItemOf` of the edge |
| CppGraph.DependencyGraph.Query | src/dependency_graph.cpp:44-102 | the non-GPU query returns `Traversal.Query` with deduplication |
| CppGraph.DependencyGraph.ScanLevels | src/dependency_graph.cpp:57-100 | the level loop, with its early stop, returns the levels `Traversal.Levels` defines |
| CppGraph.DependencyGraph.SelectFrontier | src/dependency_graph.cpp:47-54 | the frontier loop returns `Traversal.InitialFrontier` |
| CppGraph.DependencyGraph.Passes | src/dependency_graph.cpp:51-52 | the two `continue` tests let a version through exactly when it is `Selected` |
| CppGraph.DependencyGraph.ScanLevel | src/dependency_graph.cpp:59-98 | one level's loop computes `Traversal.ScanFrontier` with deduplication |
| CppGraph.DependencyGraph.ScanVersionEdges | src/dependency_graph.cpp:63-97 | a frontier version's edge loop computes `Traversal.ScanEdges` with deduplication, and the emitted-item set matches the direct list |
| CppGraph.DependencyGraph.ScanEdgeOf | src/dependency_graph.cpp:67-95 | one edge's turn computes `Traversal.ScanEdge` with deduplication, and every emitted-item set matches its list |
| CppGraph.DependencyGraph.AdmitCandidates | src/dependency_graph.cpp:80-94 | the candidate loop computes `Traversal.Admit` |
| BufferGraph.BufferGraph.constructor | include/buffer_graph.hpp:35 | the defaulted constructor leaves all arenas and the name map empty |
| BufferGraph.BufferGraph.CreatePackage | src/buffer_graph.cpp:5-12 | the arenas, the id and the created flag become those of `Arenas.AddPackage` |
| BufferGraph.BufferGraph.CreateVersion | src/buffer_graph.cpp:14-27 | the arenas, the id and the created flag become those of `Arenas.AddVersion` |
| BufferGraph.BufferGraph.CreateDependency | src/buffer_graph.cpp:29-42 | always reports a creation; the arenas and the id become those of `Arenas.AddDependency` |
| BufferGraph.BufferGraph.Clear | src/buffer_graph.cpp:44-49 | all three arenas and the name map are emptied |
| DiskVectors.OpenLoadOutcomes | include/disk_vector.hpp:118-122 | `kLoad` never creates, and loads exactly when the path is a regular file large enough for a header, the mapping succeeds and the header is valid |
| DiskVectors.OpenCreateOutcomes | include/disk_vector.hpp:130-136 | `kCreate` never loads, and succeeds exactly when the directories, the file and the resize succeed and the file can be mapped |
| DiskVectors.OpenLoadOrCreateOutcomes | include/disk_vector.hpp:124-156 | `kLoadOrCreate` fails only when the file-system calls do, loads only a valid header, and reinitialises a readable file whose header is not valid |
| DiskVectors.ElementAt | include/disk_vector.hpp:174-184 | `at` throws `out_of_range` exactly for an index at or past the size |
| DiskVectors.ElementAtAppend | include/disk_vector.hpp:249-257 | appending keeps every earlier answer of `at` and answers the new positions with the appended elements |
| DiskVectors.ReservedCapacity | include/disk_vector.hpp:186-197 | after `reserve` grows the mapping to whole chunks, it holds a header and the capacity is at least what was asked |
| DiskVectors.DiskVector.constructor | include/disk_vector.hpp:31 | nothing is mapped, and the chunk size is recorded |
| DiskVectors.DiskVector.At | include/disk_vector.hpp:174-178 | `at` answers as `ElementAt` of the live elements |
| DiskVectors.DiskVector.Open | include/disk_vector.hpp:111-157 | the returned code is the decision table's, the vector is open exactly when the code is not a failure, a load shows the file's elements under a valid header, a creation writes an empty valid header; the mapping keeps the file's size whenever a readable file was there (also when `kLoadOrCreate` reinitialises it) and is one chunk when the file had to be created |
| DiskVectors.DiskVector.Reserve | include/disk_vector.hpp:186-197 | the elements and header are kept, the capacity reaches the request, and the mapping changes only when the request exceeds the capacity, to whole chunks |
| DiskVectors.DiskVector.Resize | include/disk_vector.hpp:199-206 | the size becomes exactly the request, surviving elements are kept and new slots hold the default value; the mapping is remapped to whole chunks only when growing past the capacity and is otherwise untouched; the header's element size and magic and the open state stay the same |
| DiskVectors.DiskVector.Clear | include/disk_vector.hpp:74 | no elements remain, the mapping keeps its size, and the header's element size and magic and the open state stay the same |
| DiskVectors.DiskVector.PushBack | include/disk_vector.hpp:208-247 | the value is appended after the old elements with room for it; the mapping grows to the chunk-rounded size for one more element exactly when the old capacity was full, and stays otherwise; header words and open state unchanged |
| DiskVectors.DiskVector.Append | include/disk_vector.hpp:249-257 | the range is appended, in order, after the old elements; the mapping grows to the chunk-rounded size for the new total exactly when it exceeds the old capacity, and stays otherwise; header words and open state unchanged |
| StringPools.MakeView | include/string_pool.hpp:8-14 | the constructor narrows the offset to 32 bits and the length to 8 bits silently: values that fit are kept, a length of 256 or more shrinks |
| StringPools.Resolve | include/string_pool.hpp:21 | `get` gives the `length` characters starting at `offset` |
| StringPools.Added | include/string_pool.hpp:23-26 | `add` appends the characters to the pool and returns a handle into the pool no longer than the string |
| StringPools.AddThenGet | include/string_pool.hpp:21-26 | `get(add(s)) == s` when the offset and the length fit their fields, with the handle (old size, length) |
| StringPools.AddThenGetTruncates | include/string_pool.hpp:13 | a string of 256 characters or more comes back cut to its length modulo 256; the round trip holds exactly when the length is below 256 |
| StringPools.AddKeepsHandles | include/string_pool.hpp:23-26 | `add` leaves every earlier handle resolving to the same text |
| StringPools.HandleEqual | include/string_pool.hpp:45-48 | comparing two handles holds exactly when they resolve to the same text, identical handles included |
| StringPools.EqualitiesAgree | include/string_pool.hpp:42-48 | the two mixed comparisons are mirror images, and comparing two handles is comparing one with the other's resolved text |
| StringPools.HandleEqualIsEquivalence | include/string_map.hpp:66-70 | handle comparison is reflexive, symmetric and transitive |
| StringPools.StringPool.constructor | include/string_pool.hpp:18 | the pool wraps the given character vector |
| StringPools.StringPool.Get | include/string_pool.hpp:21 | `get` resolves the handle in the pool's characters |
| StringPools.StringPool.Add | include/string_pool.hpp:23-26 | the characters are appended and the handle is the one `Added` describes |
| StringMaps.HandleEqualIsStringEqual | include/string_map.hpp:66-70 | handle/handle equality agrees with `BasicStringEqual` of the resolved strings |
| StringMaps.HashConsistent | include/string_map.hpp:38-63 | keys the equality calls equal hash alike, whichever side is a handle, so a lookup by view finds the entry stored under a handle |
| StringMaps.HandleHashStable | include/string_map.hpp:47 | the hash of a handle survives appends to the pool |
| DiskStore.Span | src/disk_graph.cpp:75 | a version list's range enumerates its ids in ascending order |
| DiskStore.ChainInRange | src/disk_graph.cpp:73-78 | every id a package's chain of version lists enumerates names an existing version |
| DiskStore.ChainKept | src/disk_graph.cpp:164-173 | appending a version list leaves every existing chain as it was |
| DiskStore.FirstMatch | src/disk_graph.cpp:129-137 | the chain scan finds nothing exactly when no enumerated version carries the text and architecture, and otherwise an enumerated version that does |
| DiskStore.FirstMatchFront | src/disk_graph.cpp:131-134 | the scan looks at a range's first id, then at the rest |
| DiskStore.ChainScannable | src/disk_graph.cpp:129-137 | a valid store can scan any package's chain |
| DiskStore.PackageVersions | src/disk_graph.cpp:65-82 | the versions a package reaches are scannable |
| DiskStore.GrowPool | src/disk_graph.cpp:118 | a longer pool keeps every handle and what it resolves to |
| DiskStore.ShortKey | src/disk_graph.cpp:118-119 | a name shorter than 256 characters added to a pool below 4 GiB resolves back to itself |
| DiskStore.WithPackageValid | src/disk_graph.cpp:116-122 | appending a package with an empty chain keeps the store valid |
| DiskStore.WithVersionValid | src/disk_graph.cpp:138-146 | appending a version keeps the store valid |
| DiskStore.WithEdgeValid | src/disk_graph.cpp:151-161 | appending an edge keeps the store valid |
| DiskStore.WithListValid | src/disk_graph.cpp:167-172 | heading a package's chain with a new list of existing versions keeps the store valid |
| DiskStore.PackageAdded | src/disk_graph.cpp:113-124 | `create_package` returns the mapped package for a known name and changes nothing; for an unknown name it appends a package with an empty chain whose name handle is added to the pool, and the name maps to it whenever the handle's fields hold the name |
| DiskStore.VersionAdded | src/disk_graph.cpp:126-147 | `create_version` returns, unchanged, a version the chain reaches with the same text and architecture, and otherwise appends a version with the given edge range, attached to nothing; the flag says which |
| DiskStore.DependencyAdded | src/disk_graph.cpp:149-162 | `create_dependency` always appends an edge carrying every field as given, its constraint added to the pool |
| DiskStore.VersionsAttached | src/disk_graph.cpp:164-173 | `attach_versions` does nothing for an empty range, and otherwise appends a list for the range pointing at the old head and makes it the package's head |
| DiskStore.AttachedInFront | src/disk_graph.cpp:164-173 | attaching a range puts it in front of the package's enumeration while the new list's id is not the end marker |
| DiskStore.AttachedElsewhere | src/disk_graph.cpp:166-172 | attaching versions to one package leaves every other package's enumeration as it was |
| DiskStore.AllFromExtended | src/disk_graph.cpp:195-201 | one more edge from the version keeps every new edge leaving it |
| DiskStore.EdgeCopied | src/disk_graph.cpp:196-200 | one inner iteration appends exactly one edge leaving the new version, and only adds packages |
| DiskStore.EdgesCopied | src/disk_graph.cpp:195-201 | the inner loop appends one edge per buffer edge, all leaving the new version |
| DiskStore.VersionCopied | src/disk_graph.cpp:188-201 | one middle iteration adds at most one version, and only when it creates |
| DiskStore.VersionCopiedLayout | src/disk_graph.cpp:188-201 | a version the package already reaches is skipped; a new one records the next edge id and its edge count narrowed to 16 bits, and with fewer than 65536 edges its recorded range is exactly the edges just appended |
| DiskStore.VersionsCopied | src/disk_graph.cpp:187-202 | the middle loop adds at most one version per buffer version and no version list |
| DiskStore.Inc16 | src/disk_graph.cpp:193 | `++` on a 16-bit counter stays in range unless it passes 65535 |
| DiskStore.Count16 | src/disk_graph.cpp:190 | a count narrowed to 16 bits is at most the count, below 65536, and the count itself when that fits |
| DiskStore.Count16IsModulo | src/disk_graph.cpp:184-193 | counting up from zero with 16-bit increments is reduction modulo 65536 |
| DiskStore.PackageCopied | src/disk_graph.cpp:182-204 | one outer iteration keeps the store valid |
| DiskStore.PackageCopiedStages | src/disk_graph.cpp:183-203 | an outer iteration is `create_package`, then the middle loop, then `attach_versions` of the versions created |
| DiskStore.PackageCopiedLayout | src/disk_graph.cpp:183-203 | the package is the one `create_package` returns, the versions created take the ids from the old count on, and one list for them, headed from the package, is added exactly when their count narrowed to 16 bits is not zero |
| DiskStore.CopiedKeepsChain | src/disk_graph.cpp:187-202 | copying versions never changes which versions a package's chain reaches |
| DiskStore.CopiedThenAttached | src/disk_graph.cpp:202-203 | attaching the versions just copied puts exactly them in front of what the package reached before |
| DiskStore.AttachedAfterCopy | src/disk_graph.cpp:203 | the attaching step, stated over the copied store alone |
| DiskStore.IngestedInFront | src/disk_graph.cpp:181-205 | after an outer iteration that created 1 to 65535 versions, the package enumerates exactly those versions, in id order, ahead of the ones it reached before |
| DiskStore.PackagesCopied | src/disk_graph.cpp:181-205 | `ingest` keeps the store valid |
| DiskStore.Synced | src/disk_graph.cpp:207-214 | `sync` sets every counter from the arenas and keeps the magic, so the control block validates exactly when the magic is right |
| DiskGraph.DiskGraph.constructor | src/disk_graph.cpp:37-47 | freshly created files give empty arenas and a control block that validates, with the given symbol counts |
| DiskGraph.DiskGraph.ValidateControl | src/disk_graph.cpp:53-63 | the check-by-check test holds exactly when the magic and all seven counters agree with the arenas |
| DiskGraph.DiskGraph.Sync | src/disk_graph.cpp:207-214 | every counter is set from the arenas and the magic kept, so the control block validates afterwards exactly when the magic was right; the arenas are unchanged |
| DiskGraph.DiskGraph.CreatePackage | src/disk_graph.cpp:113-124 | the arenas, the id and the flag become those of `DiskStore.PackageAdded` |
| DiskGraph.DiskGraph.ScanList | src/disk_graph.cpp:130-135 | the scan over one list's range finds the chain's first match when it lies in the range, and otherwise leaves the answer to the rest of the chain |
| DiskGraph.DiskGraph.CreateVersion | src/disk_graph.cpp:126-147 | the arenas, the id and the flag become those of `DiskStore.VersionAdded` |
| DiskGraph.DiskGraph.CreateDependency | src/disk_graph.cpp:149-162 | the arenas and the id become those of `DiskStore.DependencyAdded`, and the flag is always set |
| DiskGraph.DiskGraph.AttachVersions | src/disk_graph.cpp:164-173 | the arenas become those of `DiskStore.VersionsAttached` |
| DiskGraph.DiskGraph.AppendRange | src/disk_graph.cpp:75-76 | one list's ids are appended in ascending order |
| DiskGraph.DiskGraph.GetPackage | src/disk_graph.cpp:65-82 | the name is the text the handle resolves to, and the versions are those the package's chain enumerates, head list first |
| DiskGraph.DiskGraph.GetVersion | src/disk_graph.cpp:84-98 | the version text is resolved from its handle, and the edge ids are the version's recorded range in order |
| DiskGraph.DiskGraph.PackageByName | src/disk_graph.cpp:175-179 | no package exactly for a name not indexed, and otherwise a package whose name resolves to it |
| DiskGraph.DiskGraph.IngestEdge | src/disk_graph.cpp:196-200 | one innermost iteration does what `DiskStore.EdgeCopied` says |
| DiskGraph.DiskGraph.IngestEdges | src/disk_graph.cpp:195-201 | the innermost loop does what `DiskStore.EdgesCopied` says |
| DiskGraph.DiskGraph.IngestVersion | src/disk_graph.cpp:188-201 | one middle iteration does what `DiskStore.VersionCopied` says |
| DiskGraph.DiskGraph.IngestVersions | src/disk_graph.cpp:187-202 | the middle loop does what `DiskStore.VersionsCopied` says, and its 16-bit counter is the number of versions created, narrowed |
| DiskGraph.DiskGraph.IngestPackage | src/disk_graph.cpp:183-203 | one outer iteration is `create_package`, the middle loop and `attach_versions` of the versions created, in that order |
| DiskGraph.DiskGraph.Ingest | src/disk_graph.cpp:181-205 | `ingest` does what `DiskStore.PackagesCopied` says and leaves the control block alone |
| DiskGraph.DiskGraph.IngestVersionCounted | src/disk_graph.cpp:188-193 | one middle iteration bumps the 16-bit counter exactly when it creates a version, and the rest of the loop still ends where it did |

## Left out

- GPU backend: `use_gpu` in py/dependency_graph.py:111-141, the cudf/cugraph calls in py/dependency_graph.py:94-95, the delegation in src/dependency_graph.cpp:55, include/gpu_dependency_graph.hpp and include/gpu_graph.hpp. These are foreign libraries and device code. The `use_gpu` flag is taken as false.
- File I/O is not modelled: `load_from_file` and `load_from_dataset_file` (JSON) in both loaders, the opening of the eight files in the `DiskGraph` constructor (src/disk_graph.cpp:6-51), the mmap, resize and flush calls in `DiskVector`, `close` and `sync` flushing. Only the state after a fresh create is modelled. `DiskVector::open` takes the file-system answers as a `FileState` input.
- `deb822.Deb822` is an external parser. It is a function parameter from a stanza's text to its key/value map. `Deb822` looks field names up case-insensitively, while the model looks up exact keys. So `parse` is assumed to return the keys in the spellings the loader asks for: `Package`, `Architecture`, `Version` and the nine dependency-type names.
- CppLoader.PackageLoader.LoadRawPackages: the `std::out_of_range` that `kv.at` throws at src/package_loader.cpp:61-63 is caught nowhere and escapes `load_raw_packages_` and `load_from_file`. It is modelled as a returned `ok` flag that is false, with the arenas and tables as they were at the throw.
- PyLoader.PackageLoader.LoadRawPackages: the model requires every non-blank stanza to carry `Package`, `Architecture` and `Version`. py/package_loader.py:63-65 reads them with `kv.get` instead, and a missing key yields `None`. The program then creates a package named `None`, interns `None` as an architecture, and creates the version `None`. The arenas here hold strings only, so they cannot hold that `None` name. Such stanzas are therefore outside the model.
- PyLoader.PackageLoader.LoadPiece: requires the same three keys in its stanza, for the same reason.
- PyLoader.PackageLoader.LoadStanza: requires the same three keys (`Complete`), for the same reason.
- PyLoader.PackageLoader.LoadHead: requires the same three keys (`Complete`), for the same reason.
- Loading.PyLoad, Loading.PyStanza, Loading.PyHead: the value-level specifications carry the same requirement.
- CppLoader.PackageLoader: the C++ loader drives a graph through `create_package`/`create_version`/`create_dependency` calls that return `(id, created)` pairs, and through `architectures().add`. include/package_loader.hpp:13 declares its target as `DependencyGraph &`, but src/dependency_graph.cpp:17-33 returns node references and has no `architectures().add`. The facade the loader was written against is not part of this model. The loader's target is therefore modelled as a `BufferGraph.BufferGraph`, which has exactly the pair-returning `create_*` calls (src/buffer_graph.cpp:5-42), plus two `Types.SymbolTable`s for the architectures and the dependency types.
- CppLoader.PackageLoader.LoadStanzaFields: requires fewer than 256 dependency types. The loop variable at src/package_loader.cpp:66 is the 8-bit `DependencyType`, so with 256 or more types `dtid < size()` would always hold and the loop would never end. The table holds only the nine seeded types, so every caller meets this.
- CppLoader.PackageLoader.LoadStanza, CppLoader.PackageLoader.LoadPiece, CppLoader.PackageLoader.LoadRawPackages: the same bound of fewer than 256 dependency types, for the same reason.
- Query depth: `Traversal.Query` and `CppGraph.DependencyGraph.Query` take a `nat` depth, which matches the C++ `std::size_t`. The Python `PyGraph.DependencyGraph.Query` takes an `int` and models a negative depth as an empty result.
- DiskStore: the version, package and dependency ids (`fromVersion`, `toPackage`, `dependencyBegin`, returned ids) are unbounded `nat`s, but `PackageId`/`VersionId`/`DependencyId` are `uint32_t`. In contrast, string-pool handle lengths (8-bit), version-list ids (32-bit `kVersionListEndId`) and version/dependency counts (16-bit) are narrowed explicitly. An arena with more than 2^32 entries is not modelled.
- In-memory ids: the 32-bit `PackageId`/`VersionId`/`DependencyId` of the C++ graphs are unbounded `nat`s, and `size_t` overflow is ignored.
- DiskVectors.DiskVector.Open: requires `chunkBytes >= HeaderSize`. With a smaller `chunk_bytes` the `kCreate` branch resizes the file below the 24-byte header and then writes the header past the mapping, which is undefined behaviour. With `chunk_bytes` 0, `reserve` divides by zero. The constructor only records the chunk size and has no such requirement.
- DiskVectors.DiskVector: a loaded file's header size is not checked against the mapped capacity by `open` (include/disk_vector.hpp:106-109 checks only the magic and the element size), so "size at most capacity" is not part of the class invariant; `PushBack` and `Append` ensure it after they grow.
- DiskVectors.DiskVector: the mapping is its byte count plus the live elements. Aliasing through `data()`, iterators and references is not modelled. The `std::filesystem` and mmap errors in `reserve`/`resize` are not modelled.
- StringPools: the pool's own file opening and the null-terminated pool variant are not modelled.
- StringMaps: `std::hash` is an abstract function parameter. The hash-mixing constants in include/types.hpp:47-56 and include/result_model.hpp:29-38 are not modelled.
- DiskGraph.DiskGraph.GetPackage, DiskGraph.DiskGraph.GetVersion: the lazy `std::function` views of include/graph_view.hpp are returned as eager sequences. `GetVersion` returns the architecture id rather than its symbol, and `get_dependency` views are not modelled.
- DiskGraph.DiskGraph: the arenas are `seq`s in one value rather than eight `DiskVector`s. The disk symbol tables are reduced to their element counts, which `validate_control` and `sync` compare.
- DiskGraph.DiskGraph.Ingest: requires only that the buffer graph's ids point into its arenas (`Arenas.Indexed`), which every buffer graph built through its `create_*` calls satisfies.
- `BufferGraph::memory_usage`, `estimated_memory_usage` and `flush_to_disk`: these depend on `sizeof`, container capacities and bucket counts, which are implementation-defined.
- Printing, timing and verbose output (include/util.hpp:17-71), floating-point constants in include/config.hpp, JSON serialisation (`to_json`), src/console.cpp, the test and benchmark programs: none of these are modelled.
- include/symbol_table.hpp: its `add`/`id` bodies live in a file that is not part of this model. The C++ `SymbolTable` of include/types.hpp is modelled instead.
- Traversal.ScanFrontier, Traversal.Query: their own contracts state only shapes and bounds. What each level contains is stated by the `TraversalFacts` lemmas (`LevelReport`, `NextFrontier`, `FrontiersDisjoint`, `QueryDedup`).
