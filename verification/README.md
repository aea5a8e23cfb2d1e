# A verified model of the MLang front end and language service

This project models the parts of the MLang compiler that sit in front of code generation and proves what they
promise. Each module follows one component. Where the source updates state or loops, the model is a class or a
method with loops, proved equal to a specification function; the lemmas then say what that function means.

| files | component |
|---|---|
| `Layout`, `LayoutCycles`, `LayoutFacts` | struct and type layout, with the shared set of structs in progress |
| `UseMerge`, `UseMergeFacts` | the effect of `use` declarations on a program's symbol lists |
| `ModuleLoader`, `LoaderFacts` | the depth-first module loader and its runs |
| `Hydration`, `Session` | the worklist that pulls modules from disk, and the caches of the session store |
| `Decimal`, `Printer`, `Concepts` | the expression printer, constraint keys, constraint subsumption |
| `Recovery`, `TextPositions`, `Documents` | recovery suffix, positions and edits, the document state machine |
| `Delimiters`, `SourceFilter`, `References` | delimiter pass, conditional regions, reference search |
| `Wrappers`, `Sequences` | optional values, results, sequences without repetitions |

`dafny verify dfyconfig.toml` checks everything.

## What the main results say

* **Layout.** A struct has a layout exactly when no walk along "contains by value" and "extends" edges from it
  visits a name twice or meets a type without a layout (`LayoutExists`). Layouts do not depend on what was in
  progress (`StructStable`), so the summary lists for every field that is no bit the bytes it takes in the total
  (`SummaryMatchesTotal`). For bits it does not: every bit lists a byte of its own, while up to eight in a row share
  one, so two bits list two bytes in a struct of one (`TwoBitsOneByte`). Exactly when no two typed members in a row
  are bits, the listed sizes are disjoint bytes of the total (`SummaryExact`, where no struct is called `bit`;
  `SummaryTaken` in general). Placement, padding, bit packing and alignment are stated in `StructPlacement`,
  `TuplePlacement` and `BitRun`.
* **Uses.** A single imported item passes the check exactly when the first list that has it makes it visible
  (`ItemChecked`); its alias then names it, every overload included (`ItemAliased`), and the whole `use` succeeds
  exactly under these two conditions (`ItemUse`).
* **Loader.** After any run, failed loads included, every published module is its file merged with modules
  published strictly earlier (`RunSound`), and no entry is ever replaced (`RunKeeps`). Each outcome of a load is
  explained by the files (`LoadOutcome`); with readable files, a load that does not stop at a failing `use` succeeds
  exactly when no `mod` cycle is reachable (`LoadExactly`). For plain files no `use` fails (`PlainLoad`), and what a
  module is published as does not depend on what was loaded before it or in which order (`LoadOrderIrrelevant`).
  Signature keys travel along chains of `use` (`ChainImported`).
* **Session.** Cached answers equal uncached ones. Generations are 64-bit and the largest value doubles as the mark
  for "no base cache", so the second document lookup does fail, for an open document, exactly when 2^64 divides the
  number of edits plus two; the contracts of the two query methods state this in both directions.
* **Printer.** Two expressions print the same exactly when they are equal up to the type suffixes of integer
  literals, which the printer drops; so `1i32` and `1u8` share a key (`UniquelyReadable`, `SuffixLost`, `ConstraintKeyIdentifies`).
* **Recovery.** The suffix repairs a text exactly when its scan does not end in a line comment or behind an unescaped
  backslash in a string (`SuffixRepairs`). The source calls the suffix minimal; it is, except that a block comment
  ending in a star gets one character too many (`SuffixMinimal`, `StarWastesOne`).
* **Scanners.** Silence of the delimiter pass is membership in the bracket grammar (`SilentExactlyWhenBalanced`), and
  its first closing fault marks the shortest prefix beyond repair (`FirstFaultPlaced`); the region filter is exact
  line by line and idempotent (`PreprocessLines`, `FilteredOnce`); edits can be undone (`EditUndone`); the reference
  search returns exactly the target's tokens, strictly sorted (`CollectReferences`).
* **Subsumption.** The nested loops decide semantic entailment (`Implies`), and the overload order is a strict
  partial order across both tiers (`StrictPartialOrder`).

## Modelling choices

* `uint64_t` sizes and `size_t` are naturals; the session's generation counter is the exception and wraps.
  `int` line, column and version numbers are unbounded.
* The file system, the parser, document analysis, the completion heuristics and symbol resolution are functions
  handed to the model and fixed during a run. Files form finite maps.
* A function's signature key is its name followed by `shape`, the text of its parameter types and constraints.
* Pointers to syntax nodes are values. Null entries of lists are left out, except struct members, where the source
  skips them in the middle of a loop.
* The iteration order of the session's hash map is a field; opening a document hands in the order that holds
  afterwards, whatever it is.
* The visit keys of hydration join two texts with a line break. They are told apart because module names, which are
  identifier paths, hold no line break.
* A closing region tag closes the innermost open region whatever its name, and a base name that no struct of the
  program has is ignored: both as in the source.

## Model

| member | source | states |
|---|---|---|
| Layout.KindLayout | src/compiler_api.cpp:1475-1515 | scalars are aligned to their size; fat values take 16 bytes aligned to 8; four kinds have no layout of their own |
| Layout.LayoutPass.ComputeStructLayout | src/compiler_api.cpp:1310-1387 | the recursion over the shared `visiting` set computes the specified layout and restores the set on every return |
| Layout.LayoutPass.PackMembers | src/compiler_api.cpp:1339-1378 | the member loop packs bits and places fields as specified, and fails exactly when a member has no layout |
| Layout.LayoutPass.ComputeTypeLayout | src/compiler_api.cpp:1389-1518 | the same for types |
| Layout.LayoutPass.ComputeTupleLayout | src/compiler_api.cpp:1456-1473 | the element loop of a tuple places elements as specified and fails with the first element without a layout |
| LayoutCycles.LayoutExists | src/compiler_api.cpp:1310-1518 | a layout exists iff neither a containment cycle nor a type without layout is reachable |
| LayoutCycles.OkWalk | src/compiler_api.cpp:1319-1323 | with a layout, every walk has distinct names, avoids those in progress and ends in a definition of known types |
| LayoutCycles.FailedWalk | src/compiler_api.cpp:1310-1378 | a failed layout comes with a walk that repeats a name, hits one in progress or ends at an unknown type |
| LayoutCycles.TypeOk | src/compiler_api.cpp:1389-1473 | a type has a layout iff it is known and every struct it contains by value has one |
| LayoutCycles.StructOk | src/compiler_api.cpp:1310-1387 | a struct has a layout iff it is not in progress, its types are known and its dependencies have layouts |
| LayoutCycles.StructStable | src/compiler_api.cpp:1310-1387 | an existing layout is the same for every smaller set in progress |
| LayoutCycles.TypeStable | src/compiler_api.cpp:1389-1473 | the same for types |
| LayoutFacts.AlignUpFacts | src/compiler_api.cpp:1262-1270 | the result is the least multiple of the alignment at or above the value |
| LayoutFacts.PartPlaced | src/compiler_api.cpp:1355-1377 | a field starts at a multiple of its alignment with less padding than that; a bit shares the current byte or opens a new one |
| LayoutFacts.PartsDisjoint | src/compiler_api.cpp:1339-1378 | two parts take disjoint bytes, or different bits of one byte |
| LayoutFacts.BitRun | src/compiler_api.cpp:1355-1371 | n consecutive bits take ceil(n/8) bytes, bit k at byte k/8, bit k%8 |
| LayoutFacts.MaxAlignAttained | src/compiler_api.cpp:1325-1374 | the alignment is the maximum over base and parts |
| LayoutFacts.StructWellFormed | src/compiler_api.cpp:1380-1386 | alignment is 1, 2, 4 or 8 and divides the size |
| LayoutFacts.TypeWellFormed | src/compiler_api.cpp:1389-1518 | the same for every type |
| LayoutFacts.StructPlacement | src/compiler_api.cpp:1310-1387 | all of the above for every struct with a layout: parts behind the base and inside the size, aligned, disjoint, minimally padded |
| LayoutFacts.TuplePlacement | src/compiler_api.cpp:1456-1473 | every tuple with a layout has one part for each element, aligned, minimally padded, disjoint and inside the size |
| LayoutFacts.StructLayoutSummary | src/compiler_api.cpp:1520-1560 | the summary exists iff the struct has no reachable defect, and lists every typed member with its own size |
| LayoutFacts.MemberOwnLayout | src/compiler_api.cpp:1546-1552 | a member laid out alone has the layout it had inside the struct, so no field is passed over |
| LayoutFacts.SummaryMatchesTotal | src/compiler_api.cpp:1520-1560 | one listed field and one part for each typed member: a field that is no bit lists the bytes of its part; a bit lists 1, unless its type is a program struct called `bit` |
| LayoutFacts.BytesTaken | src/compiler_api.cpp:1355-1377 | a field adds its size to the total, padding aside; a bit adds a byte iff it is the first, ninth, ... of its run |
| LayoutFacts.SummaryTaken | src/compiler_api.cpp:1520-1560 | for every program: all listed sizes are bytes of the total iff each bit lists the bytes it adds |
| LayoutFacts.SummaryExact | src/compiler_api.cpp:1520-1560 | with no struct called `bit`: the listed sizes take disjoint bytes, and are the bytes of the total, iff no two typed members in a row are bits |
| LayoutFacts.TwoBitsOneByte | src/compiler_api.cpp:1546-1558 | the input where they are not: two bits list two bytes in a struct of one byte |
| UseMerge.MergeFunctionLists | src/module.cpp:593-656 | the nested loops merge by first equal key, replacing a private entry by a public one and failing on ambiguous literal operators |
| UseMerge.BindAliasFunctions | src/module.cpp:498-526 | the alias loop appends qualified copies whose keys are new |
| UseMerge.BindModuleAlias | src/module.cpp:484-545 | binding an alias records it and adds the qualified functions and concepts |
| UseMerge.ProcessUse | src/module.cpp:478-1073 | one `use` declaration, with alias fallback, visibility check and item alias, as specified; what the last two achieve is in `ItemChecked` and `ItemAliased` |
| UseMerge.ProcessUseDeclarations | src/module.cpp:459-1075 | all declarations in order, stopping at the first error |
| UseMergeFacts.MergeFunctionsFacts | src/module.cpp:593-656 | keys afterwards are exactly the union, entries keep their places, unique keys stay unique, public keys are the union |
| UseMergeFacts.AddQualifiedFacts | src/module.cpp:498-526 | the list is kept and every named function is reachable under the alias |
| UseMergeFacts.ItemChecked | src/module.cpp:818-955 | the check passes, says private, or says not found, each iff the first list that has the item makes it visible, hides it, or does not exist |
| UseMergeFacts.ItemAliased | src/module.cpp:956-1066 | an alias fails iff the item is no function, concept, struct or enum; otherwise every overload, the concept or the type is known by the alias and nothing is lost |
| UseMergeFacts.AddRenamedFacts | src/module.cpp:956-1066 | the list is kept and every overload of the item is reachable under the alias |
| UseMergeFacts.ItemUse | src/module.cpp:478-1073 | once the module is merged, a `use` of one item succeeds iff the item may be imported and can have its alias |
| UseMergeFacts.TargetsMatch | src/module.cpp:478-583 | the i-th target is the one the i-th `use` has after the `use`s before it |
| UseMergeFacts.ApplyUseFacts | src/module.cpp:478-1073 | after a `use` its target is loaded and all its keys are in the program, public where they were public |
| UseMergeFacts.ApplyUsesFacts | src/module.cpp:459-1075 | the same for all `use`s of a program at its end |
| UseMergeFacts.MergeByNameFacts | src/module.cpp:658-694 | merging symbols by name loses no name, adds exactly the imported ones and keeps first definitions |
| UseMergeFacts.AliasResolves | src/module.cpp:464-476 | a bound alias stands for its module at the head of every path |
| ModuleLoader.Loader.LoadModule | src/module.cpp:275-383 | the recursive load computes the specified state and error and restores the loading stack, also when it fails |
| ModuleLoader.Loader.ProcessModDeclarations | src/module.cpp:443-457 | loads the declared modules in turn up to the first failure, restoring the stack |
| ModuleLoader.OneMoreOnStack | src/module.cpp:304-305 | each nested load leaves fewer resolvable names off the stack, which is why loading terminates |
| LoaderFacts.LoadSound | src/module.cpp:275-383 | one load keeps the invariant, only adds modules, keeps loaded modules off the stack, and on success has loaded its module |
| LoaderFacts.RunSound | src/module.cpp:275-383 | in every reachable state each module is its file merged with modules published strictly earlier |
| LoaderFacts.RunKeeps | src/module.cpp:371-377 | later parts of a run never replace what earlier parts published |
| LoaderFacts.LoadedEdge | src/module.cpp:355-358 | each module a loaded module declares was published strictly earlier |
| LoaderFacts.LoadedWalk | src/module.cpp:355-358 | from a loaded module `mod` declarations lead only to loaded modules, none later and none twice |
| LoaderFacts.LoadedAcyclic | src/module.cpp:285-290 | no cycle is reachable from a loaded module and everything reachable is loaded |
| LoaderFacts.LoadExplained | src/module.cpp:275-369 | every error comes with the walk of declarations that leads to its cause |
| LoaderFacts.LoadOutcome | src/module.cpp:275-383 | success means no reachable cycle and only readable files; each error means its cause is reachable |
| LoaderFacts.LoadExactly | src/module.cpp:275-383 | with readable files, a load that does not stop at a failing `use` succeeds iff no cycle is reachable, and otherwise reports a circular import |
| LoaderFacts.PlainLoad | src/module.cpp:275-383 | the same under a condition on the files alone, which rules out failing `use`s |
| LoaderFacts.LoadOrderIrrelevant | src/module.cpp:275-383 | in plain files a module and its imports are published alike in all reachable states |
| LoaderFacts.LoadedUniqueKeys | src/module.cpp:593-656 | unique signature keys in a file are unique in the loaded module |
| LoaderFacts.ImportTargets | src/module.cpp:478-583 | the i-th import of a loaded module is the target of its i-th `use` among the modules published before it |
| LoaderFacts.PlainTargets | src/module.cpp:478-583 | in plain files that is the module the i-th `use` names |
| LoaderFacts.DirectImports | src/module.cpp:360-377 | each `use` of a loaded module has one target, loaded strictly earlier and fully merged in |
| LoaderFacts.ChainImported | src/module.cpp:593-656 | a loaded module holds the keys of every module its chains of `use` reach, public where they were public |
| Hydration.HydrateFilesystemModules | src/compiler_api.cpp:2769-2822 | the worklist with its visited set computes the specified documents and terminates |
| Hydration.WorkAppends | src/compiler_api.cpp:2807-2819 | documents are only appended and no URI is doubled |
| Hydration.WorkSettles | src/compiler_api.cpp:2783-2821 | every request of the root and of added documents ends provided, unresolvable, present or unreadable |
| Hydration.WorkJustified | src/compiler_api.cpp:2783-2821 | each added document is the file that a still unprovided request of the root or of an earlier addition leads to |
| Hydration.Hydrated | src/compiler_api.cpp:2769-2822 | all this for a whole hydration, with the requests read off the `use`s and `mod`s of the root and of every added document |
| Hydration.SettledByName | src/compiler_api.cpp:2749-2767 | the requests of a document are settled iff every module it names in a `use` or `mod` is |
| Hydration.VisitKeyInjective | src/compiler_api.cpp:2791 | visit keys tell requests apart |
| Session.CurrentFound | src/compiler_api.cpp:5800-5808 | an open document is in its own hydrated snapshot, once, as analysed |
| Session.SnapshotAnswers | src/compiler_api.cpp:5799-5808 | looking the document up in its snapshot succeeds iff the generation is not the "no base" mark, and gives the fresh analysis |
| Session.FirstLapse | src/compiler_api.cpp:5945-5949 | the exception first comes after 2^64 - 2 edits |
| Session.SessionStore.OpenDocument | src/compiler_api.cpp:5671-5690 | stores the document under its URI, drops every cache, rejects the empty URI |
| Session.SessionStore.ChangeDocument | src/compiler_api.cpp:5692-5719 | replaces text and version when the version grows; otherwise reports the conflict and changes nothing |
| Session.SessionStore.CloseDocument | src/compiler_api.cpp:5721-5738 | removes the document and nothing else |
| Session.SessionStore.InvalidateSemanticCache | src/compiler_api.cpp:5945-5956 | advances the generation and re-establishes the cache invariant from the documents alone |
| Session.SessionStore.EnsureBaseSemanticCache | src/compiler_api.cpp:5958-5973 | makes the base cache current without touching documents |
| Session.SessionStore.HydratedSnapshot | src/compiler_api.cpp:5782-5798 | the cached or rebuilt snapshot is the hydration of the current documents |
| Session.SessionStore.SemanticSnapshotForUri | src/compiler_api.cpp:5768-5810 | status and answer equal those computed without caches, except exactly at the wrap-around |
| Session.SessionStore.CompletionSnapshotForPosition | src/compiler_api.cpp:5828-5935 | the same for completions, through all three caches |
| Session.SessionStore.ClearSemanticCache | src/compiler_api.cpp:5812-5819 | clearing changes no document and keeps the invariant |
| Printer.ToString | src/ast.cpp:1992-2227 | the printer, with the argument loop, produces the specified text |
| Printer.ReadsBack | src/ast.cpp:2027-2227 | an expression and what follows it are determined by their joint text |
| Printer.SuffixLost | src/ast.cpp:1992-1995 | the input where suffixes matter: `1` as `i32` and as `u8` are different and print the same |
| Printer.UniquelyReadable | src/ast.cpp:1992-2227 | equal text iff equal expressions up to literal suffixes |
| Decimal.TextFacts | src/ast.cpp:1992-1995 | the decimal text of an integer spells its value |
| Concepts.ComputeConstraintKey | include/concepts.h:9-19 | the key text of a function or of its generic origin |
| Concepts.ConstraintKeyIdentifies | include/concepts.h:9-19 | equal keys iff the origins have the same clause, up to literal suffixes, and the same bounds |
| Concepts.Implies | include/concepts.h:37-56 | the loops answer true iff every truth assignment of the left disjunction satisfies the right one |
| Concepts.IsMoreConstrained | include/concepts.h:58-72 | the overload test, null pointers and generic tiers included |
| Concepts.StrictlyStronger | include/concepts.h:58-72 | within a tier the winner entails the loser and is not entailed by it |
| Concepts.StrictPartialOrder | include/concepts.h:58-72 | irreflexive, asymmetric and transitive over all functions |
| Recovery.RecoverySuffixFor | src/incremental_compiler.cpp:48-140 | the scanner with one character of lookahead refines a machine without lookahead |
| Recovery.SuffixRepairs | src/incremental_compiler.cpp:48-140 | text and suffix together scan to code with nothing open iff the text does not dangle |
| Recovery.SuffixSettles | src/incremental_compiler.cpp:48-140 | the repaired text needs no suffix, iff it does not dangle or is a comment with nothing open |
| Recovery.SuffixLength | src/incremental_compiler.cpp:125-139 | one closer for each opener, and one for a string or two for a block comment |
| Recovery.SuffixMinimal | src/incremental_compiler.cpp:47 | no other repair is shorter, except by one character behind a star in a block comment |
| Recovery.StarWastesOne | src/incremental_compiler.cpp:126-130 | in that case the suffix without its first character repairs the text too |
| TextPositions.LspPositionToOffset | src/incremental_compiler.cpp:289-316 | the newline search computes the specified offset or failure |
| TextPositions.OffsetFromLineColumn | src/compiler_api.cpp:197-231 | the walk over characters gives the same answer as the search, for every text, line and column |
| TextPositions.PositionToOffsetInverse | src/incremental_compiler.cpp:289-316 | a position has an offset iff it is the position of that offset: a bijection with 0..length |
| TextPositions.PositionsIncrease | src/incremental_compiler.cpp:289-316 | positions grow strictly with offsets in (line, character) order |
| TextPositions.ApplyChangeToText | src/incremental_compiler.cpp:269-287 | a change replaces the range or the whole text, or is rejected |
| TextPositions.EditAccepted | src/incremental_compiler.cpp:279-283 | a ranged edit is accepted iff both ends are positions of the text, in order |
| TextPositions.EditUndone | src/incremental_compiler.cpp:269-287 | putting the removed slice back over the inserted text restores the text |
| Documents.IncrementalCompiler.ParseDocument | src/incremental_compiler.cpp:220-267 | parse, repaired parse, last good parse, in that order |
| Documents.IncrementalCompiler.ApplyChanges | src/incremental_compiler.cpp:177-196 | a rejected list keeps version and parse state and leaves exactly the edits before it; an accepted one is parsed |
| Documents.IncrementalCompiler.OpenDocument | src/incremental_compiler.cpp:147-160 | opening starts a new history |
| Documents.IncrementalCompiler.SetDocumentText | src/incremental_compiler.cpp:162-175 | replaces the text, keeps the version when the new one is negative, and parses |
| Documents.IncrementalCompiler.CloseDocument | src/incremental_compiler.cpp:198-201 | forgets the document |
| Documents.ReparsedReflects | src/incremental_compiler.cpp:220-267 | a parse keeps the document's state in step with the history of texts parsed since opening |
| Documents.ReflectsMeans | src/incremental_compiler.cpp:220-267 | null-ness, recovery flags and success agree, and the program is that of the latest successful parse |
| Delimiters.DelimiterDiagnostics | src/compiler_api.cpp:5567-5624 | the pass reports the specified faults at their exact lines and columns |
| Delimiters.NoFaults | src/compiler_api.cpp:5567-5624 | from any point the pass stays silent iff the rest closes quotes and brackets |
| Delimiters.ClosesIsBalanced | src/compiler_api.cpp:5585-5610 | the stack test accepts exactly the words of the bracket grammar |
| Delimiters.SilentExactlyWhenBalanced | src/compiler_api.cpp:5567-5624 | no fault iff quotes pair up and the brackets outside strings are balanced |
| Delimiters.ViableExactly | src/compiler_api.cpp:5585-5610 | a bracket word can be completed to a balanced one iff the stack never meets a closer it does not fit |
| Delimiters.FirstFaultPlaced | src/compiler_api.cpp:5585-5610 | the first closing fault is at the end of the shortest prefix that no continuation can balance; without such a prefix there is none |
| SourceFilter.PreprocessConditionalRegions | include/source_filter.h:117-179 | the filter for a target computes the specified output |
| SourceFilter.FilterRegions | include/source_filter.h:117-179 | the loop over lines with its boolean stack refines a stack of tags |
| SourceFilter.UpdateStack | include/source_filter.h:148-161 | a tag moves the boolean stack as it moves the stack of tags |
| SourceFilter.PreprocessLines | include/source_filter.h:117-179 | a line survives iff it is no tag and all tags open around it match; otherwise it comes out empty |
| SourceFilter.NewlinesKept | include/source_filter.h:162-176 | the number of newlines is kept |
| SourceFilter.FilteredOnce | include/source_filter.h:117-179 | filtering the output again, for any target, returns it unchanged |
| References.CollectReferences | src/compiler_api.cpp:4073-4147 | strictly sorted, exactly the target's maximal tokens in valid documents |
| References.ScanDocument | src/compiler_api.cpp:4084-4131 | the scan of one document adds exactly its references, doubles left out |
| References.KeyInjective | src/compiler_api.cpp:4121-4127 | location keys tell locations apart |
| References.LocationLeadsBack | src/compiler_api.cpp:4084-4131 | a reported line and column map back to the scanned offset |
| References.BeforeOrder | src/compiler_api.cpp:4133-4145 | the sort order is a strict total order on locations |
| References.SortSorted | src/compiler_api.cpp:4133-4145 | sorting distinct locations gives a strictly sorted list of the same locations |

## Left out

- Code generation, borrow checking, compile-time evaluation and the package manager.
- The lexer and the parser: a partial function from text to program.
- File reading, search paths, file timestamps and the process-wide cache of parsed files behind hydration.
- `impl` blocks and module assembly in the `use` merge, and method lists of structs: they follow the same pattern.
- The source module recorded on imported structs and the tagging of shared nodes in place: functions are values, so
  a tag set while importing is not seen by the module imported from. This differs only for a module with an empty name.
- Duplicate concept definitions are recognised by value instead of by address.
- Partial changes to the importing program when a `use` fails: the loader drops that program.
- Error texts: errors are values that name the module or item.
- UseMerge.ProcessUse: the lists of structs, enums, aliases, concepts and traits are merged by pure functions, not loops.
- LayoutFacts.StructLayoutSummary: gives the size and the fields as values; the text around them is not modelled.
- LoaderFacts.PlainLoad: its condition on the files (`use`s name declared modules, not through an alias; single items
  are public functions, or structs, enums or type aliases of the same family; no literal operators) is sufficient
  for `use`s not to fail, not necessary.
- LoaderFacts.LoadOrderIrrelevant: only for such files; elsewhere a `use` of an undeclared module may fail or
  succeed depending on what was loaded before.
- Delimiters.DelimiterDiagnostics: the checks of the same routine before and after the delimiter loop are not modelled.
- References.CollectReferences: the library sort is an insertion sort; under a total order on distinct elements every
  sort has this result.
- Printer.UniquelyReadable: covers literals, names, unary, binary, ternary and call nodes; other nodes are not modelled.
- Session: the mutex, and the three fast completions, which are one function since all three are cached alike.
- Stable ids, hashes of keys and reference resolution: opaque.
