# Function-tracing instrumenter, modelled in Dafny

The instrumenter in `test-cpp/main.cpp` reads a C++ source file, parses it with
tree-sitter, and inserts the statement `TRACE_CPUPROFILER_EVENT_SCOPE(<name>);`
at the top of every function body it can identify safely. It works in three
layers, and each layer is modelled here:

- **Tree queries** (`queries.dfy`, module `TreeQueries`). These are the five
  read-only lookups over the parse tree. They use three scopes: all direct
  children, named children only, and a pre-order search of the subtree.
  Each lookup is a function. Its contract names the exact scope: the result
  is a node of the requested type from that scope, and there is none exactly
  when the scope holds none. That the result is the *first* match is stated
  by `ChildByNodeTypeIsFirst` and `FirstLevelIsFirst` for the one-level
  lookups. For the subtree searches it is in their own contracts, as the
  first match of an explicit pre-order listing.
- **Site classification and collection** (`sites.dfy`, module `FunctionSites`,
  with lemmas in `site_lemmas.dfy`, module `SiteLemmas`).
  - `Classify` is the ordered rule chain of `traverse_and_print`. It checks,
    in order:
    1. a `constexpr` qualifier;
    2. the function declarator;
    3. a name child;
    4. the parameter list;
    5. the body;
    6. a body with more than one child;
    7. the `declarator` field;
    8. a single-line name;
    9. the already-traced marker.
  - `Descends` says which outcomes still let the walk visit the node's named
    children. The logging macros decide this (`NODE_ERROR_CONTINUE`,
    `NODE_ERROR_CONTINUE_TRAVERSE`, `NODE_CONTINUE`).
  - `CollectSite`/`CollectForest` define what the whole walk collects.
  - `TraverseAndPrint` is the walk itself: a loop over siblings that recurses
    into the named children. It is proved to collect exactly that.
- **Batch patching** (`patcher.dfy`, module `TextPatcher`). The directives
  are sorted by offset, largest first (`SortDescending`). They are then
  inserted one by one (`ApplyInsertions`).
  - `Layout` describes the result without any index shifting: the original
    buffer cut at the offsets, with each text placed in its cut.
  - Lemmas prove three things about it:
    - the original bytes survive in order;
    - every text appears once, in ascending offset order;
    - the length grows by exactly the added texts.
  - When offsets are distinct, the result does not depend on the order in
    which the directives were collected.
  - `instrument.dfy` (module `Instrumenter`) chains the walk and the patch,
    as the per-file body of `main` does.

The parse tree is an input value (`SyntaxTree.Node`). `WellFormed` states
what the parser guarantees:
- node ranges lie inside the buffer;
- children are nested and ordered;
- a node with children covers at least one byte;
- a `declarator` field index points at an existing child.

All three compile-time switches (`ParseFunction`, `InsertTraceToFunction`,
`WriteInsertTrace`) are on in the source, so the model assumes each is set.

Two behaviours of the code are worth stating on their own:

- **Empty bodies are instrumented.** The body test at
  test-cpp/main.cpp:252 only asks for more than one child. An empty `{}`
  has two children, the tokens `{` and `}`, so it passes. Child 1 is then
  the closing brace, and the directive goes in just before `}`.
  `ShortBodyDescends` covers only bodies with at most one child.
  `AcceptedDefinition` covers `{}`.
- **Only named children are walked.** The recursion at
  test-cpp/main.cpp:298-300 starts from the first *named* child and then
  follows named siblings. So unnamed tokens are never visited. A node whose
  children are all unnamed is not descended into, even though its child
  count is positive.

## Model

| member | source | states |
|---|---|---|
| TreeQueries.ScanForKind | test-cpp/main.cpp:96-105 | the scan returns the first index at or after `i` whose node has the requested type, or none when no node from `i` on has it |
| TreeQueries.FirstOfKind | test-cpp/main.cpp:94-106 | none exactly when no node has the type; otherwise the node at the first index with that type |
| TreeQueries.ChildByNodeType | test-cpp/main.cpp:94-106 | the result is a direct child (named or not) of the requested type; none exactly when no direct child has that type, so it never returns a grandchild |
| TreeQueries.ChildByNodeTypeIsFirst | test-cpp/main.cpp:94-106 | the child found is the first child of that type |
| TreeQueries.FindNodeInFirstChildLevelByType | test-cpp/main.cpp:133-153 | the result is a named direct child of the requested type; none exactly when no named child has that type; unnamed tokens are never returned |
| TreeQueries.FirstLevelIsFirst | test-cpp/main.cpp:133-153 | the child found is the first named child of that type |
| TreeQueries.FindNodeByType | test-cpp/main.cpp:108-131 | the node itself when its type matches, otherwise the first match in the pre-order listing over named descendants; every result has the requested type |
| TreeQueries.FindAmongNamed | test-cpp/main.cpp:117-127 | the loop over named children returns the first match of the concatenated pre-order listings of those children |
| TreeQueries.FindErrorNode | test-cpp/main.cpp:166-183 | the first `ERROR` node of the pre-order listing over all children, unnamed included; none exactly when that listing has no `ERROR` node |
| TreeQueries.FindErrorAmong | test-cpp/main.cpp:172-180 | the loop over all children returns the first `ERROR` node of their concatenated pre-order listings |
| TreeQueries.FirstOfKindAppend | test-cpp/main.cpp:117-127 | an early return in a search over a concatenation finds the left part's first match when it has one, otherwise the right part's |
| TreeQueries.CheckNodeSourceCode | test-cpp/main.cpp:155-164 | true exactly when the node is present, its range is as long as the text, and the buffer holds the text byte for byte from the node's start |
| FunctionSites.Classify | test-cpp/main.cpp:206-293 | an accepted node is a non-`constexpr` function definition; the directive it gets starts with the tracing macro and lies inside the node |
| FunctionSites.ClassifyDeclared | test-cpp/main.cpp:223-241 | after the name-child and parameter-list checks, an accepted directive starts with the macro and lies inside the definition |
| FunctionSites.ClassifyCompound | test-cpp/main.cpp:243-248 | the body is looked up among all children; an accepted directive starts with the macro and lies inside the definition |
| FunctionSites.ClassifyBody | test-cpp/main.cpp:252-291 | the body checks end in one of the following: acceptance, the empty-body skip, the already-traced skip, the missing-name rejection or the multiline-name rejection; an accepted directive starts with the macro and lies inside the body |
| FunctionSites.DeclaratorFieldText | test-cpp/main.cpp:264-269 | a name is found exactly when the declarator has a `declarator` field, and the name is the buffer slice of the child that field points at |
| FunctionSites.Descends | test-cpp/main.cpp:35-54 | whether the named children are still walked after an outcome (only `NODE_ERROR_CONTINUE_TRAVERSE` and falling through do so); an accepted definition is descended into, and an outcome that skips the children adds no directive |
| FunctionSites.Contains | test-cpp/main.cpp:272-280 | `find(...) != npos`: the pattern occurs somewhere. It never occurs in a shorter text, it occurs when the text starts with it, and the empty pattern always occurs |
| FunctionSites.Substr | test-cpp/main.cpp:288 | `std::string::substr` keeps a contiguous slice starting at `pos`, no longer than the count. It has the full count unless it was cut at the end of the buffer |
| FunctionSites.BlankChars | test-cpp/main.cpp:288 | the copied whitespace is the slice starting just after the opening brace. Its length is the 32-bit count of bytes up to the first statement, cut at the end of the buffer |
| FunctionSites.TraceLine | test-cpp/main.cpp:277 | the statement is the macro name, `(`, the function name and `);`, in that order |
| FunctionSites.HasNameChild | test-cpp/main.cpp:224-235 | true exactly when some named child of the declarator is an `identifier`, `field_identifier` or `qualified_identifier` |
| FunctionSites.IsConstexpr | test-cpp/main.cpp:208-210 | true exactly when the first named `type_qualifier` child exists and its source text is `constexpr` |
| FunctionSites.CollectSite | test-cpp/main.cpp:192-305 | what the walk collects at a node and below it: the outcome's directive, then the named children's when descent is allowed. Every collected text starts with the tracing macro |
| FunctionSites.CollectForest | test-cpp/main.cpp:193-304 | what the walk collects along a chain of siblings, in order. Every collected text starts with the tracing macro |
| FunctionSites.VisitDefinition | test-cpp/main.cpp:206-221 | the loop body for a definition appends exactly the directive `Classify` assigns, and continues into the children exactly when that outcome allows it (the macros at lines 35-54) |
| FunctionSites.VisitDeclared | test-cpp/main.cpp:222-241 | the identifier and parameter-list branches append what `ClassifyDeclared` says and descend as it says |
| FunctionSites.VisitCompound | test-cpp/main.cpp:243-248 | a missing body stops without descending; otherwise the body checks decide |
| FunctionSites.VisitBody | test-cpp/main.cpp:252-293 | the body branches append the directive `ClassifyBody` assigns, and descend as it says |
| FunctionSites.TraverseAndPrint | test-cpp/main.cpp:192-305 | the sibling loop with recursion appends to `insertions` exactly `CollectForest` of the siblings, in pre-order |
| FunctionSites.ForestStep | test-cpp/main.cpp:193-304 | what a chain of siblings collects is what its first node collects, followed by what the rest collects |
| FunctionSites.SiteStep | test-cpp/main.cpp:204-300 | one loop iteration appends what `CollectSite` says of that node |
| SiteLemmas.SiteOffsetsInside | test-cpp/main.cpp:261-291 | every directive collected at or below a node has its offset inside that node's byte range |
| SiteLemmas.ForestOffsetsInside | test-cpp/main.cpp:298-300 | the same holds for every node of a chain of siblings within the given bounds |
| SiteLemmas.CollectedOffsetsInSource | test-cpp/main.cpp:192-305 | every collected offset is a position of the original buffer (at most its length) |
| SiteLemmas.SiteProvenance | test-cpp/main.cpp:192-305 | every collected directive is the one `Classify` assigns to some node of the named pre-order listing |
| SiteLemmas.ForestProvenance | test-cpp/main.cpp:298-304 | the same for a chain of siblings |
| SiteLemmas.ConstexprDefinitionSkipped | test-cpp/main.cpp:208-213 | a definition whose first named `type_qualifier` reads `constexpr` is rejected, and nothing below it is collected (NODE_ERROR_CONTINUE, lines 40-44) |
| SiteLemmas.DeclaratorRejectionsDescend | test-cpp/main.cpp:215-241 | missing declarator, missing name child or missing parameter list: rejected, yet the named children are still collected (NODE_ERROR_CONTINUE_TRAVERSE, lines 47-54) |
| SiteLemmas.ClassifyPastDeclarator | test-cpp/main.cpp:206-241 | once the declarator checks pass, the remaining rules alone decide the outcome |
| SiteLemmas.MissingBodySkipped | test-cpp/main.cpp:243-248 | no `compound_statement` child: rejected, nothing below collected |
| SiteLemmas.DeclaredWithoutBody | test-cpp/main.cpp:243-248 | the body lookup failing after the declarator checks gives the missing-body rejection |
| SiteLemmas.ShortBodyDescends | test-cpp/main.cpp:252-300 | a body with at most one child: no directive, yet the walk still collects the named children |
| SiteLemmas.DeclaredReachesBody | test-cpp/main.cpp:243-252 | with a body found, the body checks decide the outcome |
| SiteLemmas.BodyRejectionsStop | test-cpp/main.cpp:264-282 | missing name field, multiline name, or a first statement mentioning the macro: no directive and no descent |
| SiteLemmas.NameAndMarkerRejectionsSkip | test-cpp/main.cpp:264-282 | for the whole definition: those three cases collect nothing at or below it |
| SiteLemmas.AcceptedDefinition | test-cpp/main.cpp:252-291 | when every rule passes, the directive sits at the start of the body's child at index 1. Its text is the macro call naming the function (the source text of the declarator's `declarator` field child), followed by the bytes between the opening brace and that child. After that directive come the named children's directives |
| SiteLemmas.BodyAccepted | test-cpp/main.cpp:277-291 | the accepted directive's offset and text, at the level of the body checks |
| SiteLemmas.AcceptedCollects | test-cpp/main.cpp:291-300 | an accepted definition collects its own directive, then its named children's |
| SiteLemmas.CollectUnfold | test-cpp/main.cpp:204-300 | what a node collects: its outcome's directive, then its named children's when the outcome allows descent and the node has children |
| SiteLemmas.BlankCharsIsGap | test-cpp/main.cpp:288 | with the first statement after the brace, the copied whitespace is exactly the bytes between brace and statement |
| SiteLemmas.BlankCharsWrapsRound | test-cpp/main.cpp:288 | if the first statement starts at the body's own start byte, the 32-bit length wraps and the rest of the file is copied |
| SiteLemmas.TraceLineInjective | test-cpp/main.cpp:277 | different function names give different trace statements |
| SiteLemmas.AcceptedTextCarriesMarker | test-cpp/main.cpp:277-291 | an accepted directive's text contains the marker that the already-traced check looks for |
| SiteLemmas.MarkedBodyNotAccepted | test-cpp/main.cpp:279-282 | a definition whose first statement already mentions the macro never gets a directive, so a second run adds nothing there |
| TextPatcher.InsertDescending | test-cpp/main.cpp:367-369 | placing one directive keeps the sequence largest-offset-first and adds exactly that directive |
| TextPatcher.HeadBoundsRest | test-cpp/main.cpp:367-369 | a larger head stays in front of the rest after a smaller directive has been placed in it |
| TextPatcher.SortDescending | test-cpp/main.cpp:367-369 | the sort returns a permutation of the directives, largest offset first |
| TextPatcher.SortedWithin | test-cpp/main.cpp:367-369 | sorting keeps every offset within the buffer |
| TextPatcher.InsertAt | test-cpp/main.cpp:372 | `insert` keeps the prefix, puts the text at the offset, and shifts the suffix right by the text's length |
| TextPatcher.ApplyInsertions | test-cpp/main.cpp:371-373 | inserting the sorted directives one by one into the growing buffer yields the layout of the original with every text at its original offset |
| TextPatcher.InsertIntoPrefix | test-cpp/main.cpp:372 | an insertion at or before every earlier one falls inside the untouched prefix of the buffer |
| TextPatcher.InsertionStep | test-cpp/main.cpp:371-373 | one loop step peels the next (smaller) offset off the layout still to be produced |
| TextPatcher.LayoutStep | test-cpp/main.cpp:366-373 | the layout is the layout up to the largest offset, then that directive's text, then the original bytes after it |
| TextPatcher.LayoutKeepsSource | test-cpp/main.cpp:366-373 | cutting the added texts out of the patched buffer gives the original bytes back, in order |
| TextPatcher.LayoutAddsTexts | test-cpp/main.cpp:366-373 | the added bytes are every directive's text, once each, in ascending offset order |
| TextPatcher.LayoutLength | test-cpp/main.cpp:366-373 | the patched length is the original length plus the lengths of all texts |
| TextPatcher.PatchedPreservesSource | test-cpp/main.cpp:366-373 | the three facts above for a whole buffer |
| TextPatcher.TotalLengthRemove | test-cpp/main.cpp:371-373 | removing one directive takes its text's length off the total |
| TextPatcher.TotalLengthPermutation | test-cpp/main.cpp:367-373 | the number of bytes added does not depend on the order of the directives |
| TextPatcher.DescendingUnique | test-cpp/main.cpp:367-369 | with distinct offsets there is only one largest-first arrangement of a collection |
| TextPatcher.SameHead | test-cpp/main.cpp:367-369 | two largest-first arrangements of one collection with distinct offsets start with the same directive |
| TextPatcher.PatchSource | test-cpp/main.cpp:366-373 | sort-then-insert yields `PatchPhase` of the collected directives, and the buffer grows by exactly the total text length |
| TextPatcher.DistinctPermutation | test-cpp/main.cpp:366-369 | reordering a collection keeps its offsets distinct when they were distinct |
| TextPatcher.PatchOrderIndependent | test-cpp/main.cpp:366-373 | with distinct offsets, the patched buffer is the same for any collection order of the same directives |
| Instrumenter.RootForest | test-cpp/main.cpp:362-363 | the walk started at the root collects what `CollectSite` says of the root |
| Instrumenter.CollectedWithin | test-cpp/main.cpp:362-373 | every directive collected over a well-formed tree is a valid `insert` position |
| Instrumenter.InstrumentSource | test-cpp/main.cpp:361-373 | collecting then patching one buffer yields `PatchPhase` of the collected directives; every `insert` position is valid; the buffer grows by exactly the inserted text |

## Left out

- File and console I/O. This covers `find_cpp_files`, `backup_files`,
  argument checking, log-file naming, reading and writing the file, and
  every `PRINT_MSG*` line and log line of the `NODE_*` macros. Of those
  macros the model keeps only their control effect: whether the node's
  named children are still visited.
- The tree-sitter library (`ts_parser_*`, `ts_tree_*`, and the `ts_node_*`
  accessors). The tree is an input value, and `WellFormed` stands for what
  the parser guarantees. The parser itself is not part of this model, and
  neither is how it recovers from syntax errors.
- `SyntaxTree.Node` offsets are unbounded naturals. tree-sitter reports them as
  32-bit values. The one place where the width changes the result is the
  whitespace length at test-cpp/main.cpp:288, and that is modelled
  explicitly (`BlankChars`, `BlankCharsWrapsRound`).
- The `ts_node_is_null(first_child_node)` test at test-cpp/main.cpp:254-257
  cannot fail once the body has more than one child, so it has no branch
  in the model.
- The extra `strcmp(..., "ERROR")` test at test-cpp/main.cpp:177 repeats what
  the recursive call already guarantees, so it is modelled as the null
  test alone.
- `FindNodeByType` and `FindErrorNode` are not called by the walk. They are
  modelled for their own contracts only.
- TextPatcher.SortDescending: `std::sort` is not stable and leaves the order
  of equal offsets unspecified. The model fixes one order, and
  `PatchOrderIndependent` is stated only for distinct offsets. Two
  directives at the same offset would come out in the reverse of their
  sorted order.
- TextPatcher.SortDescending: the in-place sort of the local vector is
  modelled as a function on the sequence's value. The vector is not shared,
  so aliasing plays no part.
- The walk's recursion depth and the process-level effects of a thrown
  `std::out_of_range` are not modelled. The preconditions (`WellFormed`,
  `OffsetsWithin`) exclude every input that would throw.
