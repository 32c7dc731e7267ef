# Wazuh engine formula graphs, asset graphs and wazuh-db client, in Dafny

This project models the part of the Wazuh engine that turns asset
definitions into formula graphs, links assets into environment graphs, and
talks to the wazuh-db socket, and it proves what that code promises.

- `Expressions` (Expression.dfy) models `Expression<T>`. This is a formula
  graph kept as an arena of node ids: the kind of each node, the children of
  each node, the payloads of the Term leaves, and names in both directions.
  It is a class whose methods update those maps in place. `generateId`,
  `addRelation`, `addName`, `addNode`, both constructors, `addOperation`,
  `addTerm` and `compose` all return `Result`/`Outcome` values instead of
  throwing. `compose` copies every input graph under a new root. Its loops
  are proved against value-level folds in `Copying` (the node loop),
  `Linking` (the edge loop) and `Composing` (the loop over inputs). The
  guards of the three checked mutators are functions in `Checks`. The arena
  invariant, and the ghost depth order that makes every walk finite, are in
  `Arena`.
- `Traversals` defines the pre-order stack walk that `visit`,
  `visitLeafs` and `Graph::visit` perform. It proves that the walk reaches
  exactly the reachable nodes, and that a node is walked once for each path
  to it from the start (when no child is listed twice under one parent, as
  `addRelation` ensures). `WalkStack` is that stack loop.
- `Environments` (Environment.dfy) models two classes:
  - `Graph<T>`, with `addNode`, `addEdge` and `visit`.
  - `Environment`, whose constructor builds every listed asset and links
    decoders, rules and outputs under their parents. The constructor's loops
    are proved against the value-level functions `Section` and `Constructed`.
- `GraphBuilders` models two parts of `graphBuilders.cpp`:
  - The definition loop of `orGraphBuilder`, which splits each definition
    into its check, its parents, its metadata and its stages.
  - The two graph visitors (first success and fallible chain), which fold
    an asset graph into one connectable tree.
- `Assets` models the `Asset` constructor, and `AssetBuilders` models
  `assetBuilder`. `Registry` models stage dispatch through
  `Registry::getBuilder`. `JsonValues` models the JSON operations the
  builders use (`find_if` on object members, `erase`).
- `WazuhDb` (Wdb.dfy) models four parts of the wazuh-db client:
  - `parseResult`.
  - The length guards of `query`.
  - The attempt loop of `tryQuery`.
  - The two parse wrappers.

  The socket is an oracle: the reply it gives to each attempt.

The following things are parameters of the model:

- The stage registry, which is a map from keys to builders that may fail.
- The catalog.
- The construction of an environment asset.
- An asset's parents.
- The order in which hash maps are iterated.

Acyclicity is stated with a ghost rank that grows along every edge. The
source has no visited sets, so its loops terminate only on acyclic graphs.

## Model

| member | source | states |
|---|---|---|
| Expressions.Expression.GenerateId | src/engine/test/source/_builder/expression.hpp:55-69 | returns the old counter and advances it by one, or fails with MaxNodesReached at UIntMax and leaves it; a returned id is never a node already present; the invariant is kept |
| Checks.Link | src/engine/test/source/_builder/expression.hpp:71-106 | passes exactly when both endpoints exist and the verdict passes, and the error follows source order; on success only the parent's list changes, gaining the child at its end; on failure no adjacency list changes (an existing parent may gain an empty entry through `operator[]`) |
| Checks.LinkValid | src/engine/test/source/_builder/expression.hpp:71-106 | a relation that goes down the depth order keeps the arena invariant, whether it passes or not |
| Expressions.Expression.AddRelation | src/engine/test/source/_builder/expression.hpp:71-106 | the outcome and the new edge table are those of `Checks.Link` on the old tables; the invariant is kept |
| Checks.Naming | src/engine/test/source/_builder/expression.hpp:108-128 | naming fails with NodeMissing on a missing node and with NameExists on a bound non-empty name, and then changes nothing; on success the reverse map records the name, a non-empty name is bound to the node, and every earlier binding is kept |
| Checks.NamingValid | src/engine/test/source/_builder/expression.hpp:108-128 | naming a node that has no name keeps the invariant, so a non-empty name stays bound to one node and the two maps stay inverse |
| Expressions.Expression.AddName | src/engine/test/source/_builder/expression.hpp:108-128 | the outcome and the new name maps are those of `Checks.Naming`; the invariant is kept |
| Expressions.Expression.StoreNode | src/engine/test/source/_builder/expression.hpp:133-134 | stores the node's kind and an empty child list for a fresh id, placing it just below its parent in the depth order |
| Expressions.Expression.AddNode | src/engine/test/source/_builder/expression.hpp:130-139 | `NodeAdded`: the node is allocated and stored before the relation and the name are checked, so a rejected relation leaves the node (with an empty list) in the graph and a rejected name also leaves the edge; a successful call returns the old counter, a fresh id; the payloads are unchanged |
| Expressions.Expression.AddOperation | src/engine/test/source/_builder/expression.hpp:166-175 | a Term kind fails with ExpectedOperation and nothing changes; any other kind behaves as `addNode` |
| Expressions.Expression.AddTerm | src/engine/test/source/_builder/expression.hpp:177-183 | behaves as `addNode` with kind Term, and the payload is recorded exactly when the node was fully added |
| Expressions.Expression.Blank | src/engine/test/source/_builder/expression.hpp:43-53 | the tables before the first `generateId`: all empty, with the counter at its (uninitialised) start value |
| Expressions.Expression.NewOperation | src/engine/test/source/_builder/expression.hpp:142-155 | a Term kind fails with ExpectedOperation; otherwise the result is a fresh graph holding exactly the root, of that kind, with an empty child list, named as given, unless the counter is exhausted |
| Expressions.Expression.NewTerm | src/engine/test/source/_builder/expression.hpp:157-164 | a fresh graph holding one Term root with the payload and the name and no edge entry, unless the counter is exhausted |
| Expressions.Expression.Compose | src/engine/test/source/_builder/expression.hpp:185-248 | fails with ExpectedOperation on a Term kind; succeeds exactly when the ids suffice and an Implication has at most two inputs; the result's root has the given kind and name, and `Composed` holds: the root's `j`-th child is the copy of input `j`'s root, input `j`'s nodes are copied one-to-one into its own id block with the same kinds and names and the payloads their originals hold, its edges are re-targeted, and the names bound are the root's and the inputs' |
| Expressions.Expression.Rounds | src/engine/test/source/_builder/expression.hpp:197-245 | the loop over the inputs passes exactly when the whole composition can succeed, and then leaves `Building` for all inputs |
| Expressions.Expression.Round | src/engine/test/source/_builder/expression.hpp:197-245 | one more input extends `Building` by its root's kind, its tables, its lookup table and its id block |
| Expressions.Expression.ComposeInput | src/engine/test/source/_builder/expression.hpp:197-245 | one round fails with MaxNodesReached when the ids run out, or with ImplicationFull on a third Implication child; otherwise the counter advances by the input's size and the round is `Rounded` |
| Expressions.Expression.CopyInput | src/engine/test/source/_builder/expression.hpp:201-230 | the node loop of one round succeeds exactly when the ids suffice and changes nothing when it fails; on success the copies fit the input's kinds and the composed root is untouched |
| Expressions.Expression.CopyNodes | src/engine/test/source/_builder/expression.hpp:201-230 | the node loop equals the fold `Copying.CopyAll` over an enumeration of the input's nodes, or fails with MaxNodesReached and changes nothing |
| Expressions.CopyLoop | src/engine/test/source/_builder/expression.hpp:202-230 | the loop over the nodes yields `CopyAll` exactly when the counter does not reach UIntMax |
| Expressions.Enumerate | src/engine/test/source/_builder/expression.hpp:202-204 | a hash map's keys are iterated once each, in some order |
| Copying.CopyAllCount | src/engine/test/source/_builder/expression.hpp:208 | the node loop draws one id per node |
| Copying.CopyAllLookup | src/engine/test/source/_builder/expression.hpp:201-208 | the lookup table maps exactly the enumerated nodes, the `k`-th to the `k`-th id drawn |
| Copying.CopyAllColumns | src/engine/test/source/_builder/expression.hpp:210-229 | the kinds, payloads and reverse names of the copies are those of their originals, at the copies' ids |
| Copying.CopyAllNames | src/engine/test/source/_builder/expression.hpp:220-227 | the names bound after the loop lie between the earlier names and those together with the input's names; an earlier name the input does not use keeps its node |
| Copying.CopyAllNamed | src/engine/test/source/_builder/expression.hpp:220-227 | after a full enumeration, the names bound are exactly the earlier ones and the input's |
| Copying.CopyAllValid | src/engine/test/source/_builder/expression.hpp:201-230 | the node loop keeps the arena invariant, with each copy one level below its original's depth |
| Copying.CopyAllDone | src/engine/test/source/_builder/expression.hpp:201-230 | a full enumeration copies every node of the input into the new id block (`NodesCopied`) |
| Expressions.Expression.FoldValid | src/engine/test/source/_builder/expression.hpp:201-230 | the node loop run to its end keeps the invariant of the composed graph |
| Expressions.Expression.FoldCopies | src/engine/test/source/_builder/expression.hpp:201-230 | the node loop run to its end copies the input as `NodesCopied` describes |
| Linking.LinkLoop | src/engine/test/source/_builder/expression.hpp:235-244 | the edge loop over the parents and their children equals `LinkParents`, and the first rejected relation stops it |
| Linking.LinkChildren | src/engine/test/source/_builder/expression.hpp:239-243 | the loop over one parent's children equals `LinkEach` on their translations, and the first rejected relation stops it |
| Linking.EachSticky | src/engine/test/source/_builder/expression.hpp:239-243 | once a relation of a parent's list fails, the rest of the list changes nothing |
| Linking.ParentsSticky | src/engine/test/source/_builder/expression.hpp:235-244 | once a parent's list fails, the rest of the loop changes nothing |
| Linking.EachPasses | src/engine/test/source/_builder/expression.hpp:239-243 | distinct new children of an operation parent, within the Implication limit, are all linked, appended in order |
| Linking.ParentsPass | src/engine/test/source/_builder/expression.hpp:235-244 | on a fresh copy the edge loop rejects nothing and adds exactly the re-targeted lists |
| Linking.RetargetLinked | src/engine/test/source/_builder/expression.hpp:235-244 | the re-targeted lists keep the adjacency invariants |
| Linking.RetargetVia | src/engine/test/source/_builder/expression.hpp:235-244 | every copy gets its original's list re-targeted through the lookup table, and a copy of a childless node gets no list |
| Expressions.Expression.Relinked | src/engine/test/source/_builder/expression.hpp:235-244 | over every parent of the input, the edge loop passes and adds the re-targeted lists while keeping the invariant |
| Expressions.Expression.CopyEdges | src/engine/test/source/_builder/expression.hpp:235-244 | the edge loop of one round adds exactly the input's edges, re-targeted, and leaves every earlier list alone |
| Expressions.Expression.Attach | src/engine/test/source/_builder/expression.hpp:234-244 | the root edge fails only on a third Implication child; otherwise the copy of the input's root becomes the root's last child and the input's edges are re-targeted |
| Composing.Refused | src/engine/test/source/_builder/expression.hpp:197-245 | a round that runs out of ids, or that gives an Implication a third child, means the whole composition cannot succeed |
| Composing.InputsNext | src/engine/test/source/_builder/expression.hpp:197-245 | a finished round extends `InputsCopied` by the new input, without disturbing earlier inputs |
| Composing.ComposedNext | src/engine/test/source/_builder/expression.hpp:197-245 | a finished round extends `Composed` by the new input |
| Traversals.WalkStack | src/engine/test/source/_builder/expression.hpp:251-293 | the stack loop completes exactly when no popped node stops it, and then reports the walk (or its leaves); otherwise it stops at the first blocking node, having reported what came before it (plus that node, when every node is reported and it exists) |
| Traversals.PendingAppend | src/engine/test/source/_builder/expression.hpp:253-266 | everything pushed above a stack is popped before what lies below it |
| Traversals.PopStep | src/engine/test/source/_builder/expression.hpp:256-266 | popping the top and pushing its children leaves exactly the rest of the walk |
| Traversals.WalkReachesAll | src/engine/test/source/_builder/expression.hpp:251-268 | a walk from a node pops every node reachable from it |
| Traversals.WalkOnlyReachable | src/engine/test/source/_builder/expression.hpp:251-268 | a walk from a node pops only nodes reachable from it |
| Traversals.WalkIsReachable | src/engine/test/source/_builder/expression.hpp:251-268 | a node is popped exactly when it is reachable |
| Traversals.DiamondTwice | src/engine/test/source/_builder/expression.hpp:251-268 | an instance of `WalkCountsPaths`: in a diamond the shared node is popped twice, once per path, and the later sibling is walked first |
| Traversals.WalkCountsPaths | src/engine/test/source/_builder/expression.hpp:251-268 | for every acyclic graph in which no child is listed twice under one parent, a node occurs in the walk exactly as often as there are paths to it from the start, and `PathsTo` holds exactly those paths |
| Expressions.Expression.PoppedPerPath | src/engine/test/source/_builder/expression.hpp:251-268 | in every valid formula graph, `visit` pops a node once per path from the root to it |
| Traversals.WalkEndsAtLeaf | src/engine/source/_builder/environment.hpp:50-61 | every walk is non-empty and ends at a node without children |
| Expressions.Expression.WalkNodes | src/engine/test/source/_builder/expression.hpp:261 | every node the walk pops is a node of the graph, so `m_nodes.at` never throws |
| Expressions.Expression.Visit | src/engine/test/source/_builder/expression.hpp:251-268 | the visitor sees the whole pre-order walk exactly when every popped node has an edge entry; otherwise it sees the walk up to and including the first node without one, where `m_edges.at` throws |
| Expressions.TermsAreTerms | src/engine/test/source/_builder/expression.hpp:281-284 | every leaf reported is a Term node of the walk, and every Term node of the walk is reported |
| Expressions.Expression.VisitLeafs | src/engine/test/source/_builder/expression.hpp:271-293 | the visitor sees the Term nodes of the walk, in order; the loop completes exactly when no operation node without an edge entry is popped, and otherwise stops at the first one |
| Expressions.Expression.LeavesReached | src/engine/test/source/_builder/expression.hpp:271-293 | a completed leaf visit reports exactly the Term nodes reachable from the root |
| Checks.SelfParentAsWritten | src/engine/test/source/_builder/expression.hpp:130-139 | as written, `addNode` with the freshly generated id as parent passes the existence check and links the node to itself, creating a cycle |
| Environments.Graph.Empty | src/engine/source/_builder/environment.hpp:26 | the default graph has root "" and no nodes or edges |
| Environments.Graph.constructor | src/engine/source/_builder/environment.hpp:28-32 | the graph holds only the root node under the root's name, with no edge lists |
| Environments.Graph.AddNode | src/engine/source/_builder/environment.hpp:34-37 | insert semantics: a name that already has a node keeps it, and nothing else changes |
| Environments.Graph.AddEdge | src/engine/source/_builder/environment.hpp:39-42 | `to` is appended to `from`'s children, with the list created if needed; there is no existence or duplicate check and nothing else changes; no list becomes empty |
| Environments.Graph.Visit | src/engine/source/_builder/environment.hpp:45-62 | the walk completes exactly when every popped name has a node and an edge list; otherwise it stops at the first that lacks one, and has visited it when it has a node |
| Environments.Graph.VisitNeverCompletes | src/engine/source/_builder/environment.hpp:45-62 | the last node of every walk has no edge list, so `visit` as written always throws |
| Environments.Graph.VisitFixed | src/engine/source/_builder/environment.hpp:45-62 | with a missing edge list read as no children, the walk completes exactly when every popped name has a node |
| Environments.AddEdgesChildren | src/engine/source/_builder/environment.hpp:127-130 | each parent gains the asset as a child once per occurrence in the parent list, at the end; no other name changes |
| Environments.Link | src/engine/source/_builder/environment.hpp:120-135 | one element fails with NotAString when it is not a string, or with AssetFailed naming it when its asset does not build; a success records the asset under the element's name |
| Environments.LinkNames | src/engine/source/_builder/environment.hpp:120-135 | linking one element records exactly its name and adds at most that name to the graph |
| Environments.LinkedEdges | src/engine/source/_builder/environment.hpp:124-135 | a linked asset gets one edge from each declared parent; a decoder with no parents gets one edge from the root, and a rule or output with no parents gets none |
| Environments.FiltersUnwired | src/engine/source/_builder/environment.hpp:188-198 | a filter section leaves the graphs as they were |
| Environments.SectionBuilt | src/engine/source/_builder/environment.hpp:118-122 | in a successful section, every element is a string whose asset builds |
| Environments.SectionLastAsset | src/engine/source/_builder/environment.hpp:123 | `m_assets[name] = asset` overwrites: each name maps to the asset of its last element |
| Environments.SectionFirstNode | src/engine/source/_builder/environment.hpp:124 | the graph keeps the first node: a listed name that had no node maps to the asset of its first element, and one that had a node keeps it |
| Environments.SectionUnlisted | src/engine/source/_builder/environment.hpp:118-136 | a name no element lists keeps its node or its absence |
| Environments.SectionPrefixFail | src/engine/source/_builder/environment.hpp:118-136 | the first element that fails fails the whole section with its error |
| Environments.SectionNames | src/engine/source/_builder/environment.hpp:118-136 | after a section, the assets recorded are the earlier ones plus every name listed, and the graph gains no node outside the names listed |
| Environments.Sections | src/engine/source/_builder/environment.hpp:110-137 | a section linked into a default graph keeps every earlier asset, and every node of its graph names a recorded asset |
| Environments.Constructed | src/engine/source/_builder/environment.hpp:106-199 | only an object can be constructed, and every node of the decoder, rule and output graphs names an asset of the environment |
| Environments.Environment.constructor | src/engine/source/_builder/environment.hpp:104-106 | an environment with the given name, no assets and three fresh default graphs with root "" |
| Environments.Environment.Create | src/engine/source/_builder/environment.hpp:106-199 | the constructor throws exactly when `Constructed` fails, with its error; otherwise the environment holds exactly what `Constructed` gives: decoders, then rules, outputs and filters, sharing one asset map, and all three graphs keep the root "" |
| Environments.Environment.Load | src/engine/source/_builder/environment.hpp:108-198 | the constructor's body leaves `Constructed`'s contents with all three graph roots "", or reports its error |
| Environments.Environment.WireSection | src/engine/source/_builder/environment.hpp:110-137 | a section's list, when present, must be an array; its elements are linked into a default graph as `Sections` says |
| Environments.Environment.Wire | src/engine/source/_builder/environment.hpp:118-136 | the loop over a decoder, rule or output list leaves the assets and the graph `Section` gives, or stops with its error |
| Environments.Environment.Attach | src/engine/source/_builder/environment.hpp:127-130 | adds one edge from each declared parent to the asset, in order, keeping the graph valid |
| Environments.Environment.RecordFilters | src/engine/source/_builder/environment.hpp:188-198 | the filter loop records each filter in the asset map only |
| JsonValues.FindKey | src/engine/source/_builder/builders/graphBuilders.cpp:33-36 | the position of the first member with the key, or none exactly when no member has it |
| JsonValues.Erase | src/engine/source/_builder/builders/graphBuilders.cpp:43 | erasing a member shifts the later members down by one and keeps the earlier ones |
| JsonValues.EraseFirst | src/engine/source/_builder/builders/graphBuilders.cpp:33-43 | erasing the first member with a key removes one occurrence of that key and keeps every other member |
| GraphBuilders.WithoutKeys | src/engine/source/_builder/builders/graphBuilders.cpp:43 | erasing a key, if it is present, removes exactly one occurrence of it |
| GraphBuilders.FindAfterErase | src/engine/source/_builder/builders/graphBuilders.cpp:43-61 | erasing one member does not change which member is the first with another key |
| GraphBuilders.ParentNames | src/engine/source/_builder/builders/graphBuilders.cpp:56-60 | the parents list succeeds exactly when every item is a string, and then holds those strings in order |
| GraphBuilders.Splitting | src/engine/source/_builder/builders/graphBuilders.cpp:30-87 | a definition that is not an object is rejected with NotAnObject, and one with no "check" member with MissingCheck, both naming the asset; the stages of a split definition are always one And |
| GraphBuilders.SplitParents | src/engine/source/_builder/builders/graphBuilders.cpp:33-66 | the check is the "stage.check" build of the first "check" member; the parents are `["Root"]` when there is no "parents" member, and otherwise the listed strings in order |
| GraphBuilders.SplitStages | src/engine/source/_builder/builders/graphBuilders.cpp:80-87 | the stages are one And over the stages built, in order, from the members left once "check", "parents" and "metadata" are erased |
| GraphBuilders.StageKeys | src/engine/source/_builder/builders/graphBuilders.cpp:43-86 | every member other than the first "check", "parents" and "metadata" members yields exactly one stage |
| GraphBuilders.NoReservedStage | src/engine/source/_builder/builders/graphBuilders.cpp:43-86 | when keys do not repeat, none of "check", "parents" and "metadata" becomes a stage |
| GraphBuilders.SplitAll | src/engine/source/_builder/builders/graphBuilders.cpp:28-88 | the definition loop computes `SplitEach` with `Splitting` as its body |
| GraphBuilders.SplitEach | src/engine/source/_builder/builders/graphBuilders.cpp:28-88 | after a successful loop, exactly the defined names have entries, in all three tables |
| GraphBuilders.SplitEachStep | src/engine/source/_builder/builders/graphBuilders.cpp:45-87 | one more definition that splits sets its name's entry in each table to its parts |
| GraphBuilders.SplitEachSucceeds | src/engine/source/_builder/builders/graphBuilders.cpp:28-88 | the loop succeeds exactly when every definition splits |
| GraphBuilders.SplitEachLast | src/engine/source/_builder/builders/graphBuilders.cpp:45-87 | each name maps to the check, stages and parents of its last definition |
| GraphBuilders.SplitPrefixFail | src/engine/source/_builder/builders/graphBuilders.cpp:28-88 | the first definition that fails fails the whole loop with its error |
| GraphBuilders.FoldNode | src/engine/source/_builder/builders/graphBuilders.cpp:96-114 | the recursive visitor computes `Fold`: under first success, a node with an entry gains one "children" group of its folded children in order (on a tree; see "Left out" for nodes reached along several paths), and a node without an entry is returned unchanged; under the fallible policy, the chain is attached as intended |
| GraphBuilders.FoldAll | src/engine/source/_builder/builders/graphBuilders.cpp:105-109 | the children loop folds each child in turn, in order |
| GraphBuilders.Fold | src/engine/source/_builder/builders/graphBuilders.cpp:96-114 | a node without an entry compiles to itself; under first success a node with an entry keeps its head and operands and gains exactly one more operand; under the fallible chain it becomes a "children" chain whose last operand is the node itself, after one operand per child |
| GraphBuilders.BuildGraph | src/engine/source/_builder/builders/graphBuilders.cpp:116-121 | the root is a root node of the policy's kind named `rootName`, whose operands are the folded direct children of `rootName`, in order |
| GraphBuilders.FoldReaches | src/engine/source/_builder/builders/graphBuilders.cpp:96-114 | under either policy, every asset reachable from a node occurs in that node's folded tree |
| GraphBuilders.OwnHead | src/engine/source/_builder/builders/graphBuilders.cpp:96-114 | an asset occurs in its own folded tree |
| GraphBuilders.PoliciesDiffer | src/engine/source/_builder/builders/graphBuilders.cpp:138-155 | for an asset with children, the fallible chain puts the children ahead of the asset, while first success keeps the asset at the head |
| GraphBuilders.FoldFallibleAsWritten | src/engine/source/_builder/builders/graphBuilders.cpp:138-155 | as written, the fallible visitor returns every node unchanged |
| GraphBuilders.FallibleDropsChildren | src/engine/source/_builder/builders/graphBuilders.cpp:141-154 | as written, a decoder X with a child Z compiles to X alone, with no trace of Z |
| Registry.StageKey | src/engine/source/_builder/asset.hpp:58 | the key is six characters longer than the name, starts with "stage.", and the name can be read back from it |
| Registry.StageKeyInjective | src/engine/source/_builder/asset.hpp:58 | distinct stage names get distinct keys, and only a stage named "check" shares the check's key |
| Registry.Dispatch | src/engine/source/_builder/asset.hpp:39 | a missing key fails with MissingBuilder; otherwise it succeeds exactly when the builder does, with the builder's fragment, and a builder failure becomes BuilderFailed with the key and the builder's reason; every failure names the key |
| Registry.BuildStages | src/engine/source/_builder/asset.hpp:52-59 | the stage loop computes `Stages` |
| Registry.Stages | src/engine/source/_builder/asset.hpp:52-59 | a successful list has one stage per member; a failure is a missing or failed builder for the key of one of the members |
| Registry.StagesBuilt | src/engine/source/_builder/asset.hpp:52-59 | the stages built are one per member, each built by the member's own key from the member's own definition, in order |
| Registry.StagesFail | src/engine/source/_builder/asset.hpp:52-59 | the list fails exactly when some member's stage fails, and then with the error of the first such member |
| Registry.StagesPrefixFail | src/engine/source/_builder/asset.hpp:52-59 | a failed prefix fails the whole list with its error |
| Assets.NewAsset | src/engine/source/_builder/asset.hpp:32-60 | the check is built first, so its failure wins; a non-object stage definition fails and reports its type name; otherwise there is one stage per member, built by "stage." + key, in order; the name, the type and the check are those given |
| AssetBuilders.AssetExpr | src/engine/source/_builder/builders/assetBuilder.cpp:17-22 | the formula unpacks to exactly the asset's name, check and stages and the children given: an Implication named after the asset over the check and a consequence, which is an And "consequence" over an And "stages" of the stages and an Or "children" of the children, each in order |
| AssetBuilders.BuiltUnpacked | src/engine/source/_builder/builders/assetBuilder.cpp:17-22 | every formula of that shape is the formula of the asset its parts describe |
| AssetBuilders.AssetLeaves | src/engine/source/_builder/builders/assetBuilder.cpp:17-22 | the leaves of an asset formula are the check's, then the stages', then the children's |
| AssetBuilders.AssetWellFormed | src/engine/source/_builder/builders/assetBuilder.cpp:17-22 | built from well-formed parts, the formula is well formed, and its Implication has two operands |
| WazuhDb.FirstSpace | src/engine/source/wdb/src/wdb.cpp:102 | the position of the first space, or none exactly when there is no space |
| WazuhDb.SplitJoin | src/engine/source/wdb/src/wdb.cpp:100-111 | splitting `code` or `code payload` gives back the code and the payload; the payload may be empty or hold further spaces |
| WazuhDb.Split | src/engine/source/wdb/src/wdb.cpp:100-111 | the code has no space; the payload is absent exactly when the response has no space; joining the code and the payload gives back the response |
| WazuhDb.ParsesJoined | src/engine/source/wdb/src/wdb.cpp:93-121 | the code maps to its table entry, or to UNKNOWN when the table has none; the payload is recovered, and is absent when there is no space |
| WazuhDb.ParseResult | src/engine/source/wdb/src/wdb.cpp:93-121 | the payload is that of some split of the response with a space-free code, and the code is that code's table entry, or UNKNOWN when the table has none |
| WazuhDb.Utf8Length | src/engine/source/wdb/src/wdb.cpp:47-52 | `std::string::length()` counts the bytes of the UTF-8 encoding: between the number of characters and four times it, and equal to it exactly when every character is ASCII |
| WazuhDb.Rejected | src/engine/source/wdb/src/wdb.cpp:47-56 | a query that passes the guards is non-empty and has at most the limit's number of characters; on ASCII text the guards reject exactly the empty and the over-long queries |
| WazuhDb.RejectedByBytes | src/engine/source/wdb/src/wdb.cpp:52 | the guard measures bytes: a three-character query of two-byte characters is rejected at a limit of four |
| WazuhDb.Tried | src/engine/source/wdb/src/wdb.cpp:130-148 | at most `attempts` queries reach the socket; no attempts, or a rejected query, give "" with no exchange; a non-empty result is some attempt's answer |
| WazuhDb.TriedStops | src/engine/source/wdb/src/wdb.cpp:130-148 | the loop stops at the first reply that is not a recoverable failure, after one exchange per attempt up to it |
| WazuhDb.TriedExhausted | src/engine/source/wdb/src/wdb.cpp:130-148 | when every attempt fails recoverably, all of them are made and the result is "" |
| WazuhDb.WazuhDB.constructor | src/engine/source/wdb/src/wdb.cpp:44-57 | a client with the socket's message limit and no query attempted yet |
| WazuhDb.WazuhDB.Query | src/engine/source/wdb/src/wdb.cpp:44-91 | an empty query, or one whose UTF-8 length in bytes exceeds the limit, answers "" and is not attempted; any other query is attempted and gets the socket's reply |
| WazuhDb.WazuhDB.TryQuery | src/engine/source/wdb/src/wdb.cpp:123-156 | the result is that of `Tried`, and exactly its exchanges are attempted |
| WazuhDb.WazuhDB.TryQueryAndParse | src/engine/source/wdb/src/wdb.cpp:165-171 | parses the result of the attempt loop |
| WazuhDb.WazuhDB.QueryAndParse | src/engine/source/wdb/src/wdb.cpp:158-163 | a rejected query parses ""; an answer is parsed; any other failure is passed on |

## Left out

- `getGraphStr` (both classes) and `formulaStr` are text rendering for diagnostics, and they are not modelled.
- `WazuhDB::connect`, the destructor, `sendMsg`/`recvString`, `errno` and logging are socket I/O. The socket's reply to each attempt is a parameter, and `disconnectError` only feeds a log line.
- `socketinterface::MSG_MAX_SIZE` is a constructor parameter of the client. `QueryResStr2Code` and `UNKNOWN` are parameters of the parse.
- The stage registry, the catalog, `Json` itself and `Connectable`/`ConnectableGroup` are not part of this model. The registry is a map of builders, and JSON is a small datatype. Connectables are values built from a head and their operands. Sharing through `shared_ptr` is not modelled (see GraphBuilders.FoldNode below).
- Environments.Environment.Create: the environment builds its assets with a two-argument `Asset` constructor and `parents()`, which asset.hpp does not declare. The model takes the construction and the parents as the parameters `make` and `parents`. It does not check `Asset::Type::DECODER`/`RULE`/`OUTPUT`/`FILTER` against asset.hpp's four types.
- The `Asset` accessors are the fields of the `Assets.Asset` datatype.
- Iteration order of `std::unordered_map`/`unordered_set` is unspecified. `Expressions.Enumerate` yields some order of the keys, and the children of a graph-builder node are a sequence in the order given.
- `orGraphBuilder` uses `assetsNodes`, `childrenRel` and `rootName` without defining them, and it never builds the graph from the tables it fills. The model takes the node, children and root tables as parameters. The parents, which the source computes and then discards, are kept in `GraphBuilders.Tables`. `std::get<1>(*checkPos)` reads the erased member's slot after `erase`, and the model reads the check before the erase.
- Expressions.Expression.AddOperation: `addOperation` and `addTerm` call `addNode` without the name they receive, which does not match `addNode`'s signature. The model passes the name on.
- In `compose`, the input's name table is looked up with a node's kind (`m_namedNodes.find(nodePair.second)`). The model copies a name through the node's reverse name, the evident intent, and the last copy of a repeated name wins.
- `m_countId` is never initialised, so every constructor and `compose` take the counter's start value as a parameter. `unsigned int` is modelled by the bound `UIntMax`, and ids never wrap around.
- Expressions.Expression.AddRelation: the source does not check for cycles. The model asks that a new edge go down a ghost depth order, which the source's callers always satisfy. `addName` is applied only to nodes that have no name yet, as the source does.
- Expressions.Expression.Visit: the visit is stated as written. A composed graph leaves copied childless nodes, and a term-rooted graph leaves its root, without an edge entry, so `visit` stops there. No corrected visit is given.
- GraphBuilders.FoldNode: the first-success visitor pushes the "children" group onto the shared node `assetsNodes[current]` itself, so a node reached along k paths (or the same graph built twice) ends up with k groups, and `assetsNodes` is changed. The model folds on values: each node gains exactly one group, which matches the source only when every node is reached along one path, as in a tree.
- Expressions.Expression.Compose: the input is a `const&`, yet compose reads its `m_termData[…]` and its reverse names through `operator[]`, which a const map does not offer. The model reads a missing reverse name as "" (`Arena.NameIn`), as `operator[]` would, but copies a Term's payload only when the input holds one: a Term left without a payload by a failed `addTerm` is copied without a payload, where `operator[]` would give it a default-constructed `T` and `at` would throw.
- GraphBuilders.FoldNode: the visitors and `GraphBuilders.Compilable` assume that the node and children tables they take as parameters are complete, so that every child has a node. In the source, `assetsNodes[current]` on a missing name yields an empty `shared_ptr`, and the model does not describe what follows from that.
- GraphBuilders.Splitting: the stages are composed as `Op(And, "", stages)`, which stands for `Expression::compose(And, …)`. The id counter of that call is not modelled, so its MaxNodesReached failure is dropped.
- `std::string` holds bytes, while the model's strings hold Unicode characters. The length guard of `query` compares the byte length of the UTF-8 encoding (`WazuhDb.Utf8Length`). Byte strings that are not valid UTF-8 cannot be written in the model.
- `Graph::root()` is read as the graph's `root` field, which it returns unchanged.
- A cyclic graph or children map makes the visits, the graph folds and the traversals loop forever. Every such member requires a ghost rank, which is acyclicity.
- Environment's default graphs have root "". A decoder with no parents hangs off "", a name with no node, so a visit of the decoder graph stops at once.
- event.hpp, the protocol handler, the endpoint factory, the certificate tool and the tests are not part of this model.

## Findings

| source | as written | input that shows it | evidently intended | confidence | as-written member | corrected member |
|---|---|---|---|---|---|---|
| src/engine/source/_builder/builders/graphBuilders.cpp:141-154 | the FALLIBLE_CHAIN group of the children and the node is built but never attached or returned, so every node compiles to itself | decoders R -> [X], X -> [Z]: X compiles to X alone, and Z is lost | return the chain of the children followed by the node, so that every reachable asset is in the tree | not executed | GraphBuilders.FallibleDropsChildren | GraphBuilders.FoldReaches |
| src/engine/source/_builder/environment.hpp:57 | `m_edges.at(id)` is read on every popped node, and only `addEdge` creates a list, so the last node of any walk, a leaf, has none and `visit` always throws | the graph ("r", x) with `addEdge("r", "c")` and `addNode("c", y)`: popping "c" throws | read a missing list as no children | not executed | Environments.Graph.VisitNeverCompletes | Environments.Graph.VisitFixed |
| src/engine/test/source/_builder/expression.hpp:132-135 | the new node is stored before `addRelation` checks the parent, so a parent id equal to the fresh id passes the existence check and the node becomes its own child | `addNode(And, c, "")` where `c` is the current counter value | check the parent against the graph as it was before the node was added | not executed | Checks.SelfParentAsWritten | Expressions.Expression.AddNode |
