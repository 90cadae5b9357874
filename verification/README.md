# Verified model of fidesops

Fidesops answers privacy requests: it walks a graph of data collections, queries each of
them, filters the nested rows it gets back, hands the subject their data or masks it, and
keeps track of each request on its way through review, webhooks and execution. This project
models four parts of it in Dafny and proves what they are relied on for.

* **The traversal** (`Graph`, `DatasetGraph`, `MatchingQueue`, `Scheduler`, `SchedulerTraces`,
  `SchedulerTheorems`, `SchedulerLinks`, `Traversal`). The loop of `traverse` is given twice: as a
  deterministic machine over states, parametrised by an arbitrary order in which children are
  pushed, and as the code that runs, with node objects whose parent and child lists grow in place
  and persist from one pass to the next. The code is proved to do what the machine does, for every
  push order; the theorems are about the machine. Which nodes are run is the least set closed under
  "has an edge from a member and waits for members only", so success does not depend on the order;
  the loop stops within |edges| + 1 turns although finished nodes are queued again; every edge is
  linked once; the end nodes are enough for the terminator task to wait for everything.
* **The path engine** (`Rows`, `RefinePath`, `RefineTheorems`, `FilterElements`, `FilterMatch`,
  `Views`, `Masking`, `Erasure`, `Fields`, `Consolidate`, `FilterResults`). Rows are trees. Field
  paths are refined into paths with indices, arrays are edited deepest first, in a deleting and a replacing mode. The edits
  are proved to be a filter in one pass; the two modes are compared; and what erasure masks, which it
  computes from the replaced row, is tied back to the original row and to the declared fields.
* **Requests and webhooks** (`Lifecycle`, `RequestRuns`, `RequestService`, `WebhookOrder`). Review,
  runs, pauses, resumptions and expiry are atomic steps that may interleave in any way; the code of a
  run and of the endpoints is a sequence of such steps. Webhook orders are followed through put, patch and delete.
* **Queries and request bodies** (`Queries`, `Unflatten`). Three query generators select the same
  rows; building a nested dictionary from dotted paths inverts flattening it.

`dafny verify dfyconfig.toml` checks everything.

## Where the code does less than one might expect

* A node can run more than once, and the parent relation can have cycles, when references are
  directed. `SchedulerLinks.DirectedCycleIsLinked` shows that every cycle of directed references
  becomes one; `SchedulerLinks.UndirectedIsAcyclic` shows that nothing of the kind happens with
  undirected references, and `DatasetGraphs.UndirectedIff` says when references are. In between, no
  links form a cycle as long as no walk of references returns to a directed one
  (`SchedulerLinks.NoReturnIsAcyclic`).
* The "Some edges were not reachable" error of `traverse` cannot occur
  (`SchedulerTheorems.FinalOutcome`), nor can the missing path that `_remove_paths_from_row` logs
  (`FilterMatch.FilterElementMatch`).
* Erasure spares every array element that did not match, unless a queried path leads on from a masked
  one (`Erasure.ErasureSparesIff`). The validators rule that out for fields declared once
  (`Fields.ErasureIsExact`); a list of fields that declares a name twice is not refused, and then it
  can happen (`Fields.DeclaredTwiceMayBeHit`).
* The two cached views agree exactly when every placeholder text the row came with, as an array
  element, is in an element that did not match (`Views.ViewsAgree`, `Erasure.ViewsMayDiffer`).
* Without manual approval a created request runs before anyone approved it, and approving it starts
  a second run (`Lifecycle.SafeIffApprovalRequired`, `Lifecycle.TwoRunsWithoutApproval`).
* A put that names another policy's webhook takes it away, and leaves gaps in the other policy's
  orders unless it takes the last ones (`WebhookOrder.AlwaysInOrderIff`, `WebhookOrder.TakingTheFirst`).
* A resume token of another policy's webhook is accepted, and continues at the right place only by
  its order (`Lifecycle.ResumeContinues`).
* The SQL generator without tuples misses rows when a queried field is called like one of the names
  it generates, in some iteration order (`Queries.ExpandedSelectsIff`).

## Model

| member | source | states |
|---|---|---|
| `DatasetGraphs.SameEdge` | src/fidesops/graph/graph.py:118-155 | Two reference declarations make the same edge if and only if they say the same thing, from the same end or from opposite ends with the direction turned round; so an undirected reference declared at both ends is one edge. |
| `DatasetGraphs.AddReferences` | src/fidesops/graph/graph.py:202-220 | One collection's references add just their own edges; refused if and only if some reference leads to a missing collection or to its own. |
| `DatasetGraphs.BuildEdges` | src/fidesops/graph/graph.py:185-220 | There is an edge for every declared reference and every edge is for one: it joins the referring field and the field referred to, can be followed away from the first unless the direction is "from" and towards it unless it is "to"; the graph is refused if and only if some reference leads nowhere or to its own collection. |
| `DatasetGraphs.CreatedAsDeclared` | src/fidesops/graph/graph.py:118-130 | The edge made for a reference joins its two fields and can be followed just in the directions declared. |
| `DatasetGraphs.OneEdgeEach` | src/fidesops/graph/graph.py:133-155 | However often and from whichever ends a reference is declared, the graph has one edge for it. |
| `DatasetGraphs.AddSeeds` | src/fidesops/graph/traversal.py:188-202 | The edges added are exactly the directed ones from the root, by the seed key, into each identity field whose key is in the seed data. |
| `DatasetGraphs.BuiltIsWellFormed` | src/fidesops/graph/graph.py:185-227 | Every graph that is built, with any seeds, meets what the traversal theorems assume of a graph. |
| `DatasetGraphs.UndirectedIff` | src/fidesops/graph/graph.py:118-130 | The built graph is undirected (seed edges apart) if and only if no reference was declared with a direction. |
| `MatchingQueues.FirstMatchIsFirst` | src/fidesops/util/matching_queue.py:30-37 | The index found is the first one at which the condition holds. |
| `MatchingQueues.FirstMatchMatches` | src/fidesops/util/matching_queue.py:30-37 | What is found satisfies the condition, and nothing before it does. |
| `MatchingQueues.MatchingQueue.constructor` | src/fidesops/util/matching_queue.py:10-11 | The queue starts with the given values. |
| `MatchingQueues.MatchingQueue.Push` | src/fidesops/util/matching_queue.py:13-15 | One element is added at the end. |
| `MatchingQueues.MatchingQueue.PushIfNew` | src/fidesops/util/matching_queue.py:17-20 | The element is added at the end unless it is in the queue. |
| `MatchingQueues.MatchingQueue.Pop` | src/fidesops/util/matching_queue.py:22-28 | The head is taken off, or nothing when the queue is empty. |
| `MatchingQueues.MatchingQueue.PopFirstMatch` | src/fidesops/util/matching_queue.py:30-37 | The first element satisfying the condition is taken out and the others keep their order; nothing changes when there is none. |
| `MatchingQueues.MatchingQueue.IsEmpty` | src/fidesops/util/matching_queue.py:39-41 | True if and only if the queue holds nothing. |
| `Scheduler.FirstRunnableIsFirst` | src/fidesops/graph/traversal.py:283-286 | The node popped may run, and no node before it in the queue may. |
| `Scheduler.FrontierGrows` | src/fidesops/graph/traversal.py:291-327 | Running a node takes it off the set of nodes with an open edge from a finished node, and puts its children on. |
| `Scheduler.QueueIsFrontier` | src/fidesops/graph/traversal.py:284-327 | Popping a node and pushing its children turns a duplicate-free listing of that set into one of the next set. |
| `Scheduler.RunKeepsInv` | src/fidesops/graph/traversal.py:288-329 | Every turn keeps the invariant: the queue lists, without duplicates, exactly the nodes with a remaining edge from a finished node; remaining nodes are the unfinished ones. |
| `Scheduler.RunCompletesAnEdge` | src/fidesops/graph/traversal.py:291-296 | Every node popped after the root is a node of the graph and deletes at least one edge. |
| `Scheduler.InvAlways` | src/fidesops/graph/traversal.py:281-329 | Once the root has run, the queue invariant holds at every loop head, for every push order. |
| `SchedulerTraces.ExplainsAlways` | src/fidesops/graph/traversal.py:281-329 | At every loop head the history is one in which each run was allowed by its constraints and completed just the open edges into it from nodes run before. |
| `SchedulerTraces.RunsOncePerIteration` | src/fidesops/graph/traversal.py:281-289 | Every turn runs exactly one node until the loop stops. |
| `SchedulerTraces.EdgesBoundRuns` | src/fidesops/graph/traversal.py:291-296 | Each run after the root's uses up at least one edge no other run uses. |
| `SchedulerTraces.PassHalts` | src/fidesops/graph/traversal.py:281-338 | Whatever the push order, the loop stops after at most the number of edges + 1 runs. |
| `SchedulerTraces.HaltedIsPass` | src/fidesops/graph/traversal.py:281-338 | There is one state in which the loop stops. |
| `SchedulerTraces.RunsBoundedByIncomingEdges` | src/fidesops/graph/traversal.py:281-329 | A node runs at most as often as it has edges into it. |
| `SchedulerTheorems.RanInEveryClosedSet` | src/fidesops/graph/traversal.py:115-125 | What has run lies in every set that holds the root and every node with an edge from a member all of whose collections to run after, named singly or by dataset, are members. |
| `SchedulerTheorems.CanRunIff` | src/fidesops/graph/traversal.py:115-125 | A node may run if and only if it names none of the waiting collections, nor the dataset of one, as to be run after. |
| `SchedulerTheorems.HaltedIsClosed` | src/fidesops/graph/traversal.py:281-338 | When the loop stops, the finished nodes form such a set. |
| `SchedulerTheorems.PassIsFinal` | src/fidesops/graph/traversal.py:281-338 | The state in which the loop stops, for any push order, is one the theorems about final states are about. |
| `SchedulerTheorems.FinalIsReachable` | src/fidesops/graph/traversal.py:281-338 | The finished nodes are exactly the least closed set. |
| `SchedulerTheorems.FinalOutcome` | src/fidesops/graph/traversal.py:330-355 | The outcome is a function of the graph: success if and only if every node is reachable; otherwise the ordering error if and only if some unreachable node has an edge from a reachable one, and else the unreachable-nodes error; never the unreachable-edges error. |
| `SchedulerTheorems.OutcomeIsOrderIndependent` | src/fidesops/graph/traversal.py:323-355 | Two push orders give the same outcome and the same finished nodes. |
| `SchedulerTheorems.QueueAtHalt` | src/fidesops/graph/traversal.py:281-355 | When the loop stops the queue is non-empty if and only if a node is blocked; when all nodes are finished no edge remains. |
| `SchedulerTheorems.EveryEdgeReachesTheQueue` | src/fidesops/graph/traversal.py:309-327 | When all nodes are finished, every remaining edge has its end queued. |
| `SchedulerTheorems.RunsAfterItsPrerequisites` | src/fidesops/graph/traversal.py:115-125 | Every run of a node comes after a run of each collection it must run after, and of each collection of a dataset it must run after. |
| `SchedulerLinks.EveryEdgeLinkedOnce` | src/fidesops/graph/traversal.py:291-305 | In a successful traversal every edge, seed edges included, is linked at exactly one run, from a node that had finished by then. |
| `SchedulerLinks.PathFromRoot` | src/fidesops/graph/traversal.py:291-305 | Every node that has run is reached from the root along child links. |
| `SchedulerLinks.UndirectedRunsOnce` | src/fidesops/graph/graph.py:133-174 | With undirected references no node runs twice. |
| `SchedulerLinks.UndirectedIsAcyclic` | src/fidesops/graph/traversal.py:47-65 | With undirected references every node runs once, the links form no cycle and the root is above every node. |
| `SchedulerLinks.NoReturnIsAcyclic` | src/fidesops/graph/traversal.py:291-305 | With directed references too, the links form no cycle when no directed edge lies on a closed walk of references, undirected ones being walked either way. |
| `SchedulerLinks.UndirectedHasNoReturn` | src/fidesops/graph/graph.py:133-174 | Undirected references with seed edges are a case of it: nothing leads back to the root. |
| `SchedulerLinks.DirectedCycleIsLinked` | src/fidesops/graph/traversal.py:291-305 | A cycle of directed references becomes a cycle of links in every successful traversal, and some node runs more than once. |
| `SchedulerLinks.DirectedMayCycle` | src/fidesops/graph/traversal.py:291-327 | On the graph with a seeded A and directed edges A to B and B to A, every traversal succeeds, runs a node twice and links A, B, A. |
| `SchedulerLinks.EndsAlways` | src/fidesops/graph/traversal.py:309-328 | At every loop head each finished node is marked terminal, has an open edge, or became a parent after its last run. |
| `SchedulerLinks.TerminalAlways` | src/fidesops/graph/traversal.py:309-317 | At every loop head exactly those nodes are marked terminal that ran when no remaining edge led on from them. |
| `SchedulerLinks.PassEnds` | src/fidesops/graph/traversal.py:357-362 | So it is in the state in which the loop stops, for every push order. |
| `SchedulerLinks.ReachesAnEndNode` | src/fidesops/graph/traversal.py:357-362 | In a successful traversal every node reaches an end node along child links. |
| `Traversals.TraversalNode.AddChild` | src/fidesops/graph/traversal.py:47-65 | An entry is added to the child list here and to the parent list there, oriented away from this node; nothing happens when the edge does not lead away from it. |
| `Traversals.LinksGrow` | src/fidesops/graph/traversal.py:291-305 | One more run adds an entry for each edge it completes to its own node's parents, each once, and none to other nodes'. |
| `Traversals.Traversal.constructor` | src/fidesops/graph/traversal.py:183-212 | Fresh nodes are made and one traversal run over them; afterwards every node's incoming edges and mark are those of that traversal. |
| `Traversals.Traversal.DeleteEdges` | src/fidesops/graph/graph.py:106-116 | Exactly the edges that can be followed from the one address to the other are deleted and returned. |
| `Traversals.EndsWithIff` | src/fidesops/graph/graph.py:102-104 | An edge ends with exactly the collections it can be followed into. |
| `Traversals.Traversal.LinkInputs` | src/fidesops/graph/traversal.py:290-305 | The edges into the node from every finished node are deleted, and each adds one entry to the node's parents. |
| `Traversals.Traversal.RunOne` | src/fidesops/graph/traversal.py:290-327 | Links the inputs, marks the node terminal if and only if it was or nothing leads on from it, and queues its children in the given order. |
| `Traversals.Traversal.PopRunnable` | src/fidesops/graph/traversal.py:283-288 | The first queued node that may run is taken off; there is none if and only if the machine has halted. |
| `Traversals.Traversal.RunAll` | src/fidesops/graph/traversal.py:275-338 | The loop, on node objects, ends in the state in which the machine halts. |
| `Traversals.Traversal.EndNodes` | src/fidesops/graph/traversal.py:357-359 | The finished nodes that are marked terminal, each once. |
| `Traversals.Traversal.Traverse` | src/fidesops/graph/traversal.py:238-362 | The outcome, the end nodes, each node's parents and what the callback saw are those of the machine's run, for every push order, starting from whatever earlier passes left. |
| `Traversals.Traversal.NowVerified` | src/fidesops/graph/traversal.py:204-212 | A pass over fresh nodes, or over nodes left by a pass with the same order, leaves the incoming edges and marks of one pass. |
| `Traversals.Traversal.CollectTasks` | src/fidesops/task/graph_task.py:512-526 | Repeating the traversal with the same push order leaves incoming edges, marks and end nodes as they were, and every task, although built before its node is linked, sees all of the node's inputs. |
| `Traversals.LinkIsDependency` | src/fidesops/task/graph_task.py:102-112 | A node's task reads the results of all its parents' tasks. |
| `Traversals.InputsExact` | src/fidesops/graph/traversal.py:67-76 | A node's incoming edges, field by field, are exactly the edges its own runs completed, each turned to lead into it. |
| `Traversals.EveryEdgeIsInput` | src/fidesops/graph/traversal.py:291-305 | In a successful traversal every edge is, turned to lead into it, an incoming edge of one of its ends. |
| `Traversals.TerminatorWaitsForAll` | src/fidesops/task/graph_task.py:525-531 | Every collection's task has a chain of tasks, each reading the one before, up to an end node; so the terminator, which reads end nodes only, waits for all of them. |
| `Rows.GetPut` | src/fidesops/task/filter_element_match.py:101-115 | What is written at a path that exists is what is then found there. |
| `RefinePath.DecodeEncode` | src/fidesops/task/refine_target_path.py:143-150 | Flattening single results, listing several: the encoding loses nothing. |
| `RefinePath.UpdatePath` | src/fidesops/task/refine_target_path.py:167-186 | On the encoding of a list of paths gives the encoding of the same paths with the level in front. |
| `RefinePath.RefineTargetPath` | src/fidesops/task/refine_target_path.py:95-116 | Returns the encoding of the row's matching paths. |
| `RefinePath.EnterArray` | src/fidesops/task/refine_target_path.py:119-150 | Returns the encoding of the matching paths through the array's elements, in order. |
| `RefinePath.EnterElement` | src/fidesops/task/refine_target_path.py:128-141 | Returns the encoding of the matching paths through one element. |
| `RefineTheorems.MatchesExact` | src/fidesops/task/refine_target_path.py:95-164 | A path is listed if and only if it leads to a value that is not the placeholder and, when values are given, is one of them, and its names follow the target path, to the end of it or to a scalar met early. |
| `RefineTheorems.MatchesAskedFor` | src/fidesops/task/refine_target_path.py:153-164 | With values to match, a path is listed if and only if it is listed without and leads to one of them; no path leads to the placeholder. |
| `RefineTheorems.MatchesInOrder` | src/fidesops/task/refine_target_path.py:127-150 | The paths come in document order, none twice. |
| `FilterElements.EditOneMore` | src/fidesops/task/filter_element_match.py:101-115 | Editing one more array, none shallower having been edited, finds that array still there and gives the row with one more array filtered. |
| `FilterElements.PartlyAll` | src/fidesops/task/filter_element_match.py:92-117 | Editing every array that a matched path crosses is the filter in one pass. |
| `FilterElements.FilterNothing` | src/fidesops/task/filter_element_match.py:120-154 | A row without matches is left whole. |
| `FilterMatch.SortedIsStable` | src/fidesops/task/refine_target_path.py:63-64 | The paths are sorted by length, those of one length in the order found. |
| `FilterMatch.BuildRefinedTargetPaths` | src/fidesops/task/refine_target_path.py:55-64 | Returns the matches of all query paths, sorted by length. |
| `FilterMatch.Trim` | src/fidesops/task/filter_element_match.py:141-142 | What is left is a prefix that crosses the same arrays. |
| `FilterMatch.ExpandPath` | src/fidesops/task/filter_element_match.py:143-147 | Adds exactly the prefixes of the path that end in an index. |
| `FilterMatch.ExpandArrayPathsToPreserve` | src/fidesops/task/filter_element_match.py:120-154 | Maps exactly the arrays crossed by some path to exactly the indices with which paths go on. |
| `FilterMatch.EditArray` | src/fidesops/task/filter_element_match.py:109-115 | Going through the array from its end keeps the listed indices and deletes or replaces the others. |
| `FilterMatch.EditAt` | src/fidesops/task/filter_element_match.py:101-115 | Edits the array at a path in place; nothing happens when there is none. |
| `FilterMatch.RemovePathsFromRow` | src/fidesops/task/filter_element_match.py:71-117 | Deepest-first editing equals the filter in one pass and meets no missing path, when the indices are those of matched paths of the row. |
| `FilterMatch.FilterElementMatch` | src/fidesops/task/filter_element_match.py:20-68 | For every row and query, in every array some matched path crosses exactly the indices on a matched path are kept, and all else is untouched. |
| `Erasure.MatchedIff` | src/fidesops/task/filter_element_match.py:60-62 | A path is matched if and only if it leads to a value the query asks for along one of its own paths. |
| `Erasure.KeptIff` | src/fidesops/task/filter_element_match.py:120-154 | An index of an array is kept if and only if a value asked for is at that element or inside it. |
| `Erasure.ElementReplacedIff` | src/fidesops/task/filter_element_match.py:109-115 | An element is deleted or replaced if and only if something asked for is in its array but nothing is at it or inside it. |
| `Views.SameStripped` | src/fidesops/task/graph_task.py:393-409 | The two views differ in placeholder elements only. |
| `Views.CleanAccess` | src/fidesops/task/filter_element_match.py:109-115 | The access view holds no placeholder element if and only if every placeholder element of the row is inside a replaced one. |
| `Views.ViewsAgree` | src/fidesops/task/graph_task.py:385-409 | Taking the placeholders out of the erasure view gives the access view if and only if every placeholder element the row already had is inside an element that was replaced. |
| `Views.ViewsAgreeOnCleanRows` | src/fidesops/task/graph_task.py:385-409 | So it does on rows that held no placeholder element to begin with. |
| `Erasure.ViewsMayDiffer` | src/fidesops/task/graph_task.py:385-409 | Every row that holds the placeholder in an array no queried path leads into has two views that do not agree. |
| `Views.ArrayInPlace` | src/fidesops/task/filter_element_match.py:109-115 | An array of the erasure view has the original's length; each element is in its place, filtered in turn if kept and the placeholder if not. |
| `Views.PositionsKept` | src/fidesops/task/filter_element_match.py:109-115 | At every path through no replaced element the erasure view has that value, filtered. |
| `Views.MaskedPaths` | src/fidesops/service/connectors/query_config.py:167-172 | The paths masked on the placeholder row for a field are, in order, the original row's paths for it that go through no replaced element. |
| `Views.UntouchedIsSame` | src/fidesops/task/filter_element_match.py:109-115 | Filtering leaves a value as it was if and only if nothing inside it was replaced. |
| `Masking.UpdateValueMap` | src/fidesops/service/connectors/query_config.py:142-182 | The map has exactly the paths of the supported targets, each with the masked value of the last target that covers it. |
| `Masking.WrittenPaths` | src/fidesops/service/connectors/query_config.py:150-182 | A path is written if and only if it is a match of the original row for some supported target and goes through no replaced element. |
| `Erasure.InsideIsExtended` | src/fidesops/task/refine_target_path.py:95-164 | Whatever is matched strictly inside a rule's match was matched by a queried path that properly extends the rule's path. |
| `Erasure.MaskedValuesSame` | src/fidesops/service/connectors/query_config.py:167-181 | When no queried path that can match properly extends a rule's path, every path masked for it resolves to the same value in the placeholder row and in the original row. |
| `Erasure.MaskedValuesIff` | src/fidesops/service/connectors/query_config.py:167-181 | A rule's masked paths resolve to the same values in both rows, for every row, if and only if no queried path that can match properly extends the rule's path. |
| `Erasure.ErasureSpares` | src/fidesops/service/connectors/query_config.py:142-182 | Under the same condition on every supported target, the update applied to the stored row leaves every array element that did not match as it was, whatever the masks and the order of the writes. |
| `Erasure.ErasureMayHit` | src/fidesops/service/connectors/query_config.py:142-182 | When the condition fails and masks are scalars there is a row, found by the query, and the update for it, that changes a stored value that did not match. |
| `Erasure.ErasureSparesIff` | src/fidesops/service/connectors/query_config.py:142-182 | With scalar masks, erasure changes no unmatched array element of any row if and only if no queried path that can match properly extends a supported target's path. |
| `Fields.PostProcessInputData` | src/fidesops/task/graph_task.py:337-373 | Rows are filtered by exactly the declared fields that can be queried and have input: by everything for fields that return all elements, otherwise by the values that can be cast, of which there is at least one. |
| `Fields.Wanted` | src/fidesops/task/graph_task.py:363-373 | What is filtered by for one field: everything if it returns all elements; else exactly the casts of its values that succeed, or nothing when none does. |
| `Fields.CategoryHasNoSubField` | src/fidesops/graph/config.py:298-311 | Below a field with data categories no field is declared. |
| `Fields.DeclaredBy` | src/fidesops/graph/config.py:413-444 | The field found for a path is one that some declaration under the path's first name leads to. |
| `Fields.CollectedIff` | src/fidesops/graph/config.py:322-341 | Walking down a path from a field finds exactly what recursion through the sub-fields collects for that path. |
| `Fields.FieldDictIff` | src/fidesops/graph/config.py:400-419 | The dictionary of all fields, merged with later declarations taking precedence, has exactly the fields that paths lead to. |
| `Fields.DeclaredIsNotExtended` | src/fidesops/schemas/dataset.py:151-178 | Where every field is declared once and object fields have no data categories, no queried path properly extends a target's path. |
| `Fields.ErasureIsExact` | src/fidesops/service/connectors/query_config.py:142-182 | So for every such collection, row, query and set of rules, erasure masks the very values of the stored row and spares every array element that did not match. |
| `Fields.DeclaredTwiceMayBeHit` | src/fidesops/graph/config.py:413-419 | With A declared as an object with B and again as a scalar with a category, querying A.B and nulling A changes, in some row, a value that did not match. |
| `Consolidation.ConsolidateQueryMatches` | src/fidesops/task/consolidate_query_matches.py:24-41 | The scalars along the path are appended, in order, to the list handed on. |
| `Consolidation.SilentCollectsNothing` | src/fidesops/task/consolidate_query_matches.py:24-41 | Exactly when nothing is collected along a path. |
| `Consolidation.RefinedValuesAreCollected` | src/fidesops/task/consolidate_query_matches.py:24-41 | The values at the unfiltered refined paths are what is collected, in order, if and only if arrays on the way hold objects only (or nothing that would be collected), final arrays hold none, and no placeholder is met. |
| `FilterResults.SelectAndSaveField` | src/fidesops/task/filter_results.py:67-107 | Adds the data on the path to what was saved; raises if and only if the path ends at a non-empty object. |
| `FilterResults.SelectInObject` | src/fidesops/task/filter_results.py:99-107 | The same in an object. |
| `FilterResults.SelectInArray` | src/fidesops/task/filter_results.py:88-97 | The same in an array, element by element, each in its place. |
| `FilterResults.SelectNext` | src/fidesops/task/filter_results.py:57-60 | Selecting one more path from a projection is the projection on one more path. |
| `FilterResults.ProjectedScalars` | src/fidesops/task/filter_results.py:67-107 | A scalar stands at a place of the projection if and only if it stands there in the row and the place is on a target path, or met early on one. |
| `FilterResults.RemoveEmptyContainers` | src/fidesops/task/filter_results.py:113-141 | Going through a copy of the fields, or through the elements from the last, computes the pruned value. |
| `FilterResults.PrunedHasNoneEmpty` | src/fidesops/task/filter_results.py:113-141 | No container inside the pruned value is empty. |
| `FilterResults.NothingEmptyInPruned` | src/fidesops/task/filter_results.py:113-141 | At no path inside the pruned value is there an empty object or an empty array. |
| `FilterResults.PruneTwice` | src/fidesops/task/filter_results.py:113-141 | Pruning is idempotent. |
| `FilterResults.PruneKeepsScalars` | src/fidesops/task/filter_results.py:113-141 | Pruning keeps every scalar, in order. |
| `FilterResults.SelectTargets` | src/fidesops/task/filter_results.py:57-62 | Whatever order the target paths are taken in, the result is the pruned simultaneous projection; it raises if and only if some path ends at a non-empty object. |
| `Queries.TypedFilteredValues` | src/fidesops/graph/traversal.py:97-113 | Just the queried fields with some value that can be cast are asked for, with exactly those casts. |
| `Queries.GenerateQuery` | src/fidesops/service/connectors/query_config.py:287-323 | There is a statement if and only if something is asked for, and it selects a row if and only if some queried field holds one of its values. |
| `Queries.GeneratedInjective` | src/fidesops/service/connectors/query_config.py:442-448 | No two generated placeholder names are the same. |
| `Queries.DigitsValue` | src/fidesops/service/connectors/query_config.py:444-448 | The index in a generated name is written in decimal, without a leading zero. |
| `Queries.BindValues` | src/fidesops/service/connectors/query_config.py:433-455 | One operand for every value, bound in order. |
| `Queries.GenerateExpandedQuery` | src/fidesops/service/connectors/query_config.py:409-465 | The statement selects a row if and only if some queried field holds one of its values, as long as no names clash. |
| `Queries.ClashMisses` | src/fidesops/service/connectors/query_config.py:433-455 | When a field asked for one value is called like a generated name, in some iteration order a row asked for is not selected. |
| `Queries.ExpandedSelectsIff` | src/fidesops/service/connectors/query_config.py:425-460 | The statement selects what was asked for in every iteration order if and only if no field asked for one value is called like a name generated for another field. |
| `Queries.TransformQueryPairs` | src/fidesops/service/connectors/query_config.py:596-603 | The filter finds what meets some pair, whether there is one pair or several. |
| `Queries.GenerateMongoQuery` | src/fidesops/service/connectors/query_config.py:593-629 | There is a filter if and only if something is asked for, and it finds a row if and only if some queried field holds one of its values. |
| `Unflatten.JoinSplit` | src/fidesops/util/saas_util.py:111-111 | Joining undoes splitting, so different dotted paths have different levels. |
| `Unflatten.SplitIff` | src/fidesops/util/saas_util.py:111-111 | The levels of a path are exactly the strings without dots, one or more, that joined by dots give the path. |
| `Unflatten.BeginsIff` | src/fidesops/util/saas_util.py:111-111 | The levels of one path properly begin those of another if and only if the path followed by a dot begins the other. |
| `Unflatten.SetAtLeaves` | src/fidesops/util/saas_util.py:112-118 | Setting a path sets that leaf, removes the leaves at its prefixes and below it, and keeps all others. |
| `Unflatten.SetAtSucceeds` | src/fidesops/util/saas_util.py:112-122 | Setting a path fails if and only if some proper prefix of it is a leaf. |
| `Unflatten.UnflattenDict` | src/fidesops/util/saas_util.py:105-123 | Fails if and only if some value is a dictionary or an earlier path, followed by a dot, begins a later one; succeeds with a tree whose flattening is the input if and only if no value is a dictionary and no path followed by a dot begins another. |
| `Unflatten.FailsIff` | src/fidesops/util/saas_util.py:105-123 | The exact condition for failure, for every dictionary and iteration order. |
| `Unflatten.DictFails` | src/fidesops/util/saas_util.py:107-110 | A value that is a dictionary makes the whole call fail. |
| `Unflatten.RoundTrip` | src/fidesops/util/saas_util.py:88-123 | The result has the value of every dotted path at the levels the path joins and no other leaf if and only if no value is a dictionary and no path followed by a dot begins another, in whatever order the entries come. |
| `Unflatten.UnflattenInverts` | src/fidesops/util/saas_util.py:88-123 | If a tree without empty dictionaries inside has exactly the leaves that a dictionary of dotted paths says, unflattening that dictionary gives back the tree. |
| `Unflatten.CanBeFlattened` | src/fidesops/util/saas_util.py:88-104 | Every tree whose keys have no dots has such a dictionary. |
| `Lifecycle.NextKeepsInv` | src/fidesops/service/privacy_request/request_runner_service.py:102-222 | Every step keeps the invariant, and leaves a denied, complete or errored request exactly as it is. |
| `Lifecycle.InvAlways` | src/fidesops/service/privacy_request/request_runner_service.py:102-222 | With manual approval required, the invariant holds after every interleaving of steps. |
| `Lifecycle.FinalStays` | src/fidesops/models/privacy_request.py:57-66 | With manual approval required, denied, complete and error are absorbing over whole runs. |
| `Lifecycle.SafeIffApprovalRequired` | src/fidesops/api/v1/endpoints/privacy_request_endpoints.py:197-201 | In every interleaving no request runs unapproved, at most one run is active, a run whose execution failed does not end complete, and complete or error requests have a finish time, if and only if manual approval is required. |
| `Lifecycle.TwoRunsWithoutApproval` | src/fidesops/api/v1/endpoints/privacy_request_endpoints.py:197-201 | Without manual approval, approving a created request makes two active runs. |
| `Lifecycle.OtherRunsStay` | src/fidesops/service/privacy_request/request_runner_service.py:96-101 | A step of one run leaves every other run of the request as and where it was. |
| `Lifecycle.AboveOwn` | src/fidesops/service/privacy_request/request_runner_service.py:61-68 | Filtering on a greater order leaves exactly the webhooks after the given one. |
| `Lifecycle.ResumeContinues` | src/fidesops/service/privacy_request/request_runner_service.py:61-68 | Whatever webhook the token is for, a resumed run takes up where the pause left off if and only if the token's order is the pausing webhook's or lies before the next one's; for a token of the policy, if and only if it is the pausing webhook's. |
| `Lifecycle.OneRunAlways` | src/fidesops/service/privacy_request/request_runner_service.py:69-93 | As long as nobody approves a request that runs without approval, runs never overlap and none is active during a pause. |
| `Lifecycle.HooksAlways` | src/fidesops/service/privacy_request/request_runner_service.py:59-129 | After every such interleaving the webhooks triggered are the policy's first ones, a run has exactly the others left, and execution has begun only after all. |
| `Lifecycle.WebhooksExactlyOnce` | src/fidesops/service/privacy_request/request_runner_service.py:59-93 | As long as nobody approves a request that runs without approval, across any number of pauses and matching resumptions the webhooks triggered are strictly increasing, and a request executes at most once, when each has been triggered exactly once. |
| `RequestService.RequestStore.Create` | src/fidesops/api/v1/endpoints/privacy_request_endpoints.py:155-223 | A new request is pending and unapproved, nothing has been called or executed for it, and it has a run submitted if and only if approval is not required; no other request changes. |
| `RequestService.RequestStore.ReviewOne` | src/fidesops/api/v1/endpoints/privacy_request_endpoints.py:546-562 | A pending request is approved and, unless submitting fails, has one more run, or is denied; any other is refused and unchanged. |
| `RequestService.RequestStore.Review` | src/fidesops/api/v1/endpoints/privacy_request_endpoints.py:528-569 | Of the listed requests exactly those that were pending take the step, once, even when listed twice; each listing is reported once, as succeeded or as failed. |
| `RequestService.RequestStore.ResumeRequest` | src/fidesops/api/v1/endpoints/privacy_request_endpoints.py:493-525 | A paused request is in processing with a run submitted that goes on after the token's webhook; any other is refused and unchanged. |
| `RequestService.RequestStore.MarkPausedAsExpired` | src/fidesops/service/privacy_request/request_runner_service.py:240-256 | A paused request becomes an error with a finish time; any other is unchanged. |
| `RequestService.RequestStore.AdvanceOne` | src/fidesops/service/privacy_request/request_runner_service.py:102-222 | One step of an active run of a stored request; nothing happens without such a run. As every method here, it keeps each stored request one that some steps of the machine lead to. |
| `RequestService.RequestStore.StoredAreSafe` | src/fidesops/api/v1/endpoints/privacy_request_endpoints.py:197-201 | With manual approval required, every request in the store is safe. |
| `RequestRuns.InToCall` | src/fidesops/service/privacy_request/request_runner_service.py:59-69 | A run has to call exactly the policy's webhooks, or those ordered after the one it was resumed from. |
| `RequestRuns.RunPreWebhooks` | src/fidesops/service/privacy_request/request_runner_service.py:48-93 | Calls the webhooks in order up to the first that does not say to go on, and leaves exactly what that one calls for: paused, an error with a finish time, or nothing after an exception. |
| `RequestRuns.RunPostWebhooks` | src/fidesops/service/privacy_request/request_runner_service.py:207-215 | The same after execution, where a halt is taken to go on. |
| `RequestRuns.RunRequest` | src/fidesops/service/privacy_request/request_runner_service.py:102-222 | A whole run leaves the request in the state given in closed form by which webhook stopped it, if any, whether the policy has rules, and whether execution failed. |
| `RequestRuns.FinishOne` | src/fidesops/service/privacy_request/request_runner_service.py:217-220 | After the last webhook a run ends complete if and only if its execution did not fail, and an error otherwise, with a finish time; an exception leaves the request as it was. |
| `RequestRuns.EndingIsSteps` | src/fidesops/service/privacy_request/request_runner_service.py:102-222 | What a run does is exactly what a sequence of the machine's steps does. |
| `RequestRuns.RunCompletes` | src/fidesops/service/privacy_request/request_runner_service.py:102-222 | A run that no webhook stops, for every policy with rules and from any point of resumption, comes to its end having called every webhook due once and executed once; the request is then complete, or an error if the execution failed. |
| `RequestRuns.ApprovedCanComplete` | src/fidesops/api/v1/endpoints/privacy_request_endpoints.py:577-600 | Every request of a policy with rules can, once approved, be completed. |
| `WebhookOrder.ListIsUnique` | src/fidesops/models/policy.py:471-471 | The orders determine the list of webhooks. |
| `WebhookOrder.MovePlaces` | src/fidesops/models/policy.py:490-491 | A move puts the chosen webhook at the new index and keeps the relative order of all others. |
| `WebhookOrder.ReplacedIsListed` | src/fidesops/api/v1/endpoints/policy_webhook_endpoints.py:121-164 | After a put the policy's orders are 0 to n-1 as in the request; other policies are untouched when no webhook was taken from them. |
| `WebhookOrder.StealingLeavesGaps` | src/fidesops/api/v1/endpoints/policy_webhook_endpoints.py:121-140 | A put that takes another policy's webhooks leaves that policy's orders without gaps if and only if it took its last ones. |
| `WebhookOrder.TakingTheFirst` | src/fidesops/api/v1/endpoints/policy_webhook_endpoints.py:121-140 | A put that takes the first of another policy's two webhooks leaves that policy with order 1 alone. |
| `WebhookOrder.MovedAt` | src/fidesops/models/policy.py:490-494 | Where a move takes each webhook, as a closed form: the chosen one to the new index, those between one place up or down, the others nowhere. |
| `WebhookOrder.AppliedInOrder` | src/fidesops/api/v1/endpoints/policy_webhook_endpoints.py:94-432 | From orders without gaps, a put, patch or delete leaves every policy's orders without gaps if and only if it takes from other policies their last webhooks at most; patches and deletes always do. |
| `WebhookOrder.NotStealingIsHarmless` | src/fidesops/api/v1/endpoints/policy_webhook_endpoints.py:121-140 | A put that names no other policy's webhook leaves no gaps, whatever happened to those webhooks before; nor do patches and deletes. |
| `WebhookOrder.AlwaysInOrderIff` | src/fidesops/api/v1/endpoints/policy_webhook_endpoints.py:94-432 | All through any sequence of calls every policy's orders are exactly 0 to n-1 if and only if each put, when it comes, takes from other policies their last webhooks at most. |
| `WebhookOrder.OthersStillListed` | src/fidesops/models/policy.py:481-495 | A policy whose webhooks are untouched keeps its orders. |
| `WebhookOrder.DropMoved` | src/fidesops/api/v1/endpoints/policy_webhook_endpoints.py:407-422 | Moving to the end and dropping the end is dropping in place. |
| `WebhookOrder.WebhookStore.OrderedKeys` | src/fidesops/models/policy.py:482-490 | The keys of a policy's webhooks by order. |
| `WebhookOrder.WebhookStore.Reorder` | src/fidesops/models/policy.py:473-495 | Refused, changing nothing, if and only if the index is out of range; otherwise the orders are 0 to n-1 of the moved list, and other policies are untouched. |
| `WebhookOrder.WebhookStore.Delete` | src/fidesops/api/v1/endpoints/policy_webhook_endpoints.py:397-432 | The webhook goes, the others keep their relative order with orders 0 to n-2, and other policies are untouched. |
| `WebhookOrder.WebhookStore.Put` | src/fidesops/api/v1/endpoints/policy_webhook_endpoints.py:94-164 | Refused, changing nothing, if and only if a key or a name is listed twice; otherwise the policy has exactly the webhooks of the request, in order. |
| `WebhookOrder.WebhookStore.Handle` | src/fidesops/api/v1/endpoints/policy_webhook_endpoints.py:278-338 | Each call, made by the methods above, leaves the store given in closed form: the put list, the orders shifted by a move, or closed up after a deletion; refused calls change nothing. |
| `WebhookOrder.WebhookStore.HandleAll` | src/fidesops/api/v1/endpoints/policy_webhook_endpoints.py:94-432 | A sequence of calls leaves the store that their closed forms give one after another, and every policy's orders exactly 0 to n-1, as long as each put takes from other policies their last webhooks at most when it comes. |

## Left out

- Database, Redis, HTTP and SaaS connectors, storage upload and the dask runtime: what they return is arbitrary here.
- Masking strategies, encryption and tokens: a mask is any function of a value, a resume token is the order of its webhook.
- Names with dots, colons or made of digits: `join_detailed_path` followed by `pydash.get` is lookup along a sequence of levels, and addresses are compared part by part rather than by their joined strings.
- The collection named `__ROOT__`: no graph node is assumed to have that address.
- The iteration order of Python sets and dictionaries: wherever the code depends on it, it is a parameter (the push order is any function of the turn and the set of children).
- Parent and child dictionaries of lists: each node has one list of entries that also name the edge followed; grouping by collection is left out.
- Updating nested rows in place: rows are values and `Rows.Put` gives the row after an update, so aliasing between rows and what a row looks like after an exception half-way are not modelled.
- NaN, and values that Python compares in other ways than scalars, lists and dictionaries do.
- The choice of fields by data category, and of the rules' strategies: the target paths are given.
- The text of SQL statements, the list of selected columns and the update statements: a statement is its clauses and bound values.
- Queries over object and array fields: values are scalars, and a row is a map from columns to scalars.
- How a task's input data is put together from the rows of its parents, and the validators of data types, lengths and array attributes.
- OneTrust intake, which submits runs without the approval gate.
- Interleaving inside one step: reading a status and writing the next one is atomic, as are a webhook call and the execution.
- Failure of a write to the database while a request is created, reviewed or resumed.
- Name and key conflicts with stored webhooks and connection lookups in put and patch, and the commit and rollback around them.
- Unknown policies and identities when requests are created, and the identities, secrets and keys that are cached for them.
- Pagination, retries, dataset merging, schema validation, policy rule edits and the web client.
