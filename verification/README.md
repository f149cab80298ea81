# A* planner and PRM roadmap generator — Dafny model

This project models the graph core of a small motion-planning repository. It has two parts.

- **The A\* engine** (`AStar` in `astar.py`).
  - It loads node records (`id,x,y,cost`) and undirected edge records (`n1,n2,cost`) into a node table, per-node statuses, adjacency lists and a directed edge-cost table.
  - It keeps an open list sorted by tentative total cost and selects the node to expand by a full linear scan below a `1e6` bound.
  - It opens, reparents and closes nodes until the goal is selected or the open list runs out.
  - It reads the path back from the parent links and sums edge costs along a path (`astarcost`).
  - The module-level revision in `astardev.py` (`Initialize`, `addNodeToOpenList`, `getSeeminglyClosestNodeToTarget`, `getParentList`, `assignParent`, `astar`, `astarcost`, `CheckDistances`) is the same engine line for line. One model covers both, and the table cites whichever file states a property more directly.
- **The PRM roadmap generator** (`PrmGen` in `prm.py`).
  - It loads nodes, edges and circular obstacles, skipping edges that name an unknown node.
  - It adds sampled nodes with fresh numeric ids.
  - It joins every pair of generated nodes, and every generated node to every original node, wherever the straight segment clears every obstacle. Each such edge gets the same distance in both directions.
  - It exports the roadmap as node and edge records, which the planner loads back.
- **The demonstration script** (`astarmain.py`). On its six-node graph the search from `1` to `6` is traced step by step: it returns `['1', '4', '5', '6']` at cost `30`.

## Abstractions

- Coordinates and costs are `real`. Python's dictionaries keep insertion order, and the exporters and the id generator observe it, so the model keeps it too:
  - `Graph.ids` is the order of the node table;
  - `Graph.keys` is the order of the edge-cost table.
- An edge key `"a:b"` is the pair `(a, b)`.
- The square root is a parameter `root: real -> real`. Every distance is `root` of the squared distance, so the model holds for any deterministic square-root routine. Where a property needs an exact root (`CheckDistances`), the lemma says so in its precondition.
- The shapely segment/circle test is an uninterpreted parameter `hit: Intersects`.
- The random samples are an input sequence of points.
- A text line is a `Line`: its raw text, which decides the `#` / length test, plus the record the split and `float()` produce. That record is `None` when they would raise.
- Every exception that aborts a load is a `LoadError`:
  - `IndexError` of `line[0]` on an empty line;
  - `ValueError` of the split or `float()`;
  - `KeyError` of an unknown node;
  - `ZeroDivisionError` of the average over an empty edge table.
- The exceptions `astar` can raise are `Outcome.Failed`.
- The `astar` loop is a functional `Step`/`Run` pair, plus a `method AStar` with the source's two loops, proved equal to it. Termination follows from the closed list growing by one node per iteration.

The code's behaviour on bad or repeated input:

- The code raises on a line it cannot split or convert; it does not skip it.
- `AStar.__init__` raises `KeyError` on an edge with an unknown node. Only `PrmGen.__init__` skips such an edge.
- Re-adding an existing edge appends the neighbour again and overwrites both costs; it is not a no-op.
- A start or goal that is not a node ends `astar` in the behaviour `Search.Degenerate` describes, not with a dedicated error.

## Model

| member | source | states |
|---|---|---|
| Input.Records | astar.py:18-23 | the records of the kept lines in file order; the run succeeds exactly when no line crashes, and a failure carries the error of a crashing line |
| Input.RecordsOfLine | astar.py:19-22 | a line is skipped exactly when it starts with `#` or has at most one character; an empty line crashes on `line[0]`; a kept line yields its record |
| Input.RecordsAppend | astar.py:18-23 | reading two runs of lines one after the other is reading their concatenation |
| Decimal.NatToString | prm.py:176 | `str(k)`: at least one character, all decimal digits, a single digit exactly when `k < 10`, and no leading zero except for `0` itself; with `ParseRendered` this pins down the decimal rendering |
| Decimal.ParseRendered | prm.py:176 | reading the rendered digits back gives `k`, so the rendering loses nothing |
| Decimal.RenderInjective | prm.py:174-176 | distinct numbers render as distinct ids |
| Geometry.Distance | astar.py:54-59 | `distance`: the root of the squared distance, the same whichever point comes first, and `root(0)` between a point and itself |
| Geometry.DistanceSymmetric | astar.py:54-59 | the squared distance is non-negative and symmetric, so the distance is the same from either end |
| Geometry.ExceedsIffSquared | astar.py:65 | with an exact root, `dist > cost` holds exactly when the cost is negative or the squared distance exceeds the squared cost |
| Geometry.DistanceExceeds | astar.py:64-65 | the same comparison stated for the distance between two points |
| Graphs.AddNode | astar.py:24-29 | storing a node record rewrites its entry, resets its adjacency list to empty and its status to unvisited, leaves the edge table alone, and appends a new id to the node order while an existing id keeps its place |
| Graphs.AddNodeValid | astar.py:24-29 | storing a node that is new or has no edges keeps the tables consistent |
| Graphs.AddLink | astar.py:42-50 | an edge write appends `b` to `a`'s neighbours and `a` to `b`'s (twice to its own list on a self-loop, again on a repeated edge) and leaves other lists alone; it adds exactly the keys `a:b` and `b:a`, new keys at the end of the key order `a:b` first, leaves every other cost unchanged, and leaves the written cost on both keys, the `b:a` write winning on a self-loop |
| Graphs.AddLinkSymmetric | astar.py:49-50 | after an edge write with one cost, every edge is still stored in both directions with the same cost, between nodes |
| Graphs.AddLinkNbr | astar.py:42-43 | after an edge write, `b` is a neighbour of `a` exactly when the cost `a:b` exists |
| Graphs.AddLinkValid | astar.py:42-50 | an edge write between nodes with equal costs both ways keeps the tables consistent |
| Graphs.AddLinks | astar.py:36-50 | a run of edge writes leaves the node table, the node order and the statuses unchanged |
| Graphs.LastWriteTouches | astar.py:49-50 | some edge of a run writes key `e` exactly when the run's last write to `e` is defined |
| Graphs.LastWriteUniform | astar.py:49-50 | when every write to `e` in a run leaves the same value, so does the last one |
| Graphs.AddLinksCost | astar.py:36-50 | after a run of edge writes, a key exists exactly when it existed before or some edge wrote it, and it holds the last value written (its old value if none) |
| Graphs.AddLinksRebuild | astar.py:36-50 | edge writes onto an empty edge table rebuild a cost map when they touch exactly its keys and each write to a key leaves that key's cost |
| Graphs.AddLinksValid | astar.py:36-50 | a run of edge writes between nodes, with equal costs both ways, keeps the tables consistent |
| Loader.KnownOnly | prm.py:117-122 | the edge records whose two end points are nodes: an edge is kept exactly when it is one of them, and every kept edge has a numeric cost when every known edge does |
| Loader.KnownOnlySnoc | prm.py:117-122 | the kept edges stay in file order: one more edge line adds its edge at the end of the kept ones exactly when both its end points are nodes |
| Loader.LoadEdgeLinesStrict | astar.py:36-50 | a successful edge loop leaves the node table and node order unchanged |
| Loader.LoadEdgeLinesSkipping | prm.py:111-130 | a successful skipping edge loop leaves the node table and node order unchanged |
| Loader.LoadNodeLines | astar.py:18-29 | the node loop fails exactly where reading the records fails, with the same error, and on success keeps every node and the edge table; `LoadNodeLinesIsAddNodes` and `LoaderSpec.NodeLinesTable` give the resulting table |
| Loader.LoadAStar | astar.py:17-51 | `AStar.__init__`: a crashing node line aborts before any edge is read, and a loaded table comes from lines that all read and has an edge; `LoaderSpec.LoadAStarSpec` states the success condition and the tables |
| Loader.LoadNodeLinesIsAddNodes | astar.py:18-29 | the single-pass node loop is the record reading followed by the node stores; the first crashing line aborts |
| Loader.StrictIsAddLinks | astar.py:36-50 | the `AStar` edge loop succeeds exactly when no line crashes and every edge names two nodes and has a numeric cost; the result is every edge written in file order |
| Loader.SkippingIsAddLinks | prm.py:111-130 | the `PrmGen` edge loop succeeds exactly when no line crashes and every edge between known nodes has a numeric cost; the result is the known edges written in file order, the others skipped |
| LoaderSpec.LastRecSome | astar.py:24 | a node's last record exists exactly when some record names it, and it is one of those records |
| LoaderSpec.AddNodesValid | astar.py:18-29 | node stores on edge-free tables keep them consistent and edge-free |
| LoaderSpec.AddNodesTable | astar.py:24-29 | after the node stores, a node exists exactly when it existed or some record names it; it holds its last record, is unvisited and has no neighbours; other names keep their entries |
| LoaderSpec.AddNodesOrder | astar.py:24 | records with distinct new ids append their ids to the node order in record order |
| LoaderSpec.NodesTable | astar.py:18-29 | the node table built from empty tables has one node per record id, from its last record, unvisited, with no edges |
| LoaderSpec.NodeLinesTable | astar.py:18-29 | the same for node lines that do not crash |
| LoaderSpec.LinksTable | astar.py:36-50 | edge writes onto edge-free tables give consistent tables whose keys are exactly the written keys, each holding its last write; the table is empty exactly when no edge was written |
| LoaderSpec.KnownIffHasId | prm.py:117-122 | an edge is known to the stored node table exactly when both its end points have node records |
| LoaderSpec.AddLinksNonEmpty | astar.py:51 | the edge table is non-empty after the edge loop exactly when some edge was written |
| LoaderSpec.LoadAStarStaged | astar.py:17-51 | a successful load is the node stores followed by every edge written, with at least one edge record |
| LoaderSpec.LoadAStarSucceeds | astar.py:17-51 | known end points, numeric costs and at least one edge record make the load succeed |
| LoaderSpec.EdgesUsableIffUsable | astar.py:42-43 | the edge records can all be stored exactly when every end point has a node record and every cost is numeric |
| LoaderSpec.LoadAStarCrash | astar.py:19-23 | a crashing node or edge line fails the load |
| LoaderSpec.LoadAStarUnfold | astardev.py:83-109 | the load succeeds exactly when no line crashes, every edge names two loaded nodes with a numeric cost, and some edge is kept; it then equals the node stores followed by every edge written |
| LoaderSpec.LoadAStarSpec | astar.py:17-51 | the load's success condition, and on success: valid tables, the nodes of the node lines from their last records, unvisited with cost so far equal to tentative total, and each directed key exactly when an edge line joins its ends, holding the last such cost |
| LoaderSpec.AStarTables | astar.py:17-50 | the tables that node records and usable edge records build, as in `LoadAStarSpec` |
| OpenList.InsertPos | astar.py:171-172 | the insertion point: every entry before it has a total no larger than the new one, and the entry at it a strictly larger total |
| OpenList.Insert | astar.py:168-179 | the new name is spliced in at the insertion point and nothing else moves |
| OpenList.InsertMultiset | astar.py:173-177 | after insertion the list holds the old entries plus the new one, as a multiset |
| OpenList.InsertContents | astar.py:168-179 | a name is on the list after insertion exactly when it was before or is the new one |
| OpenList.InsertAt | astar.py:171-177 | entries before the insertion point keep their positions, and the others move back by one |
| OpenList.InsertDistinct | astar.py:234-236 | inserting a name not yet open keeps the list duplicate-free |
| OpenList.InsertKeepsSorted | astardev.py:222-233 | insertion into a list sorted by tentative total leaves it sorted |
| OpenList.InsertAfterTies | astar.py:171-177 | ties keep insertion order: the new entry goes behind every entry with total not larger, and in front of all the others |
| OpenList.FirstMinUnique | astar.py:205-207 | the first entry of least total is unique |
| OpenList.ScanMin | astar.py:199-208 | the scan finds nothing exactly when no total is below `1e6`, and otherwise finds the first entry of least total |
| OpenList.Select | astar.py:195-208 | a one-entry list yields its entry; otherwise the first entry of least total below `1e6`, or `"None"` when there is none |
| OpenList.SelectSortedHead | astardev.py:248-258 | on a sorted list whose head is below the bound the head is selected, so only totals matter, not the order left by a relaxation |
| OpenList.SelectInOpen | astar.py:224-225 | the selected name is not open exactly when two or more entries are open, none below the bound and none named `"None"` |
| Parents.ParentList | astar.py:185-193 | the walk starts at `n` when `n` is a node and is empty otherwise; every entry is a node, each next entry is the previous one's parent, and the walk stops at a name without a parent or with a parent that is not a node |
| Parents.ParentListDistinct | astardev.py:239-246 | over ranked (acyclic) parent links the walk visits no name twice |
| Parents.PathCost | astar.py:247-255 | the sum is defined exactly when every consecutive pair has a stored cost (a `KeyError` otherwise), and is `0` for paths of at most one node |
| Parents.PathCostSnoc | astardev.py:296-304 | extending a path by one edge adds that edge's cost |
| Parents.ChainCost | astar.py:185-193 | the reversed walk from a seen node runs from the start along edges and costs the node's cost so far less the start's |
| SearchOps.Heuristic | astar.py:54-59 | the heuristic is the distance from the node to the goal, `root(0)` at the goal itself |
| SearchOps.Init | astar.py:220-221 | the search starts with the loaded tables, `[start]` open, nothing closed and no parents |
| SearchOps.AssignParent | astar.py:210-216 | `n` gets parent `p`, cost so far `p`'s cost plus the edge `p:n`, and tentative total that plus the heuristic; no other entry changes |
| SearchOps.AddToOpen | astar.py:168-179 | the new name goes in front of the first entry with a strictly larger total, or at the end (the list is `Insert` of it, so `InsertAfterTies` and `InsertKeepsSorted` apply); a sorted list stays sorted; its status becomes open; nothing else changes |
| SearchOps.Close | astar.py:181-183 | the node is appended to the closed list with status closed; nothing else changes |
| SearchOps.Visit | astar.py:231-241 | a closed neighbour is left alone; a new one gets parent `n` and is opened; an open one is reparented only for a strictly cheaper path; no other entry changes and no open cost so far rises |
| SearchOps.Expand | astar.py:231-241 | after the neighbour loop the open list is the old one plus the neighbours not closed; no open cost so far rises, and non-neighbours are untouched |
| SearchInv.InitInv | astar.py:220-221 | the initial tables satisfy the loop invariant |
| SearchInv.RemoveMid | astar.py:224-226 | removing the selected non-goal node starts its expansion with the invariant in force |
| SearchInv.VisitShaped | astar.py:231-236 | visiting a neighbour keeps the lists duplicate-free and disjoint, with nodes only |
| SearchInv.VisitLinked | astar.py:235-241 | visiting a neighbour keeps each parent link along an edge from a closed node, with the child's cost its parent's plus the edge's |
| SearchInv.VisitMid | astar.py:231-241 | visiting a neighbour keeps the expansion invariant |
| SearchInv.ExpandMid | astar.py:231-241 | the whole neighbour loop keeps the expansion invariant |
| SearchInv.CloseInv | astar.py:242 | closing the expanded node restores the loop invariant |
| SearchInv.ClosedBound | astar.py:223 | the closed list never outgrows the node table |
| SearchInv.LinkedRanked | astar.py:188-192 | the parent links are acyclic: the closed order ranks them |
| Search.NeighboursAreEdges | astar.py:231 | each neighbour of a node is joined to it by a stored edge and is a node |
| Search.Step | astar.py:223-243 | an iteration that does not end the search keeps the invariant and closes exactly one more node |
| Search.VisitAll | astardev.py:281-290 | the `for` loop over the neighbours computes the neighbour loop `Expand` |
| Search.StepNext | astar.py:231-243 | an iteration that neither fails nor reaches the goal visits all neighbours and closes the node |
| Search.Run | astar.py:223-245 | the `while` loop from tables satisfying the invariant: a failure can only be the removal of `"None"`, and `[]` is returned only on an empty open list; `SearchSpec.RunEnds` gives the full end condition |
| Search.Degenerate | astar.py:218-236 | a start or goal that is not a node: `[]` when they are equal, the start's `KeyError` when it is missing, `[]` with the start closed when it has no neighbours, and otherwise the goal's `KeyError` at the first neighbour |
| Search.AStarSearch | astar.py:218-245 | `astar`: a `KeyError` names a name that is not a node, and a failed removal is that of `"None"`; `SearchSpec.NodesEnds`, `FoundPath` and `KeyMissingNames` state its ends |
| Search.AStar | astar.py:218-245 | the method with the source's `while` and `for` loops returns what the functional `AStarSearch` defines |
| SearchSpec.StepDone | astar.py:224-230 | an iteration that ends the search either fails to remove the selected name or selects the goal and returns its reversed parent walk |
| SearchSpec.DoneEnds | astar.py:224-230 | such an ending satisfies the end condition `Ends` |
| SearchSpec.OpenChain | astar.py:185-193 | the reversed parent walk of an open node runs from the start to it along edges, repeats no node, and costs its cost so far less the start's |
| SearchSpec.StepFailed | astar.py:199-208 | a failed removal happens only with two or more open entries, none below `1e6`, and leaves the tables unchanged |
| SearchSpec.StepEnds | astar.py:224-230 | an iteration that ends the search ends it as `Ends` describes |
| SearchSpec.RunEnds | astar.py:223-245 | the loop from tables satisfying the invariant ends as `Ends` describes |
| SearchSpec.ExhaustedUnreachable | astar.py:231-245 | with an empty open list every walk from the start stays among closed nodes, so the goal is unreachable |
| SearchSpec.NodesEnds | astar.py:218-245 | `astar` between two nodes ends as `Ends` describes |
| SearchSpec.FoundPath | astar.py:226-230 | a returned path starts at the start, ends at the goal, follows edges, repeats no node, and its `astarcost` is the goal's final cost so far less the start's |
| SearchSpec.FoundSelf | astar.py:220-230 | `astar(s, s)` of a node is `[s]` |
| SearchSpec.ExhaustedMeansUnreachable | astar.py:245 | `[]` is returned only when no walk leads from the start to the goal |
| SearchSpec.KeyMissingNames | astar.py:224-236 | a `KeyError` names a start or goal that is not a node; a missing start raises unless it is also the goal, and a missing goal raises once the start has a neighbour |
| SearchSpec.NotInOpenBound | astar.py:199-208 | the `ValueError` of `openlist.remove` happens only when two or more nodes are open and all their totals have reached `1e6` |
| Diagnostics.Flags | astar.py:62-67 | a key is reported exactly when it is among the keys scanned and its distance exceeds its cost; no key is reported twice; the report is empty exactly when no key qualifies |
| Diagnostics.CheckDistances | astar.py:61-67 | the reported keys are exactly the stored keys whose end points are further apart than the cost, each once |
| Diagnostics.CheckDistancesSquared | astardev.py:120-125 | with an exact square root a key is reported exactly when its cost is negative or below the squared distance |
| Diagnostics.CheckDistancesExact | astar.py:61-67 | a table whose every cost is the distance of its end points raises no report |
| Roadmap.LoadPrm | prm.py:68-143 | `PrmGen.__init__`: a crashing node line aborts before any edge is read, a loaded roadmap comes from lines that all read, and no obstacle lines give no obstacles; `RoadmapSpec.LoadPrmSpec` states the success condition and the tables |
| Roadmap.LineOfSight | prm.py:201-215 | the segment between two nodes is clear exactly when no obstacle's intersection test fires |
| Roadmap.Dist | prm.py:241-249 | the distance between two nodes, the same in either order, and `root(0)` from a node to itself |
| Roadmap.LoadObstacles | prm.py:134-143 | no obstacle lines give no obstacles; otherwise the obstacle records in file order |
| Roadmap.GenIds | prm.py:174-176 | `k` ids, the `i`-th being `str(start + i)` |
| Roadmap.AddGenNodes | prm.py:175-182 | a name is a node afterwards exactly when it was or is generated; the edge table is unchanged |
| Roadmap.Pairs | prm.py:184-186 | every pair tried joins two generated ids |
| Roadmap.Cross | prm.py:193-194 | every pair tried joins a generated id to an original one |
| Roadmap.Connect | prm.py:184-191 | an edge loop leaves the node table and statuses unchanged |
| Roadmap.EdgeLoops | prm.py:184-199 | both edge loops leave the node table and statuses unchanged |
| Roadmap.GenNodesAndEdges | prm.py:168-199 | generation leaves the obstacle list unchanged |
| Roadmap.ExtractNodes | prm.py:251-260 | one record per node in table order, with its position and cost `100` |
| Roadmap.ExtractEdges | prm.py:262-271 | one record per directed key in table order, with its cost |
| RoadmapSpec.LoadPrmNodeCrash | prm.py:90-95 | a crashing node line aborts the load with its error |
| RoadmapSpec.KeptEdges | prm.py:117-122 | the kept edges are exactly those whose end points both have node records |
| RoadmapSpec.LoadPrmUnfold | prm.py:90-143 | the load is the node stores, then the kept edges written, then the obstacle records |
| RoadmapSpec.PrmTables | prm.py:90-130 | the tables built from node records and kept edges: valid, one node per record id from its last record, each key holding the last kept write |
| RoadmapSpec.LoadPrmSpec | prm.py:68-143 | the load succeeds exactly when no line crashes and every edge between known nodes has a numeric cost; on success the tables are as in `PrmTables`, and the obstacles are the obstacle records (none without obstacle lines) |
| Roadmap.ClearIffNoHit | prm.py:209-215 | `LineOfSight` is false exactly when some obstacle's test fires, so it is true with no obstacles |
| RoadmapSpec.DistSymmetric | prm.py:241-249 | `Dist(a, b) == Dist(b, a)`, so the two directed costs written for a pair are equal |
| RoadmapSpec.GenIdsNumbered | prm.py:174-176 | the generated ids read back as consecutive numbers and are pairwise distinct |
| RoadmapSpec.PairsMembers | prm.py:184-186 | the `j > i` loop tries exactly the pairs of an earlier and a later id, `n(n-1)/2` of them |
| RoadmapSpec.PairsOnce | prm.py:184-186 | with distinct ids no pair is tried twice and never in both orders |
| RoadmapSpec.CrossMembers | prm.py:193-194 | the nested loop tries exactly the (generated, original) pairs, `|gen| * |org|` of them |
| RoadmapSpec.LinkStep | prm.py:187-191 | one pass writes a pair's two keys with its distance exactly when the pair is in sight |
| RoadmapSpec.ConnectKeys | prm.py:184-191 | an edge loop adds a directed key exactly when some pair in sight covers it |
| RoadmapSpec.ConnectSeen | prm.py:190-191 | a key some pair in sight covers holds the distance between its end points |
| RoadmapSpec.ConnectKept | prm.py:184-199 | a key no pair in sight covers keeps its cost |
| RoadmapSpec.ConnectValid | prm.py:188-191 | an edge loop keeps the tables consistent |
| RoadmapSpec.AddGenNodesValid | prm.py:175-182 | fresh, distinct generated ids go to the end of the node order and the tables stay consistent |
| RoadmapSpec.AddGenNodesKept | prm.py:179-181 | the generating loop leaves every other name's entries unchanged |
| RoadmapSpec.AddGenNodesEntries | prm.py:179-181 | each generated id holds its sample point with cost `0`, no neighbours and status unvisited |
| RoadmapSpec.PairSight | prm.py:184-191 | generated ids `i < j` are covered, in both directions, exactly when the first sees the second |
| RoadmapSpec.PairsEnds | prm.py:184-186 | the pair loop only joins two different generated ids |
| RoadmapSpec.CrossSightOne | prm.py:193-199 | a generated and an original id are covered, in both directions, exactly when the generated one sees the original |
| RoadmapSpec.CrossEnds | prm.py:193-194 | the nested loop only joins a generated id with an original one |
| RoadmapSpec.LoopsKeepOthers | prm.py:184-199 | keys with no generated end point neither appear nor disappear, and existing costs are unchanged |
| RoadmapSpec.LoopsJoinGenerated | prm.py:184-191 | two generated ids are joined both ways exactly when they see each other, and none to itself |
| RoadmapSpec.LoopsJoinOriginal | prm.py:193-199 | a generated and an original id are joined both ways exactly when the generated one sees the original |
| RoadmapSpec.LoopsCosts | prm.py:190-199 | every added edge costs the distance between its end points |
| RoadmapSpec.LoopsValid | prm.py:184-199 | the edge loops keep the tables consistent |
| RoadmapSpec.GenSeparate | prm.py:172-182 | with fresh ids the generated nodes are new, follow the original ones in order, and touch no existing edge |
| RoadmapSpec.GenNodesSpec | prm.py:172-182 | generated nodes follow the originals in the node order, each at its sample point and unvisited; original nodes keep their entries; the tables stay consistent |
| RoadmapSpec.GenKeepsOriginalEdges | prm.py:184-199 | no edge between two original nodes is added, removed or changed |
| RoadmapSpec.GenJoinsGenerated | prm.py:184-191 | generated nodes `i < j` are joined both ways exactly when the first sees the second; none is joined to itself |
| RoadmapSpec.GenJoinsOriginal | prm.py:193-199 | a generated and an original node are joined both ways exactly when the generated one sees the original |
| RoadmapSpec.GenEdgeCosts | prm.py:190-199 | every edge the generation adds costs the distance between its end points |
| RoadmapSpec.ExportIds | prm.py:256-259 | storing the exported node records gives back the node order |
| RoadmapSpec.ExportEntries | prm.py:256-259 | storing the exported node records gives back the nodes and positions, every cost `100` |
| RoadmapSpec.ExportNodesReload | prm.py:251-260 | the exported nodes reload as the same order and positions, cost `100`, unvisited, with no edges |
| RoadmapSpec.ExportUsable | prm.py:262-271 | every exported edge record can be stored over the reloaded nodes |
| RoadmapSpec.ExportCostMap | prm.py:267-270 | for an edge table stored in both directions with one cost, its exported edge records written over an edge-free table rebuild exactly its costs |
| RoadmapSpec.ExportOnto | prm.py:262-271 | written over a consistent edge-free table holding the end points, they rebuild the edge table and keep the tables consistent |
| RoadmapSpec.ExportEdgesReload | prm.py:262-271 | the exported edges, written over the reloaded nodes, give back exactly the edge table |
| RoadmapSpec.ExportEdgeCount | prm.py:266-271 | there is an exported edge record exactly when the edge table is not empty |
| RoadmapSpec.ExportReloadSucceeds | prm.py:283-286 | loading the exported records into the planner fails only on an empty edge table |
| RoadmapSpec.ExportReload | prm.py:283-286 | loading the exported records succeeds exactly when the roadmap has an edge, and then gives the roadmap's node order, positions and edge table, every node at cost `100` |
| AStarMain.LoadedTables | astar.py:17-51 | on lines that read as the records of the script's graph, `AStar.__init__` succeeds with consistent tables free of self-loops holding exactly those six nodes, their neighbour lists and the eighteen directed costs |
| AStarMain.SearchFound | astar.py:218-255 | on those tables, with the three square roots the search takes, `astar('1', '6')` returns `['1', '4', '5', '6']`, and `astarcost` of that path is `30` |
| AStarMain.ScriptRun | astarmain.py:3-38 | the script's node and edge lines load, and `astar('1', '6')` on them returns `['1', '4', '5', '6']` at cost `30` |

## Left out

- Plotting (`GetNodeColor`, `PlotNodesWithNames`, `HightlightNodesInPath`, `setupPlot`, `doSubPlot`, `pltshow`) is treated as a no-op inside `astar`. The source draws a subplot per step into a 3×6 grid, so matplotlib rejects the 19th subplot; the model does not reproduce that failure of the drawing code.
- File reading (`FileToList`, the script reads of `astardev.py`, `argparse`, writing `path.csv`): lines are given as sequences. The one-element list that `PrmGen.__init__` takes to be a file name is not modelled.
- `float()` parsing, `str.split`, and `.3f` / `.1f` formatting are abstracted into `Line` records.
- Roadmap.ExtractNodes: emits the exact coordinates, not the `.3f`-rounded text. The same holds for `Roadmap.ExtractEdges` and its costs, so the reload lemmas ignore rounding.
- Diagnostics.CheckDistances: returns the flagged keys instead of printing a message per key, and does not format the distance.
- The `print` of the edge-cost statistics (minimum, maximum, average) is left out. Only the division by zero on an empty edge table in `AStar.__init__` is modelled (`NoEdges`); `PrmGen.__init__` divides by at least one.
- The verbosity prints of `PrmGen.__init__` are left out, including the one that reads the module-level `no_seed` instead of the `noseed` argument. They only print.
- `random.seed` / `random.uniform` and the sampling rectangle are left out: the samples are an input sequence of points.
- `LineCircleIntersect` is shapely, a foreign library, and is an uninterpreted parameter. `LineCircleIntersect0` is unused.
- The `"id"` field that `PrmGen` stores in each node entry is never read by the core, and is left out.
- The `"tent_tot_cost" not in` test of the selection scan is left out. Every node entry has that key, so the branch never runs.
- Class-level dictionaries shared between instances (`AStar.nodedict` …, `PrmGen.obst`) are left out: each load starts from empty tables. A second `astar` call on one instance would also see the first call's parent links and costs. The model starts each search from the loaded tables with no parents.
- Node ids containing `:` are left out: they make the `"a:b"` key split ambiguous, and the model's keys are pairs.
- Search.AStar: proves the path returned is a walk along edges whose cost matches the goal's cost so far, but not that it is a cheapest path.
- RoadmapSpec.GenNodesSpec: assumes the generated ids `str(len(nodedict)+1)` … are not node names yet (`FreshGen`). With an original id such as `"5"` among four nodes, the source overwrites that node and resets its neighbour list. `Roadmap.GenNodesAndEdges` models that behaviour, but the lemmas about generation do not cover it. The same assumption applies to RoadmapSpec.GenKeepsOriginalEdges, RoadmapSpec.GenJoinsGenerated, RoadmapSpec.GenJoinsOriginal and RoadmapSpec.GenEdgeCosts.
- Search.AStarSearch: requires a graph without self-loops. With an edge `n:n`, `assignParent(n, n, …)` makes `n` its own parent and `getParentList` never returns.
- The driver calls to APIs the shown files do not define (`FindPath`, `AstarCost`, `ShowPlot`, the four-argument `AStar` constructor, `prmrun.py`) are left out. `RoadmapSpec.ExportReload` models the hand-over they intend: the exported records loaded into the planner.
- AStarMain.ScriptRun: fixes the square roots the search takes (`0`, `80` and `104`) at three decimals, `0.0`, `8.944` and `10.198`, rather than the exact roots `math.sqrt` rounds; other root values are left free.
