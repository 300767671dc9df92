# Six small C algorithm programs, modelled and proved in Dafny

The repository holds six self-contained C programs. Each has a sequential,
integer-only core. With the console I/O stripped off, that core is modelled
here and its promises are proved.

- **Road network with blockable roads** (`problem_3/problem_3_DemoImpimation.c`).
  - A city graph keeps a head-inserted list of `(destination, roadId)` entries per intersection. Each road has one id with an entry at both ends.
  - An id-indexed `roadBlocked` table records which roads are closed.
  - A circular-buffer queue drives three breadth-first searches over the open roads: reachability, hop-count shortest path with the path rebuilt from parents, and connected components.
  - Files: `road_graph.dfy` (reachability, hop distance and components as a specification), `road_queue.dfy`, `road_network.dfy`, `road_search.dfy`, `road_shortest.dfy`, `road_scenario.dfy` (the demo network and `runTests`).
- **Huffman coding with an array min-heap** (`problem_5/problem_5_demo.c`).
  - Vowel masking and character counting.
  - The symbol table.
  - A min-heap on counts: sift-down, build, extract, sift-up insert.
  - Tree construction.
  - Code generation along left = '0', right = '1' paths.
  - Files: `huffman_heap.dfy`, `huffman_tree.dfy`, `huffman_codes.dfy`, `huffman_main.dfy`.
- **QuickSelect k-th largest** (`problem_2/problem_2_DemoCode.c`): a descending Lomuto partition, recursive selection, a copying wrapper, the descending bubble sort used as a check, and the fixed test cases (`selection.dfy`).
- **DFS with discovery and finish timestamps**, in two versions: `problem_1/problem_1_DemoCode.c` uses adjacency lists; `problem_1/problem_1.c` uses an adjacency matrix.
  - Both imperative searches are proved equal to one functional DFS (`dfs_spec.dfy`). Reachability, timestamp and parenthesis properties are proved once, about that DFS.
  - Files: `social_dfs.dfy`, `social_scenario.dfy`, `matrix_dfs.dfy`, `matrix_scenario.dfy`.
- **Dijkstra over an integer adjacency matrix** (`problem_4/problem_4.c`): INF = 9999 and weight 0 means "no edge". The result is proved to be the table of least path costs, capped at INF (`dijkstra.dfy`).

Objects whose fields the C code updates in place are Dafny classes: the city graph, the queue, the heap, the DFS globals and the DFS matrix. Their C arrays are Dafny arrays. Linked lists become sequences, and Huffman nodes become a datatype. The searches, loops and recursions are methods, proved against specification functions and predicates.

Where the code and the prose description of the road network disagree, the model follows the code:
- `initializeCityGraph` does not reject a non-positive size. The model allows 0 to 100 intersections.
- `blockRoad`/`unblockRoad` only print when no road matches, and change nothing. The model returns no error value; `FirstRoadTo(..) == -1` is that case.
- The demo network is the one `main` builds. It has the road 3-4 and a self-loop road at intersection 5.

## Model

| member | source | states |
|---|---|---|
| RoadGraph.RouteSelf | problem_3/problem_3_DemoImpimation.c:174 | every intersection reaches itself by the one-vertex walk |
| RoadGraph.RouteExtend | problem_3/problem_3_DemoImpimation.c:194-201 | a walk to u followed by an open road u-v is a walk to v |
| RoadGraph.ReachExtend | problem_3/problem_3_DemoImpimation.c:194-201 | reachability over open roads extends by one open road |
| RoadGraph.RouteTrim | problem_3/problem_3_DemoImpimation.c:248-252 | a walk minus its last vertex is a walk, and its last step is an open road |
| RoadGraph.HopDistanceUnique | problem_3/problem_3_DemoImpimation.c:212-279 | the least number of open roads from s to t is unique |
| RoadGraph.ClosedRoute | problem_3/problem_3_DemoImpimation.c:185-208 | a walk that starts inside a set closed under open roads stays inside it |
| RoadGraph.ClosedUnreachable | problem_3/problem_3_DemoImpimation.c:207-208 | nothing outside a closed set holding s is reachable from s, which justifies the "not reachable" answer |
| RoadGraph.OpenSymmetric | problem_3/problem_3_DemoImpimation.c:66-77 | since each road is listed at both ends, an open road u-v is also open from v to u |
| RoadGraph.ReachSymmetric | problem_3/problem_3_DemoImpimation.c:66-77 | reachability over open roads is symmetric |
| RoadGraph.ReachTransitive | problem_3/problem_3_DemoImpimation.c:302-316 | reachability over open roads is transitive |
| RoadGraph.LeaderOf | problem_3/problem_3_DemoImpimation.c:289-299 | every intersection is connected to a leader: an intersection that no lower-numbered intersection reaches |
| RoadGraph.LeadersAreComponents | problem_3/problem_3_DemoImpimation.c:283-321 | leaders are one per component: no two are connected, every intersection is connected to one, and there are between 1 and n when n >= 1 |
| RoadGraph.Below | problem_3/problem_3_DemoImpimation.c:289 | the set of intersection indices 0..n-1 has exactly n members |
| RoadGraph.SubsetSize | problem_3/problem_3_DemoImpimation.c:289-321 | a subset of the intersections is no larger than the whole |
| RoadQueue.Circular | problem_3/problem_3_DemoImpimation.c:33-38 | the queued items are the `size` slots that start at `front`, wrapping modulo the capacity |
| RoadQueue.CircularPush | problem_3/problem_3_DemoImpimation.c:128-134 | writing just after the last item of a non-full buffer appends that item |
| RoadQueue.CircularPop | problem_3/problem_3_DemoImpimation.c:136-144 | the front slot holds the oldest item, and advancing `front` drops exactly that item |
| RoadQueue.Queue.constructor | problem_3/problem_3_DemoImpimation.c:118-122 | `initializeQueue`: front 0, rear -1, size 0, nothing queued |
| RoadQueue.Queue.IsEmpty | problem_3/problem_3_DemoImpimation.c:124-126 | true exactly when nothing is queued |
| RoadQueue.Queue.Enqueue | problem_3/problem_3_DemoImpimation.c:128-134 | FIFO append when fewer than 100 items are queued; a full queue is left unchanged; front and rear stay within the buffer |
| RoadQueue.Queue.Dequeue | problem_3/problem_3_DemoImpimation.c:136-144 | returns and removes the oldest item; an empty queue returns -1 and is left unchanged |
| RoadNetwork.FirstRoadTo | problem_3/problem_3_DemoImpimation.c:85-95 | the index of the first list entry leading to b: no earlier entry leads to b, and -1 exactly when none does |
| RoadNetwork.WithRoad | problem_3/problem_3_DemoImpimation.c:66-77 | `addRoad`'s effect on the lists: a new head entry at both ends, two head entries for a self-loop, and every other list unchanged |
| RoadNetwork.CityGraph.constructor | problem_3/problem_3_DemoImpimation.c:51-63 | `initializeCityGraph`: numRoads 0, every road list empty, every `roadBlocked` entry false |
| RoadNetwork.CityGraph.AddRoad | problem_3/problem_3_DemoImpimation.c:66-77 | the road gets id numRoads, which grows by one; its entries head both lists; the new road is open; every road stays listed at both ends under one id |
| RoadNetwork.CityGraph.BlockRoad | problem_3/problem_3_DemoImpimation.c:83-98 | sets only the block flag of the first entry in a's list that leads to b; with no such entry the table is unchanged |
| RoadNetwork.CityGraph.UnblockRoad | problem_3/problem_3_DemoImpimation.c:101-115 | clears only the block flag of the first entry in a's list that leads to b; with no such entry the table is unchanged |
| RoadNetwork.CityGraph.SetFirstRoad | problem_3/problem_3_DemoImpimation.c:85-95 | the list walk shared by block and unblock writes exactly the flag of the first matching road |
| RoadNetwork.AddRoadNew | problem_3/problem_3_DemoImpimation.c:70-77 | the new road's two entries are listed at each other's ends |
| RoadNetwork.AddRoadOld | problem_3/problem_3_DemoImpimation.c:70-77 | the entries of older roads keep their partner entries after a road is added |
| RoadSearch.UnmarkedMark | problem_3/problem_3_DemoImpimation.c:200 | marking an unvisited intersection removes exactly it from the unvisited set |
| RoadSearch.UnmarkedBound | problem_3/problem_3_DemoImpimation.c:176 | at most n intersections are unvisited, and all n before a search |
| RoadSearch.NoneMarked | problem_3/problem_3_DemoImpimation.c:176 | the fresh `visited` array: n entries, all false |
| RoadSearch.NoneMarkedClosed | problem_3/problem_3_DemoImpimation.c:284 | the empty visited set is closed under open roads |
| RoadSearch.FrontierStart | problem_3/problem_3_DemoImpimation.c:180-181 | marking and queueing start establishes the search invariant |
| RoadSearch.FrontierPop | problem_3/problem_3_DemoImpimation.c:185-189 | the dequeued intersection is reachable from start, and the invariant holds while its roads are scanned |
| RoadSearch.FrontierMark | problem_3/problem_3_DemoImpimation.c:194-201 | marking and queueing the far end of an open road keeps the invariant; that intersection is reachable, and one fewer intersection is unvisited |
| RoadSearch.FrontierSkip | problem_3/problem_3_DemoImpimation.c:194 | a blocked road, or one to a visited intersection, needs no work |
| RoadSearch.FrontierFinish | problem_3/problem_3_DemoImpimation.c:189-204 | once all its roads are scanned, every open road of the current intersection leads to a visited one |
| RoadSearch.FrontierEnd | problem_3/problem_3_DemoImpimation.c:185-208 | when the queue empties, the visited intersections are exactly those visited before plus those reachable from start |
| RoadSearch.IsReachable | problem_3/problem_3_DemoImpimation.c:173-209 | `isReachable` answers true exactly when end is reachable from start over open roads, including start == end |
| RoadSearch.ScanForTarget | problem_3/problem_3_DemoImpimation.c:189-204 | scanning one road list finds end only when it is reachable, otherwise keeps the invariant; queue size plus twice the unvisited count never grows, so the queue never overflows |
| RoadSearch.CoveredClosed | problem_3/problem_3_DemoImpimation.c:289-318 | what is reachable from the intersections below i is closed under open roads |
| RoadSearch.CoveredStep | problem_3/problem_3_DemoImpimation.c:289-291 | intersection i is still unvisited exactly when it is a leader; a visited i changes nothing |
| RoadSearch.CoveredAfterSearch | problem_3/problem_3_DemoImpimation.c:296-316 | a search from unvisited i over the marks below i yields the marks below i + 1 |
| RoadSearch.CountConnectedComponents | problem_3/problem_3_DemoImpimation.c:283-321 | the count is the number of leaders, which is the number of connected components of the open-road graph (see LeadersAreComponents) |
| RoadSearch.ExploreComponent | problem_3/problem_3_DemoImpimation.c:295-316 | one search from unvisited i marks exactly what the intersections up to i reach |
| RoadSearch.ScanAll | problem_3/problem_3_DemoImpimation.c:305-315 | scanning one road list in the component search keeps the search invariant, and the queue size bound |
| RoadShortest.LayersStart | problem_3/problem_3_DemoImpimation.c:222-229 | distance INT_MAX and parent -1 everywhere, then start at distance 0, establish the level invariant |
| RoadShortest.LayersPop | problem_3/problem_3_DemoImpimation.c:235 | the dequeued intersection is at the lowest queued level, and the queue stays sorted by level |
| RoadShortest.LayersMark | problem_3/problem_3_DemoImpimation.c:248-252 | a newly reached intersection gets distance one more than the current one and the current one as parent, and the invariant holds |
| RoadShortest.TreeMark | problem_3/problem_3_DemoImpimation.c:249-251 | the parent links still form a tree of open roads with distances counting the roads to start |
| RoadShortest.LevelsMark | problem_3/problem_3_DemoImpimation.c:250-252 | queued levels stay within lo..lo+1 in non-decreasing order |
| RoadShortest.FinishedMark | problem_3/problem_3_DemoImpimation.c:249-252 | marking keeps every finished intersection's open roads within one level |
| RoadShortest.LayersSkip | problem_3/problem_3_DemoImpimation.c:248 | a blocked road, or one to a visited intersection, needs no work |
| RoadShortest.LayersFinish | problem_3/problem_3_DemoImpimation.c:243-255 | after its road list is scanned the current intersection is finished |
| RoadShortest.WalkBound | problem_3/problem_3_DemoImpimation.c:234-256 | any open walk from start to a finished intersection has at least its distance in roads; otherwise it passes the queue |
| RoadShortest.LayersClosed | problem_3/problem_3_DemoImpimation.c:234-256 | with the queue empty, the visited set is closed under open roads |
| RoadShortest.RoutePrepend | problem_3/problem_3_DemoImpimation.c:263-268 | an open road into the first vertex of a walk extends the walk at its front |
| RoadShortest.ParentStep | problem_3/problem_3_DemoImpimation.c:265-268 | one step up the parent chain: start has parent -1; any other intersection has a visited parent one road closer, over an open road |
| RoadShortest.HopDistanceSelf | problem_3/problem_3_DemoImpimation.c:213 | start is 0 roads from itself |
| RoadShortest.FindShortestPath | problem_3/problem_3_DemoImpimation.c:212-279 | -1 exactly when end is unreachable over open roads; otherwise the least number of open roads (0 for start == end), and a rebuilt path from start to end of distance + 1 intersections |
| RoadShortest.TracePath | problem_3/problem_3_DemoImpimation.c:259-276 | following parents back from end gives an open walk from start to end with dist[end] roads |
| RoadShortest.ShortestSearch | problem_3/problem_3_DemoImpimation.c:215-256 | after the search loop the parents form a tree, end is reached exactly when its distance is not INT_MAX, an unreached end is unreachable, and no walk to a reached end is shorter than its distance |
| RoadShortest.StartSearch | problem_3/problem_3_DemoImpimation.c:215-229 | the arrays and queue before the loop: only start visited, at distance 0, no parents, start queued |
| RoadShortest.SearchTurn | problem_3/problem_3_DemoImpimation.c:234-256 | one dequeue: either end is reached with its least distance, or the invariant holds and the measure decreases |
| RoadShortest.ScanLayer | problem_3/problem_3_DemoImpimation.c:243-255 | scanning the current road list keeps the level invariant and the queue bound |
| RoadShortest.ScanRoad | problem_3/problem_3_DemoImpimation.c:245-254 | one road of the list: skipped, or its far end is recorded one level deeper |
| RoadShortest.RecordNeighbor | problem_3/problem_3_DemoImpimation.c:249-252 | the four writes for a new neighbour: visited, distance + 1, parent, enqueued |
| RoadScenario.BuildDemo | problem_3/problem_3_DemoImpimation.c:392-403 | `main`'s network: 6 intersections, 8 roads, these exact lists, nothing blocked |
| RoadScenario.DemoBuilt | problem_3/problem_3_DemoImpimation.c:396-403 | the eight `addRoad` calls produce the head-first lists of the demo |
| RoadScenario.DemoSpanning | problem_3/problem_3_DemoImpimation.c:330 | with roads 0, 1, 3 and 5 open, 0-2-4 is a walk and 0 reaches 1..4 |
| RoadScenario.DemoIsolated | problem_3/problem_3_DemoImpimation.c:331 | intersection 5 is unreachable from 0..4 whatever is blocked |
| RoadScenario.DemoLeaders | problem_3/problem_3_DemoImpimation.c:345 | the leaders are {0, 5}: two components |
| RoadScenario.DemoHop04 | problem_3/problem_3_DemoImpimation.c:336 | the least number of roads from 0 to 4 is 2 |
| RoadScenario.NoRoad04 | problem_3/problem_3_DemoImpimation.c:336 | no road joins 0 and 4 directly |
| RoadScenario.DemoHop13 | problem_3/problem_3_DemoImpimation.c:339 | the least number of roads from 1 to 3 is 1 |
| RoadScenario.RunTests | problem_3/problem_3_DemoImpimation.c:325-369 | `runTests` on the demo: 0 reaches 4, 1 does not reach 5, distances 2 and 1, 2 components; after blocking 1-2 and 2-3, 0 still reaches 4 with 2 components; after unblocking, 2 components and nothing blocked |
| RoadScenario.OpenTests | problem_3/problem_3_DemoImpimation.c:328-346 | tests 1 to 3 give true, false, 2, 1 and 2 |
| RoadScenario.BlockingTests | problem_3/problem_3_DemoImpimation.c:348-368 | tests 4 and 5 give true, 2 and 2, and leave the network as it was |
| HuffmanHeap.Parent | problem_5/problem_5_demo.c:83-85 | `(i - 1) / 2` is the slot whose child i is |
| HuffmanHeap.Unsigned | problem_5/problem_5_demo.c:25-31 | the `int` to `unsigned` conversion of `newNode`'s weight and the wrapping `unsigned` sum: a value in [0, 2^32), equal to x when x is already in range and to x + 2^32 for a negative 32-bit x |
| HuffmanHeap.CDiv | problem_5/problem_5_demo.c:64 | C's truncating division, so the build loop starts at 0, not -1, for size 1 |
| HuffmanHeap.HeapRootMin | problem_5/problem_5_demo.c:71-72 | the root of a heap holds a least count |
| HuffmanHeap.RootBelow | problem_5/problem_5_demo.c:71-72 | the root's count is at most the count of any given slot |
| HuffmanHeap.MinHeap.constructor | problem_5/problem_5_demo.c:59 | the allocated heap is empty |
| HuffmanHeap.MinHeap.MinHeapify | problem_5/problem_5_demo.c:41-55 | if the heap order holds from lo on except below i, afterwards it holds from lo on; the nodes are only permuted |
| HuffmanHeap.MinHeap.Smallest | problem_5/problem_5_demo.c:42-49 | picks i, or the child with a smaller count, and the result is no larger than either child |
| HuffmanHeap.MinHeap.SwapNodes | problem_5/problem_5_demo.c:34-38 | exchanges two slots and nothing else |
| HuffmanHeap.MinHeap.ExtractMin | problem_5/problem_5_demo.c:71-76 | returns a node of least count; size drops by one; the rest is a heap of the old nodes minus the returned one |
| HuffmanHeap.MinHeap.InsertHeap | problem_5/problem_5_demo.c:79-88 | size grows by one, exactly the given node is added, and the heap order is kept |
| HuffmanHeap.MinHeap.SiftUpFrom | problem_5/problem_5_demo.c:83-87 | moving larger parents down and placing the node where the loop stops yields a heap of the same nodes |
| HuffmanHeap.RootReplaced | problem_5/problem_5_demo.c:72-73 | with the last node moved to the root, only the root may be out of order, and only the old root is missing |
| HuffmanHeap.InPlace | problem_5/problem_5_demo.c:51 | a node no larger than its children completes the heap order |
| HuffmanHeap.SwapDown | problem_5/problem_5_demo.c:51-53 | swapping with the smaller child moves the disorder one level down and permutes the nodes |
| HuffmanHeap.MoveUp | problem_5/problem_5_demo.c:83-85 | moving the larger parent down carries the sift-up invariant to the parent slot, with the same nodes |
| HuffmanHeap.SwapPermutes | problem_5/problem_5_demo.c:34-38 | exchanging two slots keeps the multiset of nodes |
| HuffmanHeap.MoveUpOrder | problem_5/problem_5_demo.c:83-85 | the order part of MoveUp |
| HuffmanHeap.SiftUpDone | problem_5/problem_5_demo.c:83-87 | where the loop stops, the whole array is a heap |
| HuffmanHeap.BuildMinHeap | problem_5/problem_5_demo.c:58-68 | size nodes, exactly the leaves (data[i], freq[i] converted to `unsigned`) in some order, satisfying the min-heap order |
| HuffmanHeap.NegativeWeightHeavy | problem_5/problem_5_demo.c:58-68 | with freq [-1, 1], leaf 'a' weighs 2^32 - 1, so every heap of the two leaves has 'b' at its root |
| HuffmanHeap.LastInner | problem_5/problem_5_demo.c:64 | the loop's first slot, (size - 2) / 2, is the last slot with a child |
| HuffmanTree.Leaves | problem_5/problem_5_demo.c:98-100 | a tree has at least one leaf, and every listed node is a leaf |
| HuffmanTree.LeafFreq | problem_5/problem_5_demo.c:98 | a tree of '$' nodes that add their children's weights as `unsigned` weighs as much as its leaves together, modulo 2^32 |
| HuffmanTree.UnsignedAdd | problem_5/problem_5_demo.c:98 | adding two `unsigned` values with wrap-around equals adding the originals and wrapping once |
| HuffmanTree.Concat | problem_5/problem_5_demo.c:94-103 | leaves and total weight of a forest distribute over concatenation |
| HuffmanTree.RemoveAt | problem_5/problem_5_demo.c:95-96 | taking one tree out of the forest takes out its leaves and its weight |
| HuffmanTree.Reordered | problem_5/problem_5_demo.c:94-103 | the bag of leaves and the total weight of a forest do not depend on the order of the trees |
| HuffmanTree.LeavesOfLeaves | problem_5/problem_5_demo.c:61-62 | a forest of leaves is its own list of leaves |
| HuffmanTree.InputWeight | problem_5/problem_5_demo.c:61-62 | modulo 2^32, the input leaves weigh the sum of freq[0..size) |
| HuffmanTree.JoinMerged | problem_5/problem_5_demo.c:95-102 | after one round every tree in the heap is still properly merged |
| HuffmanTree.JoinLeaves | problem_5/problem_5_demo.c:95-102 | one round keeps the bag of leaves in the heap |
| HuffmanTree.JoinStep | problem_5/problem_5_demo.c:94-103 | one round keeps every tree merged and keeps the leaves |
| HuffmanTree.Start | problem_5/problem_5_demo.c:92 | the built heap holds only leaves, with themselves as its leaves |
| HuffmanTree.LastTree | problem_5/problem_5_demo.c:105 | the last tree holds every input leaf and weighs the sum of freq[0..size) modulo 2^32 |
| HuffmanTree.BuildHuffmanTree | problem_5/problem_5_demo.c:91-106 | the loop ends with one tree: its leaves are exactly the input leaves, every internal node is '$' with freq the `unsigned` sum of its children's, and the root weighs the sum of freq[0..size) modulo 2^32, which is the plain sum when that lies in [0, 2^32) |
| HuffmanCodes.Assign | problem_5/problem_5_demo.c:109-124 | the table after the walk has as many rows as before, and rows of characters not in the tree are untouched |
| HuffmanCodes.CharsSplit | problem_5/problem_5_demo.c:110-118 | an internal node's leaf characters are those of its two subtrees |
| HuffmanCodes.GenerateCodes | problem_5/problem_5_demo.c:109-124 | the table ends up as Assign describes, and the caller's prefix code[0..top) survives the call |
| HuffmanCodes.Code | problem_5/problem_5_demo.c:110-118 | for a character of the tree, a '0'/'1' path that leads from the root to that character's leaf |
| HuffmanCodes.UniqueSplit | problem_5/problem_5_demo.c:110-118 | in a tree with unique leaves, the two subtrees have unique leaves and no character in common |
| HuffmanCodes.AssignFinds | problem_5/problem_5_demo.c:109-124 | every leaf character's row is the prefix followed by its root path |
| HuffmanCodes.LeftFound | problem_5/problem_5_demo.c:110-113 | a character on the left keeps the row the left walk gave it |
| HuffmanCodes.RightFound | problem_5/problem_5_demo.c:115-118 | a character on the right gets the row the right walk gives it |
| HuffmanCodes.PrefixFree | problem_5/problem_5_demo.c:109-124 | a path that ends at a leaf cannot be continued to another leaf |
| HuffmanCodes.CodesPrefixFree | problem_5/problem_5_demo.c:109-124 | every leaf character's row is its root path, and of two different characters neither row is a prefix of the other |
| HuffmanMain.Masked | problem_5/problem_5_demo.c:137-139 | masking keeps the line's length |
| HuffmanMain.IsVowel | problem_5/problem_5_demo.c:20-22 | true exactly for the five lowercase vowels 'a', 'e', 'i', 'o' and 'u'; never for an uppercase letter or the mask '*' |
| HuffmanMain.MaskedSpec | problem_5/problem_5_demo.c:137-139 | after masking no lowercase vowel remains, non-vowels are unchanged, and masking again changes nothing |
| HuffmanMain.Counts | problem_5/problem_5_demo.c:128 | the `freq` table has MAX_CHAR entries |
| HuffmanMain.CountsAppend | problem_5/problem_5_demo.c:140 | counting one more character adds one to its own entry only |
| HuffmanMain.SumIncrement | problem_5/problem_5_demo.c:140 | `freq[c]++` adds one to the total |
| HuffmanMain.SumZeros | problem_5/problem_5_demo.c:128 | the zeroed table sums to 0 |
| HuffmanMain.CountsSum | problem_5/problem_5_demo.c:137-141 | the counts of a line add up to its length |
| HuffmanMain.MaskAndCount | problem_5/problem_5_demo.c:137-141 | the line is masked in place, and `freq` counts every character of the masked line |
| HuffmanMain.SymbolsUpTo | problem_5/problem_5_demo.c:144-148 | the symbols are strictly increasing and have nonzero counts, and every character with a nonzero count is among them |
| HuffmanMain.CollectSymbols | problem_5/problem_5_demo.c:144-148 | the loop over codes 0..127 yields exactly SymbolsUpTo of the table |
| HuffmanMain.Preprocess | problem_5/problem_5_demo.c:133-148 | the masked line, its counts and its symbols |
| HuffmanMain.SymbolsOfLine | problem_5/problem_5_demo.c:144-151 | a non-empty line has between 1 and MAX_CHAR symbols, so the tree is built on a non-empty heap |
| HuffmanMain.MaskedAscii | problem_5/problem_5_demo.c:139 | '*' keeps the line within the table's codes |
| HuffmanMain.OnceEach | problem_5/problem_5_demo.c:146 | leaves made from strictly increasing characters occur once each |
| HuffmanMain.OneLeafPerChar | problem_5/problem_5_demo.c:146 | leaves made from strictly increasing characters carry distinct characters |
| HuffmanMain.HeightBelowLeaves | problem_5/problem_5_demo.c:155 | a tree is shallower than it has leaves, so codes fit the MAX_CHAR buffer |
| HuffmanMain.TreeOverSymbols | problem_5/problem_5_demo.c:151-156 | a tree over the symbols fits the tables, has unique leaves and depth below MAX_CHAR, and its leaf characters are exactly the symbols |
| HuffmanMain.LeafChars | problem_5/problem_5_demo.c:151 | the leaf characters of a tree over the symbols are the symbols |
| HuffmanMain.CodeTable | problem_5/problem_5_demo.c:154-156 | `generateCodes(root, code, 0, codes)` on fresh buffers gives the table Assign describes |
| HuffmanMain.CodesOfSymbols | problem_5/problem_5_demo.c:156-161 | every symbol's row is its root path, no symbol's code is a prefix of another's, and a lone symbol gets the empty code |
| HuffmanMain.MainAsWritten | problem_5/problem_5_demo.c:126-156 | `main` as written: leaf i weighs freq[i], the count of code i, so the root weighs the sum of freq[0..symCount); the codes are still prefix-free root paths |
| HuffmanMain.CountsOfOne | problem_5/problem_5_demo.c:137-141 | a one-character line counts 1 for it and 0 elsewhere |
| HuffmanMain.OnlySymbol | problem_5/problem_5_demo.c:144-148 | a table with one nonzero entry yields that one symbol |
| HuffmanMain.AsWrittenWeighsWrong | problem_5/problem_5_demo.c:151 | for the line "b", the single leaf weighs 0 rather than 1, and the root weighs 0 rather than the line length |
| HuffmanMain.SymbolFreqs | problem_5/problem_5_demo.c:151 | one weight per symbol |
| HuffmanMain.SumPrefix | problem_5/problem_5_demo.c:144-151 | counts for the first symCount codes add up to between 0 and the line length, so the as-written root weight does not wrap |
| HuffmanMain.SumNonNegative | problem_5/problem_5_demo.c:137-141 | counts add up to a non-negative total |
| HuffmanMain.SumAppend | problem_5/problem_5_demo.c:94-103 | sums extend by their last element |
| HuffmanMain.SymbolWeight | problem_5/problem_5_demo.c:144-151 | weighing each symbol by its own count covers every count |
| HuffmanMain.FreqsAppend | problem_5/problem_5_demo.c:146 | adding a symbol adds its count to the weights |
| HuffmanMain.MainCorrected | problem_5/problem_5_demo.c:126-156 | with leaf i weighing the count of symbols[i]: the leaves are the symbols with their counts, the root weighs the line length, codes are prefix-free root paths, and a lone symbol gets the empty code |
| Selection.SortDescLength | problem_2/problem_2_DemoCode.c:130-136 | sorting keeps the length |
| Selection.InsertLength | problem_2/problem_2_DemoCode.c:130-136 | insertion adds one element |
| Selection.ConsNonIncreasing | problem_2/problem_2_DemoCode.c:130-136 | a head no smaller than a non-increasing tail keeps it non-increasing |
| Selection.InsertFacts | problem_2/problem_2_DemoCode.c:130-136 | insertion keeps the order and adds exactly x |
| Selection.SortDescFacts | problem_2/problem_2_DemoCode.c:130-136 | the reference sort is a non-increasing permutation of its input |
| Selection.HeadIsMax | problem_2/problem_2_DemoCode.c:139-141 | the head of a non-increasing sequence is its maximum |
| Selection.NonIncreasingUnique | problem_2/problem_2_DemoCode.c:139-141 | two non-increasing sequences with the same elements are equal |
| Selection.SortedIsSortDesc | problem_2/problem_2_DemoCode.c:139-141 | any non-increasing arrangement of s is the reference sort of s |
| Selection.AppendNonIncreasing | problem_2/problem_2_DemoCode.c:63-84 | a dominating non-increasing prefix followed by a non-increasing suffix is non-increasing |
| Selection.SortDescSplit | problem_2/problem_2_DemoCode.c:63-84 | after a descending partition, the sorted order is the sorted left part, the pivot, then the sorted right part |
| Selection.Swap | problem_2/problem_2_DemoCode.c:6-10 | exchanges the two cells (i == j allowed), changes nothing else, and permutes the array |
| Selection.SameOutsideTrans | problem_2/problem_2_DemoCode.c:77-83 | agreement outside a range composes across nested recursive calls |
| Selection.SliceMultiset | problem_2/problem_2_DemoCode.c:30-40 | a permutation that fixes everything outside [lo, hi) permutes that slice |
| Selection.Partition | problem_2/problem_2_DemoCode.c:23-50 | p in [low, high]; arr[p] is the old arr[high]; larger-or-equal values lie left of p and smaller values right of it; the range is permuted and nothing outside it changes |
| Selection.SortDescPermutation | problem_2/problem_2_DemoCode.c:63-84 | permutations of each other sort alike |
| Selection.PartitionRank | problem_2/problem_2_DemoCode.c:63-84 | the k-th largest lies in the left part, at the pivot, or in the right part at rank k minus the pivot's rank |
| Selection.CountAbove | problem_2/problem_2_DemoCode.c:139-141 | at most |s| elements exceed v |
| Selection.CountAboveAppend | problem_2/problem_2_DemoCode.c:139-141 | counts above v add over concatenation |
| Selection.MultisetRemove | problem_2/problem_2_DemoCode.c:139-141 | removing an index removes that element from the bag |
| Selection.CountAboveRemove | problem_2/problem_2_DemoCode.c:139-141 | removing an element lowers the count above v by its own contribution |
| Selection.CountAbovePermutation | problem_2/problem_2_DemoCode.c:139-141 | the count above v depends only on the elements |
| Selection.CountAboveSorted | problem_2/problem_2_DemoCode.c:139-141 | in a non-increasing sequence the elements above v form a prefix |
| Selection.KthLargestRank | problem_2/problem_2_DemoCode.c:139-141 | v is the k-th largest exactly when fewer than k elements exceed v and at least k are at least v |
| Selection.QuickSelect | problem_2/problem_2_DemoCode.c:54-88 | for 1 <= k <= high-low+1, the k-th largest of the original arr[low..high]; -1 otherwise; the range is permuted, nothing outside it changes, and each recursion is on a smaller range |
| Selection.PartitionedRank | problem_2/problem_2_DemoCode.c:58-84 | the rank facts that justify each of quickSelect's three branches |
| Selection.FindKthLargest | problem_2/problem_2_DemoCode.c:91-108 | the k-th largest of arr[0..n), or -1 for k outside 1..n; the caller's array is untouched, since only a copy is searched |
| Selection.BubbleSortDesc | problem_2/problem_2_DemoCode.c:130-136 | the array ends non-increasing and a permutation of its old contents |
| Selection.BubblePass | problem_2/problem_2_DemoCode.c:131-135 | one pass carries the smallest value of a[0..hi] to a[hi] and leaves the sorted suffix alone |
| Selection.DemonstrateAlgorithm | problem_2/problem_2_DemoCode.c:111-144 | the sorted copy is a non-increasing permutation of arr[0..n), and the QuickSelect answer equals its (k-1)-th cell, the check the demonstration prints |
| SelectionTests.TestAnswer1 | problem_2/problem_2_DemoCode.c:167-171 | the 2nd largest of [3,2,1,5,6,4] is 5 |
| SelectionTests.TestAnswer2 | problem_2/problem_2_DemoCode.c:174-178 | the 4th largest of [3,2,3,1,2,4,5,5,6] is 4 |
| SelectionTests.RunCase | problem_2/problem_2_DemoCode.c:166-171 | one test case returns the k-th largest of its values |
| SelectionTests.RunTests | problem_2/problem_2_DemoCode.c:163-186 | the three fixed cases return 5, 4 and 1 |
| DfsSpec.Init | problem_1/problem_1_DemoCode.c:86-93 | nothing visited, every stamp 0, the clock 0 |
| DfsSpec.UnseenGrow | problem_1/problem_1_DemoCode.c:62 | visiting more vertices never adds unvisited ones |
| DfsSpec.UnseenShrinks | problem_1/problem_1_DemoCode.c:62 | marking a vertex shrinks the unvisited set, so the recursion terminates |
| DfsSpec.Dfs | problem_1/problem_1_DemoCode.c:60-83 | DFS(u) leaves u visited and unvisits nothing |
| DfsSpec.DfsList | problem_1/problem_1_DemoCode.c:68-78 | the loop over a successor list unvisits nothing |
| DfsSpec.DfsListStep | problem_1/problem_1_DemoCode.c:69-77 | one turn of the list loop: a visited entry is skipped, an unvisited one explored |
| DfsSpec.DfsFrom | problem_1/problem_1_DemoCode.c:231-237 | initialize, then DFS(s): s is visited |
| DfsSpec.GrowsTrans | problem_1/problem_1_DemoCode.c:60-83 | the relation between a state and a later one composes |
| DfsSpec.DfsGrows | problem_1/problem_1_DemoCode.c:60-83 | DFS(u) stamps u first (time + 1) and last (the final time); stamps of old and still-unvisited vertices stay; new ones fall in between |
| DfsSpec.DfsListGrows | problem_1/problem_1_DemoCode.c:68-78 | the list loop only adds visited vertices, stamped within its time span |
| DfsSpec.ConsistentGrows | problem_1/problem_1_DemoCode.c:60-83 | consistency of flags and stamps survives a DFS step |
| DfsSpec.InitConsistent | problem_1/problem_1_DemoCode.c:86-93 | the initialised state is consistent and has nothing visited |
| DfsSpec.SeenMono | problem_1/problem_1_DemoCode.c:62 | the visited set only grows |
| DfsSpec.SeenMark | problem_1/problem_1_DemoCode.c:62 | marking one vertex adds exactly it |
| DfsSpec.DfsCount | problem_1/problem_1_DemoCode.c:63-81 | DFS(u) spends exactly two clock ticks per vertex it visits |
| DfsSpec.CountStep | problem_1/problem_1_DemoCode.c:63-81 | the clock arithmetic of one discovery, the subtree and one finish |
| DfsSpec.DfsListCount | problem_1/problem_1_DemoCode.c:68-78 | the list loop spends two ticks per vertex it visits |
| DfsSpec.DfsClosed | problem_1/problem_1_DemoCode.c:60-83 | after DFS(u) every successor of u is visited, and finished vertices have all successors visited |
| DfsSpec.DfsListClosed | problem_1/problem_1_DemoCode.c:68-78 | after the list loop every entry of the list is visited |
| DfsSpec.ReachSelf | problem_1/problem_1_DemoCode.c:62 | every vertex reaches itself |
| DfsSpec.ReachStep | problem_1/problem_1_DemoCode.c:70-73 | an edge u -> w followed by a path from w is a path from u |
| DfsSpec.DfsSound | problem_1/problem_1_DemoCode.c:60-83 | every vertex DFS(u) newly visits is reachable from u |
| DfsSpec.DfsListSound | problem_1/problem_1_DemoCode.c:68-78 | every vertex the list loop newly visits is reachable from some list entry |
| DfsSpec.FinishNested | problem_1/problem_1_DemoCode.c:81 | finishing u after its subtree keeps the intervals disjoint or nested, and a successor-less u finishes one tick after discovery |
| DfsSpec.DfsNested | problem_1/problem_1_DemoCode.c:60-83 | DFS keeps the [discovery, finish] intervals disjoint or nested |
| DfsSpec.DfsListNested | problem_1/problem_1_DemoCode.c:68-78 | the list loop keeps the intervals disjoint or nested |
| DfsSpec.TicksKept | problem_1/problem_1_DemoCode.c:63-81 | a stamp once given stays |
| DfsSpec.DfsTicks | problem_1/problem_1_DemoCode.c:63-81 | every clock value DFS(u) passes is the stamp of some visited vertex |
| DfsSpec.DfsListTicks | problem_1/problem_1_DemoCode.c:68-78 | every clock value the list loop passes is a stamp |
| DfsSpec.ClosedReach | problem_1/problem_1_DemoCode.c:60-83 | a finished visited set closed under successors contains every path from it |
| DfsSpec.DfsFromReach | problem_1/problem_1_DemoCode.c:60-83 | after initialize and DFS(s), a vertex is visited exactly when it is reachable from s along directed edges |
| DfsSpec.DfsFromTimes | problem_1/problem_1_DemoCode.c:63-81 | every visited vertex has 1 <= discovery < finish <= time, unvisited ones keep 0, and time is twice the number visited |
| DfsSpec.DfsFromTicks | problem_1/problem_1_DemoCode.c:63-81 | every value 1..time is a stamp, and distinct visited vertices never share a stamp |
| DfsSpec.DfsFromNested | problem_1/problem_1_DemoCode.c:60-83 | intervals are disjoint or nested, and a vertex without edges finishes one tick after discovery |
| SocialDfs.Graph.constructor | problem_1/problem_1_DemoCode.c:38-49 | `createGraph`: numUsers empty lists |
| SocialDfs.Graph.AddEdge | problem_1/problem_1_DemoCode.c:52-57 | dest goes to the head of src's list; no other list changes |
| SocialDfs.Recorder.constructor | problem_1/problem_1_DemoCode.c:24-27 | the zeroed globals |
| SocialDfs.Recorder.Initialize | problem_1/problem_1_DemoCode.c:86-93 | the first numUsers entries are cleared, the clock is 0, and later entries are unchanged |
| SocialDfs.Recorder.Dfs | problem_1/problem_1_DemoCode.c:60-83 | the recursive method leaves the globals exactly as the specification's DFS over the lists, newest edge first; entries at index numUsers and above are unchanged |
| SocialDfs.Recorder.AnalyzeInfluentialUsers | problem_1/problem_1_DemoCode.c:133-178 | deepestUser is the first visited user with the greatest discovery above 0, else -1; mostInfluential is the first visited user with the least duration below 999, else -1; the leaf list is exactly the visited users of duration 1, in order |
| SocialScenario.FollowVisit2 | problem_1/problem_1_DemoCode.c:222 | DFS(2) inside DFS(0) stamps 2 and 4 |
| SocialScenario.FollowVisit1 | problem_1/problem_1_DemoCode.c:219 | DFS(1) after 2's subtree stamps 1 and 3 |
| SocialScenario.FollowRun | problem_1/problem_1_DemoCode.c:211-237 | stamps 0:(1,10), 2:(2,5), 4:(3,4), 1:(6,9), 3:(7,8) |
| SocialScenario.BuildSample | problem_1/problem_1_DemoCode.c:211-222 | the built lists are [[2,1],[3],[4],[],[]] |
| SocialScenario.SampleDfs | problem_1/problem_1_DemoCode.c:231-237 | the recorder after the sample search holds those stamps |
| SocialScenario.RunSample | problem_1/problem_1_DemoCode.c:206-248 | the run's stamps, deepest user 3 (discovery 7), most influential user 3 (duration 1), and leaves [3, 4] |
| SocialScenario.IncreasingPair | problem_1/problem_1_DemoCode.c:172-176 | an increasing list holding exactly a < b is [a, b] |
| MatrixDfs.Successors | problem_1/problem_1.c:15-16 | the neighbours tried, all within from..n-1 |
| MatrixDfs.SuccessorsExact | problem_1/problem_1.c:15-16 | exactly the nonzero entries, each once, in increasing index order |
| MatrixDfs.MatrixGraph | problem_1/problem_1.c:15-16 | one successor list per vertex, naming vertices of the graph |
| MatrixDfs.MatrixGraphEdges | problem_1/problem_1.c:16 | v is a successor of u exactly when adj[u][v] is nonzero |
| MatrixDfs.MatrixStep | problem_1/problem_1.c:15-19 | one turn of the loop over v: explored when the entry is nonzero and v unvisited, skipped otherwise |
| MatrixDfs.MatrixSearch.constructor | problem_1/problem_1.c:5-8 | the zeroed globals |
| MatrixDfs.MatrixSearch.ClearMatrix | problem_1/problem_1.c:28-30 | every matrix entry is 0 |
| MatrixDfs.MatrixSearch.ClearVisited | problem_1/problem_1.c:39-40 | nothing is visited |
| MatrixDfs.MatrixSearch.Dfs | problem_1/problem_1.c:11-22 | the recursive method leaves the globals exactly as the specification's DFS over the matrix graph; entries at index n and above are unchanged |
| MatrixDfs.MatrixSearch.ExploreRow | problem_1/problem_1.c:15-19 | the loop over u's row is the specification's loop over u's successor list; entries at index n and above are unchanged |
| MatrixScenario.SampleGraph | problem_1/problem_1.c:33-36 | the filled matrix gives the lists [[1,2],[3],[4],[],[]] |
| MatrixScenario.MatrixVisit1 | problem_1/problem_1.c:43 | DFS(1) inside DFS(0) stamps 1 and 3 |
| MatrixScenario.MatrixVisit2 | problem_1/problem_1.c:43 | DFS(2) after 1's subtree stamps 2 and 4 |
| MatrixScenario.MatrixRun | problem_1/problem_1.c:43 | stamps 0:(1,10), 1:(2,5), 3:(3,4), 2:(6,9), 4:(7,8) |
| MatrixScenario.RunSample | problem_1/problem_1.c:24-49 | `main` prints discovery [1,2,6,3,7] and finish [10,5,9,4,8] |
| Dijkstra.CostNonNegative | problem_4/problem_4.c:33-34 | with non-negative weights every path costs at least 0 |
| Dijkstra.CostPrefix | problem_4/problem_4.c:33-34 | a prefix of a path costs no more than the path |
| Dijkstra.PathPrefix | problem_4/problem_4.c:31-34 | a prefix of a path from s is a path from s |
| Dijkstra.PathExtend | problem_4/problem_4.c:31-34 | a path to u plus the edge u -> v (nonzero entry) is a path to v costing graph[u][v] more |
| Dijkstra.CountVisited | problem_4/problem_4.c:27 | at most n vertices are visited |
| Dijkstra.CountMark | problem_4/problem_4.c:27 | marking an unvisited vertex adds one to the visited count |
| Dijkstra.CountNone | problem_4/problem_4.c:11 | nothing is visited after initialisation |
| Dijkstra.CountTwoUnvisited | problem_4/problem_4.c:16 | two unvisited vertices leave at most n - 2 visited |
| Dijkstra.CountOneUnvisited | problem_4/problem_4.c:16 | an unvisited vertex leaves at most n - 1 visited |
| Dijkstra.CountSomeUnvisited | problem_4/problem_4.c:16-25 | fewer than n visited leaves an unvisited vertex, so `u` is always assigned |
| Dijkstra.PickUnique | problem_4/problem_4.c:20-25 | the selected vertex is determined by dist and visited |
| Dijkstra.FirstPickIsSource | problem_4/problem_4.c:14-27 | the first vertex selected is src |
| Dijkstra.Relaxed | problem_4/problem_4.c:30-36 | distances never increase, visited ones are frozen, and every unvisited v with an edge from u ends at most dist[u] + graph[u][v] |
| Dijkstra.MinIsFinal | problem_4/problem_4.c:20-27 | the nearest unvisited vertex's distance is no more than any path to it |
| Dijkstra.FirstUnvisited | problem_4/problem_4.c:20-25 | a path that ends unvisited has a first unvisited vertex |
| Dijkstra.InvStep | problem_4/problem_4.c:16-37 | one round of select, mark and relax keeps the whole invariant |
| Dijkstra.WitnessStep | problem_4/problem_4.c:33-34 | an improved distance is the cost of the path to u extended by the edge to v |
| Dijkstra.SettledStep | problem_4/problem_4.c:27 | the selected vertex joins the visited set with its final distance |
| Dijkstra.RelaxedStep | problem_4/problem_4.c:30-36 | edges from visited to unvisited vertices stay relaxed |
| Dijkstra.LayeredStep | problem_4/problem_4.c:20-36 | no unvisited vertex is nearer than a visited one |
| Dijkstra.Dijkstra | problem_4/problem_4.c:5-44 | the distances are the least path costs from src capped at INF: each lies in [0, INF], one below INF is the cost of a path, and no path costs less |
| Dijkstra.Finish | problem_4/problem_4.c:16-37 | after n - 1 rounds the one vertex left unvisited has its final distance too |
| Dijkstra.Initialize | problem_4/problem_4.c:9-14 | every distance INF except dist[src] = 0, nothing visited |
| Dijkstra.InvStart | problem_4/problem_4.c:9-14 | the initialised arrays satisfy the invariant |
| Dijkstra.Round | problem_4/problem_4.c:16-36 | one outer iteration marks exactly the selected vertex and relaxes its row |
| Dijkstra.SelectMin | problem_4/problem_4.c:17-25 | the unvisited vertex of least dist, the highest-numbered on ties because of `<=` |
| Dijkstra.Relax | problem_4/problem_4.c:30-36 | the relaxation loop computes Relaxed, and its sums fit in 32 bits |
| Dijkstra.ShortestCappedUnique | problem_4/problem_4.c:16-37 | the capped least-cost table is unique |
| Dijkstra.InfIffUnreachable | problem_4/problem_4.c:10 | when every path costs less than INF, dist[v] is INF exactly when v is unreachable |

## Left out

- All console I/O: input, every `printf`, the menu loop and `displayMenu`, `printCityGraph`, `printGraph`, `printArray`, `displayTimestamps`, `analyzeReachability`, `analyzeTimeComplexity`, and the traversal-order printing inside the searches. Results are returned values instead; the shortest path is returned as a sequence.
- `malloc`/`free` and heap-allocated nodes. Linked lists are sequences and Huffman nodes are a datatype, so aliasing between nodes is not modelled.
- The per-entry `isBlocked` field of a road and the `id` field of an intersection are written but never read, and are not modelled. Block state lives only in `roadBlocked`.
- Capacity limits the C code never checks are preconditions: roads below MAX_ROADS and at most MAX_INTERSECTIONS intersections (road network), at most MAX_USERS users (`problem_1_DemoCode.c`), at most MAX = 5 vertices (`problem_1.c`), at most MAX = 20 vertices (Dijkstra), heap size at most MAX_CHAR, line characters in 1..127, and no overflow in `dist[u] + graph[u][v]`.
- Vertex indices are preconditions of the core operations. The road network checks them only in its menu code. The two DFS programs use only the fixed indices of their `main`, which lie in range. The Dijkstra program reads `n` and `src` with `scanf` and never checks them; the model requires 0 <= n <= MAX and 0 <= src < n.
- Selection.DemonstrateAlgorithm: requires 1 <= k <= n. `main` passes the k it reads without a check, and for any other k the source reads `sortedArr[k-1]` out of bounds, which is undefined behaviour in C. The -1 answer for such a k is modelled by Selection.FindKthLargest and Selection.QuickSelect.
- RoadScenario.RunTests: the city is assumed to be the fresh demo network, with nothing blocked. From the menu, `runTests` can also run after the user has blocked roads.
- RoadShortest.FindShortestPath: for start == end the source prints no path, and the model returns the empty path for that case.
- SocialDfs.Recorder.Dfs and MatrixDfs.MatrixSearch.Dfs: require the start vertex to be unvisited, as every call in the programs does. Stack depth is not modelled.
- Dijkstra.Dijkstra: weights must lie in [0, INT_MAX - INF]. The source accepts any `int`, including negative weights, where its result is not a shortest distance. The matrix is read as a sequence, and the distances are returned instead of printed.
- Dijkstra.SelectMin: the source leaves `u` uninitialised if no unvisited vertex has dist <= INF. With bounded distances and an unvisited vertex, which the outer loop guarantees, this cannot happen, so it is not modelled.
- HuffmanTree.BuildHuffmanTree: requires size >= 1. For an empty line the source calls `extractMin` on an empty heap.
- HuffmanHeap.MinHeap.ExtractMin: requires a non-empty heap, for the same reason.
- Huffman weights are modelled as C does: `newNode` converts each `int` freq to `unsigned` (HuffmanHeap.Unsigned), and a '$' node's sum wraps modulo 2^32. The `int` counts in `main` are unbounded integers; they stay below MAX_LEN, so they cannot overflow. The `unsigned size` of the heap is modelled as a non-negative integer, since it never exceeds MAX_CHAR.
- HuffmanMain.CodeTable: the rows of `codes` start empty. The source leaves them uninitialised and reads only the rows of symbols.
- HuffmanMain.CollectSymbols: returns the symbols as a sequence rather than a `char` buffer plus `symCount`.
- HuffmanMain.MainAsWritten and HuffmanMain.MainCorrected: take the line as an argument instead of reading it with `fgets`. They require 1 <= length < MAX_LEN with characters in 1..127, since a `char` above 127 would index `freq` negatively. Printing the encoded line is left out.
- HuffmanHeap.MinHeap.MinHeapify: does not state that slots at or after `size` are unchanged.

## Findings

| source | as written | input that shows it | evidently intended | confidence | as-written member | corrected member |
|---|---|---|---|---|---|---|
| problem_5/problem_5_demo.c:151 | `main` passes `freq`, indexed by character code, to `buildHuffmanTree`; `buildMinHeap` (:62) reads it by position, so leaf i weighs the count of code i, not of `symbols[i]` | the line "b": its one leaf weighs freq[0] = 0 instead of 1, and the root weighs 0 instead of the line length 1 | leaf i weighs freq[symbols[i]], so the tree is weighted by the real counts and the root weighs the line length | not executed | HuffmanMain.MainAsWritten (HuffmanMain.AsWrittenWeighsWrong) | HuffmanMain.MainCorrected |
