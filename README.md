# Four verified algorithm files: knapsack, adjacency-matrix graph, N-Queens, coin change

This project models four self-contained C++ algorithm files kept under
`hardwaresphere-api/uploads/` and proves what they compute:

- **Knapsack** (`knapsack.dfy`, module `Knapsack`): the 0/1 knapsack as plain recursion,
  as recursion that also reports the chosen items, and as bottom-up tabulation with
  backtracking; the unlimited knapsack (items may repeat) as recursion, as recursion with
  the chosen items, and as a memoised solver behind a wrapper. Each variant has one
  specification function (`KnapsackRecursive`, `UnlimitedBest`) and one for the list it
  reports (`KnapsackChoice`, `UnlimitedChoice`). Each imperative version is proved equal to
  them: the table invariant `dp[i, w] == KnapsackRecursive(items, w, i)` and the memo
  invariant "every entry is -1 or the best value". Both optima are proved (reached by the
  reported list, and no feasible selection does better). Items are 1-indexed: `items[0]` is
  an unused slot, as in the source.
- **Directed weighted graph** (`graph.dfy`, module `Graph`, class `DirectedWeightedGraph`):
  a bounded vertex array and a `maxVertices`-square weight matrix (`array2<int>`). The
  class invariant `Valid()` says three things: the live vertices have distinct items;
  every entry outside the live n-by-n block is `NULL_EDGE`; the arrays have the capacity's
  size. Every operation keeps it. Weights are read through `Weight(a, b)`, which is what
  `GetWeight` reports. `DeleteVertex` is proved to keep every surviving pair's weight and
  the survivors' order. The breadth-first traversal is specified by `Traverse`: the step
  function `Step` on (marks, queue, visit order), applied from the start state until the
  queue is empty (`Drain`). `BFT` is proved to end in exactly that state, so its visit
  order and its final marks are fixed, not only the set it visits. The loop keeps the
  invariant `TraversalInv`. From a present start vertex, the VISITED vertices at the end
  are exactly those reachable from it.
- **N-Queens** (`n_queens.dfy`, module `NQueens`): `All(n, p)` lists every solution that
  extends the partial board `p`, in the order the search meets them. `Run(n, p, found)` is
  the search as written, with the global counter and the cutoff at `MAX_SOLUTIONS` (4).
  The class `Search` holds the program's globals: the counter, and the recorded boards in
  place of the printing. `PlaceQueens` writes the board array `Q` in place and is proved
  to follow `Run`. The proofs show what `Run` records from an empty board: the first
  min(4, total) solutions, in strictly increasing lexicographic order, all of them
  non-attacking.
- **Coin change** (`coin_change.dfy`, module `CoinChange`): the depth-first search over the
  denominations. With positive coins it answers yes exactly when the target is a finite sum
  of denominations with repetition. On yes it appends such a sum to `coinsUsed`; on no it
  leaves the list alone.

The source passes several things by reference. `coinsUsed`, `canMake`, the graph's queue
`nq` and the `chosen` list of the plain 0/1 recursion are each modelled as a value passed
in and returned with its new contents. `KnapsackTabulationFull` and
`UnlimitedKnapsackRecursiveFull` take no list and only return one. The first clears the
caller's list before it writes anything. The second assigns the list wholesale on both of
its paths. So the list's old contents never reach the result. A few source bodies are split into helper methods so that each proof stays
small:
- `DeleteVertex` into `RemoveAt`, `RemoveRowAndColumn` and one method per pass;
- `BFT` into `ResetMarks`, `RunQueue` (the loop) and `VisitFront` (one pass);
- `GetNeighbors` into the search and `EnqueueSuccessors` (the scan);
- the two tabulations share `FillTable`;
- `PlaceQueens` calls `PlaceAndDescend` (placing a queen and recursing) and `CheckColumn`
  (the conflict loop).

Each helper does exactly what the lines it replaces do.

## Model

| member | source | states |
|---|---|---|
| Knapsack.NoDecisionChoosesNothing | hardwaresphere-api/uploads/projectFiles-1753119987442-860912534.cpp:41-53 | when the recursion never reaches an include-or-exclude decision (capacity 0, no items, or every remaining item too heavy), the best value is 0 and the reported list is empty |
| Knapsack.KnapsackChoice | hardwaresphere-api/uploads/projectFiles-1753119987442-860912534.cpp:41-77 | the list the recursion reports holds strictly ascending indices in 1..n: item n is appended only after the list chosen from items below n |
| Knapsack.KnapsackChoiceTotals | hardwaresphere-api/uploads/projectFiles-1753119987442-860912534.cpp:41-77 | the reported list weighs at most the capacity (the code compares with <=) and its values add up to the recursion's value |
| Knapsack.KnapsackChoiceSound | hardwaresphere-api/uploads/projectFiles-1753119987442-860912534.cpp:37-78 | the reported list is a feasible selection of distinct items 1..n whose values add up to the best value |
| Knapsack.KnapsackRecursive | hardwaresphere-api/uploads/projectFiles-1753119987442-860912534.cpp:12-30 | the plain recursion never returns a negative value, whatever the item values: capacity 0 and item 0 give 0, and the exclude branch is always one of the candidates |
| Knapsack.KnapsackUpperBound | hardwaresphere-api/uploads/projectFiles-1753119987442-860912534.cpp:12-30 | no selection of distinct items from 1..n within the capacity has a larger total value than the recursion |
| Knapsack.KnapsackOptimal | hardwaresphere-api/uploads/projectFiles-1753119987442-860912534.cpp:12-30 | the 0/1 recursion computes the optimum: its value is reached by a feasible selection and bounds every feasible selection |
| Knapsack.KnapsackRecursiveFull | hardwaresphere-api/uploads/projectFiles-1753119987442-860912534.cpp:37-78 | returns the plain recursion's value; the caller's list is overwritten exactly when a decision is reached (ties go to "exclude"), so a list passed in empty comes back as the feasible optimal choice |
| Knapsack.TableCell | hardwaresphere-api/uploads/projectFiles-1753119987442-860912534.cpp:98-110 | the recurrence one cell of row i follows: the cell above when the item is heavier than w, otherwise the larger of the cell above and the cell above at w - weight plus the value |
| Knapsack.FillTable | hardwaresphere-api/uploads/projectFiles-1753119987442-860912534.cpp:90-112 | after the nested loops every cell dp[i, w] equals the recursion's value for items 1..i and capacity w |
| Knapsack.KnapsackTabulation | hardwaresphere-api/uploads/projectFiles-1753119987442-860912534.cpp:84-116 | returns the recursion's value for all items and the full capacity |
| Knapsack.BacktrackStep | hardwaresphere-api/uploads/projectFiles-1753119987442-860912534.cpp:158-170 | one backtracking step: item i is taken exactly when it fits the remaining capacity and its row differs from the row above, which is the choice the recursion reports |
| Knapsack.BacktrackKeeps | hardwaresphere-api/uploads/projectFiles-1753119987442-860912534.cpp:158-170 | one backtracking step keeps "the whole reported list is the list for the remaining capacity and items 1..i followed by the items taken so far", whether item i is taken or not |
| Knapsack.KnapsackTabulationFull | hardwaresphere-api/uploads/projectFiles-1753119987442-860912534.cpp:124-176 | returns the best value and, after the reversal, the same list the recursion reports: ascending indices, within the capacity, values adding up to the returned value |
| Knapsack.UnlimitedBest | hardwaresphere-api/uploads/projectFiles-1753119987442-860912534.cpp:184-215 | the best value with repetition is never negative |
| Knapsack.UnlimitedScan | hardwaresphere-api/uploads/projectFiles-1753119987442-860912534.cpp:196-212 | the loop's running maximum is never negative: it starts at 0 and only takes larger candidates |
| Knapsack.UnlimitedChoice | hardwaresphere-api/uploads/projectFiles-1753119987442-860912534.cpp:221-267 | the list the recursion reports holds only indices of real items, 1..size-1 |
| Knapsack.UnlimitedChoiceScan | hardwaresphere-api/uploads/projectFiles-1753119987442-860912534.cpp:235-259 | the list the loop keeps after trying items 1..i-1 holds only indices 1..size-1: an earlier best list followed by the index that beat it |
| Knapsack.ScanWithoutRoom | hardwaresphere-api/uploads/projectFiles-1753119987442-860912534.cpp:300-316 | at capacity 0 no item fits (weights are positive), so the loop's maximum stays 0 |
| Knapsack.ScanDominates | hardwaresphere-api/uploads/projectFiles-1753119987442-860912534.cpp:196-212 | the running maximum is at least every candidate the loop has tried |
| Knapsack.UnlimitedDominates | hardwaresphere-api/uploads/projectFiles-1753119987442-860912534.cpp:196-212 | for every item that fits, the best value is at least its value plus the best value for the remaining capacity |
| Knapsack.UnlimitedChoiceScanSound | hardwaresphere-api/uploads/projectFiles-1753119987442-860912534.cpp:235-259 | the list kept by the loop after trying items 1..i-1 is within the capacity and its values add up to the running maximum |
| Knapsack.UnlimitedChoiceSound | hardwaresphere-api/uploads/projectFiles-1753119987442-860912534.cpp:221-267 | the reported multiset of indices lies in 1..size-1, fits the capacity and its values add up to the best value |
| Knapsack.UnlimitedUpperBound | hardwaresphere-api/uploads/projectFiles-1753119987442-860912534.cpp:184-215 | no multiset of items within the capacity has a larger total value than the unlimited recursion |
| Knapsack.UnlimitedOptimal | hardwaresphere-api/uploads/projectFiles-1753119987442-860912534.cpp:184-267 | the unlimited recursion computes the optimum over multisets, reached by the reported list |
| Knapsack.UnlimitedKnapsackRecursive | hardwaresphere-api/uploads/projectFiles-1753119987442-860912534.cpp:184-215 | the loop-and-recursion method returns the best value with repetition |
| Knapsack.UnlimitedKnapsackRecursiveFull | hardwaresphere-api/uploads/projectFiles-1753119987442-860912534.cpp:221-267 | returns the best value and the list the strict `>` keeps (the earlier item on ties), which is feasible and adds up to that value |
| Knapsack.UnlimitedKnapsackMemoized | hardwaresphere-api/uploads/projectFiles-1753119987442-860912534.cpp:288-322 | returns the best value for its capacity and records it in K; every entry stays -1 or correct, and no computed entry changes |
| Knapsack.UnlimitedKnapsackWrapper | hardwaresphere-api/uploads/projectFiles-1753119987442-860912534.cpp:273-284 | a table with K[0] = 0 and -1 elsewhere is a valid memo, so the wrapper returns the best value with repetition |
| Graph.Position | hardwaresphere-api/uploads/projectFiles-1752831373885-271303288.cpp:224-236 | the first index holding the item, or -1 exactly when the item is absent |
| Graph.PositionFirst | hardwaresphere-api/uploads/projectFiles-1752831373885-271303288.cpp:226-233 | an index holding the item with no earlier occurrence is the one the search returns |
| Graph.PositionOfDistinct | hardwaresphere-api/uploads/projectFiles-1752831373885-271303288.cpp:224-236 | in a list without repetitions the search finds each entry at its own index |
| Graph.RemoveIndexing | hardwaresphere-api/uploads/projectFiles-1752831373885-271303288.cpp:127-130 | after the shift, entry k of the vertex list is the old entry at Skip(k, p) |
| Graph.PositionAfterRemove | hardwaresphere-api/uploads/projectFiles-1752831373885-271303288.cpp:127-130 | removing the vertex at p moves every later vertex one index down and leaves earlier ones in place |
| Graph.PositionsAfterRemove | hardwaresphere-api/uploads/projectFiles-1752831373885-271303288.cpp:121-159 | after removing the vertex at p every other item is still present exactly when it was, at the index that maps back to its old one |
| Graph.DistinctRemove | hardwaresphere-api/uploads/projectFiles-1752831373885-271303288.cpp:127-130 | removing a vertex keeps the vertices pairwise distinct |
| Graph.MarkQueued | hardwaresphere-api/uploads/projectFiles-1752831373885-271303288.cpp:317-325 | after the scan each vertex is QUEUED when it was DEFAULT and has an edge from the current vertex, and keeps its mark otherwise |
| Graph.Pushed | hardwaresphere-api/uploads/projectFiles-1752831373885-271303288.cpp:317-325 | the copies pushed while scanning the first j entries are at most j, and every one of them is marked QUEUED |
| Graph.ReachableStep | hardwaresphere-api/uploads/projectFiles-1752831373885-271303288.cpp:317-325 | following an edge from a reachable vertex reaches its successor |
| Graph.VerticesAfterScan | hardwaresphere-api/uploads/projectFiles-1752831373885-271303288.cpp:317-325 | vertices that keep their items and take the scan's marks have the items and the marks the scan specifies |
| Graph.PushedCount | hardwaresphere-api/uploads/projectFiles-1752831373885-271303288.cpp:317-325 | the number of copies pushed equals the number of DEFAULT marks the scan turns into QUEUED |
| Graph.PushedFromDefault | hardwaresphere-api/uploads/projectFiles-1752831373885-271303288.cpp:320-323 | every pushed copy is QUEUED and copies a successor of the current vertex that was DEFAULT |
| Graph.PushedCovers | hardwaresphere-api/uploads/projectFiles-1752831373885-271303288.cpp:320-323 | every successor that was DEFAULT is pushed |
| Graph.PushedDistinct | hardwaresphere-api/uploads/projectFiles-1752831373885-271303288.cpp:320-323 | the copies pushed by one scan are of distinct vertices |
| Graph.CountDefaultUpdate | hardwaresphere-api/uploads/projectFiles-1752831373885-271303288.cpp:281-292 | changing a mark that is not DEFAULT into another that is not leaves the number of DEFAULT marks alone |
| Graph.StartMarks | hardwaresphere-api/uploads/projectFiles-1752831373885-271303288.cpp:337-345 | the marks when the loop starts: the start vertex QUEUED, every other vertex DEFAULT |
| Graph.Step | hardwaresphere-api/uploads/projectFiles-1752831373885-271303288.cpp:350-366 | one pass keeps the state well-formed, keeps the items visited so far as a prefix of the order and adds at most one |
| Graph.VisitAt | hardwaresphere-api/uploads/projectFiles-1752831373885-271303288.cpp:357-366 | visiting the front copy of the vertex at q marks q VISITED, adds exactly one item to the order, and keeps the rest of the queue ahead of the copies GetNeighbors pushes |
| Graph.TraversalStart | hardwaresphere-api/uploads/projectFiles-1752831373885-271303288.cpp:337-345 | after the reset and the marking of the start vertex QUEUED, with the start copy alone in the queue, the traversal invariant holds |
| Graph.StartReachedAtStart | hardwaresphere-api/uploads/projectFiles-1752831373885-271303288.cpp:337-345 | at the start only the start vertex has left DEFAULT, and it reaches itself |
| Graph.StepSkip | hardwaresphere-api/uploads/projectFiles-1752831373885-271303288.cpp:353-357 | popping a copy marked VISITED (only the start copy can be) keeps the invariant and shortens the queue |
| Graph.StepAbsent | hardwaresphere-api/uploads/projectFiles-1752831373885-271303288.cpp:357-366 | popping a copy of an item that is not a vertex (only the start copy can be) visits it, keeps the invariant and shortens the queue |
| Graph.VisitMarks | hardwaresphere-api/uploads/projectFiles-1752831373885-271303288.cpp:357-366 | after a visit at q: a vertex is VISITED exactly when it is q or was VISITED; QUEUED exactly when it was QUEUED or a DEFAULT successor of q; DEFAULT otherwise |
| Graph.FrontFacts | hardwaresphere-api/uploads/projectFiles-1752831373885-271303288.cpp:350-357 | a popped copy of a vertex not marked VISITED belongs to a QUEUED vertex and every copy behind it belongs to another QUEUED vertex |
| Graph.StepUnrepeated | hardwaresphere-api/uploads/projectFiles-1752831373885-271303288.cpp:350-366 | after a visit no item is visited twice, queued twice, or queued after its visit |
| Graph.StepQueueCopies | hardwaresphere-api/uploads/projectFiles-1752831373885-271303288.cpp:350-366 | after a visit every queued copy belongs to a QUEUED vertex and is not marked VISITED |
| Graph.StepQueuedInQueue | hardwaresphere-api/uploads/projectFiles-1752831373885-271303288.cpp:350-366 | after a visit every QUEUED vertex still has a copy in the queue |
| Graph.StepVisitedOrder | hardwaresphere-api/uploads/projectFiles-1752831373885-271303288.cpp:350-366 | after a visit the VISITED vertices are exactly the visited items |
| Graph.StepClosed | hardwaresphere-api/uploads/projectFiles-1752831373885-271303288.cpp:350-366 | after a visit no VISITED vertex has a DEFAULT successor |
| Graph.StepStartReached | hardwaresphere-api/uploads/projectFiles-1752831373885-271303288.cpp:350-366 | after a visit only vertices reachable from the start vertex have left DEFAULT |
| Graph.StepStartsWith | hardwaresphere-api/uploads/projectFiles-1752831373885-271303288.cpp:350-366 | after a visit the start item is still the first item visited |
| Graph.StepVisitCount | hardwaresphere-api/uploads/projectFiles-1752831373885-271303288.cpp:350-366 | a visit lowers the number of DEFAULT marks or shortens the queue, so the loop ends |
| Graph.StepVisit | hardwaresphere-api/uploads/projectFiles-1752831373885-271303288.cpp:350-366 | a visit of a QUEUED vertex keeps the whole traversal invariant and makes progress |
| Graph.StepKeeps | hardwaresphere-api/uploads/projectFiles-1752831373885-271303288.cpp:347-367 | every pass of the loop keeps the traversal invariant and makes progress |
| Graph.TraversalDone | hardwaresphere-api/uploads/projectFiles-1752831373885-271303288.cpp:334-369 | with the queue empty: nothing is visited twice; the start item is visited first; no vertex stays QUEUED; the VISITED vertices are exactly the visited ones and exactly those reachable from the start vertex |
| Graph.Drain | hardwaresphere-api/uploads/projectFiles-1752831373885-271303288.cpp:347-367 | the loop run to its end from any state that satisfies the invariant: the queue is empty, the invariant holds and the earlier visits are a prefix of the order |
| Graph.DrainStep | hardwaresphere-api/uploads/projectFiles-1752831373885-271303288.cpp:347-367 | one pass keeps the invariant, lowers the number of DEFAULT marks or shortens the queue, and does not change the state the loop ends in |
| Graph.Traverse | hardwaresphere-api/uploads/projectFiles-1752831373885-271303288.cpp:334-369 | the state the whole traversal from a start copy ends in: empty queue and the traversal invariant |
| Graph.TraverseTrivialStarts | hardwaresphere-api/uploads/projectFiles-1752831373885-271303288.cpp:343-366 | from a start copy marked VISITED nothing is visited and the start vertex stays QUEUED; from a start copy whose item is not a vertex only that item is visited and every mark stays DEFAULT |
| Graph.ExampleFirstPass | hardwaresphere-api/uploads/projectFiles-1752831373885-271303288.cpp:350-366 | on the graph 10 -> 11, 10 -> 12 the first pass visits 10 and pushes 11 then 12, in index order |
| Graph.ExampleSecondPass | hardwaresphere-api/uploads/projectFiles-1752831373885-271303288.cpp:350-366 | the second pass of that example visits 11 and pushes nothing |
| Graph.ExampleThirdPass | hardwaresphere-api/uploads/projectFiles-1752831373885-271303288.cpp:350-366 | the third pass of that example visits 12 and empties the queue |
| Graph.TraverseExample | hardwaresphere-api/uploads/projectFiles-1752831373885-271303288.cpp:334-369 | the traversal of that example from 10 visits 10, 11, 12 in that order and leaves all three VISITED |
| Graph.PathStaysVisited | hardwaresphere-api/uploads/projectFiles-1752831373885-271303288.cpp:347-367 | once the queue is empty, the end of a path that starts at a VISITED vertex is VISITED |
| Graph.NullMatrix | hardwaresphere-api/uploads/projectFiles-1752831373885-271303288.cpp:17-27 | a max-by-max matrix whose every entry is NULL_EDGE |
| Graph.DirectedWeightedGraph.constructor | hardwaresphere-api/uploads/projectFiles-1752831373885-271303288.cpp:8-28 | capacity MAX_VERTEX, no vertices, every matrix entry NULL_EDGE |
| Graph.DirectedWeightedGraph.WithCapacity | hardwaresphere-api/uploads/projectFiles-1752831373885-271303288.cpp:32-51 | the given capacity, no vertices, every matrix entry NULL_EDGE |
| Graph.DirectedWeightedGraph.IsEmpty | hardwaresphere-api/uploads/projectFiles-1752831373885-271303288.cpp:72-75 | true exactly when there are no vertices |
| Graph.DirectedWeightedGraph.IsFull | hardwaresphere-api/uploads/projectFiles-1752831373885-271303288.cpp:79-82 | true exactly when the vertex count equals the capacity |
| Graph.DirectedWeightedGraph.GetNumberOfVertices | hardwaresphere-api/uploads/projectFiles-1752831373885-271303288.cpp:375-378 | the number of live vertices |
| Graph.DirectedWeightedGraph.IndexIs | hardwaresphere-api/uploads/projectFiles-1752831373885-271303288.cpp:224-236 | the index of the first vertex whose item equals v's, or -1 exactly when there is none |
| Graph.DirectedWeightedGraph.VertexExists | hardwaresphere-api/uploads/projectFiles-1752831373885-271303288.cpp:218-221 | true exactly when v's item is a vertex |
| Graph.DirectedWeightedGraph.AddVertex | hardwaresphere-api/uploads/projectFiles-1752831373885-271303288.cpp:88-96 | a no-op when the graph is full or already holds v's item; otherwise v is appended marked DEFAULT and the count goes up; the vertices stay distinct |
| Graph.DirectedWeightedGraph.AddEdge | hardwaresphere-api/uploads/projectFiles-1752831373885-271303288.cpp:103-112 | with both endpoints present the weight of v1 -> v2 becomes w; no other matrix entry and no other weight changes |
| Graph.DirectedWeightedGraph.DeleteEdge | hardwaresphere-api/uploads/projectFiles-1752831373885-271303288.cpp:167-176 | afterwards v1 -> v2 has weight NULL_EDGE; no other matrix entry and no other weight changes |
| Graph.DirectedWeightedGraph.GetWeight | hardwaresphere-api/uploads/projectFiles-1752831373885-271303288.cpp:185-198 | the stored weight of v1 -> v2, and NULL_EDGE when an endpoint is missing |
| Graph.DirectedWeightedGraph.EdgeExists | hardwaresphere-api/uploads/projectFiles-1752831373885-271303288.cpp:204-214 | true exactly when the weight of v1 -> v2 is not NULL_EDGE, which needs both endpoints present |
| Graph.DirectedWeightedGraph.DeleteVertex | hardwaresphere-api/uploads/projectFiles-1752831373885-271303288.cpp:121-159 | on an absent vertex nothing changes; otherwise the vertex goes, the count drops by one, the others keep their order, every surviving pair keeps its weight and the freed row and column are NULL_EDGE |
| Graph.DirectedWeightedGraph.RemoveAt | hardwaresphere-api/uploads/projectFiles-1752831373885-271303288.cpp:125-158 | the four passes and the decrement: the item list loses entry p, the live block loses row and column p, everything outside it is NULL_EDGE |
| Graph.DirectedWeightedGraph.RemoveRowAndColumn | hardwaresphere-api/uploads/projectFiles-1752831373885-271303288.cpp:133-155 | the three matrix passes: the live block loses row and column p and the freed row and column become NULL_EDGE |
| Graph.DirectedWeightedGraph.ShiftVerticesDown | hardwaresphere-api/uploads/projectFiles-1752831373885-271303288.cpp:127-130 | vertices after p move one place down; the rest stay |
| Graph.DirectedWeightedGraph.ShiftRowsUp | hardwaresphere-api/uploads/projectFiles-1752831373885-271303288.cpp:133-139 | live rows after p move one row up; the rest stay |
| Graph.DirectedWeightedGraph.ShiftColumnsLeft | hardwaresphere-api/uploads/projectFiles-1752831373885-271303288.cpp:142-148 | live columns after p move one column left in the first n-1 rows; the rest stay |
| Graph.DirectedWeightedGraph.ClearLastRowAndColumn | hardwaresphere-api/uploads/projectFiles-1752831373885-271303288.cpp:151-155 | the last live row and column become NULL_EDGE; the rest stay |
| Graph.DirectedWeightedGraph.EdgesBeforeNext | hardwaresphere-api/uploads/projectFiles-1752831373885-271303288.cpp:387-392 | scanning one entry adds one to the count exactly when it holds an edge |
| Graph.DirectedWeightedGraph.EdgesBeforeNextRow | hardwaresphere-api/uploads/projectFiles-1752831373885-271303288.cpp:385-386 | moving to the next row adds nothing |
| Graph.DirectedWeightedGraph.EdgesBeforeAll | hardwaresphere-api/uploads/projectFiles-1752831373885-271303288.cpp:385-394 | after the last row the scanned entries are all live pairs joined by an edge |
| Graph.DirectedWeightedGraph.GetNumberOfEdges | hardwaresphere-api/uploads/projectFiles-1752831373885-271303288.cpp:382-396 | the number of live entries that are not NULL_EDGE |
| Graph.DirectedWeightedGraph.MarkVertex | hardwaresphere-api/uploads/projectFiles-1752831373885-271303288.cpp:281-292 | only the mark of the first vertex holding v's item changes, to m; nothing changes when there is none |
| Graph.DirectedWeightedGraph.GetNeighbors | hardwaresphere-api/uploads/projectFiles-1752831373885-271303288.cpp:301-327 | for a present vertex, every DEFAULT successor becomes QUEUED and a QUEUED copy of it is pushed, in index order; for an absent one nothing changes |
| Graph.DirectedWeightedGraph.EnqueueSuccessors | hardwaresphere-api/uploads/projectFiles-1752831373885-271303288.cpp:315-326 | the scan of the row: each vertex keeps its item and takes the mark the scan leaves, and the pushed copies are the DEFAULT successors |
| Graph.DirectedWeightedGraph.ResetMarks | hardwaresphere-api/uploads/projectFiles-1752831373885-271303288.cpp:337-340 | every live mark becomes DEFAULT; items unchanged |
| Graph.DirectedWeightedGraph.VisitFront | hardwaresphere-api/uploads/projectFiles-1752831373885-271303288.cpp:347-366 | one pass of the loop does exactly what the traversal step specifies |
| Graph.DirectedWeightedGraph.RunQueue | hardwaresphere-api/uploads/projectFiles-1752831373885-271303288.cpp:347-367 | the loop ends in exactly the state `Drain` gives: its final marks and visit order are those of the step function applied until the queue is empty |
| Graph.DirectedWeightedGraph.BFT | hardwaresphere-api/uploads/projectFiles-1752831373885-271303288.cpp:334-369 | the final marks and the visit order are exactly those of `Traverse` from v over the matrix; the visit order has no repetitions and starts with v; a copy of v already VISITED visits nothing; from a present v the VISITED vertices are exactly the visited ones and exactly those reachable from v, and none stays QUEUED |
| NQueens.All | hardwaresphere-api/uploads/projectFiles-1752639379495-544167831.cpp:21-86 | every board the search without the cutoff lists from a partial board has length n and extends that board |
| NQueens.AllFrom | hardwaresphere-api/uploads/projectFiles-1752639379495-544167831.cpp:58-85 | every board the column loop without the cutoff lists has length n and extends the partial board |
| NQueens.RunCounter | hardwaresphere-api/uploads/projectFiles-1752639379495-544167831.cpp:21-86 | whatever the counter starts at, a call raises it by exactly the number of boards it records, and from below MAX_SOLUTIONS it never goes past it |
| NQueens.RunFromCounter | hardwaresphere-api/uploads/projectFiles-1752639379495-544167831.cpp:58-85 | the column loop raises the counter by exactly the number of boards it records, and from below MAX_SOLUTIONS it never goes past it |
| NQueens.RunTakesFirst | hardwaresphere-api/uploads/projectFiles-1752639379495-544167831.cpp:21-86 | with the counter below the cutoff, the boards recorded from a partial board are the first ones the full search lists, and the counter grows by their number |
| NQueens.RunFromTakesFirst | hardwaresphere-api/uploads/projectFiles-1752639379495-544167831.cpp:58-85 | the column loop records the first boards of the full search from that column on, stopping at the cutoff |
| NQueens.LegalExtends | hardwaresphere-api/uploads/projectFiles-1752639379495-544167831.cpp:63-76 | a column accepted by the conflict check keeps the partial board non-attacking |
| NQueens.NonAttackingIsLegal | hardwaresphere-api/uploads/projectFiles-1752639379495-544167831.cpp:63-72 | every queen of a non-attacking board passes the conflict check against the rows above |
| NQueens.AllSound | hardwaresphere-api/uploads/projectFiles-1752639379495-544167831.cpp:23-55 | every board the full search records from a partial board is a solution extending it |
| NQueens.AllFromSound | hardwaresphere-api/uploads/projectFiles-1752639379495-544167831.cpp:58-85 | every board the column loop records extends the partial board with a column no smaller than the loop's start |
| NQueens.LexLessAfterPrefix | hardwaresphere-api/uploads/projectFiles-1752639379495-544167831.cpp:58 | boards agreeing on a prefix are ordered by their next column |
| NQueens.AllSorted | hardwaresphere-api/uploads/projectFiles-1752639379495-544167831.cpp:58-85 | the full search records boards in strictly increasing lexicographic order |
| NQueens.AllFromSorted | hardwaresphere-api/uploads/projectFiles-1752639379495-544167831.cpp:58-85 | the column loop records boards in strictly increasing lexicographic order |
| NQueens.AllComplete | hardwaresphere-api/uploads/projectFiles-1752639379495-544167831.cpp:21-86 | every solution extending the partial board is recorded by the full search |
| NQueens.AllFromComplete | hardwaresphere-api/uploads/projectFiles-1752639379495-544167831.cpp:58-85 | every solution extending the partial board with a column from the loop's start on is recorded |
| NQueens.AllSolutions | hardwaresphere-api/uploads/projectFiles-1752639379495-544167831.cpp:21-86 | without the cutoff the search from the empty board records exactly the solutions, in increasing order |
| NQueens.RunFromEmptyBoard | hardwaresphere-api/uploads/projectFiles-1752639379495-544167831.cpp:10-13 | from a zero counter the recorded boards are the first min(4, total) solutions in lexicographic order, and the counter is their number |
| NQueens.Search.constructor | hardwaresphere-api/uploads/projectFiles-1752639379495-544167831.cpp:9-10 | the counter starts at 0 with nothing recorded |
| NQueens.Search.PlaceQueens | hardwaresphere-api/uploads/projectFiles-1752639379495-544167831.cpp:21-86 | rows 1..r-1 of Q are unchanged and the counter and recorded boards follow the search with its cutoff |
| NQueens.Search.PlaceAndDescend | hardwaresphere-api/uploads/projectFiles-1752639379495-544167831.cpp:76-77 | placing the queen and recursing records what the search from the extended board records |
| NQueens.CheckColumn | hardwaresphere-api/uploads/projectFiles-1752639379495-544167831.cpp:60-72 | the loop with its early exit accepts the column exactly when no earlier queen shares its column or a diagonal |
| NQueens.FirstSolutions | hardwaresphere-api/uploads/projectFiles-1752639379495-544167831.cpp:90-95 | the run on an empty board records at most four solutions, the first ones in lexicographic order, and counts them |
| CoinChange.SumOfPositiveCoins | hardwaresphere-api/uploads/projectFiles-1752662825960-271304343.cpp:23-32 | a list of positive denominations sums to a non-negative value, a positive one when non-empty |
| CoinChange.Witness | hardwaresphere-api/uploads/projectFiles-1752662825960-271304343.cpp:10-36 | the search pushes at most t coins for target t (every coin is at least 1), and pushes none exactly when t is 0 |
| CoinChange.WitnessFrom | hardwaresphere-api/uploads/projectFiles-1752662825960-271304343.cpp:23-32 | the loop from index i pushes between 1 and t coins, the last one being a denomination at index i or later |
| CoinChange.WitnessSound | hardwaresphere-api/uploads/projectFiles-1752662825960-271304343.cpp:23-32 | the coins the search pushes are all denominations and add up to the target |
| CoinChange.WitnessFromSound | hardwaresphere-api/uploads/projectFiles-1752662825960-271304343.cpp:23-32 | the coins pushed by the loop from index i on are denominations adding up to the target |
| CoinChange.MakeableFrom | hardwaresphere-api/uploads/projectFiles-1752662825960-271304343.cpp:23-32 | the loop over the denominations from index i answers yes exactly when some coin at index i or later leaves a makeable remainder |
| CoinChange.RepresentableIsMakeable | hardwaresphere-api/uploads/projectFiles-1752662825960-271304343.cpp:10-36 | every way of writing the target as a sum of denominations makes the search answer yes |
| CoinChange.MakeableIffRepresentable | hardwaresphere-api/uploads/projectFiles-1752662825960-271304343.cpp:10-36 | with positive coins the search answers yes exactly when the target is a finite sum of denominations, repetition allowed |
| CoinChange.CoinChange | hardwaresphere-api/uploads/projectFiles-1752662825960-271304343.cpp:10-36 | returns whether the target is makeable; on yes the coin list gains coins that are denominations summing to the target and canMake is true; on no the list is unchanged, and canMake is false for a positive target and untouched for a negative one |

## Left out

- Output: `DirectedWeightedGraph::Print` (hardwaresphere-api/uploads/projectFiles-1752831373885-271303288.cpp:242-276) only prints and is not modelled. BFT's printed items are its returned `order`. PlaceQueens' printed boards are the `solutions` sequence. The prints in `main` of the N-Queens file are dropped, and its run is `FirstSolutions`.
- Memory management: `new`/`delete` and the graph's destructor (lines 55-67) are not modelled. The arrays are Dafny arrays allocated by the constructors.
- The headers `knapsack_func.h` and `DirectedWeightedGraph.h` are not part of this model:
  - `Item` is a (weight, value) record.
  - `VertexType` is an (item, mark) record whose `ComparedTo(...) == EQUAL` is equality of items.
  - `NULL_EDGE` is taken as 0 and `MAX_VERTEX` as 50. No proof depends on these values beyond `MAX_VERTEX >= 0`.
- Integer overflow: C++ `int` is modelled as an unbounded integer. The preconditions stand in for the source's assumptions: positive weights and coins, non-negative values, a non-negative capacity where a table of capacity + 1 cells is allocated.
- Non-termination: without positive item weights the unlimited recursion never ends, and without positive coins the coin search never ends. Those inputs are excluded by `ValidItems` and `PositiveCoins` rather than modelled.
- Graph.DirectedWeightedGraph.WithCapacity: requires a non-negative capacity, since `new` of a negative size is not a valid C++ array allocation.
- Graph.DirectedWeightedGraph.BFT: its `ensures` do not say outright that each vertex is enqueued at most once. That fact is part of the loop invariant instead (`Graph.StepUnrepeated`: no item has two copies in the queue, and none is queued after it is visited), together with the rule that only DEFAULT vertices are pushed and no mark returns to DEFAULT.
- The source's queue is a `std::queue` passed by reference. The model's queue is a sequence of vertex copies, which keeps the source's behaviour that a copy carries the mark it had when it was pushed.
