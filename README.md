# Sokoban solver core, modelled in Dafny

This project models the core of a Python Sokoban solver. It has three parts:

- `sokoban.py`: the warehouse of walls, targets, boxes and a worker. It is parsed from text, copied, rendered to text, compared and hashed.
- `puzzler.py`: the Sokoban puzzle as a search problem, with its legal moves, move result and two goal tests. It also holds the taboo-cell rules, `check_action_seq`, `solve_sokoban_elem` and `can_go_there`.
- `search.py`: the search library under the puzzle. It has the LIFO, FIFO and priority-queue frontiers, the problem interface and search-tree nodes, and tree and graph search with their breadth-first and depth-first wrappers. It also has best-first search (uniform cost, greedy, A*), depth-limited search and iterative deepening.

Modules, one per file:

| file | module | models |
|---|---|---|
| common.dfy | Common | `Option`, grid cells, Python's `min`/`max`/`str.count`/`"\n".join` |
| folds.dfy | Folds | `functools.reduce` on a non-empty list, and why its value ignores order under a commutative, associative operator |
| xor_laws.dfy | XorLaws | `operator.xor` on 64-bit hash values, commutative and associative |
| warehouse.dfy | Warehouses | `find_1D_iterator`, `find_2D_iterator`, `Warehouse.copy`, `extract_locations`, `__str__`, `__eq__`, `__hash__` |
| taboo.dfy | TabooRules | `gen_taboos`, `taboo_cells` |
| puzzler.dfy | Puzzler | `SokobanPuzzle.__init__`, `actions`, `result`, `goal_test`, `check_action_seq` |
| search_node.dfy | SearchNodes | `Problem` and its defaults, `Node` with `expand`, `child_node`, `path`, `solution`, `__eq__`, `__hash__` |
| frontier.dfy | Frontiers | `LIFOQueue`, `FIFOQueue`, `PriorityQueue` |
| heap.dfy | HeapLayout | the `heapq` list behind `PriorityQueue` |
| uninformed.dfy | UninformedSearch | `tree_search`, `graph_search` and the four BFS/DFS wrappers |
| best_first.dfy | BestFirstSearch | `best_first_tree_search`, `best_first_graph_search` with `memoize`, `uniform_cost_search`, greedy and A* |
| depth_limited.dfy | DepthLimited | `depth_limited_search`, `iterative_deepening_search` |
| solver.dfy | Solver | `solve_sokoban_elem`, `can_go_there`, `goal_path` |

How the model is written:

- Warehouses, puzzles, nodes and problems are values (datatypes).
- A problem's `actions`, `result`, `goal_test` and `path_cost` are function-valued fields.
- The frontiers are classes whose methods update their item list in place.
- The searches are methods with `while` loops and invariants. Each is proved against reachability predicates: `Solves`, `Generated`, `Walk` and `Legal`.
- A `Node` compares by state, as `Node.__eq__` does. `in`, `frontier[key]` and `del frontier[key]` therefore match on states.

Where the source's docstrings and the code disagree, the model follows the code:

- The docstring of `check_action_seq` (puzzler.py:269-276) promises the string of the final state or 'Failure'. The code returns the final `Warehouse` object. `Puzzler.CheckActionSeq` returns the warehouse.

The corner rule of `gen_taboos` (puzzler.py:134-143) is taken as written. For each wall it marks the free cell to its right when a wall lies diagonally above or below that cell. It marks the free cell to its left under the same test. `TabooRules.IsCorner` states exactly this test.

In `best_first_graph_search`, `f` is memoized on nodes. Nodes compare and hash by state, so the memo holds one score per state. When `f(child) < f(incumbent)` is tested, the child gets the incumbent's cached score, so the decrease-key branch never fires. `BestFirstSearch.PushUnseen` keeps the memo as a map from states to scores and proves that this branch is unreachable.

## Model

| member | source | states |
|---|---|---|
| Common.CountCharZero | puzzler.py:125 | `str.count('$') == 0` exactly when `$` does not occur |
| Common.Max | sokoban.py:124 | `max` of a non-empty list is an element and bounds every element |
| Common.Min | puzzler.py:154-157 | `min` of a non-empty list is an element and is below every element |
| Common.JoinLinesContains | sokoban.py:144 | a non-newline character occurs in the `"\n"`-joined text iff it occurs in some row |
| Warehouses.FindFrom | sokoban.py:36-39 | `str.find` gives -1 or an offset holding the character, and no earlier offset from `start` holds it |
| Warehouses.OccurrencesFromSpec | sokoban.py:27-39 | the offsets yielded from `start` are exactly those holding the character, strictly increasing |
| Warehouses.FindFromOccurrences | sokoban.py:36-39 | one `find` call yields the next occurrence and resumes one past it, or ends the generator |
| Warehouses.Find1DIterator | sokoban.py:27-39 | the `while` loop yields every offset of the character and nothing else, in increasing order |
| Warehouses.OccurrencesSpec | sokoban.py:27-39 | the offsets `find_1D_iterator` yields are exactly those holding the character, strictly increasing |
| Warehouses.RowCellsSpec | sokoban.py:52-54 | the cells of row y are exactly the positions of that row holding the character, left to right |
| Warehouses.Find2D | sokoban.py:42-54 | `find_2D_iterator` yields exactly the (x, y) holding the character, in row-major order |
| Warehouses.Find2DDistinct | sokoban.py:42-54 | no position is yielded twice |
| Warehouses.Copy | sokoban.py:65-77 | walls and targets are shared; a given worker replaces the old one; a given box list replaces the old one unless it is empty, because `[]` is falsy |
| Warehouses.ExtractLocations | sokoban.py:92-114 | fails exactly when the worker count is not one or boxes and targets differ in number; otherwise worker, boxes (`$`,`*`), targets (`.`,`*`,`!`) and walls (`#`) are exactly the cells of those glyphs, in this order: the worker is the `@` cell, or else the `!` cell; the boxes are the `$` cells then the `*` cells; the targets are the `.` cells, then the `*` cells, then the worker's cell when it is `!`; the walls are the `#` cells; each group is in row-major order |
| Warehouses.Equal | sokoban.py:146-148 | `__eq__` holds for equal warehouses; on a shared board it implies equality; equal warehouses hold the same multiset of boxes |
| Warehouses.Hash | sokoban.py:150-151 | `__hash__` (the worker's hash XOR the `reduce`d XOR of the box hashes) fails (None) exactly when the box list is empty, because `reduce` over an empty list raises |
| Warehouses.EqualIsIdentityOnSharedBoard | sokoban.py:146-148 | for warehouses sharing walls and targets, `__eq__` (worker and ordered boxes) is exactly equality |
| Folds.ReduceRemove | sokoban.py:151 | with a commutative, associative operator, any one element can be taken out of `reduce` and combined last |
| Folds.ReducePermutation | sokoban.py:151 | with a commutative, associative operator, `reduce` gives the same value on any permutation of its list |
| XorLaws.XorCommutes | sokoban.py:151 | the `operator.xor` that `__hash__` reduces with is commutative |
| XorLaws.XorAssociates | sokoban.py:151 | that `operator.xor` is associative |
| Warehouses.HashRespectsEquality | sokoban.py:146-151 | warehouses equal under `__eq__`, or with permuted boxes, have the same `__hash__` |
| Warehouses.PaintCells | sokoban.py:127-130 | painting a glyph over a list of cells raises iff some index is out of range, and otherwise changes exactly those grid positions |
| Warehouses.PaintWorker | sokoban.py:133-136 | the worker is painted `!` over `.` and `@` otherwise, iff its index is in range |
| Warehouses.PaintBoxes | sokoban.py:139-143 | each box is painted `*` over `.` and `$` otherwise, in list order, iff every index is in range |
| Warehouses.PaintGrid | sokoban.py:127-143 | the four painting loops on a blank grid raise iff some wall, target, worker or box index is out of range, and otherwise leave every position showing its glyph |
| Warehouses.GridRows | sokoban.py:144 | the joined rows hold the grid's characters position by position |
| Warehouses.Render | sokoban.py:117-144 | `__str__` returns the glyph rendering, or raises (None) on an empty wall list or an illegal index |
| Warehouses.RowsAt | sokoban.py:144 | a rendered row holds c at p iff p is on the grid and its glyph is c |
| Warehouses.SlotOnGrid | sokoban.py:127-128 | a legal (possibly negative) index lands on the grid |
| Warehouses.GlyphsDollarFree | sokoban.py:137-143 | no grid position shows `$` iff every box is on a target, alone, and not under the worker |
| Warehouses.RowsFromGlyphs | sokoban.py:144 | rows that agree with the glyph at every position are the rendered rows |
| Warehouses.RowsShowGlyph | sokoban.py:144 | a rendered row contains a character iff the glyph at some grid position is that character |
| Warehouses.RenderedDollarFree | sokoban.py:117-144 | a renderable warehouse renders, and its text has no `$` iff every box is settled on a target |
| Warehouses.WellFormedGlyph | sokoban.py:126-143 | in a well-formed warehouse each glyph (`#@!$*.`) appears exactly where its cell kind is |
| Warehouses.WellFormedOnGrid | sokoban.py:121-126 | every cell of a well-formed warehouse lies on the grid the walls span |
| Warehouses.RowsClassify | sokoban.py:117-144 | the rendered rows of a well-formed warehouse hold each glyph exactly where its cell kind is |
| Warehouses.RoundTripWorkerCount | sokoban.py:99-102 | the rendering of a well-formed warehouse holds exactly one worker glyph |
| Warehouses.RoundTripBoxCount | sokoban.py:105-114 | the rendering of a well-formed warehouse passes `extract_locations`'s box/target count check |
| Warehouses.RowsNewlineFree | sokoban.py:117-144 | no row `__str__` joins holds a newline, so the rows are the lines of its text |
| Warehouses.RenderParseRoundTrip | sokoban.py:92-144 | `str(w)` is the rendered rows joined by newlines, and no row holds a newline; `extract_locations` on those rows succeeds and gives back the worker and the sets of walls, targets and boxes |
| TabooRules.CornerStepSpec | puzzler.py:134-143 | one wall contributes exactly the corners beside it |
| TabooRules.CornersSpec | puzzler.py:134-143 | after n walls, the list holds exactly the corners beside one of them |
| TabooRules.CornersAreCorners | puzzler.py:134-143 | the corner loop finds every corner and nothing else |
| TabooRules.FindCorners | puzzler.py:131-143 | the corner loop computes the Rule 1 list |
| TabooRules.Untargeted | puzzler.py:147 | the filter keeps exactly the cells that are not targets |
| TabooRules.WallInBox | puzzler.py:154-157 | every wall lies in the walls' bounding box |
| TabooRules.Trimmed | puzzler.py:160 | the trim keeps exactly the cells not in line with an extreme wall |
| TabooRules.CornerInBox | puzzler.py:136-143 | a corner lies in the walls' bounding box |
| TabooRules.CandidatesSpec | puzzler.py:134-160 | Rule 1 cells are exactly the non-target corners off the box's edges, all strictly inside the box |
| TabooRules.PairsInnerSpec | puzzler.py:167-171 | the inner loop adds exactly the in-line partners of one cell |
| TabooRules.PairsOuterSpec | puzzler.py:165-171 | after i cells the pair list holds exactly their in-line ordered pairs |
| TabooRules.PairsSpec | puzzler.py:165-171 | the pair list holds exactly the ordered pairs of in-line cells at different positions |
| TabooRules.FindPairs | puzzler.py:165-171 | the nested loops compute that pair list |
| TabooRules.RunSpec | puzzler.py:177-214 | a run holds only free, non-target cells between the two corners with a wall beside each; it is all of them or none, and it is empty iff the range is empty or blocked |
| TabooRules.RunsSpec | puzzler.py:174-214 | the run loop appends exactly the cells of some pair's run |
| TabooRules.WallRun | puzzler.py:175-214 | one iteration of the pair loop computes that pair's run |
| TabooRules.GenTaboos | puzzler.py:128-215 | the loops compute the taboo list, or raise (None) on an empty wall list |
| TabooRules.TaboosSpec | puzzler.py:128-215 | a cell is taboo iff it is a Rule 1 cell or lies on an unblocked run between two in-line Rule 1 cells; the call fails iff there are no walls |
| TabooRules.RunInside | puzzler.py:174-214 | a run between Rule 1 cells avoids walls and targets and stays inside the bounding box |
| TabooRules.TaboosSound | puzzler.py:128-215 | no taboo cell is a target or a wall, and all lie strictly inside the walls' bounding box |
| TabooRules.TabooCells | puzzler.py:218-249 | `taboo_cells` returns the drawing of walls then taboo cells, or raises (None) |
| TabooRules.TabooRowsFromGlyphs | puzzler.py:243-249 | rows that agree with the taboo glyphs are the drawn rows |
| TabooRules.TabooRowsAt | puzzler.py:249 | a drawn row holds c at p iff p is on the grid and its taboo glyph is c |
| TabooRules.TaboosOnGrid | puzzler.py:241-247 | with non-negative walls, the walls and taboo cells index the grid as they are |
| TabooRules.TabooGridSpec | puzzler.py:243-249 | on such a grid, `X` marks exactly the taboo cells and `#` exactly the walls |
| TabooRules.TabooDrawingSpec | puzzler.py:218-249 | with non-negative walls `taboo_cells` succeeds, and `X` marks exactly the taboo cells and `#` exactly the walls |
| Puzzler.NewPuzzle | puzzler.py:14-21 | the puzzle holds the warehouse and its taboo cells; a (row, col) destination becomes the cell (col - 1, row - 1) |
| Puzzler.AllowedAmongSpec | puzzler.py:34-53 | the first n directions are filtered to the allowed ones, in order |
| Puzzler.LegalActionsSpec | puzzler.py:23-55 | `actions` lists exactly the allowed directions, once each, in Up, Down, Left, Right order |
| Puzzler.Actions | puzzler.py:23-55 | the loop over the four directions computes that list |
| Puzzler.FirstIndex | puzzler.py:85-86 | `enumerate` stops at the first box on the cell |
| Puzzler.Successor | puzzler.py:57-98 | `result` keeps the walls, the targets and the number of boxes; the worker stays put (the whole state unchanged) or moves one step in the action's direction; in can-go-there mode the boxes never change |
| Puzzler.Result | puzzler.py:57-98 | `result` computes the successor state |
| Puzzler.ActionsMatchResult | puzzler.py:23-98 | a direction is offered iff `result` moves the worker and does not push a box onto a taboo cell |
| Puzzler.ResultNoOp | puzzler.py:57-98 | `result` changes nothing iff the label is not a direction, or the move is into a wall, into a box in can-go-there mode, or pushes a box into a wall or box |
| Puzzler.ResultStep | puzzler.py:57-98 | a move that changes the state steps the worker once; walls and targets stay; when a box is on the new worker cell, the first such box (where `enumerate` stops) is pushed one cell further and no other box moves; with no box there, the boxes stay |
| Puzzler.CanGoThereNeverPushes | puzzler.py:40-42 | in can-go-there mode no offered move is onto a box and no move changes the boxes |
| Puzzler.GoalTest | puzzler.py:117-125 | in can-go-there mode the goal test holds iff the worker is on the destination; otherwise iff the state renders and its text has no `$`; a state whose rendering raises is not a goal |
| Puzzler.GoalTestRendered | puzzler.py:124-125 | the Sokoban goal test on a renderable state holds iff every box shows as `*` |
| Puzzler.WellFormedSettled | puzzler.py:124-125 | on a well-formed state a box shows as `*` iff it is on a target |
| Puzzler.GoalTestWellFormed | puzzler.py:117-125 | on a well-formed state the goal test holds iff every box is on a target |
| Puzzler.ReplaySpec | puzzler.py:278-288 | `check_action_seq` fails iff some step changes nothing, and otherwise returns the state the whole sequence reaches |
| Puzzler.CheckActionSeq | puzzler.py:256-288 | the loop computes that replay from the puzzle's initial state |
| SearchNodes.StepCost | search.py:141-147 | the default `path_cost` adds exactly one per step; `UnitCost` states a problem uses it, and UnitCostIsDepth and Solver.MovesCost turn that into "path cost = number of moves" |
| SearchNodes.DefaultGoalTest | search.py:135-139 | the default `goal_test` holds for exactly one state, the problem's goal |
| SearchNodes.NewNode | search.py:213-218 | `Node.__init__` stores the state, parent, action and path cost; the depth is 0 without a parent and the parent's depth plus one with one |
| SearchNodes.Root | search.py:213-218 | the node search starts from holds the initial state, no parent or action, path cost 0 and depth 0 |
| SearchNodes.ChildNode | search.py:229-236 | `child_node` has the node as parent, the action, depth one more, the state `result` gives and the cost `path_cost` gives |
| SearchNodes.PathOf | search.py:242-248 | the path of a node is non-empty and ends at the node (GeneratedPath adds that a built node's path starts at the root) |
| SearchNodes.Solution | search.py:238-240 | the solution of a node search builds has as many actions as the node's depth |
| SearchNodes.Expand | search.py:223-236 | one child per action, in order, each with the parent, the action, the result state and depth + 1 |
| SearchNodes.SameStateSameHash | search.py:255-259 | nodes equal under `__eq__` hash alike |
| SearchNodes.ExpandGenerated | search.py:223-236 | the children of a node search builds are nodes search builds |
| SearchNodes.Reverse | search.py:248 | `reversed` puts element k at position n - 1 - k |
| SearchNodes.Path | search.py:242-248 | `path` returns the nodes from the root to the node |
| SearchNodes.WalkSnoc | search.py:229-236 | one more action steps once more from where the sequence led, and is legal iff offered there |
| SearchNodes.GeneratedPath | search.py:238-248 | a built node's path runs from the root through depth + 1 nodes; its solution is a legal sequence of length depth that leads to its state |
| SearchNodes.SolutionAlongPath | search.py:238-240 | `solution` is the actions of the path's nodes after the root, in order |
| SearchNodes.UnitCostIsDepth | search.py:141-147 | with the default step cost a node's path cost is its depth |
| Frontiers.Queue.Lifo | search.py:55-60 | `LIFOQueue()` is an empty list |
| Frontiers.Queue.Fifo | search.py:64-69 | `FIFOQueue()` is an empty deque |
| Frontiers.Queue.Append | search.py:55-71 | `append` adds at the back |
| Frontiers.Queue.Extend | search.py:52-53 | `extend` appends the items in order |
| Frontiers.Queue.Pop | search.py:55-71 | a LIFO pop takes the last item; a FIFO pop (`popleft`) takes the first |
| Frontiers.Queue.Contains | search.py:55-71 | `in` holds iff some item has the node's state |
| Frontiers.MinIndex | search.py:91-92 | the entry `heappop` takes is no later than any other, by score then insertion count |
| Frontiers.FirstMatch | search.py:99-107 | the first position whose node has the key's state, or none when no node has it |
| Frontiers.RemoveAt | search.py:106 | `list.pop(i)` removes position i and keeps the order of the rest |
| Frontiers.PriorityQueue.constructor | search.py:80-83 | an empty queue with the score function and a fresh counter |
| Frontiers.PriorityQueue.Append | search.py:84-86 | `append` pushes (f(node), next count, node) |
| Frontiers.PriorityQueue.Pop | search.py:91-92 | `pop` removes and returns the least entry's node, ties going to the earliest appended |
| Frontiers.PriorityQueue.Contains | search.py:95-98 | `in` holds iff some entry's node has the state |
| Frontiers.PriorityQueue.Lookup | search.py:99-102 | `frontier[key]` is the first node with the key's state, or None |
| Frontiers.PriorityQueue.Delete | search.py:103-107 | `del frontier[key]` removes the first entry with the key's state, or nothing |
| HeapLayout.TopNoLater | search.py:84-92 | on a valid heap the entry at position 0 is no later than any entry |
| HeapLayout.HeapPopIsMinIndex | search.py:91-92 | on a valid heap with distinct counts, `heappop` takes the same entry as `PriorityQueue.Pop` |
| HeapLayout.SiftUp | search.py:84-86 | sifting permutes the heap list |
| HeapLayout.HeapPush | search.py:84-86 | `heappush` adds exactly the entry |
| HeapLayout.SiftUpRestores | search.py:84-86 | sifting up from the only violating position restores the heap invariant |
| HeapLayout.PushKeepsHeap | search.py:84-86 | `heappush` keeps the heap invariant |
| HeapLayout.DeleteThenPopAsWritten | search.py:103-107 | on a concrete heap, `__delitem__` then `append` then `pop` returns a node whose score is not the least |
| UninformedSearch.PopOfAt | search.py:55-71 | a LIFO pop is at the back, a FIFO pop at the front |
| UninformedSearch.PopShift | search.py:55-71 | after a pop the other items keep their order |
| UninformedSearch.LegalPrefix | search.py:265-304 | a prefix of a legal sequence is legal, and the next action is offered where it ends |
| UninformedSearch.ChildOnTheWay | search.py:223-236 | a goal-reaching sequence that passes a non-goal node's state goes on through one of that node's children |
| UninformedSearch.ChildCovers | search.py:223-236 | a built non-goal node whose solution is a prefix of a goal-reaching sequence has a built child whose solution is one action longer along it |
| UninformedSearch.TreeStepCovers | search.py:276-280 | expanding a non-goal node keeps every goal-reaching sequence covered by a frontier node |
| UninformedSearch.CoveredDepth | search.py:276-280 | a covering frontier node is no deeper than the sequence it covers |
| UninformedSearch.TreeStep | search.py:276-280 | one `tree_search` iteration keeps its invariants: built nodes, covered sequences and, FIFO, layered depths |
| UninformedSearch.TreeInvStep | search.py:276-280 | a pop of a non-goal node followed by the push of its children keeps the loop invariant of `tree_search` |
| UninformedSearch.TreeFound | search.py:277-278 | a goal popped under that invariant is a built node and, FIFO, no deeper than any goal-reaching sequence |
| UninformedSearch.TreeSearch | search.py:265-281 | a found node is a built goal; None means no sequence solves the problem; FIFO, depths rise and the goal is a shallowest one |
| UninformedSearch.SeenAppend | search.py:301-303 | appending a child keeps every seen state seen and marks its own |
| UninformedSearch.SeenAppendBack | search.py:301-303 | a state on a prefix of the frontier is on the frontier |
| UninformedSearch.PopSeen | search.py:296-299 | what the popped frontier held is explored or still on the frontier |
| UninformedSearch.ClosedReach | search.py:295-304 | from an explored state, everything legal actions reach is explored once the search ends |
| UninformedSearch.Exhausted | search.py:295-304 | an emptied frontier with no goal explored means no goal is reachable |
| UninformedSearch.WithinLayer | search.py:295-304 | BFS has seen every state reachable within the current depth |
| UninformedSearch.ChildOptimal | search.py:301-303 | BFS: a child whose state was unseen is reached by no shorter sequence |
| UninformedSearch.PopKeeps | search.py:296-299 | after a pop the frontier keeps distinct unexplored states, and the popped state was unexplored |
| UninformedSearch.AppendKeeps | search.py:301-303 | appending an unseen child keeps frontier states distinct and disjoint from the explored set |
| UninformedSearch.PoppedDistinct | search.py:296-299 | no state is popped twice |
| UninformedSearch.BfsFound | search.py:297-298 | BFS: the goal popped is no deeper than any goal-reaching sequence |
| UninformedSearch.GraphStep | search.py:299-303 | after an expansion the explored set is closed again and the initial state is seen |
| UninformedSearch.BfsLayered | search.py:296-303 | BFS: after the children of the head go to the back, the frontier is layered between the head's depth and one more |
| UninformedSearch.BfsShallow | search.py:296-303 | BFS: after that step, every state reachable in fewer actions than the new head's depth is explored |
| UninformedSearch.BfsStep | search.py:296-303 | BFS: the frontier stays layered, and everything shallower than its head is explored |
| UninformedSearch.ExtendUnseen | search.py:301-303 | the generator admits exactly the children whose state is neither explored nor on the growing frontier; the frontier keeps distinct unexplored states; every child's state ends up seen |
| UninformedSearch.BfsOptimal | search.py:301-303 | BFS: admitted children are optimal, so the frontier stays optimal |
| UninformedSearch.GraphFound | search.py:297-298 | popping a goal keeps states distinct; BFS, the goal is a shallowest one |
| UninformedSearch.GraphIteration | search.py:295-303 | one non-goal `graph_search` iteration keeps the loop invariant |
| UninformedSearch.GraphSearch | search.py:283-304 | a found node is a built goal; None means no sequence solves the problem; no state is popped twice; FIFO, the goal is a shallowest one |
| UninformedSearch.BreadthFirstTreeSearch | search.py:307-309 | a found node is a shallowest built goal; None means unsolvable |
| UninformedSearch.DepthFirstTreeSearch | search.py:312-314 | a found node is a built goal; None means unsolvable |
| UninformedSearch.DepthFirstGraphSearch | search.py:317-319 | a found node is a built goal; None means unsolvable |
| UninformedSearch.BreadthFirstGraphSearch | search.py:322-324 | a found node is a shallowest built goal; None means unsolvable |
| BestFirstSearch.RisingStep | search.py:340-346 | popping the least entry and pushing no lower scores keeps popped scores non-decreasing |
| BestFirstSearch.PopNodes | search.py:91-92 | a priority-queue pop, seen on nodes, is a pop at the least entry's position |
| BestFirstSearch.DominatesTrans | search.py:344-351 | "every state stays represented at no higher score" is transitive |
| BestFirstSearch.RepresentedKept | search.py:344-351 | offering further children never loses a represented state |
| BestFirstSearch.DominatesAppend | search.py:345-346 | appending keeps every entry represented and represents the new node |
| BestFirstSearch.DominatesReplace | search.py:348-351 | replacing the incumbent by a lower-scoring node of its state keeps every entry represented |
| BestFirstSearch.Offer | search.py:344-351 | offering a child keeps every state represented at no higher score, represents the child, and adds only the child's entry |
| BestFirstSearch.OfferAll | search.py:344-351 | offering all children keeps every state represented, represents each child, and adds only children's entries |
| BestFirstSearch.FirstMatchSameState | search.py:99-107 | `frontier[key]` and `del frontier[key]` depend only on the key's state |
| BestFirstSearch.OfferChild | search.py:344-351 | the loop body computes `Offer` |
| BestFirstSearch.OfferChildren | search.py:344-351 | the children loop computes `OfferAll` |
| BestFirstSearch.RepresentedReached | search.py:344-351 | a state a prefix of a goal-reaching sequence walks to, represented on the frontier, keeps that sequence reached |
| BestFirstSearch.TreeReach | search.py:340-351 | expanding a non-goal node keeps every goal-reaching sequence reached by a frontier state |
| BestFirstSearch.TreeIteration | search.py:340-351 | one iteration of `best_first_tree_search` keeps its invariant |
| BestFirstSearch.BestFirstTreeSearch | search.py:328-352 | a found node is a built goal, and the root when the initial state is a goal; None means unsolvable; with non-decreasing scores pops come in score order |
| BestFirstSearch.AdmitStep | search.py:379-380 | pushing an unseen child and caching its score keeps the memo invariant |
| BestFirstSearch.SkipStep | search.py:381-385 | passing over a seen child keeps the memo invariant |
| BestFirstSearch.PushUnseen | search.py:378-385 | the children loop pushes exactly the unseen children, caches their scores, and never takes the replacement branch |
| BestFirstSearch.MemoPop | search.py:366-377 | a pop moves a state from the frontier to the explored set and the memo still covers exactly the seen states |
| BestFirstSearch.BestFirstStart | search.py:366-372 | the frontier holding only the root, with its score cached and nothing explored, satisfies the loop invariant |
| BestFirstSearch.BestFirstFound | search.py:373-375 | a goal popped under the loop invariant is a built node, and the pops stay distinct and, with non-decreasing scores, rising |
| BestFirstSearch.BestFirstExhausted | search.py:373-386 | an emptied frontier under the loop invariant means no action sequence reaches a goal |
| BestFirstSearch.PushRising | search.py:377-385 | with non-decreasing scores, the frontier the children loop leaves keeps the popped scores rising |
| BestFirstSearch.ExploreNode | search.py:376-385 | adding the popped non-goal state to the explored set and offering its children keeps the loop invariant, with the state now explored |
| BestFirstSearch.BestFirstGraphSearch | search.py:356-386 | a found node is a built goal; None means unsolvable; no state is popped twice; with non-decreasing scores pops come in score order; also `greedy_best_first_graph_search` (search.py:425) |
| BestFirstSearch.BestFirstRising | search.py:373-385 | with non-decreasing scores, an iteration keeps the popped scores rising |
| BestFirstSearch.CostNonDecreasing | search.py:388-390 | with no step lowering the cost, path cost never drops from node to child |
| BestFirstSearch.AStarNonDecreasing | search.py:428-433 | with a consistent heuristic, g + h never drops from node to child |
| BestFirstSearch.UniformCostSearch | search.py:388-390 | as graph search, with pops in non-decreasing path cost when no step lowers the cost |
| BestFirstSearch.AStarGraphSearch | search.py:428-433 | as graph search, with pops in non-decreasing g + h for a consistent heuristic |
| BestFirstSearch.AStarTreeSearch | search.py:436-441 | as tree search, with pops in non-decreasing g + h for a consistent heuristic |
| DepthLimited.Prepend | search.py:401-402 | acting first with a and then acts walks and is legal as the child's search sees it |
| DepthLimited.AtLimit | search.py:397-398 | at the limit, a goal within zero steps is the state itself, and the limit is met |
| DepthLimited.GoalHere | search.py:395-396 | a goal state is a goal within any limit |
| DepthLimited.GoalWithinStep | search.py:399-410 | above the limit, a goal is within reach iff the state is a goal or some child has one within reach |
| DepthLimited.ReachesDepthStep | search.py:399-410 | above the limit, search meets the limit iff it does from some child |
| DepthLimited.RecursiveDls | search.py:394-410 | returns a goal node iff a goal lies within the limit, 'cutoff' iff none does but search met the limit, and None otherwise; a goal returned is a built goal within the limit |
| DepthLimited.DepthLimitedSearch | search.py:392-413 | returns a goal iff some solution has at most `limit` actions; 'cutoff' iff none does and some legal sequence reaches the limit |
| DepthLimited.NoDeeper | search.py:407-410 | None at some limit means no goal is reachable at all |
| DepthLimited.IterativeDeepeningSearch | search.py:415-420 | returns the first non-cutoff result: a shallowest built goal, or None when no goal is reachable |
| Solver.DropNone | puzzler.py:312 | the filter drops exactly the 'None' labels and is the identity on directions |
| Solver.LegalDirections | puzzler.py:23-55 | a legal sequence uses only the four directions |
| Solver.LegalReplays | puzzler.py:256-288 | `check_action_seq` accepts every legal sequence and returns the state it leads to |
| Solver.GoalPathActions | puzzler.py:113-115 | the actions along `goal_path` are the goal node's solution |
| Solver.SokobanUnitCost | search.py:141-147 | a SokobanPuzzle keeps `Problem.path_cost`'s default step cost |
| Solver.MovesCost | search.py:141-147 | the path cost of a node the search builds equals its number of moves, the length of its solution |
| Solver.GoalPathReplays | puzzler.py:292-314 | the directions of a built node's solution contain no 'None' label and `check_action_seq` replays them to the node's state |
| Solver.SolveSokobanElem | puzzler.py:292-314 | a plan passes `check_action_seq` and ends in a goal, and no solution is shorter; an already solved puzzle gets []; 'Impossible' means no sequence solves it |
| Solver.WalkKeepsBoxes | puzzler.py:318-333 | in can-go-there mode no walk moves a box |
| Solver.CanGoThere | puzzler.py:318-333 | True iff some walk of offered moves brings the worker to the (row, col) destination; fails (None) on a warehouse without boxes whose worker is not already there, because graph search then hashes a box-less state |

## Left out

- I/O is not modelled. This covers `read_warehouse_file`, `write_warehouse_file`, `print_solution`, the `__main__` block, the `time`/`threading` imports and run_DresSokobanSolver.py. `PriorityQueue.__str__`, `Node.__repr__` and `InstrumentedProblem` (statistics only) are left out too.
- `Problem.value` is not used by the modelled searches and is left out.
- Every search loop takes a `fuel` bound, because a search on an infinite space need not end. This covers tree, graph and best-first search. Running out of fuel gives `OutOfFuel`, `Undecided` in SolveSokobanElem and `None` in CanGoThere.
- IterativeDeepeningSearch: `itertools.count()` is unbounded. The model stops after limit `maxDepth` with `OutOfFuel`, and proves that every solution is then longer than `maxDepth`.
- DepthLimitedSearch takes the limit as a natural number with no default of 50. A negative limit, which the source allows and which never cuts off, is not modelled.
- Path costs and scores are integers, where the source may use floats.
- PriorityQueue keeps its entries in append order and pops the least one. It does not keep `heapq`'s array layout. HeapLayout models that layout separately and proves that `heappop` takes the same entry on a valid heap.
- `memoize` in `best_first_graph_search` is modelled as a map from states to scores. That is what a cache keyed on state-compared nodes holds. `astar_graph_search` memoizes `h` as well, which does not change any score, so the model passes `h` as a function.
- Move labels are the datatype `Action`. The `is` comparisons on strings are modelled as equality: `action is 'Up'`, and `node.action is not 'None'` in `solve_sokoban_elem`. The same goes for the `is not` comparisons between integers in `gen_taboos`.
- `Warehouse` is a value. `copy` sharing the wall and target lists (aliasing) and `extract_locations` setting fields in place are not modelled. The search compares states with value equality. Warehouses.EqualIsIdentityOnSharedBoard shows this coincides with `__eq__` on states of one puzzle.
- Warehouses.Hash: Python's built-in tuple hash is a parameter `h`, and the hash is a 64-bit value.
- Failed assertions and exceptions become `None`. This covers `extract_locations`'s asserts, an index out of range in `__str__` or `taboo_cells`, `min` of an empty wall list in TabooRules.GenTaboos and TabooRules.TabooCells, and the failing hash of a box-less warehouse in Solver.CanGoThere.
- Puzzler.GoalTest: a state whose rendering raises is not a goal, where the source's `str(state)` raises out of the goal test. Warehouses.RenderParseRoundTrip shows that every well-formed warehouse renders.
- Puzzler.NewPuzzle, Puzzler.CheckActionSeq, Solver.SolveSokobanElem and Solver.CanGoThere require a non-empty wall list, as the source's "a valid Warehouse object" does. On an empty wall list the source raises `ValueError` from `min` in `gen_taboos` (puzzler.py:154), which `SokobanPuzzle.__init__` calls; the model does not return an error there.
- UninformedSearch.GraphSearch and BestFirstSearch.BestFirstGraphSearch: states are compared by value and never hashed. The source hashes states in the explored set (search.py:299-302) and nodes in the memo (search.py:13-14). A state whose `__hash__` raises, such as a warehouse without boxes, makes the source raise, and that error path is not modelled for a general problem. Solver.CanGoThere models it for the warehouse. Solver.SolveSokobanElem needs no such case: a box-less warehouse is a goal at the root unless its rendering raises, and then the source raises in the goal test before it hashes anything.
- Solver.SolveSokobanElem returns the datatype `ElemAnswer` instead of the list `['Impossible']`.
- BestFirstSearch.UniformCostSearch: does not claim the goal found is a cheapest one. Because of the memo, the frontier never replaces a state's entry with a cheaper path. The model proves the popping order only.

## Findings

| source | as written | input that shows it | evidently intended | confidence | as-written member | corrected member |
|---|---|---|---|---|---|---|
| search.py:103-107 | `__delitem__` removes a heap position with `self.A.pop(i)` and does not restore the heap, so a later `heappop` returns position 0, which need not be the least entry; `best_first_tree_search` (search.py:350-351) deletes and re-appends this way | heap `[(1,0,a),(5,1,b),(2,2,c)]`; `del q[a]` leaves `[(5,1,b),(2,2,c)]`; `q.append(d)` with score 3 sifts d to the top; `q.pop()` returns d although c scores 2 | the least-score node is popped after a deletion (the class docstring's "minimum element is returned first"), e.g. by calling `heapq.heapify` after the removal | not executed | HeapLayout.DeleteThenPopAsWritten | Frontiers.PriorityQueue.Pop |
