# maze-ai in Dafny

maze-ai solves text mazes. A maze file uses these characters:

- `A` marks the start.
- `B` marks the goal.
- A space is an open cell.
- Any other character is a wall.

The constructor of `Maze` does three things:

- It checks that there is exactly one `A` and one `B`.
- It splits the contents into lines.
- It builds a rectangular wall grid as wide as the longest line. Positions past the end of a shorter line are open.

`neighbours` lists the open cells one move away. The candidates are tried in the fixed order "up" (row + 1), "down" (row - 1), "left" and "right".

There are two solvers, each with its own `solve`:

- `maze.py` runs a graph search over a frontier. The frontier is either a last-in-first-out `StackFrontier` or a first-in-first-out `QueueFrontier`, and `solve` uses the queue.
- `a_alg.py` runs A*. Nodes carry a path cost `g`, the Manhattan estimate `h` and the priority `f = g + h`. The open list is a heap ordered by `f`, and a side set holds the states of its nodes.

Each solver expands nodes until it pops the goal. It then follows parent links back to build the `actions` and `cells` of the solution, and counts the states it took off the frontier. An empty frontier raises "No solution".

The model has six modules:

- `Wrappers` holds `Option` and `Result`.
- `Text` models `str.count`, `str.splitlines` and the longest line.
- `MazeGrid` holds the grid, the parser and `neighbours`. The two Python files share these, line for line.
- `Paths` defines what a solution is. It also proves that a closed set of explored cells rules one out.
- `Bfs` models `maze.py`. The frontier is a class whose `nodes` field `add` and `remove` reassign.
- `AStar` models `a_alg.py`.

Expanded nodes live in an arena (a `seq<Node>`), and a node's parent is its arena index. The search loops keep an invariant with these parts:

- Every queued node makes one legal move from its parent.
- Queued states are distinct and disjoint from the explored set.
- In A*, `open_set` is exactly the set of states in `open_list`.
- Every open neighbour of an explored cell is explored or queued.

So a search that succeeds returns a path from the start to the goal over adjacent open cells. A search that fails has explored a closed region that holds the start and not the goal, so no path exists. Each `Search` therefore succeeds exactly when a path exists. The loops terminate because, at every pass, either fewer open cells remain unseen or the frontier shrinks.

## Model

| member | source | states |
|---|---|---|
| Text.CountZero | maze-ai/maze.py:90-94 | a character counted zero times occurs nowhere, and conversely |
| Text.CountOne | maze-ai/maze.py:90-94 | a character counted exactly once occurs at exactly one index |
| Text.CountConcat | maze-ai/maze.py:90-94 | the count of a concatenation is the sum of the counts |
| Text.CountMultiset | maze-ai/maze.py:90-93 | `contents.count(ch)` is the number of occurrences of `ch`, its multiplicity in the contents |
| Text.NewlineIndex | maze-ai/maze.py:96 | the index of the first line break, or the length when there is none; no break comes before it |
| Text.SplitLines | maze-ai/maze.py:96 | no line contains a line break; the list of lines is empty exactly when the contents are |
| Text.SplitThenJoin | maze-ai/maze.py:96 | joining the lines with line breaks gives back the contents exactly, except that contents ending in a line break lose that one final break (no empty last line is made) |
| Text.CountLines | maze-ai/maze.py:90-96 | splitting keeps every `A` and `B`: the per-line counts add up to the count over the contents |
| Text.FindUnique | maze-ai/maze.py:104-111 | a marker counted once over all lines stands at exactly one (line, column) |
| Text.NoneLeft | maze-ai/maze.py:90-94 | a marker counted zero times over all lines occurs at no position |
| Text.MaxLength | maze-ai/maze.py:98 | the width is at least every line's length and equals one of them |
| MazeGrid.Move | maze-ai/maze.py:141-146 | each action leads to an adjacent cell: up raises the row, down lowers it, left lowers the column, right raises it |
| MazeGrid.MoveInjective | maze-ai/maze.py:141-146 | two different actions from one cell lead to two different cells, so the four candidates are distinct |
| MazeGrid.Parse | maze-ai/maze.py:90-118 | fails with NotOneStart exactly when `A` is not counted once, and with NotOneGoal exactly when `A` is unique but `B` is not; otherwise the grid has one row per line, each as wide as the longest line; a cell is a wall exactly when its character is neither `A`, `B` nor a space, and a missing character is open; start and goal are the only positions of `A` and `B`; the A* constructor (maze-ai/a_alg.py:31-59) is the same parser |
| MazeGrid.ScanRow | maze-ai/maze.py:102-117 | one row of width entries: entry j is a wall exactly when character j exists and is not `A`, `B` or a space; start and goal are recorded once their row has been scanned |
| MazeGrid.AppendRow | maze-ai/maze.py:118 | appending a scanned row extends the rows built so far |
| MazeGrid.ParsedIsValid | maze-ai/maze.py:104-117 | a parsed grid is rectangular, and its start and goal are distinct, in bounds and not walls |
| MazeGrid.ParsedOpen | maze-ai/maze.py:104-117 | a cell of a parsed maze is open exactly when it lies inside the rectangle and either its line is too short to reach it (the IndexError branch) or its character is `A`, `B` or a space |
| MazeGrid.Neighbours | maze-ai/maze.py:139-154 | the result is exactly the open moves among up, down, left, right, kept in that order; so at most four entries, each the cell its action leads to, in bounds and not a wall, and every such open cell listed; the A* neighbours (maze-ai/a_alg.py:80-95) are the same method |
| MazeGrid.CollectNext | maze-ai/maze.py:150-152 | considering one more candidate keeps the result exactly the open moves tried so far, in order |
| MazeGrid.OpenMovesCollected | maze-ai/maze.py:141-153 | the open moves among the first k candidates are exactly those the loop has collected after k passes, in candidate order |
| MazeGrid.UnseenShrinks | maze-ai/maze.py:189-194 | adding a new open cell to those seen leaves fewer open cells unseen |
| Paths.Reclose | maze-ai/maze.py:189 | moving the removed cell from the frontier to the explored set keeps every other explored cell closed |
| Paths.PathIsAdjacentChain | maze-ai/maze.py:178-186 | consecutive cells of a path, from the start on, are adjacent and open |
| Paths.PathStaysInClosed | maze-ai/maze.py:167-169 | a path that starts in a closed set never leaves it |
| Paths.NoPathOutOfClosed | maze-ai/maze.py:167-169 | a closed set with the start and without the goal rules out every solution |
| Paths.PathPrepend | maze-ai/maze.py:178-182 | one legal step in front of a path is a path with the same end |
| Paths.PathPrefix | maze-ai/a_alg.py:124-128 | dropping the last step of a path leaves a path ending at the cell before |
| Paths.Reversed | maze-ai/maze.py:184-185 | reversal keeps the length |
| Paths.ReversedSnoc | maze-ai/maze.py:184-185 | reversing a list with one appended element starts with that element |
| Paths.ReversedAt | maze-ai/maze.py:184-185 | element k of the reversal is element length - 1 - k of the original |
| Bfs.Frontier.constructor | maze-ai/maze.py:36-38 | a new frontier is empty |
| Bfs.Frontier.Add | maze-ai/maze.py:40-42 | add only appends the node |
| Bfs.Frontier.ContainsState | maze-ai/maze.py:44-46 | true exactly when some queued node has the state |
| Bfs.Frontier.Empty | maze-ai/maze.py:48-50 | true exactly when no node is queued |
| Bfs.Frontier.Remove | maze-ai/maze.py:52-78 | on an empty frontier, fails with EmptyFrontier and changes nothing; a stack returns the last node added and keeps the others in order; a queue returns the first |
| Bfs.StackOrder | maze-ai/maze.py:40-61 | after adding x and y, a stack yields y, then x, then the empty-frontier error |
| Bfs.QueueOrder | maze-ai/maze.py:66-78 | after adding x and y, a queue yields x, then y, then the empty-frontier error |
| Bfs.AddState | maze-ai/maze.py:192-194 | appending a node with a new state keeps states distinct and adds exactly that state |
| Bfs.TakeState | maze-ai/maze.py:171 | removing a node from either end of a list with distinct states removes exactly its state |
| Bfs.NodeOkGrows | maze-ai/maze.py:189-193 | a legal parent link stays legal as more nodes are expanded |
| Bfs.ArenaGrows | maze-ai/maze.py:189-193 | expanding a legal node keeps every expanded and queued node legal |
| Bfs.Backtrace | maze-ai/maze.py:174-186 | following parent links and reversing gives a path from the start that ends at the node's state |
| Bfs.Enqueue | maze-ai/maze.py:192-194 | queueing a child whose state is neither queued nor explored keeps states distinct, disjoint from the explored set and open, and adds exactly that state |
| Bfs.ChildListShape | maze-ai/maze.py:191-194 | every child queued by the first k passes of the inner loop has the expanded node as parent, an action, an unseen state, and comes from one of the first k neighbours; children keep the neighbours' order |
| Bfs.ChildListHas | maze-ai/maze.py:191-194 | every unseen neighbour among the first k has its child queued |
| Bfs.NotYetQueued | maze-ai/maze.py:191-192 | neighbour k is not among the children queued for the neighbours before it, since different moves lead to different cells |
| Bfs.ChildrenExact | maze-ai/maze.py:189-194 | the children of a cell are at most four; each has the cell as parent, the move as action, an open, unseen target; they follow the order up, down, left, right; and every open, unseen neighbour has its child among them |
| Bfs.ExpandCloses | maze-ai/maze.py:189-194 | once all children of the expanded cell are queued, every open neighbour of every explored cell is explored or queued |
| Bfs.Visit | maze-ai/maze.py:192-194 | a neighbour whose state is queued or explored leaves the frontier unchanged; otherwise exactly one node, with the expanded node as parent and the move as action, is appended; either way the frontier is the children of the neighbours visited so far |
| Bfs.Queued | maze-ai/maze.py:192-194 | appending the child of an unseen neighbour keeps the frontier invariant and extends the queued children by one |
| Bfs.Passed | maze-ai/maze.py:192 | a neighbour already queued or explored adds no child |
| Bfs.Expand | maze-ai/maze.py:191-194 | the new frontier is the old one followed by exactly the children of the expanded cell: its open neighbours neither explored nor queued, in neighbour order, each with the expanded node as parent; afterwards every open neighbour of every explored cell is explored or queued |
| Bfs.SearchStarts | maze-ai/maze.py:159-165 | the loop invariant holds for a frontier holding only the start node, with nothing explored |
| Bfs.RemovedFrontier | maze-ai/maze.py:171 | the removed node is legal and unexplored, and the rest of the frontier keeps the invariant once the node is explored |
| Bfs.RemovedFirst | maze-ai/maze.py:171 | the first node removed is the start |
| Bfs.RemovedGoal | maze-ai/maze.py:174 | a removed goal node has a legal parent chain, and the start was explored before it |
| Bfs.Removed | maze-ai/maze.py:171-189 | moving a removed non-goal node to the arena and its state to the explored set keeps the frontier invariant, keeps every other explored cell closed, and keeps the start explored and the goal not |
| Bfs.Explore | maze-ai/maze.py:189-194 | the removed node's state is added to the explored set and the node to the arena; the frontier becomes the old one followed by exactly its children; the loop invariant holds with one more explored state; fewer open cells stay unseen, or the frontier is shorter |
| Bfs.Explored | maze-ai/maze.py:189-194 | after the children of the explored node are queued, the loop invariant holds again and the termination measure drops |
| Bfs.Iterate | maze-ai/maze.py:167-194 | one pass removes the node the discipline selects (last for a stack, first for a queue); it returns a solution exactly when that node is the goal, and then the solution is a valid path and nothing else changes; otherwise its state is explored, it joins the arena, the frontier is the rest followed by its children, and the invariant holds with a smaller measure |
| Bfs.Expanded | maze-ai/maze.py:191-194 | after queueing, fewer open cells are unseen, or nothing was queued and the frontier shrank |
| Bfs.Exhausted | maze-ai/maze.py:168-169 | an empty frontier under the invariant leaves a closed explored set, so no solution exists |
| Bfs.Search | maze-ai/maze.py:157-194 | succeeds exactly when a path from start to goal exists; a success is a valid path; a failure leaves a closed explored set; the goal is never explored; the count of removals is the number of explored states, plus one for the goal on success |
| Bfs.Maze.constructor | maze-ai/maze.py:83-85 | a new maze has no solution and nothing explored |
| Bfs.Maze.Solve | maze-ai/maze.py:157-194 | records the solution on success and leaves it unchanged on failure; succeeds exactly when a path exists; records the explored set and the removal count |
| AStar.Heuristic | maze-ai/a_alg.py:18-19 | the Manhattan distance is a natural number and is zero exactly when the two cells are equal |
| AStar.HeuristicSymmetric | maze-ai/a_alg.py:18-19 | the distance does not depend on argument order |
| AStar.HeuristicStep | maze-ai/a_alg.py:18-19 | one move changes the distance to a fixed cell by exactly one |
| AStar.HeuristicAdmissible | maze-ai/a_alg.py:18-19 | no path is shorter than the distance between its ends |
| AStar.SolutionLength | maze-ai/a_alg.py:130-132 | every solution has as many actions as cells, and at least as many as the distance from start to goal |
| AStar.HeapPop | maze-ai/a_alg.py:116 | on a non-empty list, removes one node, returns it, and leaves the list without it; no node of the list has a smaller `f`, the order of `__lt__` (maze-ai/a_alg.py:14-15); on an empty list returns nothing |
| AStar.LessOrder | maze-ai/a_alg.py:14-15 | `__lt__` is a strict weak order, as `heapq` needs: irreflexive, asymmetric, transitive, and two nodes are incomparable exactly when their `f` are equal, which is itself transitive |
| AStar.TakeAt | maze-ai/a_alg.py:116-117 | removing the node at k from a list with distinct states removes exactly its state, so dropping it from `open_set` keeps `open_set` equal to the states of `open_list` |
| AStar.AddState | maze-ai/a_alg.py:143-144 | pushing a node with a new state keeps states distinct and adds exactly that state to `open_set` |
| AStar.NodeOkGrows | maze-ai/a_alg.py:135-142 | a legal, cost-annotated parent link stays legal as more nodes are expanded |
| AStar.ArenaGrows | maze-ai/a_alg.py:135-142 | expanding a legal node keeps every expanded and open node legal |
| AStar.Backtrace | maze-ai/a_alg.py:120-133 | the backtrace is a path from the start that ends at the node's state, and its length equals the node's `g` |
| AStar.Enqueue | maze-ai/a_alg.py:138-144 | pushing a child whose state is in neither `open_set` nor explored keeps `open_set` equal to the states of `open_list`, disjoint from explored, and open |
| AStar.ChildListShape | maze-ai/a_alg.py:137-144 | every child pushed by the first k passes has the expanded node as parent, an action, an unseen state, g = parent g + 1, h = distance to the goal, f = g + h, and comes from one of the first k neighbours; children keep the neighbours' order |
| AStar.ChildListHas | maze-ai/a_alg.py:137-144 | every unseen neighbour among the first k has its child pushed |
| AStar.NotYetPushed | maze-ai/a_alg.py:137-138 | neighbour k is not among the children pushed for the neighbours before it, since different moves lead to different cells |
| AStar.PushTest | maze-ai/a_alg.py:138 | mid-loop, testing `open_set` and `explored` gives the same answer as testing the sets from before the loop |
| AStar.ChildrenExact | maze-ai/a_alg.py:135-144 | the children of a node are at most four; each has the node as parent, the move as action, an open, unseen target, g = parent g + 1, h = distance to goal and f = g + h; they follow neighbour order; every open, unseen neighbour has its child among them |
| AStar.ExpandCloses | maze-ai/a_alg.py:135-144 | once all children of the expanded cell are pushed, every open neighbour of every explored cell is open or explored |
| AStar.PushedChild | maze-ai/a_alg.py:139-142 | the node built for an unseen neighbour is the child with g = parent g + 1, h = distance to goal and f = g + h, and a legal node of an open cell |
| AStar.PushedList | maze-ai/a_alg.py:143 | pushing the child of an unseen neighbour extends the pushed children by one |
| AStar.Skipped | maze-ai/a_alg.py:138 | a neighbour already in `open_set` or explored adds no child |
| AStar.Visit | maze-ai/a_alg.py:138-144 | a neighbour in `open_set` or explored leaves `open_list` and `open_set` unchanged; otherwise exactly one node, with g = parent g + 1, h = distance to goal and f = g + h, is appended to `open_list` and its state added to `open_set`; either way `open_list` is the children of the neighbours visited so far and the invariant holds |
| AStar.Expand | maze-ai/a_alg.py:137-144 | the new open list is the old one followed by exactly the children of the expanded node, its open neighbours in neither `open_set` nor explored, in neighbour order; `open_set` stays the states of `open_list`; every open neighbour of every explored cell is open or explored |
| AStar.SearchStarts | maze-ai/a_alg.py:101-110 | the loop invariant holds for an open list holding only the start node with g = h = f = 0 |
| AStar.Popped | maze-ai/a_alg.py:116-117 | the popped node is legal and unexplored; dropping its state from `open_set` keeps `open_set` equal to the states of the rest |
| AStar.PoppedFirst | maze-ai/a_alg.py:116 | the first node popped is the start |
| AStar.PoppedGoal | maze-ai/a_alg.py:120 | a popped goal node has a legal parent chain, and the start was explored before it |
| AStar.Explore | maze-ai/a_alg.py:135-144 | the popped node's state is added to explored and the node to the arena; `open_list` becomes the rest followed by exactly its children; the invariant holds with one more explored state; fewer open cells stay unseen, or the open list is shorter |
| AStar.Explored | maze-ai/a_alg.py:135-144 | after the children of the explored node are pushed, the loop invariant holds again with one more explored state |
| AStar.ExploredShrinks | maze-ai/a_alg.py:135-144 | after pushing, fewer open cells are unseen, or nothing was pushed and the open list shrank |
| AStar.Iterate | maze-ai/a_alg.py:112-144 | one pass pops a node no other open node is `__lt__`-below; it returns a solution exactly when that node is the goal, and then the solution is a valid path whose length is that node's `g`, `open_list` is the rest and `open_set` loses the state; otherwise its state is explored, it joins the arena, `open_list` is the rest followed by its children, and the invariant holds with a smaller measure |
| AStar.Exhausted | maze-ai/a_alg.py:113-114 | an empty open list under the invariant leaves a closed explored set, so no solution exists |
| AStar.Search | maze-ai/a_alg.py:99-144 | succeeds exactly when a path exists; a success is a valid path; a failure leaves a closed explored set; the goal is never explored; the pop count is the number of explored states, plus one for the goal on success |
| AStar.Maze.constructor | maze-ai/a_alg.py:24-26 | a new maze has no solution and nothing explored |
| AStar.Maze.Solve | maze-ai/a_alg.py:99-144 | records the solution on success and leaves it unchanged on failure; succeeds exactly when a path exists; a solution is never shorter than the distance from start to goal |

## Left out

- Reading the file (maze-ai/maze.py:87-88, maze-ai/a_alg.py:28-29) is I/O. The parser works on the contents string, and the constructors take the parsed grid.
- `print` and `output_image` are console output and PIL drawing calls.
- The command-line code at the end of both files is left out: `sys.argv`, `sys.exit`, output file names.
- Text.SplitLines: treats only '\n' as a line break. Python's `splitlines` also breaks on '\r' and other Unicode separators.
- AStar.HeapPop: promises only that the popped node has least `f` and that the rest is the list without it. The list is kept in push order, with pushes appending, and the earliest least-`f` node is popped. `heapq`'s own layout and tie-break are not modelled.
- AStar.Search: makes no claim that the path is shortest. The source never reopens a state already in `open_set` or explored, so it does not promise one.
- AStar.Explore: gives the new `open_set` only through the loop invariant, as the set of states of the new `open_list`. AStar.Iterate does the same on its non-goal branch.
- Bfs.Search: takes the frontier discipline as a parameter. `solve` in the source always uses the queue, which is what Bfs.Maze.Solve passes.
- `self.explored` is left out of the constructors. In the source it exists only after `solve` runs. The model starts it empty.
- Raising on an empty frontier inside `solve` is modelled as the loop exiting and the search returning NoSolution. `open_set.remove` cannot raise, because the invariant keeps the popped state in `open_set`.
- Python's integers are unbounded, and so are the model's. There is no wrap-around.
- The goal's state never enters the explored set, because `solve` returns at the goal before adding it (maze-ai/maze.py:187-189, maze-ai/a_alg.py:133-135). So on success the number of states explored is one more than the size of the explored set. The model follows the code here.
