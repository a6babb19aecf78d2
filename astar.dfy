/** The A* solver: nodes carrying path cost g, heuristic estimate h and
    priority f = g + h, an open list popped by least f with a side set of its
    states, and the search of Maze.solve. Parsing and neighbour enumeration
    are the ones of the breadth-first solver (module MazeGrid). */
module AStar {
  import opened Wrappers
  import opened MazeGrid
  import opened Paths

  /** A search node. `parent` is the index of the parent in the arena of
      expanded nodes; `g` is the cost from the start, `h` the estimate to
      the goal and `f` their sum. */
  datatype Node = Node(parent: Option<nat>, state: Cell, action: Option<Action>, g: int, h: int, f: int)

  /** Node.__lt__: nodes are ordered by `f` alone. */
  predicate Less(a: Node, b: Node)
  {
    a.f < b.f
  }

  /** Less is a strict weak order, as heapq needs: irreflexive, transitive,
      and nodes that are incomparable are exactly those with equal `f`. */
  lemma LessOrder(a: Node, b: Node, c: Node)
    ensures !Less(a, a)
    ensures Less(a, b) ==> !Less(b, a)
    ensures Less(a, b) && Less(b, c) ==> Less(a, c)
    ensures !Less(a, b) && !Less(b, a) <==> a.f == b.f
    ensures !Less(a, b) && !Less(b, a) && !Less(b, c) && !Less(c, b) ==> !Less(a, c) && !Less(c, a)
  {
  }

  /** The Manhattan distance between two cells. */
  function Heuristic(a: Cell, b: Cell): (r: nat)
    ensures r == 0 <==> a == b
  {
    Abs(b.0 - a.0) + Abs(b.1 - a.1)
  }

  /** The distance does not depend on the order of its arguments. */
  lemma HeuristicSymmetric(a: Cell, b: Cell)
    ensures Heuristic(a, b) == Heuristic(b, a)
  {
  }

  /** One move changes the distance to a fixed cell by exactly one. */
  lemma HeuristicStep(a: Cell, b: Cell, goal: Cell)
    requires Adjacent(a, b)
    ensures Heuristic(b, goal) == Heuristic(a, goal) + 1 || Heuristic(b, goal) + 1 == Heuristic(a, goal)
  {
  }

  /** No path is shorter than the distance between its ends: the estimate
      never exceeds the true cost. */
  lemma {:induction false} HeuristicAdmissible(grid: Grid, from: Cell, actions: seq<Action>, cells: seq<Cell>)
    requires PathFrom(grid, from, actions, cells)
    ensures Heuristic(from, End(from, cells)) <= |cells|
    decreases |cells|
  {
    if cells != [] {
      var n := |cells| - 1;
      PathPrefix(grid, from, actions, cells);
      HeuristicAdmissible(grid, from, actions[..n], cells[..n]);
      PathIsAdjacentChain(grid, from, actions, cells, n);
      HeuristicSymmetric(from, Prev(from, cells, n));
      HeuristicSymmetric(from, cells[n]);
      HeuristicStep(Prev(from, cells, n), cells[n], from);
    }
  }

  /** Every solution takes at least as many moves as the distance from the
      start to the goal. */
  lemma SolutionLength(grid: Grid, actions: seq<Action>, cells: seq<Cell>)
    requires ValidPath(grid, actions, cells)
    ensures |actions| == |cells| >= Heuristic(grid.start, grid.goal)
  {
    HeuristicAdmissible(grid, grid.start, actions, cells);
  }

  // States, DistinctStates, AddState, NodeOkGrows, ArenaGrows, StatesAppend,
  // RankIncreasing and the ChildList lemmas below repeat those of module Bfs:
  // they differ only in the Node type, which here carries g, h and f.

  ghost function States(nodes: seq<Node>): set<Cell>
  {
    set n | n in nodes :: n.state
  }

  ghost predicate DistinctStates(nodes: seq<Node>)
  {
    forall i, j :: 0 <= i < j < |nodes| ==> nodes[i].state != nodes[j].state
  }

  /** heapq.heappop on an open list kept in push order: remove and return a
      node of least `f`, or nothing (the IndexError) when the list is empty. */
  method HeapPop(heap: seq<Node>) returns (node: Option<Node>, rest: seq<Node>)
    ensures heap == [] ==> node == None && rest == []
    ensures heap != [] ==> node.Some? && exists k :: 0 <= k < |heap| && heap[k] == node.value && rest == heap[..k] + heap[k + 1..]
    ensures node.Some? ==> forall n :: n in heap ==> !Less(n, node.value)
  {
    if |heap| == 0 {
      return None, [];
    }
    var k := 0;
    for i := 1 to |heap|
      invariant k < i
      invariant forall j :: 0 <= j < i ==> !Less(heap[j], heap[k])
    {
      if Less(heap[i], heap[k]) {
        k := i;
      }
    }
    node, rest := Some(heap[k]), heap[..k] + heap[k + 1..];
  }

  /** Removing the node at `k` from a list of distinct states removes
      exactly its state. */
  lemma TakeAt(whole: seq<Node>, k: nat)
    requires k < |whole| && DistinctStates(whole)
    ensures DistinctStates(whole[..k] + whole[k + 1..])
    ensures whole[k].state !in States(whole[..k] + whole[k + 1..])
    ensures States(whole) == States(whole[..k] + whole[k + 1..]) + {whole[k].state}
    ensures forall n :: n in whole[..k] + whole[k + 1..] ==> n in whole
  {
    var rest := whole[..k] + whole[k + 1..];
    assert forall i :: 0 <= i < |rest| ==> rest[i] == whole[if i < k then i else i + 1];
    forall n | n in rest ensures n.state != whole[k].state && n in whole {
      var i :| 0 <= i < |rest| && rest[i] == n;
      assert whole[if i < k then i else i + 1] == n;
    }
    forall n | n in whole ensures n == whole[k] || n in rest {
      var i :| 0 <= i < |whole| && whole[i] == n;
      if i < k {
        assert rest[i] == n;
      } else if i > k {
        assert rest[i - 1] == n;
      }
    }
  }

  lemma AddState(nodes: seq<Node>, x: Node)
    requires DistinctStates(nodes) && x.state !in States(nodes)
    ensures DistinctStates(nodes + [x])
    ensures States(nodes + [x]) == States(nodes) + {x.state}
  {
    var ext := nodes + [x];
    forall i, j | 0 <= i < j < |ext| ensures ext[i].state != ext[j].state {
      assert ext[i] == nodes[i];
      if j == |nodes| {
        assert nodes[i] in nodes;
      } else {
        assert ext[j] == nodes[j];
      }
    }
  }

  /** The bookkeeping of solve: the start node has g = h = f = 0; a child
      is one legal move from its parent, with g one more than the parent's,
      h the distance to the goal and f = g + h. */
  ghost predicate NodeOk(grid: Grid, arena: seq<Node>, n: Node, bound: nat)
  {
    match n.parent
    case None => n.state == grid.start && n.action == None && n.g == 0 && n.h == 0 && n.f == 0
    case Some(p) =>
      p < bound && p < |arena| && n.action.Some? && Step(grid, arena[p].state, n.action.value, n.state)
      && n.g == arena[p].g + 1 && n.h == Heuristic(n.state, grid.goal) && n.f == n.g + n.h
  }

  ghost predicate ArenaOk(grid: Grid, arena: seq<Node>)
  {
    forall i :: 0 <= i < |arena| ==> NodeOk(grid, arena, arena[i], i)
  }

  ghost predicate OpenOk(grid: Grid, arena: seq<Node>, nodes: seq<Node>)
  {
    forall n :: n in nodes ==> NodeOk(grid, arena, n, |arena|)
  }

  lemma NodeOkGrows(grid: Grid, arena: seq<Node>, x: Node, n: Node, bound: nat, bound': nat)
    requires NodeOk(grid, arena, n, bound) && bound <= |arena| && bound <= bound'
    ensures NodeOk(grid, arena + [x], n, bound')
  {
    if n.parent.Some? {
      assert (arena + [x])[n.parent.value] == arena[n.parent.value];
    }
  }

  lemma ArenaGrows(grid: Grid, arena: seq<Node>, x: Node, nodes: seq<Node>)
    requires ArenaOk(grid, arena) && NodeOk(grid, arena, x, |arena|) && OpenOk(grid, arena, nodes)
    ensures ArenaOk(grid, arena + [x]) && OpenOk(grid, arena + [x], nodes)
  {
    var ext := arena + [x];
    forall i | 0 <= i < |ext| ensures NodeOk(grid, ext, ext[i], i) {
      if i < |arena| {
        NodeOkGrows(grid, arena, x, arena[i], i, i);
      } else {
        NodeOkGrows(grid, arena, x, x, |arena|, i);
      }
    }
    forall n | n in nodes ensures NodeOk(grid, ext, n, |ext|) {
      NodeOkGrows(grid, arena, x, n, |arena|, |ext|);
    }
  }

  /** The backtrace of solve. Its length is the `g` of the node it starts
      from: `g` counts the parent links up to the start node. */
  method Backtrace(grid: Grid, arena: seq<Node>, last: Node) returns (actions: seq<Action>, cells: seq<Cell>)
    requires ArenaOk(grid, arena) && NodeOk(grid, arena, last, |arena|)
    ensures PathFrom(grid, grid.start, actions, cells)
    ensures End(grid.start, cells) == last.state
    ensures |cells| == last.g
  {
    var node := last;
    actions, cells := [], [];
    while node.parent.Some?
      invariant NodeOk(grid, arena, node, |arena|)
      invariant PathFrom(grid, node.state, Reversed(actions), Reversed(cells))
      invariant End(node.state, Reversed(cells)) == last.state
      invariant |cells| + node.g == last.g
      decreases if node.parent.Some? then node.parent.value + 1 else 0
    {
      var p := node.parent.value;
      ReversedSnoc(actions, node.action.value);
      ReversedSnoc(cells, node.state);
      PathPrepend(grid, arena[p].state, node.action.value, node.state, Reversed(actions), Reversed(cells));
      actions := actions + [node.action.value];
      cells := cells + [node.state];
      node := arena[p];
    }
    actions := Reversed(actions);
    cells := Reversed(cells);
  }

  /** What solve keeps true of its open list: legal, cost-annotated nodes
      with distinct states, none explored, all open cells, and `openSet`
      holding exactly their states. */
  ghost predicate OpenInv(grid: Grid, arena: seq<Node>, openList: seq<Node>, openSet: set<Cell>, explored: set<Cell>)
  {
    ArenaOk(grid, arena) && OpenOk(grid, arena, openList)
    && DistinctStates(openList) && openSet == States(openList) && explored !! openSet
    && (forall c :: c in explored + openSet ==> Open(grid, c))
  }

  /** The open list grew from `list0` only by pushing nodes whose states
      were neither explored nor open. */
  ghost predicate Grown(list0: seq<Node>, set0: set<Cell>, openList: seq<Node>, openSet: set<Cell>, explored: set<Cell>)
  {
    |list0| <= |openList| && openList[..|list0|] == list0
    && (forall i :: |list0| <= i < |openList| ==> openList[i].state !in explored + set0)
    && set0 <= openSet
    && (openSet == set0 ==> openList == list0)
  }

  /** Pushing one more unseen, legal child keeps the open-list invariants. */
  lemma Enqueue(grid: Grid, arena: seq<Node>, list0: seq<Node>, set0: set<Cell>, openList: seq<Node>, openSet: set<Cell>,
                explored: set<Cell>, child: Node)
    requires OpenInv(grid, arena, openList, openSet, explored)
    requires Grown(list0, set0, openList, openSet, explored)
    requires NodeOk(grid, arena, child, |arena|) && Open(grid, child.state) && child.state !in explored + openSet
    ensures OpenInv(grid, arena, openList + [child], openSet + {child.state}, explored)
    ensures Grown(list0, set0, openList + [child], openSet + {child.state}, explored)
  {
    AddState(openList, child);
    var ext := openList + [child];
    assert forall i :: 0 <= i < |openList| ==> ext[i] == openList[i];
    assert ext[..|list0|] == list0 by {
      assert ext[..|list0|] == openList[..|list0|];
    }
    forall n | n in ext ensures NodeOk(grid, arena, n, |arena|) {
      if n != child {
        assert n in openList;
      }
    }
  }

  /** The node solve pushes for the neighbour `nb` of the node at arena
      index `parent`, whose cost is `g0`: one more step, the distance to
      `goal` as estimate, and their sum as priority. */
  function Child(parent: nat, g0: int, goal: Cell, nb: (Action, Cell)): Node
  {
    Node(Some(parent), nb.1, Some(nb.0), g0 + 1, Heuristic(nb.1, goal), g0 + 1 + Heuristic(nb.1, goal))
  }

  /** The nodes solve pushes for the first `k` entries of the neighbour
      list `nbrs` of one expanded node: one per entry whose cell is not in
      `seen`, in list order. */
  function ChildList(parent: nat, g0: int, goal: Cell, seen: set<Cell>, nbrs: seq<(Action, Cell)>, k: nat): seq<Node>
    requires k <= |nbrs|
  {
    if k == 0 then []
    else
      ChildList(parent, g0, goal, seen, nbrs, k - 1)
      + (if nbrs[k - 1].1 in seen then [] else [Child(parent, g0, goal, nbrs[k - 1])])
  }

  /** What expanding `node`, at arena index `parent`, pushes when the cells
      in `seen` are open or explored. */
  function Children(grid: Grid, node: Node, parent: nat, seen: set<Cell>): seq<Node>
  {
    var nbrs := OpenMoves(grid, node.state, Actions);
    ChildList(parent, node.g, grid.goal, seen, nbrs, |nbrs|)
  }

  predicate RankIncreasing(nbrs: seq<(Action, Cell)>)
  {
    forall i, j :: 0 <= i < j < |nbrs| ==> Rank(nbrs[i].0) < Rank(nbrs[j].0)
  }

  lemma StatesAppend(a: seq<Node>, b: seq<Node>)
    ensures States(a + b) == States(a) + States(b)
  {
    assert forall n :: n in a + b <==> n in a || n in b;
  }

  /** Every child comes from an unseen entry of the neighbour list and
      carries the costs of one more step, and the children keep the ranks
      of a rank-ordered list increasing. */
  lemma {:induction false} ChildListShape(parent: nat, g0: int, goal: Cell, seen: set<Cell>, nbrs: seq<(Action, Cell)>, k: nat)
    requires k <= |nbrs| && RankIncreasing(nbrs)
    ensures var cs := ChildList(parent, g0, goal, seen, nbrs, k);
      |cs| <= k
      && forall i :: 0 <= i < |cs| ==>
           cs[i].parent == Some(parent) && cs[i].action.Some? && cs[i].state !in seen
           && cs[i].g == g0 + 1 && cs[i].h == Heuristic(cs[i].state, goal) && cs[i].f == cs[i].g + cs[i].h
           && exists j :: 0 <= j < k && nbrs[j] == (cs[i].action.value, cs[i].state)
    ensures var cs := ChildList(parent, g0, goal, seen, nbrs, k);
      forall i, j :: 0 <= i < j < |cs| ==>
        (cs[i].action.Some? && cs[j].action.Some? && Rank(cs[i].action.value) < Rank(cs[j].action.value))
  {
    if k > 0 {
      ChildListShape(parent, g0, goal, seen, nbrs, k - 1);
      var ps := ChildList(parent, g0, goal, seen, nbrs, k - 1);
      var cs := ChildList(parent, g0, goal, seen, nbrs, k);
      assert forall i :: 0 <= i < |ps| ==> cs[i] == ps[i];
      forall i | 0 <= i < |ps| ensures Rank(ps[i].action.value) < Rank(nbrs[k - 1].0) {
        var j :| 0 <= j < k - 1 && nbrs[j] == (ps[i].action.value, ps[i].state);
      }
      if nbrs[k - 1].1 !in seen {
        assert cs[|ps|] == Child(parent, g0, goal, nbrs[k - 1]);
      }
    }
  }

  /** Every unseen entry among the first `k` has its child pushed. */
  lemma {:induction false} ChildListHas(parent: nat, g0: int, goal: Cell, seen: set<Cell>, nbrs: seq<(Action, Cell)>,
                                        k: nat, j: nat)
    requires j < k <= |nbrs| && nbrs[j].1 !in seen
    ensures Child(parent, g0, goal, nbrs[j]) in ChildList(parent, g0, goal, seen, nbrs, k)
  {
    var ps := ChildList(parent, g0, goal, seen, nbrs, k - 1);
    if j < k - 1 {
      ChildListHas(parent, g0, goal, seen, nbrs, k - 1, j);
      assert ChildList(parent, g0, goal, seen, nbrs, k)[..|ps|] == ps;
    } else {
      assert ChildList(parent, g0, goal, seen, nbrs, k) == ps + [Child(parent, g0, goal, nbrs[j])];
    }
  }

  /** The neighbour cells are distinct, so neighbour `k` is not among the
      children of the ones before it. */
  lemma NotYetPushed(grid: Grid, x: Cell, parent: nat, g0: int, seen: set<Cell>, nbrs: seq<(Action, Cell)>, k: nat)
    requires Collected(grid, x, nbrs, 4) && k < |nbrs|
    ensures nbrs[k].1 !in States(ChildList(parent, g0, grid.goal, seen, nbrs, k))
  {
    ChildListShape(parent, g0, grid.goal, seen, nbrs, k);
    forall j | 0 <= j < k ensures nbrs[j].1 != nbrs[k].1 {
      MoveInjective(x, nbrs[j].0, nbrs[k].0);
    }
  }

  /** Neighbour `k` is not among the children pushed so far, so solve's
      membership test on it sees only the states open before the pass. */
  lemma PushTest(grid: Grid, x: Cell, parent: nat, g0: int, explored: set<Cell>, list0: seq<Node>, openList: seq<Node>,
                 nbrs: seq<(Action, Cell)>, k: nat)
    requires Collected(grid, x, nbrs, 4) && k < |nbrs|
    requires openList == list0 + ChildList(parent, g0, grid.goal, explored + States(list0), nbrs, k)
    ensures nbrs[k].1 in States(openList) + explored <==> nbrs[k].1 in explored + States(list0)
  {
    NotYetPushed(grid, x, parent, g0, explored + States(list0), nbrs, k);
    StatesAppend(list0, ChildList(parent, g0, grid.goal, explored + States(list0), nbrs, k));
  }

  /** The children of a node are exactly its open, unseen neighbours, each
      with the node's arena index as parent, the move as action, one more
      step of cost, the distance to the goal as estimate and their sum as
      priority, in the order up, down, left, right. */
  lemma ChildrenExact(grid: Grid, node: Node, parent: nat, seen: set<Cell>)
    ensures var cs := Children(grid, node, parent, seen);
      |cs| <= 4
      && (forall i :: 0 <= i < |cs| ==>
            cs[i].parent == Some(parent) && cs[i].action.Some? && cs[i].state == Move(node.state, cs[i].action.value)
            && Open(grid, cs[i].state) && cs[i].state !in seen
            && cs[i].g == node.g + 1 && cs[i].h == Heuristic(cs[i].state, grid.goal) && cs[i].f == cs[i].g + cs[i].h)
      && (forall i, j :: 0 <= i < j < |cs| ==>
            (cs[i].action.Some? && cs[j].action.Some? && Rank(cs[i].action.value) < Rank(cs[j].action.value)))
      && (forall a :: Open(grid, Move(node.state, a)) && Move(node.state, a) !in seen ==>
            Child(parent, node.g, grid.goal, (a, Move(node.state, a))) in cs)
  {
    var x := node.state;
    var nbrs := OpenMoves(grid, x, Actions);
    OpenMovesCollected(grid, x, 4);
    assert Actions[..4] == Actions;
    ChildListShape(parent, node.g, grid.goal, seen, nbrs, |nbrs|);
    var cs := Children(grid, node, parent, seen);
    forall i | 0 <= i < |cs| ensures cs[i].state == Move(x, cs[i].action.value) && Open(grid, cs[i].state) {
      var j :| 0 <= j < |nbrs| && nbrs[j] == (cs[i].action.value, cs[i].state);
    }
    forall a | Open(grid, Move(x, a)) && Move(x, a) !in seen ensures Child(parent, node.g, grid.goal, (a, Move(x, a))) in cs {
      assert Rank(a) < 4;
      var j :| 0 <= j < |nbrs| && nbrs[j] == (a, Move(x, a));
      ChildListHas(parent, node.g, grid.goal, seen, nbrs, |nbrs|, j);
    }
  }

  /** Pushing the unseen neighbours of `x` closes it. */
  lemma ExpandCloses(grid: Grid, x: Cell, parent: nat, g0: int, explored: set<Cell>, list0: seq<Node>,
                     nbrs: seq<(Action, Cell)>)
    requires Collected(grid, x, nbrs, 4)
    requires ClosedBut(grid, explored, States(list0), x)
    ensures ClosedIn(grid, explored, States(list0 + ChildList(parent, g0, grid.goal, explored + States(list0), nbrs, |nbrs|)))
  {
    var seen := explored + States(list0);
    var cs := ChildList(parent, g0, grid.goal, seen, nbrs, |nbrs|);
    StatesAppend(list0, cs);
    forall c, a | c in explored && Open(grid, Move(c, a)) ensures Move(c, a) in explored + States(list0 + cs) {
      if c == x && Move(x, a) !in seen {
        assert Rank(a) < 4;
        var j :| 0 <= j < |nbrs| && nbrs[j] == (a, Move(x, a));
        ChildListHas(parent, g0, grid.goal, seen, nbrs, |nbrs|, j);
        assert Child(parent, g0, grid.goal, nbrs[j]).state == Move(x, a);
      }
    }
  }

  /** One candidate of the inner loop, entry `k` of the neighbour list
      `nbrs` of the expanded node `arena[|arena| - 1]`: push it, with its
      costs, unless its state is open or explored. */
  method Visit(grid: Grid, arena: seq<Node>, list0: seq<Node>, set0: set<Cell>, openList: seq<Node>, openSet: set<Cell>,
               explored: set<Cell>, ghost nbrs: seq<(Action, Cell)>, ghost k: nat, action: Action, state: Cell)
    returns (openList': seq<Node>, openSet': set<Cell>)
    requires |arena| > 0 && k < |nbrs| && nbrs[k] == (action, state) && Collected(grid, arena[|arena| - 1].state, nbrs, 4)
    requires OpenInv(grid, arena, openList, openSet, explored) && set0 == States(list0)
    requires Grown(list0, set0, openList, openSet, explored)
    requires openList == list0 + ChildList(|arena| - 1, arena[|arena| - 1].g, grid.goal, explored + set0, nbrs, k)
    ensures OpenInv(grid, arena, openList', openSet', explored)
    ensures Grown(list0, set0, openList', openSet', explored)
    ensures openList' == list0 + ChildList(|arena| - 1, arena[|arena| - 1].g, grid.goal, explored + set0, nbrs, k + 1)
    ensures state in openSet + explored ==> openList' == openList && openSet' == openSet
    ensures state !in openSet + explored ==>
      openList' == openList + [Child(|arena| - 1, arena[|arena| - 1].g, grid.goal, (action, state))]
    ensures state !in openSet + explored ==> openSet' == openSet + {state}
  {
    if state !in openSet && state !in explored {
      var node := arena[|arena| - 1];
      var g := node.g + 1;
      var h := Heuristic(state, grid.goal);
      var child := Node(Some(|arena| - 1), state, Some(action), g, h, g + h);
      PushedChild(grid, arena, nbrs, k, action, state, child);
      Enqueue(grid, arena, list0, set0, openList, openSet, explored, child);
      PushedList(grid, node.state, |arena| - 1, node.g, list0, set0, openList, openSet, explored, nbrs, k, action, state, child);
      openList', openSet' := openList + [child], openSet + {state};
    } else {
      Skipped(grid, arena, list0, set0, openList, openSet, explored, nbrs, k, action, state);
      openList', openSet' := openList, openSet;
    }
  }

  /** The child pushed for neighbour `k` is the one Child describes, and a
      legal node. */
  lemma PushedChild(grid: Grid, arena: seq<Node>, nbrs: seq<(Action, Cell)>, k: nat, action: Action, state: Cell, child: Node)
    requires |arena| > 0 && k < |nbrs| && nbrs[k] == (action, state) && Collected(grid, arena[|arena| - 1].state, nbrs, 4)
    requires child == Node(Some(|arena| - 1), state, Some(action), arena[|arena| - 1].g + 1, Heuristic(state, grid.goal),
                           arena[|arena| - 1].g + 1 + Heuristic(state, grid.goal))
    ensures child == Child(|arena| - 1, arena[|arena| - 1].g, grid.goal, (action, state))
    ensures NodeOk(grid, arena, child, |arena|) && Open(grid, child.state)
  {
    assert Step(grid, arena[|arena| - 1].state, action, state);
  }

  /** Pushing the child of unseen neighbour `k` extends the children by one. */
  lemma PushedList(grid: Grid, x: Cell, parent: nat, g0: int, list0: seq<Node>, set0: set<Cell>, openList: seq<Node>,
                   openSet: set<Cell>, explored: set<Cell>, nbrs: seq<(Action, Cell)>, k: nat, action: Action, state: Cell,
                   child: Node)
    requires k < |nbrs| && nbrs[k] == (action, state) && Collected(grid, x, nbrs, 4)
    requires set0 == States(list0) && openSet == States(openList)
    requires openList == list0 + ChildList(parent, g0, grid.goal, explored + set0, nbrs, k)
    requires state !in openSet && state !in explored && child == Child(parent, g0, grid.goal, (action, state))
    ensures openList + [child] == list0 + ChildList(parent, g0, grid.goal, explored + set0, nbrs, k + 1)
  {
    PushTest(grid, x, parent, g0, explored, list0, openList, nbrs, k);
    var done := ChildList(parent, g0, grid.goal, explored + States(list0), nbrs, k);
    assert openList + [child] == list0 + (done + [child]);
  }

  /** The else-branch of visit: a seen neighbour adds no child. */
  lemma Skipped(grid: Grid, arena: seq<Node>, list0: seq<Node>, set0: set<Cell>, openList: seq<Node>, openSet: set<Cell>,
                explored: set<Cell>, nbrs: seq<(Action, Cell)>, k: nat, action: Action, state: Cell)
    requires |arena| > 0 && k < |nbrs| && nbrs[k] == (action, state) && Collected(grid, arena[|arena| - 1].state, nbrs, 4)
    requires set0 == States(list0) && openSet == States(openList)
    requires openList == list0 + ChildList(|arena| - 1, arena[|arena| - 1].g, grid.goal, explored + set0, nbrs, k)
    requires state in openSet || state in explored
    ensures openList == list0 + ChildList(|arena| - 1, arena[|arena| - 1].g, grid.goal, explored + set0, nbrs, k + 1)
  {
    PushTest(grid, arena[|arena| - 1].state, |arena| - 1, arena[|arena| - 1].g, explored, list0, openList, nbrs, k);
    assert state in explored + set0;
  }

  /** The inner loop of solve: push every neighbour of the expanded node
      `arena[|arena| - 1]` that is in neither `openSet` nor `explored`. */
  method Expand(grid: Grid, openList: seq<Node>, openSet: set<Cell>, explored: set<Cell>, arena: seq<Node>)
    returns (openList': seq<Node>, openSet': set<Cell>)
    requires Shaped(grid) && |arena| > 0 && arena[|arena| - 1].state in explored
    requires OpenInv(grid, arena, openList, openSet, explored)
    requires ClosedBut(grid, explored, openSet, arena[|arena| - 1].state)
    ensures openList' == openList + Children(grid, arena[|arena| - 1], |arena| - 1, explored + openSet)
    ensures OpenInv(grid, arena, openList', openSet', explored)
    ensures ClosedIn(grid, explored, openSet')
    ensures Grown(openList, openSet, openList', openSet', explored)
  {
    var node := arena[|arena| - 1];
    var neighbours := Neighbours(grid, node.state);
    openList', openSet' := openList, openSet;
    for k := 0 to |neighbours|
      invariant OpenInv(grid, arena, openList', openSet', explored)
      invariant Grown(openList, openSet, openList', openSet', explored)
      invariant openList' == openList + ChildList(|arena| - 1, node.g, grid.goal, explored + openSet, neighbours, k)
    {
      var (action, state) := neighbours[k];
      openList', openSet' := Visit(grid, arena, openList, openSet, openList', openSet', explored, neighbours, k, action, state);
    }
    ExpandCloses(grid, node.state, |arena| - 1, node.g, explored, openList, neighbours);
  }

  /** The open cells neither explored nor open. */
  ghost function Unseen(grid: Grid, explored: set<Cell>, openSet: set<Cell>): nat
  {
    |OpenCells(grid) - (explored + openSet)|
  }

  /** What holds at the head of solve's loop. */
  ghost predicate SearchInv(grid: Grid, arena: seq<Node>, openList: seq<Node>, openSet: set<Cell>,
                            explored: set<Cell>, numExplored: nat)
  {
    OpenInv(grid, arena, openList, openSet, explored)
    && grid.goal !in explored
    && numExplored == |explored|
    && (grid.start in explored || (explored == {} && openSet == {grid.start}))
    && ClosedIn(grid, explored, openSet)
  }

  lemma SearchStarts(grid: Grid, openList: seq<Node>)
    requires Valid(grid) && openList == [Node(None, grid.start, None, 0, 0, 0)]
    ensures SearchInv(grid, [], openList, {grid.start}, {}, 0)
  {
    assert States(openList) == {grid.start} by {
      assert openList[0] in openList;
    }
    assert OpenInv(grid, [], openList, {grid.start}, {}) by {
      assert forall n :: n in openList ==> n == openList[0];
    }
  }

  /** The open-list part of the invariant survives moving the popped node,
      at index `k`, to the arena. */
  lemma Popped(grid: Grid, arena: seq<Node>, openList: seq<Node>, openSet: set<Cell>, explored: set<Cell>, k: nat)
    requires OpenInv(grid, arena, openList, openSet, explored) && k < |openList|
    ensures NodeOk(grid, arena, openList[k], |arena|) && openList[k].state !in explored
    ensures openSet == (openSet - {openList[k].state}) + {openList[k].state}
    ensures openList[k].state !in openSet - {openList[k].state}
    ensures OpenInv(grid, arena + [openList[k]], openList[..k] + openList[k + 1..], openSet - {openList[k].state},
                    explored + {openList[k].state})
  {
    var node, rest := openList[k], openList[..k] + openList[k + 1..];
    TakeAt(openList, k);
    assert node in openList;
    assert OpenOk(grid, arena, rest);
    ArenaGrows(grid, arena, node, rest);
  }

  /** The first node popped is the start node. */
  lemma PoppedFirst(grid: Grid, arena: seq<Node>, openList: seq<Node>, openSet: set<Cell>, explored: set<Cell>,
                    numExplored: nat, k: nat)
    requires SearchInv(grid, arena, openList, openSet, explored, numExplored) && k < |openList|
    ensures grid.start in explored + {openList[k].state}
  {
    assert openList[k] in openList;
    assert openList[k].state in States(openList);
  }

  /** A popped node carries a legal parent link; if it is the goal, the
      start was explored before it. */
  lemma PoppedGoal(grid: Grid, arena: seq<Node>, openList: seq<Node>, openSet: set<Cell>, explored: set<Cell>,
                   numExplored: nat, k: nat)
    requires Valid(grid) && SearchInv(grid, arena, openList, openSet, explored, numExplored) && k < |openList|
    requires openList[k].state == grid.goal
    ensures ArenaOk(grid, arena) && NodeOk(grid, arena, openList[k], |arena|) && grid.start in explored
  {
    assert openList[k] in openList;
    PoppedFirst(grid, arena, openList, openSet, explored, numExplored, k);
  }

  /** An empty open list leaves a closed explored set with the start and
      without the goal: there is no solution. */
  lemma Exhausted(grid: Grid, arena: seq<Node>, openSet: set<Cell>, explored: set<Cell>, numExplored: nat)
    requires SearchInv(grid, arena, [], openSet, explored, numExplored)
    ensures Closed(grid, explored) && !PathExists(grid)
    ensures grid.start in explored && forall c :: c in explored ==> Open(grid, c)
  {
    assert States([]) == {};
    NoPathOutOfClosed(grid, explored);
  }

  /** The non-goal branch of solve's loop body: explore the popped node,
      found at index `k` of the open list, and push its new neighbours. */
  method Explore(grid: Grid, openList: seq<Node>, openSet: set<Cell>, explored: set<Cell>, arena: seq<Node>,
                 numExplored: nat, node: Node, rest: seq<Node>, ghost k: nat)
    returns (openList': seq<Node>, openSet': set<Cell>, explored': set<Cell>, arena': seq<Node>)
    requires Valid(grid) && SearchInv(grid, arena, openList, openSet, explored, numExplored)
    requires k < |openList| && node == openList[k] && rest == openList[..k] + openList[k + 1..]
    requires node.state != grid.goal
    ensures explored' == explored + {node.state} && arena' == arena + [node]
    ensures openList' == rest + Children(grid, node, |arena|, explored' + (openSet - {node.state}))
    ensures SearchInv(grid, arena', openList', openSet', explored', numExplored + 1)
    ensures Unseen(grid, explored', openSet') < Unseen(grid, explored, openSet)
         || (Unseen(grid, explored', openSet') == Unseen(grid, explored, openSet) && |openList'| < |openList|)
  {
    Popped(grid, arena, openList, openSet, explored, k);
    PoppedFirst(grid, arena, openList, openSet, explored, numExplored, k);
    var restSet := openSet - {node.state};
    Reclose(grid, explored, openSet, restSet, node.state);
    explored' := explored + {node.state};
    arena' := arena + [node];
    openList', openSet' := Expand(grid, rest, restSet, explored', arena');
    Explored(grid, arena, openList, openSet, explored, numExplored, node, rest, k, openList', openSet');
    assert node in openList;
    ExploredShrinks(grid, openList, openSet, explored, node, rest, openList', openSet');
  }

  /** What the expansion in explore leaves: the children of the explored
      node pushed and the invariant restored. */
  lemma Explored(grid: Grid, arena: seq<Node>, openList: seq<Node>, openSet: set<Cell>, explored: set<Cell>, numExplored: nat,
                 node: Node, rest: seq<Node>, k: nat, list': seq<Node>, set': set<Cell>)
    requires SearchInv(grid, arena, openList, openSet, explored, numExplored)
    requires k < |openList| && node == openList[k] && rest == openList[..k] + openList[k + 1..]
    requires grid.start in explored + {node.state} && grid.goal != node.state
    requires var arena' := arena + [node];
      list' == rest + Children(grid, arena'[|arena'| - 1], |arena'| - 1, (explored + {node.state}) + (openSet - {node.state}))
    requires OpenInv(grid, arena + [node], list', set', explored + {node.state})
    requires ClosedIn(grid, explored + {node.state}, set')
    ensures list' == rest + Children(grid, node, |arena|, (explored + {node.state}) + (openSet - {node.state}))
    ensures SearchInv(grid, arena + [node], list', set', explored + {node.state}, numExplored + 1)
  {
    Popped(grid, arena, openList, openSet, explored, k);
    assert (arena + [node])[|arena + [node]| - 1] == node;
  }

  /** Explore leaves fewer open cells unseen, or the same ones and a
      shorter open list. */
  lemma ExploredShrinks(grid: Grid, openList: seq<Node>, openSet: set<Cell>, explored: set<Cell>,
                        node: Node, rest: seq<Node>, list': seq<Node>, set': set<Cell>)
    requires openSet == States(openList) && node in openList && |rest| + 1 == |openList|
    requires explored + {node.state} !! set' && forall c :: c in (explored + {node.state}) + set' ==> Open(grid, c)
    requires openSet - {node.state} <= set' && (set' == openSet - {node.state} ==> list' == rest)
    ensures Unseen(grid, explored + {node.state}, set') < Unseen(grid, explored, openSet)
         || (Unseen(grid, explored + {node.state}, set') == Unseen(grid, explored, openSet) && |list'| < |openList|)
  {
    var x := node.state;
    assert x in openSet;
    if set' != openSet - {x} {
      var y :| y in set' && y !in openSet - {x};
      assert y !in explored + openSet;
      UnseenShrinks(grid, explored + openSet, (explored + {x}) + set');
    } else {
      assert (explored + {x}) + set' == explored + openSet;
    }
  }

  /** One pass of solve's loop: pop a node of least `f` and drop its state
      from `openSet`; if it is the goal, backtrace, otherwise explore it. */
  method Iterate(grid: Grid, openList: seq<Node>, openSet: set<Cell>, explored: set<Cell>, arena: seq<Node>, numExplored: nat)
    returns (found: Option<Solution>, openList': seq<Node>, openSet': set<Cell>, explored': set<Cell>,
             arena': seq<Node>, numExplored': nat, ghost k: nat)
    requires Valid(grid) && SearchInv(grid, arena, openList, openSet, explored, numExplored) && openList != []
    ensures numExplored' == numExplored + 1
    ensures k < |openList| && forall n :: n in openList ==> !Less(n, openList[k])
    ensures var node, rest := openList[k], openList[..k] + openList[k + 1..];
      (found.Some? <==> node.state == grid.goal)
      && (found.Some? ==>
            openList' == rest && openSet' == openSet - {node.state} && explored' == explored && arena' == arena)
      && (found.None? ==>
            explored' == explored + {node.state} && arena' == arena + [node]
            && openList' == rest + Children(grid, node, |arena|, explored' + (openSet - {node.state})))
    ensures found.Some? ==> ValidPath(grid, found.value.actions, found.value.cells) && grid.start in explored
    ensures found.Some? ==> |found.value.cells| == openList[k].g
    ensures found.None? ==> SearchInv(grid, arena', openList', openSet', explored', numExplored')
    ensures found.None? ==>
      Unseen(grid, explored', openSet') < Unseen(grid, explored, openSet)
      || (Unseen(grid, explored', openSet') == Unseen(grid, explored, openSet) && |openList'| < |openList|)
  {
    var popped, rest := HeapPop(openList);
    var node := popped.value;
    k :| 0 <= k < |openList| && openList[k] == node && rest == openList[..k] + openList[k + 1..];
    numExplored' := numExplored + 1;
    if node.state == grid.goal {
      PoppedGoal(grid, arena, openList, openSet, explored, numExplored, k);
      var actions, cells := Backtrace(grid, arena, node);
      return Some(Solution(actions, cells)), rest, openSet - {node.state}, explored, arena, numExplored', k;
    }
    openList', openSet', explored', arena' := Explore(grid, openList, openSet, explored, arena, numExplored, node, rest, k);
    found := None;
  }

  /** Maze.solve of the A* solver. Returns the outcome, the explored set and
      the number of nodes popped. */
  method Search(grid: Grid) returns (outcome: Result<Solution, SolveError>, explored: set<Cell>, numExplored: nat)
    requires Valid(grid)
    ensures outcome.Success? ==> ValidPath(grid, outcome.value.actions, outcome.value.cells)
    ensures outcome.Success? <==> PathExists(grid)
    ensures outcome.Failure? ==> Closed(grid, explored)
    ensures grid.start in explored && grid.goal !in explored
    ensures forall c :: c in explored ==> Open(grid, c)
    ensures numExplored == |explored| + (if outcome.Success? then 1 else 0)
  {
    numExplored := 0;
    var start := Node(None, grid.start, None, 0, 0, 0);
    var openList: seq<Node> := [];
    var openSet: set<Cell> := {};
    explored := {};
    var arena: seq<Node> := [];
    openList := openList + [start];
    openSet := openSet + {start.state};
    SearchStarts(grid, openList);
    while |openList| != 0
      invariant SearchInv(grid, arena, openList, openSet, explored, numExplored)
      decreases Unseen(grid, explored, openSet), |openList|
    {
      var found, openList', openSet', explored', arena', numExplored', _ := Iterate(grid, openList, openSet, explored, arena, numExplored);
      if found.Some? {
        return Success(found.value), explored, numExplored';
      }
      openList, openSet, explored, arena, numExplored := openList', openSet', explored', arena', numExplored';
    }
    Exhausted(grid, arena, openSet, explored, numExplored);
    return Failure(NoSolution), explored, numExplored;
  }

  /** The A* solver object: the parsed grid and what solve records on it. */
  class Maze {
    const grid: Grid
    var solution: Option<Solution>
    var explored: set<Cell>
    var numOfStatesExplored: nat

    constructor (g: Grid)
      requires Valid(g)
      ensures grid == g && solution == None && explored == {} && numOfStatesExplored == 0
    {
      grid := g;
      solution := None;
      explored := {};
      numOfStatesExplored := 0;
    }

    /** Maze.solve: A* search by least f. */
    method Solve() returns (outcome: Result<Solution, SolveError>)
      requires Valid(grid)
      modifies this
      ensures outcome.Success? ==> solution == Some(outcome.value) && ValidPath(grid, outcome.value.actions, outcome.value.cells)
      ensures outcome.Success? ==> |outcome.value.cells| >= Heuristic(grid.start, grid.goal)
      ensures outcome.Failure? ==> solution == old(solution)
      ensures outcome.Success? <==> PathExists(grid)
      ensures grid.goal !in explored && grid.start in explored
      ensures numOfStatesExplored == |explored| + (if outcome.Success? then 1 else 0)
    {
      var e, n;
      outcome, e, n := Search(grid);
      explored, numOfStatesExplored := e, n;
      if outcome.Success? {
        SolutionLength(grid, outcome.value.actions, outcome.value.cells);
        solution := Some(outcome.value);
      }
    }
  }
}
