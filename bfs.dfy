/** The uninformed solver: stack and queue frontiers, backtracing, and the
    graph search of Maze.solve. */
module Bfs {
  import opened Wrappers
  import opened MazeGrid
  import opened Paths

  /** A search node. `parent` is the index of the parent in the arena of
      expanded nodes; the start node has neither parent nor action. */
  datatype Node = Node(parent: Option<nat>, state: Cell, action: Option<Action>)

  /** Last-in-first-out (StackFrontier) or first-in-first-out (QueueFrontier). */
  datatype Discipline = Stack | Queue

  /** The "Empty frontier" exception of remove. */
  datatype FrontierError = EmptyFrontier

  ghost function States(nodes: seq<Node>): set<Cell>
  {
    set n | n in nodes :: n.state
  }

  ghost predicate DistinctStates(nodes: seq<Node>)
  {
    forall i, j :: 0 <= i < j < |nodes| ==> nodes[i].state != nodes[j].state
  }

  /** StackFrontier, and QueueFrontier, which differs from it only in remove. */
  class Frontier {
    const discipline: Discipline
    var nodes: seq<Node>

    constructor (d: Discipline)
      ensures discipline == d && nodes == []
    {
      discipline := d;
      nodes := [];
    }

    method Add(node: Node)
      modifies this
      ensures nodes == old(nodes) + [node]
    {
      nodes := nodes + [node];
    }

    function ContainsState(s: Cell): (b: bool)
      reads this
      ensures b <==> s in States(nodes)
    {
      exists n | n in nodes :: n.state == s
    }

    function Empty(): (b: bool)
      reads this
      ensures b <==> nodes == []
    {
      |nodes| == 0
    }

    /** The last node added (stack) or the first (queue); the others stay in order. */
    method Remove() returns (r: Result<Node, FrontierError>)
      modifies this
      ensures old(nodes) == [] ==> r == Failure(EmptyFrontier) && nodes == old(nodes)
      ensures old(nodes) != [] && discipline == Stack ==>
        r == Success(old(nodes)[|old(nodes)| - 1]) && nodes == old(nodes)[..|old(nodes)| - 1]
        && old(nodes) == nodes + [r.value]
      ensures old(nodes) != [] && discipline == Queue ==>
        r == Success(old(nodes)[0]) && nodes == old(nodes)[1..]
        && old(nodes) == [r.value] + nodes
    {
      if Empty() {
        return Failure(EmptyFrontier);
      }
      match discipline
      case Stack =>
        var node := nodes[|nodes| - 1];
        nodes := nodes[..|nodes| - 1];
        r := Success(node);
      case Queue =>
        var node := nodes[0];
        nodes := nodes[1..];
        r := Success(node);
    }
  }

  /** The node remove takes from a non-empty frontier. */
  function Taken(d: Discipline, nodes: seq<Node>): Node
    requires nodes != []
  {
    if d == Stack then nodes[|nodes| - 1] else nodes[0]
  }

  /** The nodes remove leaves behind, in order. */
  function Kept(d: Discipline, nodes: seq<Node>): seq<Node>
    requires nodes != []
  {
    if d == Stack then nodes[..|nodes| - 1] else nodes[1..]
  }

  /** Two adds and three removes on a stack frontier. */
  method StackOrder(x: Node, y: Node) returns (first: Result<Node, FrontierError>, second: Result<Node, FrontierError>,
                                               third: Result<Node, FrontierError>)
    ensures first == Success(y) && second == Success(x) && third == Failure(EmptyFrontier)
  {
    var f := new Frontier(Stack);
    f.Add(x);
    f.Add(y);
    first := f.Remove();
    second := f.Remove();
    third := f.Remove();
  }

  /** Two adds and three removes on a queue frontier. */
  method QueueOrder(x: Node, y: Node) returns (first: Result<Node, FrontierError>, second: Result<Node, FrontierError>,
                                               third: Result<Node, FrontierError>)
    ensures first == Success(x) && second == Success(y) && third == Failure(EmptyFrontier)
  {
    var f := new Frontier(Queue);
    f.Add(x);
    f.Add(y);
    first := f.Remove();
    second := f.Remove();
    third := f.Remove();
  }

  lemma AddState(nodes: seq<Node>, x: Node)
    requires DistinctStates(nodes) && x.state !in States(nodes)
    ensures DistinctStates(nodes + [x])
    ensures States(nodes + [x]) == States(nodes) + {x.state}
  {
    var ext := nodes + [x];
    forall i, j | 0 <= i < j < |ext| ensures ext[i].state != ext[j].state {
      assert ext[i] == nodes[i];
      if j == |nodes| {
        assert nodes[i] in nodes;
      } else {
        assert ext[j] == nodes[j];
      }
    }
  }

  lemma TakeState(whole: seq<Node>, rest: seq<Node>, x: Node)
    requires whole == rest + [x] || whole == [x] + rest
    requires DistinctStates(whole)
    ensures DistinctStates(rest) && x.state !in States(rest)
    ensures States(whole) == States(rest) + {x.state}
    ensures forall n :: n in rest ==> n in whole
  {
    var d := if whole == rest + [x] then 0 else 1;
    var xi := if d == 0 then |rest| else 0;
    assert whole[xi] == x;
    assert forall i :: 0 <= i < |rest| ==> rest[i] == whole[i + d];
    forall n | n in rest ensures n.state != x.state {
      var i :| 0 <= i < |rest| && rest[i] == n;
      assert whole[i + d] == n;
    }
  }

  /** The parent link of `n` points below `bound` and is one legal move. */
  ghost predicate NodeOk(grid: Grid, arena: seq<Node>, n: Node, bound: nat)
  {
    match n.parent
    case None => n.state == grid.start && n.action == None
    case Some(p) => p < bound && p < |arena| && n.action.Some? && Step(grid, arena[p].state, n.action.value, n.state)
  }

  /** Every expanded node's parent was expanded before it. */
  ghost predicate ArenaOk(grid: Grid, arena: seq<Node>)
  {
    forall i :: 0 <= i < |arena| ==> NodeOk(grid, arena, arena[i], i)
  }

  ghost predicate FrontierOk(grid: Grid, arena: seq<Node>, nodes: seq<Node>)
  {
    forall n :: n in nodes ==> NodeOk(grid, arena, n, |arena|)
  }

  lemma NodeOkGrows(grid: Grid, arena: seq<Node>, x: Node, n: Node, bound: nat, bound': nat)
    requires NodeOk(grid, arena, n, bound) && bound <= |arena| && bound <= bound'
    ensures NodeOk(grid, arena + [x], n, bound')
  {
    if n.parent.Some? {
      assert (arena + [x])[n.parent.value] == arena[n.parent.value];
    }
  }

  lemma ArenaGrows(grid: Grid, arena: seq<Node>, x: Node, nodes: seq<Node>)
    requires ArenaOk(grid, arena) && NodeOk(grid, arena, x, |arena|) && FrontierOk(grid, arena, nodes)
    ensures ArenaOk(grid, arena + [x]) && FrontierOk(grid, arena + [x], nodes)
  {
    var ext := arena + [x];
    forall i | 0 <= i < |ext| ensures NodeOk(grid, ext, ext[i], i) {
      if i < |arena| {
        NodeOkGrows(grid, arena, x, arena[i], i, i);
      } else {
        NodeOkGrows(grid, arena, x, x, |arena|, i);
      }
    }
    forall n | n in nodes ensures NodeOk(grid, ext, n, |ext|) {
      NodeOkGrows(grid, arena, x, n, |arena|, |ext|);
    }
  }

  /** The backtrace of solve: follow parent links to the start node, then
      reverse the collected actions and cells. */
  method Backtrace(grid: Grid, arena: seq<Node>, last: Node) returns (actions: seq<Action>, cells: seq<Cell>)
    requires ArenaOk(grid, arena) && NodeOk(grid, arena, last, |arena|)
    ensures PathFrom(grid, grid.start, actions, cells)
    ensures End(grid.start, cells) == last.state
  {
    var node := last;
    actions, cells := [], [];
    while node.parent.Some?
      invariant NodeOk(grid, arena, node, |arena|)
      invariant PathFrom(grid, node.state, Reversed(actions), Reversed(cells))
      invariant End(node.state, Reversed(cells)) == last.state
      decreases if node.parent.Some? then node.parent.value + 1 else 0
    {
      var p := node.parent.value;
      ReversedSnoc(actions, node.action.value);
      ReversedSnoc(cells, node.state);
      PathPrepend(grid, arena[p].state, node.action.value, node.state, Reversed(actions), Reversed(cells));
      actions := actions + [node.action.value];
      cells := cells + [node.state];
      node := arena[p];
    }
    actions := Reversed(actions);
    cells := Reversed(cells);
  }

  /** The invariants solve keeps on its frontier: every queued node has a
      legal parent link, queued states are distinct, none of them is
      explored, and all of them are open cells. */
  ghost predicate FrontierInv(grid: Grid, arena: seq<Node>, nodes: seq<Node>, explored: set<Cell>)
  {
    ArenaOk(grid, arena) && FrontierOk(grid, arena, nodes)
    && DistinctStates(nodes) && explored !! States(nodes)
    && (forall c :: c in explored + States(nodes) ==> Open(grid, c))
  }

  /** The frontier grew from `nodes0` only by appending nodes whose states
      were neither explored nor queued. */
  ghost predicate Grown(nodes0: seq<Node>, nodes: seq<Node>, explored: set<Cell>)
  {
    |nodes0| <= |nodes| && nodes[..|nodes0|] == nodes0
    && (forall i :: |nodes0| <= i < |nodes| ==> nodes[i].state !in explored + States(nodes0))
    && States(nodes0) <= States(nodes)
    && (explored + States(nodes) == explored + States(nodes0) ==> nodes == nodes0)
  }

  /** Queueing one more unseen, legal child keeps the frontier invariants. */
  lemma Enqueue(grid: Grid, arena: seq<Node>, nodes0: seq<Node>, nodes: seq<Node>, explored: set<Cell>, child: Node)
    requires FrontierInv(grid, arena, nodes, explored)
    requires Grown(nodes0, nodes, explored)
    requires NodeOk(grid, arena, child, |arena|) && Open(grid, child.state) && child.state !in explored + States(nodes)
    ensures FrontierInv(grid, arena, nodes + [child], explored)
    ensures Grown(nodes0, nodes + [child], explored)
    ensures States(nodes + [child]) == States(nodes) + {child.state}
  {
    AddState(nodes, child);
    var ext := nodes + [child];
    assert forall i :: 0 <= i < |nodes| ==> ext[i] == nodes[i];
    assert ext[..|nodes0|] == nodes0 by {
      assert ext[..|nodes0|] == nodes[..|nodes0|];
    }
    forall n | n in ext ensures NodeOk(grid, arena, n, |arena|) {
      if n != child {
        assert n in nodes;
      }
    }
  }

  /** The node solve queues for the neighbour `nb` of the node at arena
      index `parent`. */
  function Child(parent: nat, nb: (Action, Cell)): Node
  {
    Node(Some(parent), nb.1, Some(nb.0))
  }

  /** The nodes solve queues for the first `k` entries of the neighbour list
      `nbrs` of one expanded node: one per entry whose cell is not in
      `seen`, in list order. */
  function ChildList(parent: nat, seen: set<Cell>, nbrs: seq<(Action, Cell)>, k: nat): seq<Node>
    requires k <= |nbrs|
  {
    if k == 0 then []
    else
      ChildList(parent, seen, nbrs, k - 1) + (if nbrs[k - 1].1 in seen then [] else [Child(parent, nbrs[k - 1])])
  }

  /** What expanding the cell `x`, at arena index `parent`, appends to the
      frontier when the cells in `seen` are explored or queued. */
  function Children(grid: Grid, x: Cell, parent: nat, seen: set<Cell>): seq<Node>
  {
    var nbrs := OpenMoves(grid, x, Actions);
    ChildList(parent, seen, nbrs, |nbrs|)
  }

  predicate RankIncreasing(nbrs: seq<(Action, Cell)>)
  {
    forall i, j :: 0 <= i < j < |nbrs| ==> Rank(nbrs[i].0) < Rank(nbrs[j].0)
  }

  lemma StatesAppend(a: seq<Node>, b: seq<Node>)
    ensures States(a + b) == States(a) + States(b)
  {
    assert forall n :: n in a + b <==> n in a || n in b;
  }

  /** Every child comes from an unseen entry of the neighbour list, and the
      children keep the ranks of a rank-ordered list increasing. */
  lemma {:induction false} ChildListShape(parent: nat, seen: set<Cell>, nbrs: seq<(Action, Cell)>, k: nat)
    requires k <= |nbrs| && RankIncreasing(nbrs)
    ensures var cs := ChildList(parent, seen, nbrs, k);
      |cs| <= k
      && forall i :: 0 <= i < |cs| ==>
           cs[i].parent == Some(parent) && cs[i].action.Some? && cs[i].state !in seen
           && exists j :: 0 <= j < k && nbrs[j] == (cs[i].action.value, cs[i].state)
    ensures var cs := ChildList(parent, seen, nbrs, k);
      forall i, j :: 0 <= i < j < |cs| ==>
        (cs[i].action.Some? && cs[j].action.Some? && Rank(cs[i].action.value) < Rank(cs[j].action.value))
  {
    if k > 0 {
      ChildListShape(parent, seen, nbrs, k - 1);
      var ps := ChildList(parent, seen, nbrs, k - 1);
      var cs := ChildList(parent, seen, nbrs, k);
      assert forall i :: 0 <= i < |ps| ==> cs[i] == ps[i];
      forall i | 0 <= i < |ps| ensures Rank(ps[i].action.value) < Rank(nbrs[k - 1].0) {
        var j :| 0 <= j < k - 1 && nbrs[j] == (ps[i].action.value, ps[i].state);
      }
      if nbrs[k - 1].1 !in seen {
        assert cs[|ps|] == Child(parent, nbrs[k - 1]);
      }
    }
  }

  /** Every unseen entry among the first `k` has its child queued. */
  lemma {:induction false} ChildListHas(parent: nat, seen: set<Cell>, nbrs: seq<(Action, Cell)>, k: nat, j: nat)
    requires j < k <= |nbrs| && nbrs[j].1 !in seen
    ensures Child(parent, nbrs[j]) in ChildList(parent, seen, nbrs, k)
  {
    var ps := ChildList(parent, seen, nbrs, k - 1);
    if j < k - 1 {
      ChildListHas(parent, seen, nbrs, k - 1, j);
      assert ChildList(parent, seen, nbrs, k)[..|ps|] == ps;
    } else {
      assert ChildList(parent, seen, nbrs, k) == ps + [Child(parent, nbrs[j])];
    }
  }

  /** The neighbour cells are distinct, so neighbour `k` is not among the
      children of the ones before it. */
  lemma NotYetQueued(grid: Grid, x: Cell, parent: nat, seen: set<Cell>, nbrs: seq<(Action, Cell)>, k: nat)
    requires Collected(grid, x, nbrs, 4) && k < |nbrs|
    ensures nbrs[k].1 !in States(ChildList(parent, seen, nbrs, k))
  {
    ChildListShape(parent, seen, nbrs, k);
    forall j | 0 <= j < k ensures nbrs[j].1 != nbrs[k].1 {
      MoveInjective(x, nbrs[j].0, nbrs[k].0);
    }
  }

  /** The children of a cell are exactly its open, unseen neighbours, each
      with the cell's arena index as parent and the move as action, in the
      order up, down, left, right. */
  lemma ChildrenExact(grid: Grid, x: Cell, parent: nat, seen: set<Cell>)
    ensures var cs := Children(grid, x, parent, seen);
      |cs| <= 4
      && (forall i :: 0 <= i < |cs| ==>
            cs[i].parent == Some(parent) && cs[i].action.Some? && cs[i].state == Move(x, cs[i].action.value)
            && Open(grid, cs[i].state) && cs[i].state !in seen)
      && (forall i, j :: 0 <= i < j < |cs| ==>
            (cs[i].action.Some? && cs[j].action.Some? && Rank(cs[i].action.value) < Rank(cs[j].action.value)))
      && (forall a :: Open(grid, Move(x, a)) && Move(x, a) !in seen ==> Node(Some(parent), Move(x, a), Some(a)) in cs)
  {
    var nbrs := OpenMoves(grid, x, Actions);
    OpenMovesCollected(grid, x, 4);
    assert Actions[..4] == Actions;
    ChildListShape(parent, seen, nbrs, |nbrs|);
    var cs := Children(grid, x, parent, seen);
    forall i | 0 <= i < |cs| ensures cs[i].state == Move(x, cs[i].action.value) && Open(grid, cs[i].state) {
      var j :| 0 <= j < |nbrs| && nbrs[j] == (cs[i].action.value, cs[i].state);
    }
    forall a | Open(grid, Move(x, a)) && Move(x, a) !in seen ensures Node(Some(parent), Move(x, a), Some(a)) in cs {
      assert Rank(a) < 4;
      var j :| 0 <= j < |nbrs| && nbrs[j] == (a, Move(x, a));
      ChildListHas(parent, seen, nbrs, |nbrs|, j);
    }
  }

  /** Queueing the unseen neighbours of `x` closes it. */
  lemma ExpandCloses(grid: Grid, x: Cell, parent: nat, explored: set<Cell>, nodes0: seq<Node>, nbrs: seq<(Action, Cell)>)
    requires Collected(grid, x, nbrs, 4)
    requires ClosedBut(grid, explored, States(nodes0), x)
    ensures ClosedIn(grid, explored, States(nodes0 + ChildList(parent, explored + States(nodes0), nbrs, |nbrs|)))
  {
    var seen := explored + States(nodes0);
    var cs := ChildList(parent, seen, nbrs, |nbrs|);
    StatesAppend(nodes0, cs);
    forall c, a | c in explored && Open(grid, Move(c, a)) ensures Move(c, a) in explored + States(nodes0 + cs) {
      if c == x && Move(x, a) !in seen {
        assert Rank(a) < 4;
        var j :| 0 <= j < |nbrs| && nbrs[j] == (a, Move(x, a));
        ChildListHas(parent, seen, nbrs, |nbrs|, j);
        assert Child(parent, nbrs[j]).state == Move(x, a);
      }
    }
  }

  /** One candidate of the inner loop, entry `k` of the neighbour list
      `nbrs` of the expanded node `arena[|arena| - 1]`: queue it unless its
      state is queued or explored. */
  method Visit(grid: Grid, frontier: Frontier, explored: set<Cell>, arena: seq<Node>, ghost nodes0: seq<Node>,
               ghost nbrs: seq<(Action, Cell)>, ghost k: nat, action: Action, state: Cell)
    requires |arena| > 0 && k < |nbrs| && nbrs[k] == (action, state) && Collected(grid, arena[|arena| - 1].state, nbrs, 4)
    requires FrontierInv(grid, arena, frontier.nodes, explored)
    requires Grown(nodes0, frontier.nodes, explored)
    requires frontier.nodes == nodes0 + ChildList(|arena| - 1, explored + States(nodes0), nbrs, k)
    modifies frontier
    ensures FrontierInv(grid, arena, frontier.nodes, explored)
    ensures Grown(nodes0, frontier.nodes, explored)
    ensures frontier.nodes == nodes0 + ChildList(|arena| - 1, explored + States(nodes0), nbrs, k + 1)
    ensures state in explored + States(old(frontier.nodes)) ==> frontier.nodes == old(frontier.nodes)
    ensures state !in explored + States(old(frontier.nodes)) ==>
      frontier.nodes == old(frontier.nodes) + [Node(Some(|arena| - 1), state, Some(action))]
  {
    if !frontier.ContainsState(state) && state !in explored {
      var child := Node(Some(|arena| - 1), state, Some(action));
      Queued(grid, arena, nodes0, frontier.nodes, explored, nbrs, k, action, state, child);
      frontier.Add(child);
    } else {
      Passed(grid, arena, nodes0, frontier.nodes, explored, nbrs, k, action, state);
    }
  }

  /** The then-branch of visit: queueing the child of an unseen neighbour
      keeps the invariants and extends the children by one. */
  lemma Queued(grid: Grid, arena: seq<Node>, nodes0: seq<Node>, nodes: seq<Node>, explored: set<Cell>,
               nbrs: seq<(Action, Cell)>, k: nat, action: Action, state: Cell, child: Node)
    requires |arena| > 0 && k < |nbrs| && nbrs[k] == (action, state) && Collected(grid, arena[|arena| - 1].state, nbrs, 4)
    requires FrontierInv(grid, arena, nodes, explored)
    requires Grown(nodes0, nodes, explored)
    requires nodes == nodes0 + ChildList(|arena| - 1, explored + States(nodes0), nbrs, k)
    requires state !in States(nodes) && state !in explored
    requires child == Node(Some(|arena| - 1), state, Some(action))
    ensures FrontierInv(grid, arena, nodes + [child], explored)
    ensures Grown(nodes0, nodes + [child], explored)
    ensures nodes + [child] == nodes0 + ChildList(|arena| - 1, explored + States(nodes0), nbrs, k + 1)
  {
    var seen := explored + States(nodes0);
    var done := ChildList(|arena| - 1, seen, nbrs, k);
    NotYetQueued(grid, arena[|arena| - 1].state, |arena| - 1, seen, nbrs, k);
    StatesAppend(nodes0, done);
    assert state !in seen && child == Child(|arena| - 1, nbrs[k]);
    Enqueue(grid, arena, nodes0, nodes, explored, child);
    assert nodes + [child] == nodes0 + (done + [child]);
  }

  /** The else-branch of visit: a seen neighbour adds no child. */
  lemma Passed(grid: Grid, arena: seq<Node>, nodes0: seq<Node>, nodes: seq<Node>, explored: set<Cell>,
               nbrs: seq<(Action, Cell)>, k: nat, action: Action, state: Cell)
    requires |arena| > 0 && k < |nbrs| && nbrs[k] == (action, state) && Collected(grid, arena[|arena| - 1].state, nbrs, 4)
    requires nodes == nodes0 + ChildList(|arena| - 1, explored + States(nodes0), nbrs, k)
    requires state in States(nodes) || state in explored
    ensures nodes == nodes0 + ChildList(|arena| - 1, explored + States(nodes0), nbrs, k + 1)
  {
    var seen := explored + States(nodes0);
    var done := ChildList(|arena| - 1, seen, nbrs, k);
    NotYetQueued(grid, arena[|arena| - 1].state, |arena| - 1, seen, nbrs, k);
    StatesAppend(nodes0, done);
    assert state in seen by {
      assert state in States(nodes0) + States(done) || state in explored;
    }
    assert ChildList(|arena| - 1, seen, nbrs, k + 1) == done + [];
  }

  /** The inner loop of solve: queue every neighbour of the expanded node
      `arena[|arena| - 1]` that is neither queued nor explored. */
  method Expand(grid: Grid, frontier: Frontier, explored: set<Cell>, arena: seq<Node>)
    requires Shaped(grid) && |arena| > 0 && arena[|arena| - 1].state in explored
    requires FrontierInv(grid, arena, frontier.nodes, explored)
    requires ClosedBut(grid, explored, States(frontier.nodes), arena[|arena| - 1].state)
    modifies frontier
    ensures frontier.nodes
         == old(frontier.nodes) + Children(grid, arena[|arena| - 1].state, |arena| - 1, explored + States(old(frontier.nodes)))
    ensures FrontierInv(grid, arena, frontier.nodes, explored)
    ensures ClosedIn(grid, explored, States(frontier.nodes))
    ensures Grown(old(frontier.nodes), frontier.nodes, explored)
  {
    var node := arena[|arena| - 1];
    var neighbours := Neighbours(grid, node.state);
    ghost var nodes0 := frontier.nodes;
    for k := 0 to |neighbours|
      invariant FrontierInv(grid, arena, frontier.nodes, explored)
      invariant Grown(nodes0, frontier.nodes, explored)
      invariant frontier.nodes == nodes0 + ChildList(|arena| - 1, explored + States(nodes0), neighbours, k)
    {
      var (action, state) := neighbours[k];
      Visit(grid, frontier, explored, arena, nodes0, neighbours, k, action, state);
    }
    ExpandCloses(grid, node.state, |arena| - 1, explored, nodes0, neighbours);
  }

  /** What holds at the head of solve's loop. */
  ghost predicate SearchInv(grid: Grid, arena: seq<Node>, nodes: seq<Node>, explored: set<Cell>, numExplored: nat)
  {
    FrontierInv(grid, arena, nodes, explored)
    && grid.goal !in explored
    && numExplored == |explored|
    && (grid.start in explored || (explored == {} && States(nodes) == {grid.start}))
    && ClosedIn(grid, explored, States(nodes))
  }

  lemma SearchStarts(grid: Grid, nodes: seq<Node>)
    requires Valid(grid) && nodes == [Node(None, grid.start, None)]
    ensures SearchInv(grid, [], nodes, {}, 0)
  {
    assert States(nodes) == {grid.start} by {
      assert nodes[0] in nodes;
    }
    assert FrontierInv(grid, [], nodes, {}) by {
      assert forall n :: n in nodes ==> n == nodes[0];
    }
  }

  /** The frontier part of the invariant survives moving `node` to the arena. */
  lemma RemovedFrontier(grid: Grid, arena: seq<Node>, before: seq<Node>, rest: seq<Node>, node: Node, explored: set<Cell>)
    requires FrontierInv(grid, arena, before, explored)
    requires before == rest + [node] || before == [node] + rest
    ensures NodeOk(grid, arena, node, |arena|) && node.state !in explored
    ensures States(before) == States(rest) + {node.state}
    ensures FrontierInv(grid, arena + [node], rest, explored + {node.state})
  {
    TakeState(before, rest, node);
    assert node in before;
    assert FrontierOk(grid, arena, rest);
    ArenaGrows(grid, arena, node, rest);
  }

  /** The first node removed is the start node. */
  lemma RemovedFirst(grid: Grid, arena: seq<Node>, before: seq<Node>, rest: seq<Node>, node: Node, explored: set<Cell>, numExplored: nat)
    requires SearchInv(grid, arena, before, explored, numExplored)
    requires before == rest + [node] || before == [node] + rest
    ensures grid.start in explored + {node.state}
  {
    if grid.start !in explored {
      assert node in before;
      assert node.state in States(before);
    }
  }

  /** A removed node carries a legal parent link; if it is the goal, the
      start was explored before it. */
  lemma RemovedGoal(grid: Grid, arena: seq<Node>, before: seq<Node>, rest: seq<Node>, node: Node, explored: set<Cell>, numExplored: nat)
    requires Valid(grid) && SearchInv(grid, arena, before, explored, numExplored)
    requires before == rest + [node] || before == [node] + rest
    requires node.state == grid.goal
    ensures ArenaOk(grid, arena) && NodeOk(grid, arena, node, |arena|) && grid.start in explored
  {
    assert node in before;
    RemovedFirst(grid, arena, before, rest, node, explored, numExplored);
  }

  /** Moving a removed non-goal node to the arena and its state to the
      explored set sets up its expansion. */
  lemma Removed(grid: Grid, arena: seq<Node>, before: seq<Node>, rest: seq<Node>, node: Node, explored: set<Cell>, numExplored: nat,
                arena': seq<Node>, explored': set<Cell>)
    requires Valid(grid) && SearchInv(grid, arena, before, explored, numExplored)
    requires before == rest + [node] || before == [node] + rest
    requires node.state != grid.goal
    requires arena' == arena + [node] && explored' == explored + {node.state}
    ensures Shaped(grid) && |arena'| > 0 && arena'[|arena'| - 1].state in explored'
    ensures FrontierInv(grid, arena', rest, explored')
    ensures ClosedBut(grid, explored', States(rest), arena'[|arena'| - 1].state)
    ensures arena'[|arena'| - 1] == node && node.state !in explored
    ensures grid.start in explored' && grid.goal !in explored' && numExplored + 1 == |explored'|
    ensures explored' + States(rest) == (explored' - {node.state}) + States(before)
  {
    RemovedFrontier(grid, arena, before, rest, node, explored);
    RemovedFirst(grid, arena, before, rest, node, explored, numExplored);
    Reclose(grid, explored, States(before), States(rest), node.state);
    assert explored + {node.state} - {node.state} == explored;
  }

  /** The non-goal branch of solve's loop body: explore the removed node
      and queue its new neighbours. */
  method Explore(grid: Grid, frontier: Frontier, explored: set<Cell>, arena: seq<Node>, node: Node,
                 ghost before: seq<Node>, numExplored: nat)
    returns (explored': set<Cell>, arena': seq<Node>)
    requires Valid(grid) && SearchInv(grid, arena, before, explored, numExplored)
    requires before == frontier.nodes + [node] || before == [node] + frontier.nodes
    requires node.state != grid.goal
    modifies frontier
    ensures explored' == explored + {node.state} && arena' == arena + [node]
    ensures frontier.nodes == old(frontier.nodes) + Children(grid, node.state, |arena|, explored' + States(old(frontier.nodes)))
    ensures SearchInv(grid, arena', frontier.nodes, explored', numExplored + 1)
    ensures Unseen(grid, explored', frontier.nodes) < Unseen(grid, explored, before)
         || (Unseen(grid, explored', frontier.nodes) == Unseen(grid, explored, before) && |frontier.nodes| < |before|)
  {
    ghost var rest := frontier.nodes;
    explored' := explored + {node.state};
    arena' := arena + [node];
    Removed(grid, arena, before, rest, node, explored, numExplored, arena', explored');
    Expand(grid, frontier, explored', arena');
    Explored(grid, arena, node, before, rest, frontier.nodes, explored, numExplored, arena', explored');
  }

  /** What the expansion in explore leaves: the children of the explored
      node appended, the invariant restored and the measure decreased. */
  lemma Explored(grid: Grid, arena: seq<Node>, node: Node, before: seq<Node>, rest: seq<Node>, nodes: seq<Node>,
                 explored: set<Cell>, numExplored: nat, arena': seq<Node>, explored': set<Cell>)
    requires Valid(grid) && SearchInv(grid, arena, before, explored, numExplored)
    requires before == rest + [node] || before == [node] + rest
    requires node.state != grid.goal
    requires arena' == arena + [node] && explored' == explored + {node.state}
    requires nodes == rest + Children(grid, arena'[|arena'| - 1].state, |arena'| - 1, explored' + States(rest))
    requires FrontierInv(grid, arena', nodes, explored')
    requires ClosedIn(grid, explored', States(nodes))
    requires Grown(rest, nodes, explored')
    ensures nodes == rest + Children(grid, node.state, |arena|, explored' + States(rest))
    ensures SearchInv(grid, arena', nodes, explored', numExplored + 1)
    ensures Unseen(grid, explored', nodes) < Unseen(grid, explored, before)
         || (Unseen(grid, explored', nodes) == Unseen(grid, explored, before) && |nodes| < |before|)
  {
    Removed(grid, arena, before, rest, node, explored, numExplored, arena', explored');
    assert explored' - {node.state} == explored;
    Expanded(grid, arena', before, rest, nodes, explored', numExplored + 1);
  }

  /** One pass of solve's loop: remove a node; if it is the goal, backtrace,
      otherwise explore it. */
  method Iterate(grid: Grid, frontier: Frontier, explored: set<Cell>, arena: seq<Node>, numExplored: nat)
    returns (found: Option<Solution>, explored': set<Cell>, arena': seq<Node>, numExplored': nat)
    requires Valid(grid) && SearchInv(grid, arena, frontier.nodes, explored, numExplored) && frontier.nodes != []
    modifies frontier
    ensures numExplored' == numExplored + 1
    ensures var node, rest := Taken(frontier.discipline, old(frontier.nodes)), Kept(frontier.discipline, old(frontier.nodes));
      (found.Some? <==> node.state == grid.goal)
      && (found.Some? ==> frontier.nodes == rest && explored' == explored && arena' == arena)
      && (found.None? ==>
            explored' == explored + {node.state} && arena' == arena + [node]
            && frontier.nodes == rest + Children(grid, node.state, |arena|, explored' + States(rest)))
    ensures found.Some? ==> ValidPath(grid, found.value.actions, found.value.cells) && grid.start in explored
    ensures found.None? ==> SearchInv(grid, arena', frontier.nodes, explored', numExplored')
    ensures found.None? ==>
      Unseen(grid, explored', frontier.nodes) < Unseen(grid, explored, old(frontier.nodes))
      || (Unseen(grid, explored', frontier.nodes) == Unseen(grid, explored, old(frontier.nodes))
          && |frontier.nodes| < |old(frontier.nodes)|)
  {
    ghost var before := frontier.nodes;
    var removed := frontier.Remove();
    var node := removed.value;
    numExplored' := numExplored + 1;
    if node.state == grid.goal {
      RemovedGoal(grid, arena, before, frontier.nodes, node, explored, numExplored);
      var actions, cells := Backtrace(grid, arena, node);
      return Some(Solution(actions, cells)), explored, arena, numExplored';
    }
    explored', arena' := Explore(grid, frontier, explored, arena, node, before, numExplored);
    found := None;
  }

  /** The open cells neither explored nor queued. */
  ghost function Unseen(grid: Grid, explored: set<Cell>, nodes: seq<Node>): nat
  {
    |OpenCells(grid) - (explored + States(nodes))|
  }

  /** After the neighbours of the expanded node are queued the invariant
      holds again, and fewer open cells are unseen or the frontier shrank. */
  lemma Expanded(grid: Grid, arena: seq<Node>, before: seq<Node>, rest: seq<Node>, nodes: seq<Node>,
                 explored: set<Cell>, numExplored: nat)
    requires |arena| > 0 && grid.start in explored && grid.goal !in explored && numExplored == |explored|
    requires before == rest + [arena[|arena| - 1]] || before == [arena[|arena| - 1]] + rest
    requires explored + States(rest) == (explored - {arena[|arena| - 1].state}) + States(before)
    requires FrontierInv(grid, arena, nodes, explored) && ClosedIn(grid, explored, States(nodes))
    requires Grown(rest, nodes, explored)
    ensures SearchInv(grid, arena, nodes, explored, numExplored)
    ensures Unseen(grid, explored, nodes) < Unseen(grid, explored - {arena[|arena| - 1].state}, before)
         || (Unseen(grid, explored, nodes) == Unseen(grid, explored - {arena[|arena| - 1].state}, before)
             && |nodes| < |before|)
  {
    if explored + States(nodes) != explored + States(rest) {
      UnseenShrinks(grid, explored + States(rest), explored + States(nodes));
    }
  }

  /** An empty frontier leaves a closed explored set with the start and
      without the goal: there is no solution. */
  lemma Exhausted(grid: Grid, arena: seq<Node>, explored: set<Cell>, numExplored: nat)
    requires SearchInv(grid, arena, [], explored, numExplored)
    ensures Closed(grid, explored) && !PathExists(grid)
    ensures grid.start in explored && forall c :: c in explored ==> Open(grid, c)
  {
    assert States([]) == {};
    NoPathOutOfClosed(grid, explored);
  }

  /** Maze.solve with the given frontier discipline (the source uses the
      queue). Returns the outcome, the explored set and the number of nodes
      removed from the frontier. */
  method Search(grid: Grid, discipline: Discipline) returns (outcome: Result<Solution, SolveError>, explored: set<Cell>, numExplored: nat)
    requires Valid(grid)
    ensures outcome.Success? ==> ValidPath(grid, outcome.value.actions, outcome.value.cells)
    ensures outcome.Success? <==> PathExists(grid)
    ensures outcome.Failure? ==> Closed(grid, explored)
    ensures grid.start in explored && grid.goal !in explored
    ensures forall c :: c in explored ==> Open(grid, c)
    ensures numExplored == |explored| + (if outcome.Success? then 1 else 0)
  {
    numExplored := 0;
    var frontier := new Frontier(discipline);
    frontier.Add(Node(None, grid.start, None));
    explored := {};
    var arena: seq<Node> := [];
    SearchStarts(grid, frontier.nodes);
    while !frontier.Empty()
      invariant SearchInv(grid, arena, frontier.nodes, explored, numExplored)
      decreases Unseen(grid, explored, frontier.nodes), |frontier.nodes|
    {
      var found, explored', arena', numExplored' := Iterate(grid, frontier, explored, arena, numExplored);
      if found.Some? {
        return Success(found.value), explored, numExplored';
      }
      explored, arena, numExplored := explored', arena', numExplored';
    }
    Exhausted(grid, arena, explored, numExplored);
    return Failure(NoSolution), explored, numExplored;
  }

  /** The solver object: the parsed grid and what solve records on it. */
  class Maze {
    const grid: Grid
    var solution: Option<Solution>
    var explored: set<Cell>
    var numOfStatesExplored: nat

    constructor (g: Grid)
      requires Valid(g)
      ensures grid == g && solution == None && explored == {} && numOfStatesExplored == 0
    {
      grid := g;
      solution := None;
      explored := {};
      numOfStatesExplored := 0;
    }

    /** Maze.solve: breadth-first search with a queue frontier. */
    method Solve() returns (outcome: Result<Solution, SolveError>)
      requires Valid(grid)
      modifies this
      ensures outcome.Success? ==> solution == Some(outcome.value) && ValidPath(grid, outcome.value.actions, outcome.value.cells)
      ensures outcome.Failure? ==> solution == old(solution)
      ensures outcome.Success? <==> PathExists(grid)
      ensures grid.goal !in explored && grid.start in explored
      ensures numOfStatesExplored == |explored| + (if outcome.Success? then 1 else 0)
    {
      var e, n;
      outcome, e, n := Search(grid, Queue);
      explored, numOfStatesExplored := e, n;
      if outcome.Success? {
        solution := Some(outcome.value);
      }
    }
  }
}
