/** What a solution is: a chain of moves from the start to the goal over
    open cells, and why a search that runs out of frontier proves there is
    none. */
module Paths {
  import opened MazeGrid

  /** `self.solution = [actions, cells]`, both in start-to-goal order;
      `cells` leaves out the start cell. */
  datatype Solution = Solution(actions: seq<Action>, cells: seq<Cell>)

  /** The "No solution" exception of solve. */
  datatype SolveError = NoSolution

  /** Taking action `a` from `from` leads to the open cell `to`. */
  predicate Step(g: Grid, from: Cell, a: Action, to: Cell)
  {
    to == Move(from, a) && Open(g, to)
  }

  /** The cell before `cells[i]` on a path that leaves `from`. */
  function Prev(from: Cell, cells: seq<Cell>, i: nat): Cell
    requires i <= |cells|
  {
    if i == 0 then from else cells[i - 1]
  }

  /** Where a path that leaves `from` ends. */
  function End(from: Cell, cells: seq<Cell>): Cell
  {
    if cells == [] then from else cells[|cells| - 1]
  }

  /** `actions[i]` leads from the previous cell to `cells[i]`, for every i. */
  predicate PathFrom(g: Grid, from: Cell, actions: seq<Action>, cells: seq<Cell>)
  {
    |actions| == |cells| &&
    forall i {:trigger actions[i]} :: 0 <= i < |cells| ==> Step(g, Prev(from, cells, i), actions[i], cells[i])
  }

  /** A solution of the maze: a path from the start that ends at the goal. */
  predicate ValidPath(g: Grid, actions: seq<Action>, cells: seq<Cell>)
  {
    PathFrom(g, g.start, actions, cells) && End(g.start, cells) == g.goal
  }

  ghost predicate PathExists(g: Grid)
  {
    exists actions, cells :: ValidPath(g, actions, cells)
  }

  /** No move leads from a cell of `s` to an open cell outside `s`. */
  ghost predicate Closed(g: Grid, s: set<Cell>)
  {
    forall c, a :: c in s && Open(g, Move(c, a)) ==> Move(c, a) in s
  }

  /** Every open neighbour of an explored cell is explored or queued. */
  ghost predicate ClosedIn(grid: Grid, explored: set<Cell>, queued: set<Cell>)
  {
    forall c, a :: c in explored && Open(grid, Move(c, a)) ==> Move(c, a) in explored + queued
  }

  /** The same, except for the neighbours of `except`. */
  ghost predicate ClosedBut(grid: Grid, explored: set<Cell>, queued: set<Cell>, except: Cell)
  {
    forall c, a :: c in explored && c != except && Open(grid, Move(c, a)) ==> Move(c, a) in explored + queued
  }

  /** Moving a queued cell to the explored set keeps every explored cell
      closed except the moved one. */
  lemma Reclose(grid: Grid, explored: set<Cell>, queued: set<Cell>, rest: set<Cell>, x: Cell)
    requires ClosedIn(grid, explored, queued) && queued == rest + {x}
    ensures ClosedBut(grid, explored + {x}, rest, x)
    ensures (explored + {x}) + rest == explored + queued
  {
  }

  /** Every consecutive pair on a path is adjacent, and every cell is open. */
  lemma {:induction false} PathIsAdjacentChain(g: Grid, from: Cell, actions: seq<Action>, cells: seq<Cell>, i: nat)
    requires PathFrom(g, from, actions, cells) && i < |cells|
    ensures Adjacent(Prev(from, cells, i), cells[i]) && Open(g, cells[i])
  {
    assert Step(g, Prev(from, cells, i), actions[i], cells[i]);
  }

  /** A path that leaves a closed set never leaves it. */
  lemma {:induction false} PathStaysInClosed(g: Grid, s: set<Cell>, from: Cell, actions: seq<Action>, cells: seq<Cell>, i: nat)
    requires from in s && Closed(g, s) && PathFrom(g, from, actions, cells) && i < |cells|
    ensures cells[i] in s
    decreases i
  {
    if i > 0 {
      PathStaysInClosed(g, s, from, actions, cells, i - 1);
    }
    assert Step(g, Prev(from, cells, i), actions[i], cells[i]);
  }

  /** A closed set holding the start but not the goal rules out every solution. */
  lemma NoPathOutOfClosed(g: Grid, s: set<Cell>)
    requires g.start in s && g.goal !in s && Closed(g, s)
    ensures !PathExists(g)
  {
    forall actions, cells | PathFrom(g, g.start, actions, cells)
      ensures End(g.start, cells) != g.goal
    {
      if cells != [] {
        PathStaysInClosed(g, s, g.start, actions, cells, |cells| - 1);
      }
    }
  }

  lemma StepAt(g: Grid, from: Cell, actions: seq<Action>, cells: seq<Cell>, i: nat)
    requires PathFrom(g, from, actions, cells) && i < |cells|
    ensures Step(g, Prev(from, cells, i), actions[i], cells[i])
  {
  }

  /** Dropping the last step of a path leaves a path that ends one cell earlier. */
  lemma PathPrefix(g: Grid, from: Cell, actions: seq<Action>, cells: seq<Cell>)
    requires PathFrom(g, from, actions, cells) && cells != []
    ensures PathFrom(g, from, actions[..|cells| - 1], cells[..|cells| - 1])
    ensures End(from, cells[..|cells| - 1]) == Prev(from, cells, |cells| - 1)
  {
    var n := |cells| - 1;
    var acts, cs := actions[..n], cells[..n];
    assert PathFrom(g, from, acts, cs) by {
      forall i | 0 <= i < n ensures Step(g, Prev(from, cs, i), acts[i], cs[i]) {
        StepAt(g, from, actions, cells, i);
        if i > 0 {
          assert cs[i - 1] == cells[i - 1];
        }
      }
    }
    assert End(from, cs) == Prev(from, cells, n) by {
      if n > 0 {
        assert cs[n - 1] == cells[n - 1];
      }
    }
  }

  /** One more step in front of a path. */
  lemma PathPrepend(g: Grid, x: Cell, a: Action, y: Cell, actions: seq<Action>, cells: seq<Cell>)
    requires Step(g, x, a, y) && PathFrom(g, y, actions, cells)
    ensures PathFrom(g, x, [a] + actions, [y] + cells)
    ensures End(x, [y] + cells) == End(y, cells)
  {
    var cells' := [y] + cells;
    forall i | 0 <= i < |cells'| ensures Step(g, Prev(x, cells', i), ([a] + actions)[i], cells'[i]) {
      if i > 0 {
        assert Step(g, Prev(y, cells, i - 1), actions[i - 1], cells[i - 1]);
      }
    }
  }

  /** `list.reverse()` as a value. */
  function Reversed<T>(s: seq<T>): (r: seq<T>)
    ensures |r| == |s|
  {
    if s == [] then [] else [s[|s| - 1]] + Reversed(s[..|s| - 1])
  }

  lemma ReversedSnoc<T>(s: seq<T>, x: T)
    ensures Reversed(s + [x]) == [x] + Reversed(s)
  {
    assert (s + [x])[..|s|] == s;
  }

  lemma {:induction false} ReversedAt<T>(s: seq<T>, k: nat)
    requires k < |s|
    ensures Reversed(s)[k] == s[|s| - 1 - k]
  {
    if k > 0 {
      ReversedAt(s[..|s| - 1], k - 1);
    }
  }
}
