/** The maze grid shared by the breadth-first and the A* solver: cells,
    moves, the wall map parsed from text, and neighbour enumeration. */
module MazeGrid {
  import opened Wrappers
  import opened Text

  /** (row, column). */
  type Cell = (int, int)

  /** The four move labels. "Up" increases the row index and "Down"
      decreases it: the labels are inverted from screen geometry. */
  datatype Action = Up | Down | Left | Right

  /** Position of an action in the fixed candidate order up, down, left, right. */
  function Rank(a: Action): nat
  {
    match a
    case Up => 0
    case Down => 1
    case Left => 2
    case Right => 3
  }

  function Abs(x: int): nat
  {
    if x < 0 then -x else x
  }

  /** Manhattan distance 1. */
  predicate Adjacent(a: Cell, b: Cell)
  {
    Abs(a.0 - b.0) + Abs(a.1 - b.1) == 1
  }

  /** The cell an action leads to. */
  function Move(c: Cell, a: Action): (n: Cell)
    ensures Adjacent(c, n)
    ensures a == Up ==> n.0 > c.0
    ensures a == Down ==> n.0 < c.0
    ensures a == Left ==> n.1 < c.1
    ensures a == Right ==> n.1 > c.1
  {
    match a
    case Up => (c.0 + 1, c.1)
    case Down => (c.0 - 1, c.1)
    case Left => (c.0, c.1 - 1)
    case Right => (c.0, c.1 + 1)
  }

  /** Different actions lead to different cells. */
  lemma MoveInjective(c: Cell, a: Action, b: Action)
    requires a != b
    ensures Move(c, a) != Move(c, b)
  {
  }

  /** The parsed maze: `walls[i][j]` is true for a wall cell. */
  datatype Grid = Grid(height: nat, width: nat, walls: seq<seq<bool>>, start: Cell, goal: Cell)

  /** `walls` has `height` rows of `width` entries each. */
  predicate Shaped(g: Grid)
  {
    |g.walls| == g.height && forall i :: 0 <= i < |g.walls| ==> |g.walls[i]| == g.width
  }

  predicate InBounds(g: Grid, c: Cell)
  {
    0 <= c.0 < g.height && 0 <= c.1 < g.width
  }

  /** In bounds and not a wall. */
  predicate Open(g: Grid, c: Cell)
  {
    InBounds(g, c) && c.0 < |g.walls| && c.1 < |g.walls[c.0]| && !g.walls[c.0][c.1]
  }

  /** What every constructed maze satisfies. */
  predicate Valid(g: Grid)
  {
    Shaped(g) && Open(g, g.start) && Open(g, g.goal) && g.start != g.goal
  }

  ghost function OpenCells(g: Grid): set<Cell>
  {
    set r: int, c: int | 0 <= r < g.height && 0 <= c < g.width && Open(g, (r, c)) :: (r, c)
  }

  /** Adding at least one open cell to a set of open cells leaves fewer open
      cells outside it; the search loops terminate on this measure. */
  lemma UnseenShrinks(g: Grid, before: set<Cell>, after: set<Cell>)
    requires before <= after && before != after
    requires forall c :: c in after ==> Open(g, c)
    ensures |OpenCells(g) - after| < |OpenCells(g) - before|
  {
    var x :| x in after && x !in before;
    assert x == (x.0, x.1);
    assert x in OpenCells(g);
    var smaller := (OpenCells(g) - before) - {x};
    assert OpenCells(g) - after <= smaller;
    assert |smaller| == |OpenCells(g) - before| - 1;
    SubsetCard(OpenCells(g) - after, smaller);
  }

  lemma SubsetCard<T>(a: set<T>, b: set<T>)
    requires a <= b
    ensures |a| <= |b|
  {
    assert b == a + (b - a);
  }

  /** The exceptions of the constructor: not exactly one 'A', not exactly one 'B'. */
  datatype ParseError = NotOneStart | NotOneGoal

  /** The character at line i, column j, or None past the end of a line
      (the IndexError the parser catches). */
  function CharAt(lines: seq<string>, i: int, j: int): Option<char>
  {
    if 0 <= i < |lines| && 0 <= j < |lines[i]| then Some(lines[i][j]) else None
  }

  /** Every character other than 'A', 'B' and ' ' is a wall; a missing one is not. */
  predicate IsWall(c: Option<char>)
  {
    match c
    case None => false
    case Some(ch) => ch != 'A' && ch != 'B' && ch != ' '
  }

  /** The open cells of a parsed maze: inside the rectangle, and either past
      the end of their line (the IndexError case) or holding 'A', 'B' or ' '. */
  lemma ParsedOpen(contents: string, g: Grid, c: Cell)
    requires Parsed(contents, g)
    ensures Open(g, c) <==>
              (InBounds(g, c) && (c.1 >= |SplitLines(contents)[c.0]| || SplitLines(contents)[c.0][c.1] in {'A', 'B', ' '}))
  {
    if InBounds(g, c) {
      assert g.walls[c.0][c.1] == IsWall(CharAt(SplitLines(contents), c.0, c.1));
    }
  }

  /** `g` is the maze the constructor builds from `contents`. */
  ghost predicate Parsed(contents: string, g: Grid)
  {
    var lines := SplitLines(contents);
    |lines| > 0 && g.height == |lines| && g.width == MaxLength(lines) && Shaped(g)
    && (forall i, j :: 0 <= i < g.height && 0 <= j < g.width ==> g.walls[i][j] == IsWall(CharAt(lines, i, j)))
    && At(lines, g.start, 'A') && At(lines, g.goal, 'B')
  }

  /** A parsed maze is rectangular, with open, distinct start and goal. */
  lemma ParsedIsValid(contents: string, g: Grid)
    requires Parsed(contents, g)
    ensures Valid(g)
  {
    var lines := SplitLines(contents);
    assert |lines[g.start.0]| <= g.width && |lines[g.goal.0]| <= g.width;
    assert CharAt(lines, g.start.0, g.start.1) == Some('A');
    assert CharAt(lines, g.goal.0, g.goal.1) == Some('B');
  }

  /** Maze.__init__ on the already-read file contents. */
  method Parse(contents: string) returns (r: Result<Grid, ParseError>)
    ensures Count(contents, 'A') != 1 <==> r == Failure(NotOneStart)
    ensures Count(contents, 'A') == 1 && Count(contents, 'B') != 1 <==> r == Failure(NotOneGoal)
    ensures r.Success? <==> Count(contents, 'A') == 1 && Count(contents, 'B') == 1
    ensures r.Success? ==> Parsed(contents, r.value) && Valid(r.value)
    ensures r.Success? ==> forall q: Cell :: q != r.value.start ==> CharAt(SplitLines(contents), q.0, q.1) != Some('A')
    ensures r.Success? ==> forall q: Cell :: q != r.value.goal ==> CharAt(SplitLines(contents), q.0, q.1) != Some('B')
  {
    if Count(contents, 'A') != 1 {
      return Failure(NotOneStart);
    }
    if Count(contents, 'B') != 1 {
      return Failure(NotOneGoal);
    }
    var lines := SplitLines(contents);
    CountLines(contents, 'A');
    CountLines(contents, 'B');
    ghost var pa := FindUnique(lines, 'A');
    ghost var pb := FindUnique(lines, 'B');
    var height := |lines|;
    var width := MaxLength(lines);
    var walls: seq<seq<bool>> := [];
    var start: Option<Cell> := None;
    var goal: Option<Cell> := None;
    for i := 0 to height
      invariant |walls| == i
      invariant forall i' :: 0 <= i' < i ==> |walls[i']| == width
      invariant forall i', j :: 0 <= i' < i && 0 <= j < width ==> walls[i'][j] == IsWall(CharAt(lines, i', j))
      invariant start == if pa.0 < i then Some(pa) else None
      invariant goal == if pb.0 < i then Some(pb) else None
    {
      var row;
      row, start, goal := ScanRow(lines, i, width, start, goal, pa, pb);
      AppendRow(lines, walls, row, i, width);
      walls := walls + [row];
    }
    var g := Grid(height, width, walls, start.value, goal.value);
    assert Parsed(contents, g);
    ParsedIsValid(contents, g);
    r := Success(g);
  }

  /** Appending the scanned row `i` extends the rows already built. */
  lemma AppendRow(lines: seq<string>, walls: seq<seq<bool>>, row: seq<bool>, i: nat, width: nat)
    requires |walls| == i && |row| == width
    requires forall i' :: 0 <= i' < i ==> |walls[i']| == width
    requires forall i', j :: 0 <= i' < i && 0 <= j < width ==> walls[i'][j] == IsWall(CharAt(lines, i', j))
    requires forall j :: 0 <= j < width ==> row[j] == IsWall(CharAt(lines, i, j))
    ensures forall i' :: 0 <= i' <= i ==> |(walls + [row])[i']| == width
    ensures forall i', j :: 0 <= i' <= i && 0 <= j < width ==> (walls + [row])[i'][j] == IsWall(CharAt(lines, i', j))
  {
    var ext := walls + [row];
    assert forall i' :: 0 <= i' < i ==> ext[i'] == walls[i'];
    assert ext[i] == row;
  }

  /** The inner loop of the constructor: row `i` of `walls`, recording the
      start and goal markers met on the way. `pa` and `pb` are the only
      positions of 'A' and 'B'. */
  method ScanRow(lines: seq<string>, i: nat, width: nat, start0: Option<Cell>, goal0: Option<Cell>,
                 ghost pa: Cell, ghost pb: Cell)
    returns (row: seq<bool>, start: Option<Cell>, goal: Option<Cell>)
    requires i < |lines| && |lines[i]| <= width
    requires At(lines, pa, 'A') && At(lines, pb, 'B')
    requires forall q: Cell :: q != pa && 0 <= q.0 < |lines| && 0 <= q.1 < |lines[q.0]| ==> lines[q.0][q.1] != 'A'
    requires forall q: Cell :: q != pb && 0 <= q.0 < |lines| && 0 <= q.1 < |lines[q.0]| ==> lines[q.0][q.1] != 'B'
    requires start0 == if pa.0 < i then Some(pa) else None
    requires goal0 == if pb.0 < i then Some(pb) else None
    ensures |row| == width
    ensures forall j :: 0 <= j < width ==> row[j] == IsWall(CharAt(lines, i, j))
    ensures start == if pa.0 <= i then Some(pa) else None
    ensures goal == if pb.0 <= i then Some(pb) else None
  {
    row, start, goal := [], start0, goal0;
    for j := 0 to width
      invariant |row| == j
      invariant forall j' :: 0 <= j' < j ==> row[j'] == IsWall(CharAt(lines, i, j'))
      invariant start == if pa.0 < i || (pa.0 == i && pa.1 < j) then Some(pa) else None
      invariant goal == if pb.0 < i || (pb.0 == i && pb.1 < j) then Some(pb) else None
    {
      if j < |lines[i]| {
        var ch := lines[i][j];
        if ch == 'A' {
          start := Some((i, j));
          row := row + [false];
        } else if ch == 'B' {
          goal := Some((i, j));
          row := row + [false];
        } else if ch == ' ' {
          row := row + [false];
        } else {
          row := row + [true];
        }
      } else {
        // IndexError: the line is shorter than the widest one
        row := row + [false];
      }
    }
  }

  /** `result` holds, in rank order, exactly the open moves of rank below `k`. */
  ghost predicate Collected(g: Grid, state: Cell, result: seq<(Action, Cell)>, k: nat)
  {
    |result| <= k
    && (forall i :: 0 <= i < |result| ==> result[i].1 == Move(state, result[i].0) && Open(g, result[i].1) && Rank(result[i].0) < k)
    && (forall a: Action :: Rank(a) < k && Open(g, Move(state, a)) ==> (a, Move(state, a)) in result)
    && (forall i, j :: 0 <= i < j < |result| ==> Rank(result[i].0) < Rank(result[j].0))
  }

  /** One more candidate considered: kept when it is open, skipped otherwise. */
  lemma CollectNext(g: Grid, state: Cell, result: seq<(Action, Cell)>, a: Action)
    requires Collected(g, state, result, Rank(a))
    ensures Open(g, Move(state, a)) ==> Collected(g, state, result + [(a, Move(state, a))], Rank(a) + 1)
    ensures !Open(g, Move(state, a)) ==> Collected(g, state, result, Rank(a) + 1)
  {
    var ext := result + [(a, Move(state, a))];
    if Open(g, Move(state, a)) {
      assert forall i :: 0 <= i < |result| ==> ext[i] == result[i];
      assert ext[|result|] == (a, Move(state, a));
      forall b: Action | Rank(b) < Rank(a) + 1 && Open(g, Move(state, b)) ensures (b, Move(state, b)) in ext {
        if b != a {
          assert (b, Move(state, b)) in result;
        }
      }
    } else {
      forall b: Action | Rank(b) < Rank(a) + 1 && Open(g, Move(state, b)) ensures (b, Move(state, b)) in result {
        assert b != a;
      }
    }
  }

  /** The candidate order of neighbours: up, down, left, right. */
  const Actions: seq<Action> := [Up, Down, Left, Right]

  /** The moves among `acts` that lead from `state` to an open cell, in order. */
  function OpenMoves(g: Grid, state: Cell, acts: seq<Action>): seq<(Action, Cell)>
  {
    if acts == [] then []
    else
      var a := acts[|acts| - 1];
      OpenMoves(g, state, acts[..|acts| - 1]) + (if Open(g, Move(state, a)) then [(a, Move(state, a))] else [])
  }

  /** The open moves among the first `k` candidates are exactly the open
      moves of rank below `k`, in rank order. */
  lemma {:induction false} OpenMovesCollected(g: Grid, state: Cell, k: nat)
    requires k <= 4
    ensures Collected(g, state, OpenMoves(g, state, Actions[..k]), k)
  {
    if k > 0 {
      OpenMovesCollected(g, state, k - 1);
      assert Actions[..k][..k - 1] == Actions[..k - 1];
      assert Rank(Actions[k - 1]) == k - 1;
      CollectNext(g, state, OpenMoves(g, state, Actions[..k - 1]), Actions[k - 1]);
    }
  }

  /** Maze.neighbours: the open cells one move away, in the fixed order
      up, down, left, right. */
  method Neighbours(g: Grid, state: Cell) returns (result: seq<(Action, Cell)>)
    requires Shaped(g)
    ensures result == OpenMoves(g, state, Actions)
    ensures |result| <= 4
    ensures forall k :: 0 <= k < |result| ==> result[k].1 == Move(state, result[k].0) && Open(g, result[k].1)
    ensures forall a: Action :: Open(g, Move(state, a)) ==> (a, Move(state, a)) in result
    ensures forall i, j :: 0 <= i < j < |result| ==> Rank(result[i].0) < Rank(result[j].0)
    ensures Collected(g, state, result, 4)
  {
    var (row, col) := state;
    var candidates := [
      (Up, (row + 1, col)),
      (Down, (row - 1, col)),
      (Left, (row, col - 1)),
      (Right, (row, col + 1))
    ];
    assert forall k :: 0 <= k < 4 ==> candidates[k].0 == Actions[k] && candidates[k].1 == Move(state, candidates[k].0);
    result := [];
    for k := 0 to |candidates|
      invariant result == OpenMoves(g, state, Actions[..k])
    {
      var (action, (r, c)) := candidates[k];
      assert Actions[..k + 1][..k] == Actions[..k];
      if 0 <= r < g.height && 0 <= c < g.width && !g.walls[r][c] {
        result := result + [(action, (r, c))];
      }
    }
    assert Actions[..4] == Actions;
    OpenMovesCollected(g, state, 4);
    forall a: Action | Open(g, Move(state, a)) ensures (a, Move(state, a)) in result {
      assert Rank(a) < 4;
    }
  }
}
