/** Cells, moves and the per-turn board snapshot, together with the static
    obstacle list built from every snake's body and the move-validity test. */
module Grid {

  datatype Option<T> = None | Some(value: T)

  /** A board cell; the engine's `{"x": .., "y": ..}` coordinate. */
  datatype Cell = Cell(x: int, y: int)

  /** The four moves, with "up" meaning +y as in the engine. */
  datatype Action = Left | Right | Down | Up

  /** The order in which successors are tried: left, right, down, up. */
  const Actions: seq<Action> := [Left, Right, Down, Up]

  function ActionIndex(a: Action): (i: nat)
    ensures i < |Actions| && Actions[i] == a
  {
    match a
    case Left => 0
    case Right => 1
    case Down => 2
    case Up => 3
  }

  /** The cell one step away from `c` in the direction of `a`. */
  function Move(c: Cell, a: Action): Cell
  {
    match a
    case Left => Cell(c.x - 1, c.y)
    case Right => Cell(c.x + 1, c.y)
    case Down => Cell(c.x, c.y - 1)
    case Up => Cell(c.x, c.y + 1)
  }

  function Abs(n: int): nat { if n < 0 then -n else n }

  function Manhattan(a: Cell, b: Cell): nat
  {
    Abs(a.x - b.x) + Abs(a.y - b.y)
  }

  /** A snake of the payload: its head and its head-first body. */
  datatype Snake = Snake(head: Cell, body: seq<Cell>)

  /** The fields of a turn payload the planner reads: `board.width`,
      `board.height`, `board.food`, `board.snakes` and `you`. */
  datatype Board = Board(width: int, height: int, food: seq<Cell>, snakes: seq<Snake>, you: Snake)

  /** The engine's guarantee about a snake: a non-empty body whose first cell is the head. */
  predicate WellFormed(s: Snake)
  {
    |s.body| > 0 && s.head == s.body[0]
  }

  predicate WellFormedBoard(board: Board)
  {
    WellFormed(board.you) && forall i :: 0 <= i < |board.snakes| ==> WellFormed(board.snakes[i])
  }

  predicate InBounds(board: Board, c: Cell)
  {
    0 <= c.x < board.width && 0 <= c.y < board.height
  }

  /** Every snake's body cells, snake after snake, in body order. */
  function AllBodies(snakes: seq<Snake>): seq<Cell>
  {
    if snakes == [] then [] else AllBodies(snakes[..|snakes| - 1]) + snakes[|snakes| - 1].body
  }

  /** A cell is an obstacle exactly when it lies on the body of some snake. */
  lemma {:induction false} AllBodiesExactly(snakes: seq<Snake>, c: Cell)
    ensures c in AllBodies(snakes) <==> exists k :: 0 <= k < |snakes| && c in snakes[k].body
  {
    if snakes != [] {
      var init := snakes[..|snakes| - 1];
      AllBodiesExactly(init, c);
      if c in AllBodies(init) {
        var k :| 0 <= k < |init| && c in init[k].body;
        assert snakes[k] == init[k];
      }
      if exists k :: 0 <= k < |snakes| && c in snakes[k].body {
        var k :| 0 <= k < |snakes| && c in snakes[k].body;
        if k < |init| {
          assert init[k] == snakes[k];
        }
      }
    }
  }

  /** The agent appears among the board's snakes, so its own body is obstacle too. */
  lemma OwnBodyIsObstacle(board: Board, c: Cell)
    requires board.you in board.snakes && c in board.you.body
    ensures c in AllBodies(board.snakes)
  {
    var k :| 0 <= k < |board.snakes| && board.snakes[k] == board.you;
    AllBodiesExactly(board.snakes, c);
  }

  /** find_obstacles: collects the body cells of every snake on the board. */
  method FindObstacles(board: Board) returns (obstacles: seq<Cell>)
    ensures obstacles == AllBodies(board.snakes)
  {
    obstacles := [];
    for i := 0 to |board.snakes|
      invariant obstacles == AllBodies(board.snakes[..i])
    {
      var body := board.snakes[i].body;
      for j := 0 to |body|
        invariant obstacles == AllBodies(board.snakes[..i]) + body[..j]
      {
        obstacles := obstacles + [body[j]];
        assert body[..j + 1] == body[..j] + [body[j]];
      }
      assert body[..|body|] == body;
      assert board.snakes[..i + 1][..i] == board.snakes[..i];
    }
    assert board.snakes[..|board.snakes|] == board.snakes;
  }

  /** is_valid_move: rejects a negative coordinate, a coordinate EQUAL to the
      width or height, and an obstacle cell. A cell beyond the far edge is
      not rejected; see StepValidIffInBounds for why that is harmless. */
  function IsValidMove(board: Board, obstacles: seq<Cell>, c: Cell): (ok: bool)
    ensures ok ==> 0 <= c.x && 0 <= c.y && c !in obstacles
    ensures InBounds(board, c) && c !in obstacles ==> ok
  {
    if c.x < 0 || c.y < 0 then false
    else if c.x == board.width || c.y == board.height then false
    else c !in obstacles
  }

  /** From a cell on the board, one step is valid exactly when it stays on the
      board and avoids the obstacles: the equality tests suffice for unit steps. */
  lemma StepValidIffInBounds(board: Board, obstacles: seq<Cell>, c: Cell, a: Action)
    requires InBounds(board, c)
    ensures IsValidMove(board, obstacles, Move(c, a)) <==> InBounds(board, Move(c, a)) && Move(c, a) !in obstacles
  {
  }
}
