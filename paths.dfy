/** What a plan returned by findFood guarantees about the snake's route. */
module Paths {
  import opened Grid
  import opened Nodes
  import opened Heuristic
  import opened Search

  lemma MoveIsUnitStep(c: Cell, a: Action)
    ensures Manhattan(c, Move(c, a)) == 1
  {
  }

  lemma Triangle(a: Cell, b: Cell, c: Cell)
    ensures Manhattan(a, c) <= Manhattan(a, b) + Manhattan(b, c)
  {
  }

  /** After t steps the head is at most t cells (Manhattan) from where it began. */
  lemma {:induction false} PathDrift(board: Board, obstacles: seq<Cell>, start: Snake, path: seq<GameNode>, t: nat)
    requires ValidPath(board, obstacles, start, path) && t < |path|
    ensures Manhattan(start.head, path[t].head) <= t
  {
    if t > 0 {
      PathDrift(board, obstacles, start, path, t - 1);
      assert Step(board, obstacles, path[t - 1], path[t]);
      MoveIsUnitStep(path[t - 1].head, path[t].lastAction.value);
      Triangle(start.head, path[t - 1].head, path[t].head);
    }
  }

  /** A plan that reaches food takes at least as many steps as h1 estimates
      for the start: h1 never overestimates. */
  lemma PlanNoShorterThanHeuristic(board: Board, obstacles: seq<Cell>, start: Snake, res: SearchResult)
    requires SearchOutcome(board, obstacles, start, res) && res.Found?
    requires res.path[|res.path| - 1].head in board.food
    ensures Nearest(board.food, start.head) <= res.steps
  {
    var last := res.path[|res.path| - 1];
    PathDrift(board, obstacles, start, res.path, |res.path| - 1);
    assert Manhattan(last.head, start.head) == Manhattan(start.head, last.head);
  }

  /** From a start on the board, every node of a plan is on the board, and
      every node after the start avoids the obstacles. */
  lemma {:induction false} PathStaysOnBoard(board: Board, obstacles: seq<Cell>, start: Snake,
                                            path: seq<GameNode>, t: nat)
    requires ValidPath(board, obstacles, start, path) && InBounds(board, start.head) && t < |path|
    ensures InBounds(board, path[t].head)
    ensures t > 0 ==> path[t].head !in obstacles
  {
    if t > 0 {
      PathStaysOnBoard(board, obstacles, start, path, t - 1);
      assert Step(board, obstacles, path[t - 1], path[t]);
      StepValidIffInBounds(board, obstacles, path[t - 1].head, path[t].lastAction.value);
    }
  }

  /** Every node of a plan from a well-formed snake is a snake of the same
      length whose body starts at its head. */
  lemma {:induction false} PathKeepsShape(board: Board, obstacles: seq<Cell>, start: Snake,
                                          path: seq<GameNode>, t: nat)
    requires ValidPath(board, obstacles, start, path) && WellFormed(start) && t < |path|
    ensures |path[t].body| == |start.body| && path[t].body[0] == path[t].head
  {
    if t > 0 {
      PathKeepsShape(board, obstacles, start, path, t - 1);
      assert Step(board, obstacles, path[t - 1], path[t]);
    }
  }
}
