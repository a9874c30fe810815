/** choose_move: the per-turn decision ladder. */
module Decision {
  import opened Grid
  import opened Nodes
  import opened Search
  import opened Threats

  /** The move returned to the engine, or NoLegalMove where the source calls
      random.choice on an empty successor list, which raises IndexError. */
  datatype Decision = Go(action: Action) | NoLegalMove

  /** random.choice(successors).last_action: any one successor's action. */
  method RandomChoice(successors: seq<GameNode>) returns (decision: Decision)
    requires forall s :: s in successors ==> s.lastAction.Some?
    ensures decision.Go? <==> successors != []
    ensures decision.Go? ==> exists s :: s in successors && s.lastAction == Some(decision.action)
  {
    if successors == [] {
      decision := NoLegalMove;
    } else {
      assert successors[0] in successors;
      var s :| s in successors;
      decision := Go(s.lastAction.value);
    }
  }

  /** The first step of a plan from the start node is one of the start
      node's successors, with the same action. */
  lemma FirstStepIsSuccessor(board: Board, obstacles: seq<Cell>, start: Snake, path: seq<GameNode>)
    requires ValidPath(board, obstacles, start, path) && |path| >= 2
    ensures path[1].lastAction.Some?
    ensures Child(Root(start), 0, path[1].lastAction.value) in Successors(board, obstacles, Root(start), 0, None)
  {
    assert Step(board, obstacles, path[0], path[1]);
    SuccessorsComplete(board, obstacles, Root(start), 0, None, path[1].lastAction.value);
  }

  /** A move taken from a successor of the start node lands on a valid
      cell, and from a head on the board, on a free cell of the board. */
  lemma SuccessorMoveIsSafe(board: Board, obstacles: seq<Cell>, you: Snake, a: Action)
    requires exists s :: s in Successors(board, obstacles, Root(you), 0, None) && s.lastAction == Some(a)
    ensures IsValidMove(board, obstacles, Move(you.head, a))
    ensures InBounds(board, you.head) ==> InBounds(board, Move(you.head, a)) && Move(you.head, a) !in obstacles
  {
    var s :| s in Successors(board, obstacles, Root(you), 0, None) && s.lastAction == Some(a);
    SuccessorsSound(board, obstacles, Root(you), 0, None);
    assert Step(board, obstacles, Root(you), s);
    if InBounds(board, you.head) {
      StepValidIffInBounds(board, obstacles, you.head, a);
    }
  }

  /** choose_move. With food on the board and a plan of at least two nodes,
      the move is the plan's first step, whatever the threat check finds:
      the re-plan around threatened cells is computed and then not used.
      Otherwise the move is a random successor of the start node. Either
      way a move, when there is one, lands on a valid cell. `plan` is the
      first findFood result (when there is food). */
  method ChooseMove(board: Board) returns (decision: Decision, ghost plan: SearchResult)
    requires WellFormedBoard(board)
    ensures decision.Go? <==> Successors(board, AllBodies(board.snakes), Root(board.you), 0, None) != []
    ensures decision.Go? ==> exists s :: s in Successors(board, AllBodies(board.snakes), Root(board.you), 0, None)
                                         && s.lastAction == Some(decision.action)
    ensures decision.Go? ==> IsValidMove(board, AllBodies(board.snakes), Move(board.you.head, decision.action))
    ensures decision.Go? && InBounds(board, board.you.head) ==>
              InBounds(board, Move(board.you.head, decision.action))
              && Move(board.you.head, decision.action) !in AllBodies(board.snakes)
    ensures board.food != [] ==> SearchOutcome(board, AllBodies(board.snakes), board.you, plan)
    ensures board.food != [] && plan.Found? && |plan.path| >= 2 ==> decision == Go(plan.path[1].lastAction.value)
  {
    var obstacles := FindObstacles(board);
    var start := Root(board.you);
    plan := NoPath;
    SuccessorsSound(board, obstacles, start, 0, None);
    var planned := false;
    if |board.food| > 0 {
      var d1, _ := FindFood(board, obstacles, board.you);
      plan := d1;
      if d1.Found? && |d1.path| >= 2 {
        var threats, _ := FindSnakesAround(board, obstacles, d1.path[1].head, board.you.head);
        if threats.Some? && threats.value != [] {
          var d, _ := FindFood(board, obstacles + threats.value, board.you);
        }
        FirstStepIsSuccessor(board, obstacles, board.you, d1.path);
        decision := Go(d1.path[1].lastAction.value);
        planned := true;
      }
      // a plan with one node: d1[1] raises IndexError, in the threat check
      // (swallowed) and again in the return, whose handler falls back to a
      // random successor, as does a search that found nothing
    }
    if !planned {
      // no food, no plan, or a one-node plan
      var successors := GenerateSuccessors(board, obstacles, start, 0, None);
      decision := RandomChoice(successors);
    }
    if decision.Go? {
      SuccessorMoveIsSafe(board, obstacles, board.you, decision.action);
    }
  }
}
