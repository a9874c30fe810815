/** Search nodes of the planner and their one-step successors. */
module Nodes {
  import opened Grid

  /** GameNode: a hypothetical future position. `parent` is the index of the
      predecessor in the search's node pool (None for the start node);
      `hCost` is None until the node is put on the frontier. State identity
      is the `body` sequence alone: maps of the search are keyed by it. */
  datatype GameNode = GameNode(
    head: Cell,
    body: seq<Cell>,
    lastAction: Option<Action>,
    parent: Option<nat>,
    realCost: nat,
    hCost: Option<nat>)

  /** The node built from a snake of the payload: no parent, no action, cost 0. */
  function Root(s: Snake): GameNode
  {
    GameNode(s.head, s.body, None, None, 0, None)
  }

  /** get_cost: fails (the source raises ValueError) exactly when no
      heuristic cost has been attached yet; otherwise f = g + h. */
  function GetCost(n: GameNode): (r: Option<nat>)
    ensures r.Some? <==> n.hCost.Some?
    ensures r.Some? ==> n.realCost <= r.value
  {
    if n.hCost.None? then None else Some(n.hCost.value + n.realCost)
  }

  /** body[:-1] */
  function DropLast(body: seq<Cell>): (r: seq<Cell>)
    ensures |body| > 0 ==> |r| == |body| - 1
  {
    if |body| == 0 then [] else body[..|body| - 1]
  }

  /** The body after moving the head one step without growing. */
  function ChildBody(node: GameNode, a: Action): seq<Cell>
  {
    [Move(node.head, a)] + DropLast(node.body)
  }

  /** The node that generate_successors builds for action `a`. */
  function Child(node: GameNode, index: nat, a: Action): GameNode
  {
    GameNode(Move(node.head, a), ChildBody(node, a), Some(a), Some(index), node.realCost + 1, None)
  }

  /** One legal move from `p` to `c`: the head moves one unit in the named
      direction onto a valid cell, the body shifts, the cost grows by one. */
  predicate Step(board: Board, obstacles: seq<Cell>, p: GameNode, c: GameNode)
  {
    && c.lastAction.Some?
    && c.head == Move(p.head, c.lastAction.value)
    && c.body == [c.head] + DropLast(p.body)
    && c.realCost == p.realCost + 1
    && IsValidMove(board, obstacles, c.head)
  }

  predicate IsChild(board: Board, obstacles: seq<Cell>, p: GameNode, index: nat, c: GameNode)
  {
    Step(board, obstacles, p, c) && c.parent == Some(index)
  }

  /** Whether generate_successors keeps the move `a`: the target is valid and
      the resulting body differs from the body of the node's own parent. */
  predicate Keep(board: Board, obstacles: seq<Cell>, node: GameNode, parentBody: Option<seq<Cell>>, a: Action)
  {
    IsValidMove(board, obstacles, Move(node.head, a))
    && (parentBody.None? || parentBody.value != ChildBody(node, a))
  }

  /** The successors obtained from the first `i` actions of Actions, in order. */
  function SuccessorsUpTo(board: Board, obstacles: seq<Cell>, node: GameNode, index: nat,
                          parentBody: Option<seq<Cell>>, i: nat): seq<GameNode>
    requires i <= |Actions|
  {
    if i == 0 then []
    else
      var kept := SuccessorsUpTo(board, obstacles, node, index, parentBody, i - 1);
      var a := Actions[i - 1];
      if Keep(board, obstacles, node, parentBody, a) then kept + [Child(node, index, a)] else kept
  }

  function Successors(board: Board, obstacles: seq<Cell>, node: GameNode, index: nat,
                      parentBody: Option<seq<Cell>>): seq<GameNode>
  {
    SuccessorsUpTo(board, obstacles, node, index, parentBody, |Actions|)
  }

  /** generate_successors for the node at pool index `index`, whose parent
      (if any) has body `parentBody`. */
  method GenerateSuccessors(board: Board, obstacles: seq<Cell>, node: GameNode, index: nat,
                            parentBody: Option<seq<Cell>>) returns (successors: seq<GameNode>)
    ensures successors == Successors(board, obstacles, node, index, parentBody)
  {
    successors := [];
    for i := 0 to |Actions|
      invariant successors == SuccessorsUpTo(board, obstacles, node, index, parentBody, i)
    {
      var a := Actions[i];
      var proposed := Move(node.head, a);
      if IsValidMove(board, obstacles, proposed) {
        var child := Child(node, index, a);
        if parentBody.None? || parentBody.value != child.body {
          successors := successors + [child];
        }
      }
    }
  }

  lemma {:induction false} SuccessorsUpToSound(board: Board, obstacles: seq<Cell>, node: GameNode, index: nat,
                                               parentBody: Option<seq<Cell>>, i: nat)
    requires i <= |Actions|
    ensures |SuccessorsUpTo(board, obstacles, node, index, parentBody, i)| <= i
    ensures forall s :: s in SuccessorsUpTo(board, obstacles, node, index, parentBody, i) ==>
              s.lastAction.Some? && s == Child(node, index, s.lastAction.value)
              && Keep(board, obstacles, node, parentBody, s.lastAction.value)
  {
    if i > 0 {
      SuccessorsUpToSound(board, obstacles, node, index, parentBody, i - 1);
    }
  }

  /** Every successor is one legal step from the node in the direction it
      records, keeps the body length, costs one more, points back at the
      node, has no heuristic yet and never repeats the parent's body; there
      are at most four of them. */
  lemma SuccessorsSound(board: Board, obstacles: seq<Cell>, node: GameNode, index: nat,
                        parentBody: Option<seq<Cell>>)
    ensures |Successors(board, obstacles, node, index, parentBody)| <= 4
    ensures forall s :: s in Successors(board, obstacles, node, index, parentBody) ==>
              && IsChild(board, obstacles, node, index, s)
              && s.hCost.None?
              && (|node.body| > 0 ==> |s.body| == |node.body|)
              && (parentBody.Some? ==> s.body != parentBody.value)
  {
    SuccessorsUpToSound(board, obstacles, node, index, parentBody, |Actions|);
  }

  lemma {:induction false} SuccessorsUpToExactly(board: Board, obstacles: seq<Cell>, node: GameNode, index: nat,
                                                 parentBody: Option<seq<Cell>>, a: Action, i: nat)
    requires i <= |Actions|
    ensures Child(node, index, a) in SuccessorsUpTo(board, obstacles, node, index, parentBody, i)
            <==> ActionIndex(a) < i && Keep(board, obstacles, node, parentBody, a)
  {
    if i > 0 {
      SuccessorsUpToExactly(board, obstacles, node, index, parentBody, a, i - 1);
      var b := Actions[i - 1];
      assert Child(node, index, a) == Child(node, index, b) <==> a == b;
    }
  }

  /** The move `a` yields a successor exactly when it is kept. */
  lemma SuccessorsComplete(board: Board, obstacles: seq<Cell>, node: GameNode, index: nat,
                           parentBody: Option<seq<Cell>>, a: Action)
    ensures Child(node, index, a) in Successors(board, obstacles, node, index, parentBody)
            <==> Keep(board, obstacles, node, parentBody, a)
  {
    SuccessorsUpToExactly(board, obstacles, node, index, parentBody, a, |Actions|);
  }
}
