/** find_snakes_around: which rivals next to our next cell are at least as
    long as us and, by their own A* plan, step onto that cell first. */
module Threats {
  import opened Grid
  import opened Nodes
  import opened Search

  /** A snake whose plan is checked: not the one whose head is `previous`
      (our own head), its head next to `coor`, and not shorter than us. */
  predicate IsRival(board: Board, coor: Cell, previous: Cell, s: Snake)
  {
    s.head != previous && Manhattan(s.head, coor) == 1 && |s.body| >= |board.you.body|
  }

  /** The rival's plan starts by stepping onto `coor`. */
  predicate Contests(res: SearchResult, coor: Cell)
  {
    res.Found? && |res.path| >= 2 && res.path[1].head == coor
  }

  /** The threat list for the first `n` snakes, given the plans of the rivals
      among them (keyed by snake index): one `coor` per contesting rival. */
  function ThreatsUpTo(coor: Cell, plans: map<nat, SearchResult>, n: nat): seq<Cell>
  {
    if n == 0 then []
    else ThreatsUpTo(coor, plans, n - 1) + if n - 1 in plans && Contests(plans[n - 1], coor) then [coor] else []
  }

  /** The threat list holds only `coor`, once per contesting rival, and is
      non-empty exactly when some rival's plan contests `coor`. */
  lemma {:induction false} ThreatsUpToSpec(coor: Cell, plans: map<nat, SearchResult>, n: nat)
    ensures forall c :: c in ThreatsUpTo(coor, plans, n) ==> c == coor
    ensures |ThreatsUpTo(coor, plans, n)| <= n
    ensures ThreatsUpTo(coor, plans, n) != [] <==> exists i :: 0 <= i < n && i in plans && Contests(plans[i], coor)
  {
    if n > 0 {
      ThreatsUpToSpec(coor, plans, n - 1);
    }
  }

  /** Plans of snakes at index `n` or later do not affect the first `n` entries. */
  lemma {:induction false} ThreatsUpToIgnoresLater(coor: Cell, plans: map<nat, SearchResult>, n: nat,
                                                   j: nat, r: SearchResult)
    requires n <= j
    ensures ThreatsUpTo(coor, plans[j := r], n) == ThreatsUpTo(coor, plans, n)
  {
    if n > 0 {
      ThreatsUpToIgnoresLater(coor, plans, n - 1, j, r);
    }
  }

  /** What holds of the plans gathered from the first `n` snakes: one plan
      per rival among them, each a result findFood may give for that rival,
      and each with a second node (otherwise the scan would have stopped). */
  ghost predicate PlansSoFar(board: Board, obstacles: seq<Cell>, coor: Cell, previous: Cell,
                             plans: map<nat, SearchResult>, n: nat)
  {
    && n <= |board.snakes|
    && (forall j :: j in plans ==>
          && j < n && IsRival(board, coor, previous, board.snakes[j])
          && SearchOutcome(board, obstacles, board.snakes[j], plans[j])
          && plans[j].Found? && |plans[j].path| >= 2)
    && (forall j :: 0 <= j < n && IsRival(board, coor, previous, board.snakes[j]) ==> j in plans)
  }

  /** The loop invariant of FindSnakesAround survives a snake that is not a rival. */
  lemma PlansSkip(board: Board, obstacles: seq<Cell>, coor: Cell, previous: Cell,
                  plans: map<nat, SearchResult>, n: nat, found: seq<Cell>)
    requires PlansSoFar(board, obstacles, coor, previous, plans, n) && n < |board.snakes|
    requires found == ThreatsUpTo(coor, plans, n)
    requires !IsRival(board, coor, previous, board.snakes[n])
    ensures PlansSoFar(board, obstacles, coor, previous, plans, n + 1)
    ensures found == ThreatsUpTo(coor, plans, n + 1)
  {
    assert n !in plans;
  }

  /** The loop invariant of FindSnakesAround survives a rival whose plan has
      a second node; `coor` is added exactly when that node is on it. */
  lemma PlansAdd(board: Board, obstacles: seq<Cell>, coor: Cell, previous: Cell,
                 plans: map<nat, SearchResult>, n: nat, found: seq<Cell>, d: SearchResult,
                 plans': map<nat, SearchResult>)
    requires PlansSoFar(board, obstacles, coor, previous, plans, n) && n < |board.snakes|
    requires found == ThreatsUpTo(coor, plans, n)
    requires IsRival(board, coor, previous, board.snakes[n])
    requires SearchOutcome(board, obstacles, board.snakes[n], d) && d.Found? && |d.path| >= 2
    requires plans' == plans[n := d]
    ensures PlansSoFar(board, obstacles, coor, previous, plans', n + 1)
    ensures ThreatsUpTo(coor, plans', n + 1) == found + if coor == d.path[1].head then [coor] else []
  {
    PlansGrow(board, obstacles, coor, previous, plans, n, d);
    ThreatsUpToIgnoresLater(coor, plans, n, n, d);
    assert n in plans' && plans'[n] == d;
  }

  lemma PlansGrow(board: Board, obstacles: seq<Cell>, coor: Cell, previous: Cell,
                  plans: map<nat, SearchResult>, n: nat, d: SearchResult)
    requires PlansSoFar(board, obstacles, coor, previous, plans, n) && n < |board.snakes|
    requires IsRival(board, coor, previous, board.snakes[n])
    requires SearchOutcome(board, obstacles, board.snakes[n], d) && d.Found? && |d.path| >= 2
    ensures PlansSoFar(board, obstacles, coor, previous, plans[n := d], n + 1)
  {
    var plans' := plans[n := d];
    forall j | j in plans'
      ensures && j < n + 1 && IsRival(board, coor, previous, board.snakes[j])
              && SearchOutcome(board, obstacles, board.snakes[j], plans'[j])
              && plans'[j].Found? && |plans'[j].path| >= 2
    {
      if j != n {
        assert plans'[j] == plans[j];
      }
    }
  }

  /** What the failure result of FindSnakesAround records. */
  lemma PlansFail(board: Board, obstacles: seq<Cell>, coor: Cell, previous: Cell,
                  plans: map<nat, SearchResult>, n: nat, d: SearchResult, plans': map<nat, SearchResult>)
    requires PlansSoFar(board, obstacles, coor, previous, plans, n) && n < |board.snakes|
    requires IsRival(board, coor, previous, board.snakes[n])
    requires SearchOutcome(board, obstacles, board.snakes[n], d) && (d.NoPath? || |d.path| < 2)
    requires plans' == plans[n := d]
    ensures forall i :: i in plans' ==>
              && i < |board.snakes| && IsRival(board, coor, previous, board.snakes[i])
              && SearchOutcome(board, obstacles, board.snakes[i], plans'[i])
    ensures exists i :: i in plans' && (plans'[i].NoPath? || |plans'[i].path| < 2)
  {
    assert n in plans';
  }

  /** find_snakes_around(coor, previous_coor). `None` stands for the
      exception raised when a rival's plan is missing or has no second node
      (`d[1]` on None or on a one-node path). `plans` records, by snake
      index, the plan computed for each rival examined. */
  method FindSnakesAround(board: Board, obstacles: seq<Cell>, coor: Cell, previous: Cell)
    returns (threats: Option<seq<Cell>>, ghost plans: map<nat, SearchResult>)
    requires WellFormedBoard(board)
    ensures forall i :: i in plans ==>
              && i < |board.snakes| && IsRival(board, coor, previous, board.snakes[i])
              && SearchOutcome(board, obstacles, board.snakes[i], plans[i])
    ensures threats.Some? ==>
              && (forall i :: 0 <= i < |board.snakes| && IsRival(board, coor, previous, board.snakes[i]) ==> i in plans)
              && (forall i :: i in plans ==> plans[i].Found? && |plans[i].path| >= 2)
              && threats.value == ThreatsUpTo(coor, plans, |board.snakes|)
    ensures threats.None? ==> exists i :: i in plans && (plans[i].NoPath? || |plans[i].path| < 2)
    ensures threats.Some? ==> |threats.value| <= |board.snakes| && forall c :: c in threats.value ==> c == coor
    ensures threats != Some([]) ==> exists i :: 0 <= i < |board.snakes| && IsRival(board, coor, previous, board.snakes[i])
  {
    var found: seq<Cell> := [];
    plans := map[];
    for i := 0 to |board.snakes|
      invariant PlansSoFar(board, obstacles, coor, previous, plans, i)
      invariant found == ThreatsUpTo(coor, plans, i)
    {
      var snake := board.snakes[i];
      var other := snake.head;
      if other != previous && Manhattan(other, coor) == 1 && |snake.body| >= |board.you.body| {
        var d, _ := FindFood(board, obstacles, snake);
        if d.NoPath? || |d.path| < 2 {
          PlansFail(board, obstacles, coor, previous, plans, i, d, plans[i := d]);
          assert IsRival(board, coor, previous, board.snakes[i]);
          plans := plans[i := d];
          threats := None;
          return;
        }
        PlansAdd(board, obstacles, coor, previous, plans, i, found, d, plans[i := d]);
        plans := plans[i := d];
        if coor == d.path[1].head {
          found := found + [coor];
        }
      } else {
        // our own snake, a snake not next to `coor`, or a shorter one, which
        // loses a head-on collision: ignored
        PlansSkip(board, obstacles, coor, previous, plans, i, found);
      }
    }
    ThreatsUpToSpec(coor, plans, |board.snakes|);
    if found != [] {
      ghost var i :| 0 <= i < |board.snakes| && i in plans && Contests(plans[i], coor);
      assert IsRival(board, coor, previous, board.snakes[i]);
    }
    threats := Some(found);
  }
}
