/** findFood: A* from a snake's current position to the nearest food, over
    a pool of nodes addressed by index, with a frontier of pool indices, a
    visited map and a heuristic cache keyed by state (the body). */
module Search {
  import opened Grid
  import opened Nodes
  import opened Heuristic

  /** The search gives up after this many pops (the "emergency brake"). */
  const BrakeLimit: nat := 2500

  /** findFood's result: `Found(steps, expanded, path, brake)` for the tuple
      `(len(path)-1, expanded, max_frontier, path, emergency_brake)`, and
      `NoPath` for `(None, None, None, None, -1)`. */
  datatype SearchResult =
    | Found(steps: nat, expanded: nat, path: seq<GameNode>, brake: nat)
    | NoPath

  /** What holds of the node at index `i` of the pool: its heuristic is
      attached and equals h1, its body has the start's length and begins at
      its head; the first node is the start node, every other one is a
      child of an earlier node that was expanded, hence not on food. */
  ghost predicate NodeInPool(board: Board, obstacles: seq<Cell>, start: Snake, pool: seq<GameNode>, i: nat)
    requires i < |pool|
  {
    var n := pool[i];
    && n.hCost == Some(Nearest(board.food, n.head))
    && |n.body| == |start.body| && |n.body| > 0 && n.head == n.body[0]
    && if i == 0 then n.(hCost := None) == Root(start)
       else
         && n.parent.Some? && n.parent.value < i
         && IsChild(board, obstacles, pool[n.parent.value], n.parent.value, n)
         && pool[n.parent.value].head !in board.food
  }

  ghost predicate PoolValid(board: Board, obstacles: seq<Cell>, start: Snake, pool: seq<GameNode>)
  {
    |pool| > 0 && forall i :: 0 <= i < |pool| ==> NodeInPool(board, obstacles, start, pool, i)
  }

  /** The parent links of consecutive path nodes point at their predecessor. */
  ghost predicate Chain(pool: seq<GameNode>, path: seq<GameNode>)
  {
    forall t :: 0 <= t < |path| - 1 ==> LinkedTo(pool, path[t], path[t + 1])
  }

  /** `next.parent` is an index of the pool holding `prev`. */
  ghost predicate LinkedTo(pool: seq<GameNode>, prev: GameNode, next: GameNode)
  {
    next.parent.Some? && next.parent.value < |pool| && pool[next.parent.value] == prev
  }

  /** A path from the start node: each node one legal step after the one
      before it, the t-th node at real cost t, heuristic attached. */
  ghost predicate ValidPath(board: Board, obstacles: seq<Cell>, start: Snake, path: seq<GameNode>)
  {
    && |path| > 0
    && path[0].head == start.head && path[0].body == start.body
    && path[0].parent.None? && path[0].lastAction.None?
    && (forall t :: 0 <= t < |path| ==>
          path[t].realCost == t && path[t].hCost == Some(Nearest(board.food, path[t].head)))
    && (forall t :: 0 <= t < |path| - 1 ==> Step(board, obstacles, path[t], path[t + 1]))
  }

  /** What findFood promises of its result. */
  ghost predicate SearchOutcome(board: Board, obstacles: seq<Cell>, start: Snake, res: SearchResult)
  {
    match res
    case NoPath => start.head !in board.food && Unreachable(board, obstacles, start)
    case Found(steps, expanded, path, brake) =>
      && ValidPath(board, obstacles, start, path)
      && steps == |path| - 1 == path[|path| - 1].realCost
      && 1 <= brake <= BrakeLimit + 1 && expanded == brake - 1
      && (path[|path| - 1].head in board.food || brake > BrakeLimit)
      && (forall t :: 0 <= t < |path| - 1 ==> path[t].head !in board.food)
  }

  /** No valid path from the start ends on food. */
  ghost predicate Unreachable(board: Board, obstacles: seq<Cell>, start: Snake)
  {
    forall path: seq<GameNode> :: ValidPath(board, obstacles, start, path) ==> path[|path| - 1].head !in board.food
  }

  /** Every index on the frontier names a pool node whose f can be computed. */
  ghost predicate Costed(pool: seq<GameNode>, frontier: seq<nat>)
  {
    forall i :: i in frontier ==> i < |pool| && pool[i].hCost.Some?
  }

  function F(pool: seq<GameNode>, i: nat): nat
    requires i < |pool| && pool[i].hCost.Some?
  {
    GetCost(pool[i]).value
  }

  /** pool[k] has the least f of all nodes on the frontier. */
  predicate IsLeast(pool: seq<GameNode>, frontier: seq<nat>, k: nat)
  {
    && k < |pool| && pool[k].hCost.Some?
    && forall i :: i in frontier ==> i < |pool| && pool[i].hCost.Some? && F(pool, k) <= F(pool, i)
  }

  /** A position of the frontier holding a node of least f. */
  function ArgMin(pool: seq<GameNode>, frontier: seq<nat>): (j: nat)
    requires Costed(pool, frontier) && |frontier| > 0
    ensures j < |frontier| && IsLeast(pool, frontier, frontier[j])
  {
    if |frontier| == 1 then assert frontier[0] in frontier; 0
    else
      var init := frontier[..|frontier| - 1];
      assert frontier == init + [frontier[|frontier| - 1]];
      assert forall i :: i in init ==> i in frontier;
      var j := ArgMin(pool, init);
      assert frontier[j] in frontier && frontier[|frontier| - 1] in frontier;
      if F(pool, frontier[|frontier| - 1]) < F(pool, frontier[j]) then |frontier| - 1 else j
  }

  /** heappop: removes one node of least f = real_cost + heuristic_cost;
      which one among equals is left open. */
  method PopMin(pool: seq<GameNode>, frontier: seq<nat>) returns (k: nat, rest: seq<nat>)
    requires Costed(pool, frontier) && |frontier| > 0
    ensures k in frontier && k < |pool|
    ensures multiset(rest) + multiset{k} == multiset(frontier)
    ensures IsLeast(pool, frontier, k)
  {
    ghost var m := ArgMin(pool, frontier);
    var j :| 0 <= j < |frontier| && IsLeast(pool, frontier, frontier[j]);
    k := frontier[j];
    rest := frontier[..j] + frontier[j + 1..];
    assert frontier == frontier[..j] + [k] + frontier[j + 1..];
  }

  /** add_to_forntier: attaches h1 to the node, through the cache, and pushes it. */
  method AddToFrontier(food: seq<Cell>, pool: seq<GameNode>, frontier: seq<nat>,
                       cache: map<seq<Cell>, nat>, node: GameNode)
    returns (pool': seq<GameNode>, frontier': seq<nat>, cache': map<seq<Cell>, nat>)
    requires CacheSound(cache, food)
    requires |node.body| > 0 && node.head == node.body[0]
    ensures pool' == pool + [node.(hCost := Some(Nearest(food, node.head)))]
    ensures frontier' == frontier + [|pool|]
    ensures CacheSound(cache', food) && node.body in cache'
  {
    var h: nat;
    if node.body in cache {
      h := cache[node.body];
      cache' := cache;
    } else {
      h := H1(food, node);
      cache' := cache[node.body := h];
    }
    pool' := pool + [node.(hCost := Some(h))];
    frontier' := frontier + [|pool|];
  }

  /** A successor is pushed unless its state was expanded before at a real
      cost that is not higher than its own. */
  predicate Admit(visited: map<seq<Cell>, nat>, s: GameNode)
  {
    s.body !in visited || s.realCost < visited[s.body]
  }

  /** The successors that are pushed, in order. */
  function Admitted(visited: map<seq<Cell>, nat>, succs: seq<GameNode>): seq<GameNode>
  {
    if succs == [] then []
    else
      var last := succs[|succs| - 1];
      Admitted(visited, succs[..|succs| - 1]) + if Admit(visited, last) then [last] else []
  }

  lemma {:induction false} AdmittedExactly(visited: map<seq<Cell>, nat>, succs: seq<GameNode>, s: GameNode)
    ensures s in Admitted(visited, succs) <==> s in succs && Admit(visited, s)
  {
    if succs != [] {
      var init := succs[..|succs| - 1];
      AdmittedExactly(visited, init, s);
      assert succs == init + [succs[|succs| - 1]];
    }
  }

  function Range(lo: nat, hi: nat): (r: seq<nat>)
    requires lo <= hi
    ensures |r| == hi - lo && forall t :: 0 <= t < |r| ==> r[t] == lo + t
  {
    seq(hi - lo, t => lo + t)
  }

  /** `pool'` is `pool` followed by the nodes `added`, each with h1 attached. */
  ghost predicate Pushed(food: seq<Cell>, pool: seq<GameNode>, added: seq<GameNode>, pool': seq<GameNode>)
  {
    && |pool'| == |pool| + |added| && pool'[..|pool|] == pool
    && forall t :: 0 <= t < |added| ==>
         pool'[|pool| + t] == added[t].(hCost := Some(Nearest(food, added[t].head)))
  }

  lemma AdmittedSnoc(visited: map<seq<Cell>, nat>, succs: seq<GameNode>, j: nat)
    requires j < |succs|
    ensures Admitted(visited, succs[..j + 1])
            == Admitted(visited, succs[..j]) + if Admit(visited, succs[j]) then [succs[j]] else []
  {
    assert succs[..j + 1][..j] == succs[..j];
  }

  lemma PushedSnoc(food: seq<Cell>, pool: seq<GameNode>, added: seq<GameNode>, pool': seq<GameNode>,
                   node: GameNode, pool'': seq<GameNode>)
    requires Pushed(food, pool, added, pool')
    requires pool'' == pool' + [node.(hCost := Some(Nearest(food, node.head)))]
    ensures Pushed(food, pool, added + [node], pool'')
  {
    assert pool''[..|pool|] == pool'[..|pool|];
    forall t | 0 <= t < |added| + 1
      ensures pool''[|pool| + t] == (added + [node])[t].(hCost := Some(Nearest(food, (added + [node])[t].head)))
    {
      if t < |added| {
        assert pool''[|pool| + t] == pool'[|pool| + t];
      }
    }
  }

  lemma RangeSnoc(lo: nat, hi: nat)
    requires lo <= hi
    ensures Range(lo, hi) + [hi] == Range(lo, hi + 1)
  {
  }

  /** One turn of the loop over generate_successors in findFood: a successor
      already visited at a cost that is not higher is skipped; a strictly
      cheaper duplicate is logged and then pushed like a new state. */
  method PushIfAdmitted(food: seq<Cell>, pool: seq<GameNode>, frontier: seq<nat>,
                        cache: map<seq<Cell>, nat>, visited: map<seq<Cell>, nat>, node: GameNode)
    returns (pool': seq<GameNode>, frontier': seq<nat>, cache': map<seq<Cell>, nat>)
    requires CacheSound(cache, food)
    requires |node.body| > 0 && node.head == node.body[0]
    ensures pool' == pool + if Admit(visited, node) then [node.(hCost := Some(Nearest(food, node.head)))] else []
    ensures frontier' == frontier + if Admit(visited, node) then [|pool|] else []
    ensures CacheSound(cache', food)
  {
    pool', frontier', cache' := pool, frontier, cache;
    if node.body in visited {
      if node.realCost < visited[node.body] {
        // a cheaper route to an expanded state: logged, then pushed below
      } else {
        return;
      }
    }
    pool', frontier', cache' := AddToFrontier(food, pool, frontier, cache, node);
  }

  /** The loop invariant of PushSuccessors survives one more successor. */
  lemma PushStep(food: seq<Cell>, pool: seq<GameNode>, frontier: seq<nat>, visited: map<seq<Cell>, nat>,
                 succs: seq<GameNode>, j: nat, before: seq<GameNode>, frontierBefore: seq<nat>,
                 after: seq<GameNode>, frontierAfter: seq<nat>)
    requires j < |succs|
    requires Pushed(food, pool, Admitted(visited, succs[..j]), before)
    requires frontierBefore == frontier + Range(|pool|, |before|)
    requires after == before + if Admit(visited, succs[j]) then [succs[j].(hCost := Some(Nearest(food, succs[j].head)))] else []
    requires frontierAfter == frontierBefore + if Admit(visited, succs[j]) then [|before|] else []
    ensures Pushed(food, pool, Admitted(visited, succs[..j + 1]), after)
    ensures frontierAfter == frontier + Range(|pool|, |after|)
  {
    AdmittedSnoc(visited, succs, j);
    var added := Admitted(visited, succs[..j]);
    if Admit(visited, succs[j]) {
      PushedSnoc(food, pool, added, before, succs[j], after);
      RangeSnoc(|pool|, |before|);
    } else {
      assert added + [] == added;
    }
  }

  /** The loop over generate_successors in findFood. */
  method PushSuccessors(food: seq<Cell>, pool: seq<GameNode>, frontier: seq<nat>,
                        cache: map<seq<Cell>, nat>, visited: map<seq<Cell>, nat>, succs: seq<GameNode>)
    returns (pool': seq<GameNode>, frontier': seq<nat>, cache': map<seq<Cell>, nat>)
    requires CacheSound(cache, food)
    requires forall s :: s in succs ==> |s.body| > 0 && s.head == s.body[0]
    ensures Pushed(food, pool, Admitted(visited, succs), pool')
    ensures frontier' == frontier + Range(|pool|, |pool'|)
    ensures CacheSound(cache', food)
  {
    pool', frontier', cache' := pool, frontier, cache;
    for j := 0 to |succs|
      invariant Pushed(food, pool, Admitted(visited, succs[..j]), pool')
      invariant frontier' == frontier + Range(|pool|, |pool'|)
      invariant CacheSound(cache', food)
    {
      ghost var before, frontierBefore := pool', frontier';
      assert succs[j] in succs;
      pool', frontier', cache' := PushIfAdmitted(food, pool', frontier', cache', visited, succs[j]);
      PushStep(food, pool, frontier, visited, succs, j, before, frontierBefore, pool', frontier');
    }
    assert succs[..|succs|] == succs;
  }

  lemma OldNodeStays(board: Board, obstacles: seq<Cell>, start: Snake, pool: seq<GameNode>,
                     pool': seq<GameNode>, i: nat)
    requires i < |pool| <= |pool'| && pool'[..|pool|] == pool
    requires NodeInPool(board, obstacles, start, pool, i)
    ensures NodeInPool(board, obstacles, start, pool', i)
  {
    assert pool'[i] == pool[i];
    if i > 0 {
      assert pool'[pool[i].parent.value] == pool[pool[i].parent.value];
    }
  }

  lemma NewNodeValid(board: Board, obstacles: seq<Cell>, start: Snake, pool': seq<GameNode>,
                     k: nat, i: nat, s: GameNode)
    requires k < i < |pool'| && NodeInPool(board, obstacles, start, pool', k)
    requires pool'[k].head !in board.food
    requires IsChild(board, obstacles, pool'[k], k, s)
    requires pool'[i] == s.(hCost := Some(Nearest(board.food, s.head)))
    ensures NodeInPool(board, obstacles, start, pool', i)
  {
  }

  /** The nodes pushed while expanding pool[k] keep the pool valid. */
  lemma ExtendPool(board: Board, obstacles: seq<Cell>, start: Snake, pool: seq<GameNode>,
                   k: nat, added: seq<GameNode>, pool': seq<GameNode>)
    requires PoolValid(board, obstacles, start, pool) && k < |pool|
    requires pool[k].head !in board.food
    requires forall s :: s in added ==> IsChild(board, obstacles, pool[k], k, s)
    requires Pushed(board.food, pool, added, pool')
    ensures PoolValid(board, obstacles, start, pool')
  {
    OldNodesStay(board, obstacles, start, pool, pool');
    NewNodesValid(board, obstacles, start, pool, k, added, pool');
  }

  lemma OldNodesStay(board: Board, obstacles: seq<Cell>, start: Snake, pool: seq<GameNode>, pool': seq<GameNode>)
    requires PoolValid(board, obstacles, start, pool)
    requires |pool| <= |pool'| && pool'[..|pool|] == pool
    ensures forall i :: 0 <= i < |pool| ==> NodeInPool(board, obstacles, start, pool', i)
  {
    forall i | 0 <= i < |pool|
      ensures NodeInPool(board, obstacles, start, pool', i)
    {
      OldNodeStays(board, obstacles, start, pool, pool', i);
    }
  }

  lemma NewNodesValid(board: Board, obstacles: seq<Cell>, start: Snake, pool: seq<GameNode>,
                      k: nat, added: seq<GameNode>, pool': seq<GameNode>)
    requires k < |pool| && NodeInPool(board, obstacles, start, pool, k)
    requires pool[k].head !in board.food
    requires forall s :: s in added ==> IsChild(board, obstacles, pool[k], k, s)
    requires Pushed(board.food, pool, added, pool')
    ensures forall i :: |pool| <= i < |pool'| ==> NodeInPool(board, obstacles, start, pool', i)
  {
    OldNodeStays(board, obstacles, start, pool, pool', k);
    assert pool'[k] == pool[k];
    forall i | |pool| <= i < |pool'|
      ensures NodeInPool(board, obstacles, start, pool', i)
    {
      var t := i - |pool|;
      assert added[t] in added;
      NewNodeValid(board, obstacles, start, pool', k, i, added[t]);
    }
  }

  /** What the pool says about one node, unfolded for callers. */
  lemma PoolNode(board: Board, obstacles: seq<Cell>, start: Snake, pool: seq<GameNode>, i: nat)
    requires PoolValid(board, obstacles, start, pool) && i < |pool|
    ensures pool[i].hCost == Some(Nearest(board.food, pool[i].head))
    ensures pool[i].parent.None? <==> i == 0
    ensures i == 0 ==> pool[0].head == start.head && pool[0].body == start.body
                       && pool[0].lastAction.None? && pool[0].realCost == 0
    ensures i > 0 ==> && pool[i].parent.value < i
                      && IsChild(board, obstacles, pool[pool[i].parent.value], pool[i].parent.value, pool[i])
                      && pool[pool[i].parent.value].head !in board.food
  {
    assert NodeInPool(board, obstacles, start, pool, i);
  }

  /** The nodes on the chain of parent links from the start node down to pool[i]. */
  ghost function Ancestry(board: Board, obstacles: seq<Cell>, start: Snake, pool: seq<GameNode>, i: nat): seq<GameNode>
    requires PoolValid(board, obstacles, start, pool) && i < |pool|
    decreases i
  {
    PoolNode(board, obstacles, start, pool, i);
    if pool[i].parent.None? then [pool[i]]
    else Ancestry(board, obstacles, start, pool, pool[i].parent.value) + [pool[i]]
  }

  /** A path that does not stop on food, extended by one more legal step. */
  lemma ExtendPath(board: Board, obstacles: seq<Cell>, start: Snake, pool: seq<GameNode>,
                   init: seq<GameNode>, n: GameNode)
    requires ValidPath(board, obstacles, start, init) && Chain(pool, init)
    requires forall t :: 0 <= t < |init| ==> init[t].head !in board.food
    requires Step(board, obstacles, init[|init| - 1], n) && LinkedTo(pool, init[|init| - 1], n)
    requires n.hCost == Some(Nearest(board.food, n.head))
    ensures ValidPath(board, obstacles, start, init + [n]) && Chain(pool, init + [n])
    ensures forall t :: 0 <= t < |init| ==> (init + [n])[t].head !in board.food
  {
    var path := init + [n];
    forall t | 0 <= t < |path|
      ensures path[t].realCost == t && path[t].hCost == Some(Nearest(board.food, path[t].head))
    {
      if t < |init| {
        assert path[t] == init[t];
      }
    }
    forall t | 0 <= t < |path| - 1
      ensures Step(board, obstacles, path[t], path[t + 1]) && LinkedTo(pool, path[t], path[t + 1])
    {
      if t + 1 < |init| {
        assert path[t] == init[t] && path[t + 1] == init[t + 1];
      }
    }
  }

  /** The chain of parent links above any pool node is a valid path from the
      start node, and no node on it before the last is on food. */
  lemma {:induction false} AncestryIsPath(board: Board, obstacles: seq<Cell>, start: Snake, pool: seq<GameNode>, i: nat)
    requires PoolValid(board, obstacles, start, pool) && i < |pool|
    ensures var path := Ancestry(board, obstacles, start, pool, i);
            && ValidPath(board, obstacles, start, path)
            && path[0] == pool[0] && path[|path| - 1] == pool[i]
            && Chain(pool, path)
            && forall t :: 0 <= t < |path| - 1 ==> path[t].head !in board.food
    decreases i
  {
    PoolNode(board, obstacles, start, pool, i);
    if pool[i].parent.Some? {
      var p := pool[i].parent.value;
      AncestryIsPath(board, obstacles, start, pool, p);
      var init := Ancestry(board, obstacles, start, pool, p);
      assert Ancestry(board, obstacles, start, pool, i) == init + [pool[i]];
      ExtendPath(board, obstacles, start, pool, init, pool[i]);
    }
  }

  /** The backward walk over parent links from pool[k], giving the path
      root-first (the source walks child-first and reverses at the end). */
  method Rebuild(ghost board: Board, ghost obstacles: seq<Cell>, ghost start: Snake,
                 pool: seq<GameNode>, k: nat) returns (path: seq<GameNode>)
    requires PoolValid(board, obstacles, start, pool) && k < |pool|
    ensures path == Ancestry(board, obstacles, start, pool, k)
    ensures ValidPath(board, obstacles, start, path)
    ensures path[0] == pool[0] && path[|path| - 1] == pool[k]
    ensures Chain(pool, path)
    ensures forall t :: 0 <= t < |path| - 1 ==> path[t].head !in board.food
  {
    var idx: nat := k;
    path := [];
    while pool[idx].parent.Some?
      invariant idx < |pool|
      invariant Ancestry(board, obstacles, start, pool, idx) + path == Ancestry(board, obstacles, start, pool, k)
      decreases idx
    {
      PoolNode(board, obstacles, start, pool, idx);
      var p := pool[idx].parent.value;
      ghost var above := Ancestry(board, obstacles, start, pool, p);
      assert Ancestry(board, obstacles, start, pool, idx) == above + [pool[idx]];
      assert above + [pool[idx]] + path == above + ([pool[idx]] + path);
      path := [pool[idx]] + path;
      idx := p;
    }
    path := [pool[idx]] + path;
    AncestryIsPath(board, obstacles, start, pool, k);
  }

  /** After a pop, the frontier invariants of findFood hold of what is left. */
  lemma AfterPop(food: seq<Cell>, pool: seq<GameNode>, frontier: seq<nat>, k: nat, rest: seq<nat>)
    requires Costed(pool, frontier)
    requires forall i :: 0 <= i < |pool| ==> i in frontier || pool[i].head !in food
    requires multiset(rest) + multiset{k} == multiset(frontier)
    requires k < |pool| && pool[k].head !in food
    ensures Costed(pool, rest)
    ensures forall i :: 0 <= i < |pool| ==> i in rest || pool[i].head !in food
  {
    forall i | i in rest
      ensures i in frontier
    {
      assert multiset(rest)[i] > 0;
      assert multiset(frontier)[i] == multiset(rest)[i] + multiset{k}[i];
    }
    forall i | 0 <= i < |pool| && i in frontier && i != k
      ensures i in rest
    {
      assert i in multiset(frontier);
    }
  }

  /** After the pushes, the frontier invariants of findFood hold again. */
  lemma AfterPush(board: Board, obstacles: seq<Cell>, start: Snake, before: seq<GameNode>,
                  rest: seq<nat>, pool: seq<GameNode>, frontier: seq<nat>)
    requires PoolValid(board, obstacles, start, pool)
    requires Costed(before, rest)
    requires forall i :: 0 <= i < |before| ==> i in rest || before[i].head !in board.food
    requires |before| <= |pool| && pool[..|before|] == before
    requires frontier == rest + Range(|before|, |pool|)
    ensures Costed(pool, frontier)
    ensures forall i :: 0 <= i < |pool| ==> i in frontier || pool[i].head !in board.food
  {
    forall i | i in frontier
      ensures i < |pool| && pool[i].hCost.Some?
    {
      if i in rest {
        assert pool[i] == before[i];
      } else {
        var t :| 0 <= t < |Range(|before|, |pool|)| && Range(|before|, |pool|)[t] == i;
        PoolNode(board, obstacles, start, pool, i);
      }
    }
    forall i | 0 <= i < |pool|
      ensures i in frontier || pool[i].head !in board.food
    {
      if i < |before| {
        assert pool[i] == before[i];
      } else {
        assert Range(|before|, |pool|)[i - |before|] == i;
      }
    }
  }

  /** The state after one move from the state `b` (a body, head first). */
  function NextBody(b: seq<Cell>, a: Action): seq<Cell>
  {
    if b == [] then [] else [Move(b[0], a)] + DropLast(b)
  }

  /** The move `a` from the state `b` lands on a valid cell. */
  predicate ValidNext(board: Board, obstacles: seq<Cell>, b: seq<Cell>, a: Action)
  {
    |b| > 0 && IsValidMove(board, obstacles, Move(b[0], a))
  }

  /** The state `c` was expanded, or is the state of a node on the frontier. */
  ghost predicate Covered(pool: seq<GameNode>, frontier: seq<nat>, visited: map<seq<Cell>, nat>, c: seq<Cell>)
  {
    c in visited || exists i :: i in frontier && i < |pool| && pool[i].body == c
  }

  /** Every valid move from an expanded state leads to a covered state. */
  ghost predicate Closed(board: Board, obstacles: seq<Cell>, pool: seq<GameNode>, frontier: seq<nat>,
                         visited: map<seq<Cell>, nat>)
  {
    forall b, a :: b in visited && ValidNext(board, obstacles, b, a) ==> Covered(pool, frontier, visited, NextBody(b, a))
  }

  /** No expanded state has its head on food. */
  ghost predicate ExpandedOffFood(food: seq<Cell>, visited: map<seq<Cell>, nat>)
  {
    forall b :: b in visited ==> |b| > 0 && b[0] !in food
  }

  /** The parent of every node in the pool has been expanded. */
  ghost predicate ParentsExpanded(pool: seq<GameNode>, visited: map<seq<Cell>, nat>)
  {
    forall i :: 0 <= i < |pool| && pool[i].parent.Some? && pool[i].parent.value < |pool| ==>
      pool[pool[i].parent.value].body in visited
  }

  /** A covered state stays covered across the pop of pool[k], its expansion and the pushes. */
  lemma CoveredGrows(pool: seq<GameNode>, frontier: seq<nat>, visited: map<seq<Cell>, nat>, k: nat, rest: seq<nat>,
                     pool': seq<GameNode>, frontier': seq<nat>, visited': map<seq<Cell>, nat>, c: seq<Cell>)
    requires |pool| <= |pool'| && pool'[..|pool|] == pool && k < |pool|
    requires multiset(rest) + multiset{k} == multiset(frontier)
    requires frontier' == rest + Range(|pool|, |pool'|)
    requires forall b :: b in visited ==> b in visited'
    requires pool[k].body in visited'
    requires Covered(pool, frontier, visited, c)
    ensures Covered(pool', frontier', visited', c)
  {
    if c !in visited {
      var i :| i in frontier && i < |pool| && pool[i].body == c;
      if i != k {
        assert multiset(frontier)[i] == multiset(rest)[i] + multiset{k}[i];
        assert i in rest;
        assert i in frontier' && pool'[i] == pool[i];
      }
    }
  }

  /** A successor that is not admitted was expanded before; one that is
      admitted is pushed onto a new frontier entry. Either way its state is covered. */
  lemma SuccessorCovered(visited': map<seq<Cell>, nat>, succs: seq<GameNode>, child: GameNode, food: seq<Cell>,
                         pool: seq<GameNode>, rest: seq<nat>, pool': seq<GameNode>, frontier': seq<nat>)
    requires child in succs
    requires Pushed(food, pool, Admitted(visited', succs), pool')
    requires frontier' == rest + Range(|pool|, |pool'|)
    ensures Covered(pool', frontier', visited', child.body)
  {
    if Admit(visited', child) {
      var added := Admitted(visited', succs);
      AdmittedExactly(visited', succs, child);
      var t :| 0 <= t < |added| && added[t] == child;
      assert pool'[|pool| + t].body == child.body;
      assert Range(|pool|, |pool'|)[t] == |pool| + t;
      assert |pool| + t in frontier';
    }
  }

  /** Every valid move from the expanded node pool[k] leads to a covered
      state: its child is pushed, or was expanded before (it is skipped as
      visited, or dropped as the state of pool[k]'s own parent). */
  lemma ChildCovered(board: Board, obstacles: seq<Cell>, start: Snake, pool: seq<GameNode>, k: nat,
                     visited: map<seq<Cell>, nat>, visited': map<seq<Cell>, nat>, parentBody: Option<seq<Cell>>,
                     rest: seq<nat>, pool': seq<GameNode>, frontier': seq<nat>, a: Action)
    requires PoolValid(board, obstacles, start, pool) && k < |pool|
    requires ParentsExpanded(pool, visited)
    requires forall b :: b in visited ==> b in visited'
    requires parentBody == if pool[k].parent.Some? && pool[k].parent.value < |pool| then Some(pool[pool[k].parent.value].body) else None
    requires Pushed(board.food, pool, Admitted(visited', Successors(board, obstacles, pool[k], k, parentBody)), pool')
    requires frontier' == rest + Range(|pool|, |pool'|)
    requires ValidNext(board, obstacles, pool[k].body, a)
    ensures Covered(pool', frontier', visited', NextBody(pool[k].body, a))
  {
    assert NodeInPool(board, obstacles, start, pool, k);
    var node := pool[k];
    var child := Child(node, k, a);
    assert child.body == NextBody(node.body, a);
    var succs := Successors(board, obstacles, node, k, parentBody);
    SuccessorsComplete(board, obstacles, node, k, parentBody, a);
    if child in succs {
      SuccessorCovered(visited', succs, child, board.food, pool, rest, pool', frontier');
    } else {
      assert pool[node.parent.value].body in visited;
    }
  }

  /** The parents of the nodes pushed while expanding pool[k] are expanded. */
  lemma ParentsStayExpanded(board: Board, obstacles: seq<Cell>, start: Snake, pool: seq<GameNode>, k: nat,
                            visited: map<seq<Cell>, nat>, visited': map<seq<Cell>, nat>,
                            parentBody: Option<seq<Cell>>, pool': seq<GameNode>)
    requires PoolValid(board, obstacles, start, pool) && k < |pool|
    requires ParentsExpanded(pool, visited)
    requires forall b :: b in visited ==> b in visited'
    requires pool[k].body in visited'
    requires Pushed(board.food, pool, Admitted(visited', Successors(board, obstacles, pool[k], k, parentBody)), pool')
    ensures ParentsExpanded(pool', visited')
  {
    var succs := Successors(board, obstacles, pool[k], k, parentBody);
    var added := Admitted(visited', succs);
    SuccessorsSound(board, obstacles, pool[k], k, parentBody);
    forall i | 0 <= i < |pool'| && pool'[i].parent.Some? && pool'[i].parent.value < |pool'|
      ensures pool'[pool'[i].parent.value].body in visited'
    {
      if i < |pool| {
        assert pool'[i] == pool[i];
        PoolNode(board, obstacles, start, pool, i);
        assert pool'[pool[i].parent.value] == pool[pool[i].parent.value];
      } else {
        var t := i - |pool|;
        assert added[t] in added;
        AdmittedExactly(visited', succs, added[t]);
        assert pool'[k] == pool[k];
      }
    }
  }

  /** Expanding pool[k] keeps the search closed: every valid move from an
      expanded state still leads to an expanded state or to the frontier. */
  lemma ExpandClosed(board: Board, obstacles: seq<Cell>, start: Snake, pool: seq<GameNode>, frontier: seq<nat>,
                     visited: map<seq<Cell>, nat>, k: nat, rest: seq<nat>, visited': map<seq<Cell>, nat>,
                     parentBody: Option<seq<Cell>>, pool': seq<GameNode>, frontier': seq<nat>)
    requires PoolValid(board, obstacles, start, pool) && k < |pool| && pool[k].head !in board.food
    requires multiset(rest) + multiset{k} == multiset(frontier)
    requires ExpandedOffFood(board.food, visited) && ParentsExpanded(pool, visited)
    requires Closed(board, obstacles, pool, frontier, visited) && Covered(pool, frontier, visited, start.body)
    requires visited' == visited[pool[k].body := pool[k].realCost]
    requires parentBody == if pool[k].parent.Some? && pool[k].parent.value < |pool| then Some(pool[pool[k].parent.value].body) else None
    requires Pushed(board.food, pool, Admitted(visited', Successors(board, obstacles, pool[k], k, parentBody)), pool')
    requires frontier' == rest + Range(|pool|, |pool'|)
    ensures ExpandedOffFood(board.food, visited') && ParentsExpanded(pool', visited')
    ensures Closed(board, obstacles, pool', frontier', visited') && Covered(pool', frontier', visited', start.body)
  {
    PoolNode(board, obstacles, start, pool, k);
    assert NodeInPool(board, obstacles, start, pool, k);
    forall b, a | b in visited' && ValidNext(board, obstacles, b, a)
      ensures Covered(pool', frontier', visited', NextBody(b, a))
    {
      if b in visited {
        CoveredGrows(pool, frontier, visited, k, rest, pool', frontier', visited', NextBody(b, a));
      } else {
        ChildCovered(board, obstacles, start, pool, k, visited, visited', parentBody, rest, pool', frontier', a);
      }
    }
    CoveredGrows(pool, frontier, visited, k, rest, pool', frontier', visited', start.body);
    ParentsStayExpanded(board, obstacles, start, pool, k, visited, visited', parentBody, pool');
  }

  /** Along a valid path, every state is reached from the start by valid
      moves, so a set of states closed under valid moves holds them all. */
  lemma {:induction false} PathExpanded(board: Board, obstacles: seq<Cell>, start: Snake, visited: map<seq<Cell>, nat>,
                                        path: seq<GameNode>, t: nat)
    requires WellFormed(start) && ValidPath(board, obstacles, start, path) && t < |path|
    requires start.body in visited
    requires forall b, a :: b in visited && ValidNext(board, obstacles, b, a) ==> NextBody(b, a) in visited
    ensures path[t].body in visited && |path[t].body| > 0 && path[t].head == path[t].body[0]
  {
    if t > 0 {
      PathExpanded(board, obstacles, start, visited, path, t - 1);
      assert Step(board, obstacles, path[t - 1], path[t]);
      var a := path[t].lastAction.value;
      assert ValidNext(board, obstacles, path[t - 1].body, a);
      assert path[t].body == NextBody(path[t - 1].body, a);
    }
  }

  /** When the frontier runs empty, no valid path from the start reaches food. */
  lemma NoPathUnreachable(board: Board, obstacles: seq<Cell>, start: Snake, pool: seq<GameNode>,
                          visited: map<seq<Cell>, nat>)
    requires WellFormed(start)
    requires ExpandedOffFood(board.food, visited)
    requires Closed(board, obstacles, pool, [], visited) && Covered(pool, [], visited, start.body)
    ensures Unreachable(board, obstacles, start)
  {
    forall b, a | b in visited && ValidNext(board, obstacles, b, a)
      ensures NextBody(b, a) in visited
    {
      assert Covered(pool, [], visited, NextBody(b, a));
    }
    forall path: seq<GameNode> | ValidPath(board, obstacles, start, path)
      ensures path[|path| - 1].head !in board.food
    {
      PathExpanded(board, obstacles, start, visited, path, |path| - 1);
    }
  }

  /** After pool[k] is expanded, the loop invariants of findFood hold again. */
  lemma AfterExpand(board: Board, obstacles: seq<Cell>, start: Snake, before: seq<GameNode>, k: nat,
                    rest: seq<nat>, visited: map<seq<Cell>, nat>, parentBody: Option<seq<Cell>>,
                    pool: seq<GameNode>, frontier: seq<nat>)
    requires PoolValid(board, obstacles, start, before) && k < |before| && before[k].head !in board.food
    requires Costed(before, rest)
    requires forall i :: 0 <= i < |before| ==> i in rest || before[i].head !in board.food
    requires Pushed(board.food, before, Admitted(visited, Successors(board, obstacles, before[k], k, parentBody)), pool)
    requires frontier == rest + Range(|before|, |pool|)
    ensures PoolValid(board, obstacles, start, pool)
    ensures Costed(pool, frontier)
    ensures forall i :: 0 <= i < |pool| ==> i in frontier || pool[i].head !in board.food
  {
    var succs := Successors(board, obstacles, before[k], k, parentBody);
    SuccessorsSound(board, obstacles, before[k], k, parentBody);
    var added := Admitted(visited, succs);
    forall s | s in added
      ensures IsChild(board, obstacles, before[k], k, s)
    {
      AdmittedExactly(visited, succs, s);
    }
    ExtendPool(board, obstacles, start, before, k, added, pool);
    AfterPush(board, obstacles, start, before, rest, pool, frontier);
  }

  /** The pool and frontier holding just the start node satisfy the loop invariants of findFood. */
  lemma StartPool(board: Board, obstacles: seq<Cell>, start: Snake, pool: seq<GameNode>, frontier: seq<nat>)
    requires WellFormed(start)
    requires pool == [Root(start).(hCost := Some(Nearest(board.food, start.head)))] && frontier == [0]
    ensures PoolValid(board, obstacles, start, pool)
    ensures Costed(pool, frontier)
    ensures forall i :: 0 <= i < |pool| ==> i in frontier || pool[i].head !in board.food
    ensures ExpandedOffFood(board.food, map[]) && ParentsExpanded(pool, map[])
    ensures Closed(board, obstacles, pool, frontier, map[]) && Covered(pool, frontier, map[], start.body)
  {
    assert NodeInPool(board, obstacles, start, pool, 0);
    assert 0 in frontier && pool[0].body == start.body;
  }

  /** The result built from the walk back from the popped node pool[k] is
      what findFood promises when it stops on food or on the brake. */
  lemma FoundOutcome(board: Board, obstacles: seq<Cell>, start: Snake, pool: seq<GameNode>, k: nat, res: SearchResult)
    requires PoolValid(board, obstacles, start, pool) && k < |pool|
    requires res.Found? && 1 <= res.brake <= BrakeLimit + 1 && res.expanded == res.brake - 1
    requires pool[k].head in board.food || res.brake > BrakeLimit
    requires res.steps == |res.path| - 1
    requires ValidPath(board, obstacles, start, res.path)
    requires res.path[|res.path| - 1] == pool[k]
    requires forall t :: 0 <= t < |res.path| - 1 ==> res.path[t].head !in board.food
    ensures SearchOutcome(board, obstacles, start, res)
  {
  }

  /** findFood: A* from the snake `start`, with h1 as heuristic. */
  method FindFood(board: Board, obstacles: seq<Cell>, start: Snake) returns (res: SearchResult, pool: seq<GameNode>)
    requires WellFormed(start)
    ensures SearchOutcome(board, obstacles, start, res)
    ensures PoolValid(board, obstacles, start, pool)
    ensures res.Found? ==> res.path[0] == pool[0] && Chain(pool, res.path)
    ensures res.NoPath? ==> forall i :: 0 <= i < |pool| ==> pool[i].head !in board.food
  {
    var cache: map<seq<Cell>, nat> := map[];
    var visited: map<seq<Cell>, nat> := map[];
    var frontier: seq<nat> := [];
    pool := [];
    pool, frontier, cache := AddToFrontier(board.food, pool, frontier, cache, Root(start));
    StartPool(board, obstacles, start, pool, frontier);
    var expanded := 0;
    var brake := 0;
    while |frontier| > 0
      invariant PoolValid(board, obstacles, start, pool)
      invariant Costed(pool, frontier)
      invariant CacheSound(cache, board.food)
      invariant forall i :: 0 <= i < |pool| ==> i in frontier || pool[i].head !in board.food
      invariant brake <= BrakeLimit && expanded == brake
      invariant ExpandedOffFood(board.food, visited) && ParentsExpanded(pool, visited)
      invariant Closed(board, obstacles, pool, frontier, visited) && Covered(pool, frontier, visited, start.body)
      decreases BrakeLimit - brake
    {
      brake := brake + 1;
      var k, rest := PopMin(pool, frontier);
      var current := pool[k];
      if current.head in board.food || brake > BrakeLimit {
        var path := Rebuild(board, obstacles, start, pool, k);
        res := Found(|path| - 1, expanded, path, brake);
        FoundOutcome(board, obstacles, start, pool, k, res);
        return;
      }
      AfterPop(board.food, pool, frontier, k, rest);
      ghost var visitedBefore, frontierBefore := visited, frontier;
      visited := visited[current.body := current.realCost];
      expanded := expanded + 1;
      PoolNode(board, obstacles, start, pool, k);
      var parentBody := if current.parent.Some? then Some(pool[current.parent.value].body) else None;
      var succs := GenerateSuccessors(board, obstacles, current, k, parentBody);
      SuccessorsSound(board, obstacles, current, k, parentBody);
      ghost var before := pool;
      pool, frontier, cache := PushSuccessors(board.food, pool, rest, cache, visited, succs);
      AfterExpand(board, obstacles, start, before, k, rest, visited, parentBody, pool, frontier);
      ExpandClosed(board, obstacles, start, before, frontierBefore, visitedBefore, k, rest, visited,
                   parentBody, pool, frontier);
    }
    PoolNode(board, obstacles, start, pool, 0);
    NoPathUnreachable(board, obstacles, start, pool, visited);
    res := NoPath;
  }
}
