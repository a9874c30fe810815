/** The nearest-food heuristic h1 and the soundness of its per-search cache. */
module Heuristic {
  import opened Grid
  import opened Nodes

  /** The value h1 starts from and returns when there is no food. */
  const NoFood: nat := 9999

  /** h1 as a value: the least of 9999 and every food cell's Manhattan
      distance to `head`, folded over the food list in order. */
  function Nearest(food: seq<Cell>, head: Cell): (d: nat)
    ensures d <= NoFood
    ensures forall f :: f in food ==> d <= Manhattan(f, head)
    ensures d == NoFood || exists f :: f in food && Manhattan(f, head) == d
  {
    if food == [] then NoFood
    else
      var init := food[..|food| - 1];
      assert food == init + [food[|food| - 1]];
      var shortest := Nearest(init, head);
      var distance := Manhattan(food[|food| - 1], head);
      if distance < shortest then distance else shortest
  }

  /** h1: the running minimum over the food list, starting at 9999. */
  method H1(food: seq<Cell>, node: GameNode) returns (shortest: nat)
    ensures shortest == Nearest(food, node.head)
  {
    shortest := NoFood;
    for i := 0 to |food|
      invariant shortest == Nearest(food[..i], node.head)
    {
      var distance := Manhattan(food[i], node.head);
      if distance < shortest {
        shortest := distance;
      }
      assert food[..i + 1][..i] == food[..i];
    }
    assert food[..|food|] == food;
  }

  /** The heuristic is zero exactly on food cells: it recognises the goal. */
  lemma NearestZeroIffFood(food: seq<Cell>, head: Cell)
    ensures Nearest(food, head) == 0 <==> head in food
  {
    if Nearest(food, head) == 0 {
      var f :| f in food && Manhattan(f, head) == 0;
      assert f == head;
    }
  }

  /** The heuristic never drops by more than one along a unit step, so it is
      consistent and never overestimates the remaining number of steps. */
  lemma NearestConsistent(food: seq<Cell>, a: Cell, b: Cell)
    requires Manhattan(a, b) == 1
    ensures Nearest(food, a) <= Nearest(food, b) + 1
  {
    var db := Nearest(food, b);
    if db != NoFood {
      var f :| f in food && Manhattan(f, b) == db;
      assert Manhattan(f, a) <= Manhattan(f, b) + Manhattan(a, b);
    }
  }

  /** The per-search cache maps a state (a body) to h1 of its head cell. */
  ghost predicate CacheSound(cache: map<seq<Cell>, nat>, food: seq<Cell>)
  {
    forall b :: b in cache ==> |b| > 0 && cache[b] == Nearest(food, b[0])
  }
}
