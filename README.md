# StarSnake move planner, modelled in Dafny

This project models the turn-local move planner of the StarSnake Battlesnake
agent (`server_logic.py`). It covers these parts:

- the obstacle list built from every snake's body, and the move-validity test;
- search nodes (`GameNode`), their cost, and their one-step successors;
- the nearest-food heuristic `h1`;
- the A* search `findFood`, including:
  - its per-call heuristic cache;
  - its visited map;
  - its emergency brake;
  - the walk back over parent links that rebuilds the path;
- the threat check `find_snakes_around`;
- the decision ladder of `choose_move`.

Modules, one per part of the program:

- `Grid`: cells, actions, the board snapshot, `find_obstacles`, `is_valid_move`.
- `Nodes`: `GameNode`, `get_cost`, `generate_successors`.
- `Heuristic`: `h1`, and what makes a cache entry sound.
- `Search`: `findFood`.
  - The node pool is a sequence of nodes that link to their parents by index.
  - The frontier is a sequence of pool indices, and a pop removes any node of least `f = real_cost + heuristic_cost`.
  - The visited map and the cache are keyed by the body sequence. This is the state identity that the source's `__hash__`/`__eq__` define.
- `Paths`: what a plan from `findFood` guarantees about the route.
- `Threats`: `find_snakes_around`.
- `Decision`: `choose_move`.

The module globals `data_copy` and `obstacles` are parameters. `random.choice`
is a nondeterministic pick. Python exceptions become explicit results:

- `find_snakes_around` returns `None` where the source raises because a rival's plan is missing or has one node. `choose_move` swallows that exception.
- `choose_move` returns `NoLegalMove` where `random.choice` gets an empty successor list and the source crashes.

Behaviour of the code that is easy to misread; the model follows the code:

- A successor whose state was expanded before, but which is strictly cheaper now, is logged and then falls through to `add_to_forntier`. It is pushed again (server_logic.py:250-259).
- `choose_move` computes the re-plan around threatened cells and then discards it. The move returned is always the first step of the original plan (server_logic.py:325-336).
- The brake counts pops, and it is checked after the pop. When it fires, the path to the popped node is returned even when that node is not on food (server_logic.py:209-221).
- The heuristic cache is local to each `findFood` call (server_logic.py:162).

## Model

| member | source | states |
|---|---|---|
| Grid.FindObstacles | server_logic.py:8-17 | The obstacle list is the body cells of every snake, snake after snake, each in body order. |
| Grid.AllBodiesExactly | server_logic.py:8-17 | A cell is an obstacle exactly when it lies on the body of some snake. |
| Grid.OwnBodyIsObstacle | server_logic.py:8-17 | The agent appears among the board's snakes, so each of its own body cells is an obstacle. |
| Grid.IsValidMove | server_logic.py:21-35 | An accepted cell has non-negative coordinates and is not an obstacle. Every cell on the board that is not an obstacle is accepted. |
| Grid.StepValidIffInBounds | server_logic.py:21-35 | From a cell on the board, a unit step is accepted exactly when it stays on the board and avoids the obstacles. The equality tests against width and height are enough for unit steps. |
| Nodes.GetCost | server_logic.py:94-101 | Fails (ValueError) exactly when no heuristic cost is attached. Otherwise f is at least the real cost. |
| Nodes.GenerateSuccessors | server_logic.py:103-127 | The loop returns exactly the children for left, right, down, up, in that order. A child is kept when its cell is valid and its body differs from the node's parent's body. |
| Nodes.SuccessorsSound | server_logic.py:103-127 | There are at most 4 successors. Each is one valid step in its recorded direction. Its body is the new head plus the old body without its last cell, so the length is kept. Its cost is one more, and it points back at the node. It has no heuristic yet, and it never equals the parent's body. |
| Nodes.SuccessorsComplete | server_logic.py:103-127 | A move yields a successor if and only if its cell is valid and the resulting body is not the parent's body. |
| Heuristic.Nearest | server_logic.py:131-143 | h1 is at most 9999 and at most the distance to every food cell. It is either 9999 or the distance to some food cell. |
| Heuristic.H1 | server_logic.py:131-143 | The running-minimum loop computes Nearest. |
| Heuristic.NearestZeroIffFood | server_logic.py:131-143 | h1 is zero exactly when the head is on food. |
| Heuristic.NearestConsistent | server_logic.py:131-143 | h1 drops by at most one along a unit step, so it is consistent. |
| Search.PopMin | server_logic.py:218 | heappop removes one frontier entry whose f is least: the rest is the frontier minus that one entry. |
| Search.AddToFrontier | server_logic.py:162-183 | The node is pushed with h1 attached, whether the cost comes from the cache or is computed. The cache stays sound, because a body determines its head and h1 depends only on the head. |
| Search.AdmittedExactly | server_logic.py:245-259 | A successor is pushed exactly when its state was never expanded, or it is strictly cheaper than the last expansion of that state. |
| Search.PushIfAdmitted | server_logic.py:247-259 | One turn of the successor loop. The node is pushed with h1 attached, onto a new frontier entry, exactly when it is admitted. Otherwise the pool and frontier are unchanged. |
| Search.PushSuccessors | server_logic.py:245-259 | The loop pushes exactly the admitted successors, in order, each with h1 attached, onto new frontier entries. The cache stays sound. |
| Search.Rebuild | server_logic.py:226-237 | The walk back over parent links returns exactly the chain of ancestors of the popped node, root first. That chain is a valid path from the start node to the popped node. Each node's parent is the one before it, and no node before the last is on food. |
| Search.AncestryIsPath | server_logic.py:226-237 | For any node in the pool, its chain of ancestors is a valid path from the start node. The links agree with the parent indices, and no node before the last is on food. |
| Search.FindFood | server_logic.py:148-261 | The search always terminates. Every pushed node carries its heuristic. A found path starts at the start node (no parent, no action, cost 0). Each later node is one valid step after the previous one, at real cost equal to its index, and its parent is the previous node. The step count is len(path)-1, which is the last node's real cost. The path ends on food unless the brake went past 2500, and no earlier node is on food. At most 2501 pops happen. "No path" means the start is not on food, no node reached was on food, and no valid path from the start reaches food at all: the search is complete. |
| Search.ExpandClosed | server_logic.py:218-259 | Expanding a popped node that is not on food keeps the search closed. Every valid move from an expanded state leads to an expanded state or to a frontier node. The start stays covered, and every parent is expanded. |
| Search.PathExpanded | server_logic.py:103-127 | If the start's state is in a set closed under valid moves, then every state of a valid path is in that set. |
| Search.NoPathUnreachable | server_logic.py:210-261 | When the frontier runs empty and nothing expanded was on food, no valid path from the start ends on food. |
| Paths.PathDrift | server_logic.py:226-237 | After t steps of a plan, the head is at most t cells (Manhattan) from the start. |
| Paths.PlanNoShorterThanHeuristic | server_logic.py:221-237 | A plan that reaches food takes at least h1(start) steps, so h1 never overestimates. |
| Paths.PathStaysOnBoard | server_logic.py:24-35 | From a start on the board, every node of a plan is on the board, and every node after the start is off the obstacles. |
| Paths.PathKeepsShape | server_logic.py:119 | Every plan node from a well-formed snake has the snake's length, and its body starts at its head. |
| Threats.ThreatsUpToSpec | server_logic.py:264-289 | Every threat equals `coor`, there are at most as many as snakes, and the list is non-empty exactly when some examined rival's plan steps onto `coor` first. |
| Threats.FindSnakesAround | server_logic.py:264-289 | A rival is a snake other than ourselves, next to `coor`, and at least as long as us. Exactly the rivals are searched, each by findFood. The result lists `coor` once per rival whose second plan node is on `coor`, so every entry is `coor` and there are at most as many as snakes. A non-empty result, or a failure, needs at least one rival. The failure result means some rival's plan was missing or had a single node. |
| Decision.RandomChoice | server_logic.py:315-317 | A move is chosen exactly when there is a successor, and it is the action of one of them. |
| Decision.FirstStepIsSuccessor | server_logic.py:334-336 | The second node of a plan is one of the start node's successors, with the same action. |
| Decision.SuccessorMoveIsSafe | server_logic.py:103-127 | A successor's action leads to a valid cell. From a head on the board, it leads to a free cell on the board. |
| Decision.ChooseMove | server_logic.py:294-338 | A move is returned exactly when the start has a successor. The move is some successor's action, so it lands on a valid, free cell. With food and a plan of at least two nodes, the move is the plan's first action whatever the threat check finds. |

## Left out

- Logging: `print` calls and the turn banner. They have no effect on the move.
- `findFood` statistics: `max_frontier`, `frontier_history` and the unused `steps` counter. The result keeps the step count, the expansions, the path and the brake value.
- Tie order: heapq's order among equal costs is not modelled; any least node may be popped.
- State identity: the model compares body sequences and ignores the chance of hash collisions under `json.dumps` hashing.
- The `heuristic` parameter of `findFood`: every call in the program passes `h1`, so the model always uses `h1`.
- HTTP: the server and the parsing of the request payload. Only the fields the planner reads are modelled: board width, height, food and snakes, and `you`.
- Search.FindFood: requires a snake whose body is non-empty and starts at its head, which Battlesnake payloads guarantee. The cache's soundness depends on it.
- Search.FindFood: the contract does not promise that the path is shortest. Re-pushing cheaper duplicates, and the brake, are modelled but not proved optimal.
- Grid.IsValidMove: the contract states neither that x == width or y == height is rejected, nor that cells with x > width or y > height are accepted; the source tests only for equality with width and height. StepValidIffInBounds and PathStaysOnBoard show that no plan reaches a cell beyond the edge from a head on the board.
- Decision.ChooseMove: the global `obstacles` that the threat re-plan extends is a local value here. Nothing reads it after the re-plan, whose result is discarded.
- Decision.ChooseMove: `NoLegalMove` stands for the uncaught IndexError of `random.choice` on an empty list.
- Threats.FindSnakesAround: `None` stands for the exception raised by `d[1]` on a missing or one-node plan.
