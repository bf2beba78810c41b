# A* path finding on a square grid — Dafny model

`a_star.py` is a pygame visualiser for A* search. The user sees a `rows` x `rows`
grid of nodes. With the mouse they pick a start node, an end node and barriers.
A space press computes every node's neighbours and runs A* with unit edge costs
and the Manhattan heuristic. The search paints nodes open (queued), closed
(expanded) and path (on the walk found). This project models that engine and
proves what it guarantees:

- **Heuristic** (`heuristic.dfy`): `h`, the Manhattan distance between two
  `(row, col)` positions.
- **Grid** (`grid.dfy`): a class `Grid` holding the grid as two `array2`s.
  - The first array holds each node's colour, read as an enumerated role.
  - The second holds each node's neighbour list.
  - Its members model `make_grid` (the constructor), the `make_*` methods
    (`Paint`), `update_neighbors` and `get_clicked_pos`.
- **Frontier** (`frontier.dfy`): the `PriorityQueue` of `(f, count, node)`
  entries. They come out smallest first in lexicographic order on
  `(f, count)`. The file also states the invariant that keeps the queue in
  step with `open_set_hash`.
- **Costs** (`costs.dfy`): facts about `g_score`.
  - A node missing from the map has the source's `float("inf")`.
  - Every finite cost stays below the number of nodes.
  - Every relaxation spends part of a finite budget, which is why the loop
    terminates.
- **Reconstruct** (`path.dfy`): `reconstruct_path`. It walks `came_from`
  back from the end and paints each node it steps to.
- **SearchModel** (`search_model.dfy`): the search as a pure state machine.
  - `RelaxStep`, `ExpandStep` and `Turn` describe what each step does to the
    variables of `algorithm`.
  - `SearchInv` is the loop invariant; the lemmas prove each step keeps it.
  - Further lemmas say what the invariant gives when the loop stops.
- **Search** (`search.dfy`): `algorithm` as imperative code over the grid and
  the queue. Each method is proved to perform the matching step of the
  model. `Algorithm` states the result:
  - `True` comes with a painted walk along the neighbour lists from start to
    end.
  - The fall-through `None` means no walk from the start reaches the end,
    and every node reachable from the start, other than the start, is
    painted closed.
- **App** (`app.dfy`): the editing session of `main`. It covers the
  left-click and right-click rules and the space and `c` keys.

Behaviour of the code that the model keeps as written:

- The start is queued with priority 0 (line 109), not with `h(start, end)`.
- When the queue runs empty, `algorithm` falls through and returns `None`
  (lines 120-149); it never returns `False`.
- `update_neighbors` appends and never clears (line 75 is commented out);
  `GridModel.Grid.UpdateNeighbors` states exactly this.
  - With unchanged barriers, a second space press repeats every entry.
  - Entries that point to nodes which have since become barriers stay in the
    lists. A later search relaxes them (lines 137-145) like any other entry.
    It can give such a barrier a cost, paint it open and then closed, and
    route the walk it finds through it.
  - The model keeps this. `SearchModel.RelaxStep` does not look at colours,
    and `Search.Algorithm` promises a walk along the neighbour lists, not a
    walk around the barriers painted now.

## Model

| member | source | states |
|---|---|---|
| Heuristic.H | a_star.py:95-98 | `h`: the Manhattan distance `abs(row1 - row2) + abs(col1 - col2)`, a natural number; it has no contract of its own, and the four lemmas below state its properties |
| Heuristic.HSymmetric | a_star.py:95-98 | `h(a, b) == h(b, a)` |
| Heuristic.HZeroIffEqual | a_star.py:95-98 | `h(a, b)` is 0 exactly when the two positions are equal |
| Heuristic.HTriangle | a_star.py:95-98 | `h` satisfies the triangle inequality |
| Heuristic.HAdjacentStep | a_star.py:95-98 | between two positions at distance 1, the estimate to any target changes by exactly 1, up or down |
| GridModel.RoleTestsExclusive | a_star.py:35-48 | a node has one colour, so at most one of `is_closed`, `is_open`, `is_barrier`, `is_start`, `is_end` holds |
| GridModel.Grid.constructor | a_star.py:153-161 | `make_grid`: `rows` x `rows` nodes, each `grid_width // rows` wide, white, with an empty neighbour list |
| GridModel.Grid.Paint | a_star.py:50-69 | a `make_*` call sets the node's one colour to the given role and changes no other node |
| GridModel.Grid.NewNeighbors | a_star.py:76-86 | the entries one `update_neighbors` call appends: at most 4 (which ones and in what order is stated by the two lemmas below) |
| GridModel.Grid.NewNeighborsMembers | a_star.py:76-86 | a node is appended exactly when it is in bounds, orthogonally adjacent and not a barrier |
| GridModel.Grid.NewNeighborsOrdered | a_star.py:76-86 | entries are appended in the order down, up, left, right, so one call never appends a node twice |
| GridModel.Grid.UpdateNeighbors | a_star.py:74-86 | the list becomes the old list plus the new entries (never cleared); every listed node stays in bounds and adjacent; no other list changes |
| GridModel.Grid.UpdateAllNeighbors | a_star.py:234-236 | every node's list is extended by that node's new entries; the grid stays valid |
| GridModel.Grid.TableListsInside | a_star.py:76-86 | in a valid grid, every neighbour list names grid nodes only |
| GridModel.WalkStaysInside | a_star.py:134-145 | a walk along the neighbour lists that starts inside a set closed under them never leaves it |
| GridModel.GetClickedPos | a_star.py:183-188 | the node's square (side `width // rows`) contains the pixel; a pixel inside the grid maps to an in-bounds node |
| GridModel.FloorDivInRange | a_star.py:186-187 | floor division by the node width places a coordinate in its interval, which is one of the first `rows` when the coordinate is inside the grid |
| Frontier.FindMin | a_star.py:125 | returns the index of an entry that comes no later than every other entry in `(f, count)` order |
| Frontier.PriorityQueue.constructor | a_star.py:108 | a new queue holds no entries |
| Frontier.PriorityQueue.Empty | a_star.py:120 | `empty()` holds exactly when no node is queued |
| Frontier.PriorityQueue.Get | a_star.py:125 | removes and returns an entry that comes no later than every entry of the queue; the rest stay in order |
| Frontier.PriorityQueue.Put | a_star.py:143 | appends the entry |
| Frontier.RemoveKeepsWellFormed | a_star.py:125-126 | taking an entry out keeps nodes and counts distinct, and removes exactly its node from the set of queued nodes (the hash) |
| Frontier.RemoveDropsNode | a_star.py:125-126 | taking out an entry of a well-formed queue removes exactly its node from the queued nodes |
| Frontier.PushKeepsWellFormed | a_star.py:141-144 | pushing an absent node with the next count keeps the queue well formed and adds exactly that node |
| Costs.RelaxKeepsRanked | a_star.py:137-139 | a lowering relaxation keeps every cost at most the number of nodes with a smaller cost |
| Costs.CostBound | a_star.py:135-139 | ranked costs over the grid's nodes stay below the number of nodes |
| Costs.PotentialShrinks | a_star.py:137-139 | lowering a cost to a value below the node count strictly shrinks the budget of possible decreases |
| Costs.RelaxSpends | a_star.py:135-139 | a relaxation that lowers `g[neighbor]` strictly shrinks the budget |
| Reconstruct.Walked | a_star.py:100-102 | the nodes `reconstruct_path` steps to: at most `g[n]` of them; none exactly when `n` has no predecessor; the first is the predecessor, the last has none; costs fall by at least 1 per step |
| Reconstruct.ChainSteps | a_star.py:100-102 | in the chain from `n`, each node but the last has a predecessor, and the next node is that predecessor |
| Reconstruct.ChainIsWalk | a_star.py:100-102 | read backwards, the chain from `n` is a walk along the neighbour lists |
| Reconstruct.ReconstructPath | a_star.py:100-104 | paints exactly the nodes of `Walked` as path; every other node keeps its colour |
| SearchModel.Initial | a_star.py:107-118 | the state before the loop: the queue and its hash agree and hold the start alone, which costs 0 and has no predecessor |
| SearchModel.Pop | a_star.py:125-126 | taking out an entry shortens the queue by one and leaves the costs as they were |
| SearchModel.RelaxStep | a_star.py:135-145 | relaxing one neighbour never removes or raises a cost, and leaves the neighbour costing at most one more than the node expanded |
| SearchModel.RelaxAll | a_star.py:134-145 | relaxing a list of neighbours in order gives every one of them a cost and never removes or raises a cost |
| SearchModel.ExpandStep | a_star.py:134-149 | expanding a node gives every listed neighbour a cost and never removes or raises a cost |
| SearchModel.Close | a_star.py:148-149 | only the colours change: the node expanded is painted closed, unless it is the start, which is left alone |
| SearchModel.Turn | a_star.py:125-149 | a turn that pops a node other than the end gives every neighbour of that node a cost and never removes or raises a cost |
| SearchModel.RelaxKeepsDescending | a_star.py:138-139 | after a lowering relaxation, every predecessor still costs at least one less than its successor |
| SearchModel.RelaxKeepsLinks | a_star.py:134-138 | every predecessor still lists its successor as a neighbour |
| SearchModel.RelaxKeepsTables | a_star.py:135-140 | a lowering relaxation keeps `came_from`, `g_score` and `f_score` in agreement (`f = g + h`, chains descend to the start), and never touches the start |
| SearchModel.InitialInv | a_star.py:107-118 | the initial variables satisfy the loop invariant |
| SearchModel.PopKeepsInv | a_star.py:125-126 | popping keeps the invariant; the popped node has a cost and was in the hash |
| SearchModel.RelaxStepTables | a_star.py:135-140 | one relaxation step keeps the tables in agreement |
| SearchModel.RelaxStepSpends | a_star.py:137-144 | one relaxation only lowers costs, and either spends part of the budget or changes nothing |
| SearchModel.RelaxStepFrontier | a_star.py:141-144 | the queue and `open_set_hash` stay in sync; counts stay distinct |
| SearchModel.RelaxStepExpanded | a_star.py:137-144 | a node that gets its first cost is queued at the same time |
| SearchModel.RelaxStepPainted | a_star.py:141-145 | queued nodes are painted open; the start is never repainted |
| SearchModel.RelaxStepKeepsInv | a_star.py:135-145 | one relaxation keeps the whole invariant, only lowers costs, and either spends budget or leaves the state unchanged |
| SearchModel.RelaxAllKeepsInv | a_star.py:134-145 | relaxing all the neighbours keeps the invariant, gives each neighbour a cost, and either spends budget or leaves the queue unchanged |
| SearchModel.CloseKeepsInv | a_star.py:148-149 | painting the expanded node closed (unless it is the start) keeps the invariant |
| SearchModel.ExpandStepKeepsInv | a_star.py:134-149 | expanding a node keeps the invariant; costs only go down; the budget shrinks or the queue is unchanged |
| SearchModel.TurnKeepsInv | a_star.py:125-149 | a turn that does not pop the end keeps the invariant; either the budget shrinks or the queue gets shorter (termination) |
| SearchModel.ChainEndsAtStart | a_star.py:100-102 | the chain back from the end stops at the start; the nodes strictly inside it are neither the start nor the end |
| SearchModel.ReversedChainInside | a_star.py:100-104 | read from the start, the inner nodes of the chain are nodes the walk back paints, and neither the start nor the end |
| SearchModel.FoundPath | a_star.py:128-129 | the walk found runs along the neighbour lists from the start to the end, with at most `g[end]` edges |
| SearchModel.ExhaustedSeparates | a_star.py:120-149 | once the queue is empty, no walk from the start reaches the end, and every node on such a walk (the start aside) is closed |
| Search.PaintCell | a_star.py:145 | paints the node and keeps the colour table equal to the grid |
| Search.Relax | a_star.py:135-145 | computes `RelaxStep` on the search variables, queue and grid |
| Search.Expand | a_star.py:134-149 | computes `ExpandStep`: relaxes every listed neighbour in order, then closes the node unless it is the start |
| Search.PaintEnds | a_star.py:130-131 | after the path is painted, repaints the start and end and leaves the inner path nodes as path |
| Search.Finish | a_star.py:128-132 | leaves a walk from the start to the end with at most `g[end]` edges; inner nodes path, end painted end, start painted start |
| Search.Iterate | a_star.py:125-149 | the entry popped comes first in `(f, count)` order; `found` exactly when its node is the end; then the walk is painted; otherwise the new state is `Turn` of the old |
| Search.Step | a_star.py:125-149 | what `Iterate` states, and also: after an expansion the invariant holds, and the budget shrinks or the queue gets shorter |
| Search.NothingFound | a_star.py:120-149 | an exhausted search leaves the start and end colours as they were; every node reachable from the start, other than the start, is closed; the end is unreachable |
| Search.Loop | a_star.py:120-149 | the loop terminates; on `found` a painted walk from the start to the end exists; otherwise no walk from the start reaches the end |
| Search.Algorithm | a_star.py:106-149 | returns `True` (with a painted walk from the start to the end along the neighbour lists) or falls through to `None` (no walk reaches the end, and all reachable nodes other than the start are closed) |
| App.Session.constructor | a_star.py:192-198 | `make_grid(ROWS, width)`: a fresh grid of white nodes with empty neighbour lists, and no start and no end |
| App.Session.LeftClick | a_star.py:209-220 | the clicked node becomes the start if there is none and it is not the end; else the end if there is none and it is not the start; else a barrier unless it is the start or the end; start and end stay distinct and correctly coloured |
| App.Session.RightClick | a_star.py:222-230 | the clicked node is reset to white and forgotten if it was the start or the end |
| App.Session.Space | a_star.py:232-237 | with both start and end set, every neighbour list is extended by its new entries, and the search runs; start and end keep their colours; without both, nothing changes |
| App.Session.Clear | a_star.py:239-242 | a fresh white grid with empty neighbour lists and no start or end |

## Left out

- Rendering is not modelled, because it is display output. This covers `WIN`, `Node.draw`, `draw` and `draw_grid_lines`, the RGB values (kept only as distinct role tags) and a node's pixel coordinates `x`, `y`.
- The pygame event loops are not modelled, because they are input. This covers lines 121-123 and 203-206 and the `pygame.quit` calls. The `run == False` at line 205 is a comparison with no effect, so it cancels nothing. Each application of the click rule (lines 209-230) and each key press (lines 232-242) becomes one call on `App.Session`. The source checks the button state once per pygame event of any kind, so while a button is held the rule runs once per event; a drag, for example, paints many barriers.
- A quit event ends the program with an uncaught `pygame.error`, and the model does not capture this. After `pygame.quit()` at line 123, during the search, the next `draw()` (line 104 or 147) or `pygame.event.get()` (line 121) raises. After `pygame.quit()` at line 206, in `main`, the next call is `pygame.mouse.get_pressed()` at line 209, and it raises. The model's `draw` is a no-op and events are calls, so its search always runs to the end.
- The `draw` callback passed to `algorithm` and `reconstruct_path` is a no-op here. It only redraws the window.
- `float("inf")` is a key absent from `g_score` or `f_score`, because comparing with infinity is the only use the source makes of it.
- `Node.less_than` (lines 90-91) is left out, because it is never called.
- Optimality is not proved: the model does not show that the walk found is a shortest one. The code never lowers the priority of an entry already queued (line 141), and it relaxes closed nodes again. What the model proves is that the walk found has at most `g[end]` edges.
- App.Session.LeftClick: requires the click to lie inside the `rows * (width // rows)` pixel square. Outside it, `grid[row][col]` in the source raises or wraps around. With the default 800-pixel window and 50 rows the square covers the whole window.
- App.Session.RightClick: requires the click to lie inside the grid, for the same reason.
- GridModel.Grid.constructor: requires `rows > 0`; the source raises `ZeroDivisionError` for 0 rows.
- App.Session.constructor: requires `width // rows > 0`; the source's `get_clicked_pos` divides by that width.
- App.Session.Space: states only what the neighbour update does and that the session stays consistent. The result of `algorithm` is discarded by the source; what the search paints is stated by `Search.Algorithm`.
- Search.Algorithm: the walk it returns is ghost. The source does not return the walk; it only paints it.
