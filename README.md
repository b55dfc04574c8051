# Grid path finding and map editor, modelled in Dafny

This project models the core of a Unity tile-world path finder. The model has five parts:

- **The occupancy table** (`TileHandler`). It maps every occupied grid tile to the obstacle object standing on it. It also maps world positions to tiles by rounding x and z.
- **The search node** (`Node`). This is an immutable record of a tile, a parent node, a move cost g and a heuristic cost h, with f = g + h.
- **The search** (`PathFinding.CalculatePath`). This is a best-first search over 8-connected tiles with an open list and a closed list. The next node is picked by a linear scan. Neighbours are generated in a fixed order, with a cost of 1 for straight steps and 1.4 for diagonal steps. A neighbour is dropped if its tile is occupied or already closed. It is appended to the open list only if its tile is not open yet. When the search stops, the path is read back along the parent links of the node closed last.
- **The map editor** (`MapEditor`). It covers:
  - the three-state mode cycle;
  - the zoom clamp at 15 and 60;
  - the guards around adding and removing obstacles;
  - the drag flags of Move mode.
- **Mouse and engine calls.** Mouse input, ray casts and object creation are parameters.

Files:

- `wrappers.dfy`: `Option`.
- `tiles.dfy`: module `Tiles`. Tiles, positions, rounding, the table functions and the class `TileHandler`.
- `nodes.dfy`: module `Nodes`. The `Node` datatype, parent chains and the parent part of a node's text.
- `search_model.dfy`: module `SearchModel`. The value-level definitions the search is proved against:
  - the offsets;
  - the heuristic;
  - `Expansion`, the neighbours one expansion yields;
  - `AppendNew`, how neighbours enter the open list;
  - `Linked`, the chain of search steps back to the start;
  - the loop invariant `SearchInvariant` and the outcome `SearchOutcome`;
  - `ScanBest`, the best-node scan.
- `pathfinding.dfy`: module `Search`. The class `PathFinding`, whose fields are the open list `outerNodes` and the closed list `innerNodes`. Each method is proved against the definitions above.
- `editor.dfy`: module `Editor`. The editor's pure step functions and the class `MapEditor`, whose methods are proved against them.

The model follows the code, including its quirks:

- The best-node scan stops one element short of the end of the open list, so the node added last is never considered (`LastOpenNodeIgnored`).
- The heuristic is the Manhattan distance to the goal's raw world position, not to the goal's tile (`HeuristicUsesRawGoal`).
- There is no cost relaxation, no corner-cutting rule and no bounds check.
- When the open list runs out, the path is read back from whatever node was closed last.

Measured against textbook A*, the code differs in five ways, and the model follows the code in each. An open node is never updated when a cheaper route to its tile turns up (no relaxation). Diagonal steps may cut past obstacles at the corners. The search has no map bounds. A diagonal step costs 1.4 rather than √2. The best-node scan skips the last open node.

Because there are no map bounds, the search loop only stops by itself when it closes the goal's tile or runs out of open nodes. On an open map with an unreachable goal it never stops. The model therefore runs the loop for at most `fuel` iterations and reports whether it stopped by itself. Whenever it does, the outcome is proved on every map. It is also proved to stop by itself in two cases: when the player stands on the goal's tile (one iteration), and when the player's tile lies in a finite region `universe` that the search cannot leave (at most `|universe|` iterations). `universe` is a ghost parameter that only serves that bound.

## Model

| member | source | states |
|---|---|---|
| Tiles.Round | Assets/Scripts/TileHandler.cs:31 | The result is within 0.5 of the input, a tie goes to the even neighbour, and an integral input is returned unchanged. Together these fix the result uniquely. |
| Tiles.RoundIntegral | Assets/Scripts/TileHandler.cs:31 | Rounding an integral coordinate returns it. |
| Tiles.ClosestTile | Assets/Scripts/TileHandler.cs:29-32 | The tile's x is within 0.5 of the position's x, and its y is within 0.5 of the position's z. |
| Tiles.ClosestTileIgnoresHeight | Assets/Scripts/TileHandler.cs:29-32 | The height (y) of a position never changes its tile. |
| Tiles.ClosestTileOfCentre | Assets/Scripts/TileHandler.cs:29-32 | On a position with integral ground coordinates, quantisation is the identity. |
| Tiles.ClosestTileIdempotent | Assets/Scripts/TileHandler.cs:29-32 | Quantising the centre of a quantised position gives the same tile again. |
| Tiles.Added | Assets/Scripts/TileHandler.cs:37-45 | After an add, the tile is occupied. An already occupied tile keeps its old object, a free tile gets the new object, and every other entry is unchanged. |
| Tiles.Removed | Assets/Scripts/TileHandler.cs:51-58 | After a remove, the tile is free and every other entry is unchanged. On a free tile the table is unchanged. |
| Tiles.AddThenRemove | Assets/Scripts/TileHandler.cs:37-58 | Adding to a free tile and then removing it restores the original table. |
| Tiles.AddToOccupied | Assets/Scripts/TileHandler.cs:39-42 | Adding to an occupied tile changes nothing: the existing object is not replaced. |
| Tiles.TileHandler.constructor | Assets/Scripts/TileHandler.cs:9-12 | The table starts empty. |
| Tiles.TileHandler.IsTileOccupied | Assets/Scripts/TileHandler.cs:19-22 | True exactly when the tile is a key of the table. |
| Tiles.TileHandler.AddTile | Assets/Scripts/TileHandler.cs:37-45 | The new table is `Added` of the old one: a guarded insert that never overwrites. |
| Tiles.TileHandler.RemoveTile | Assets/Scripts/TileHandler.cs:51-58 | The new table is `Removed` of the old one: the tile is freed if it was occupied, and nothing else changes. |
| Nodes.Node.TotalScore | Assets/Scripts/PathFinding/Node.cs:21-27 | A node is built from its tile, parent, move cost g and heuristic cost h, and its score f = g + h. Both costs are non-negative, so the score is at least g and at least h. |
| Nodes.Root | Assets/Scripts/PathFinding/Node.cs:8 | The end of a parent chain has no parent. A node without a parent is its own root. |
| Nodes.ChainShape | Assets/Scripts/PathFinding/Node.cs:21-24 | Following parent links from a node terminates. The chain starts at the node, each element's parent is the next element, and the chain ends at the root, which has no parent. |
| Nodes.ChainNext | Assets/Scripts/PathFinding/Node.cs:8 | An element of the parent chain has a parent exactly when it is not the last element, and that parent is the next element. |
| Nodes.ParentText | Assets/Scripts/PathFinding/Node.cs:36 | The parent part of a node's text is "Null" exactly when the node has no parent. Otherwise it is the text of the parent's tile. |
| SearchModel.ShiftFacts | Assets/Scripts/PathFinding/PathFinding.cs:135-217 | Each of the eight offsets leads to an adjacent tile and is recovered from it by `Direction`. Its step cost is 1.4 when both coordinates change and 1 otherwise. |
| SearchModel.Manhattan | Assets/Scripts/PathFinding/PathFinding.cs:271-274 | The heuristic is non-negative and bounds each axis distance to the goal. It is zero exactly when the tile's coordinates equal the goal's x and z. |
| SearchModel.ManhattanToCentredGoal | Assets/Scripts/PathFinding/PathFinding.cs:271-274 | For a goal on a tile centre, the heuristic is the integral Manhattan distance between the tiles. It is zero exactly on the goal's tile. |
| SearchModel.HeuristicUsesRawGoal | Assets/Scripts/PathFinding/PathFinding.cs:271-274 | A goal off its tile centre gives its own tile a non-zero estimate (0.25), because h is measured from the raw position. |
| SearchModel.HeuristicOverestimatesDiagonal | Assets/Scripts/PathFinding/PathFinding.cs:7-8 | A diagonal step costs 1.4, while the heuristic one diagonal step from the goal is 2. |
| SearchModel.ExpansionNext | Assets/Scripts/PathFinding/PathFinding.cs:135-144 | Trying one offset appends the node for its tile (parent, g + step cost, h of the tile) exactly when the tile is neither occupied nor closed. |
| SearchModel.ExpansionBound | Assets/Scripts/PathFinding/PathFinding.cs:129-220 | An expansion yields at most one node per offset tried, so at most 8. |
| SearchModel.ExpansionSound | Assets/Scripts/PathFinding/PathFinding.cs:142-215 | Every yielded node has the expanded node as parent and stands on an adjacent tile that is neither occupied nor closed. Its g is the parent's g plus 1 or 1.4, and its h is the Manhattan distance to the goal. |
| SearchModel.ExpansionComplete | Assets/Scripts/PathFinding/PathFinding.cs:135-217 | Every neighbour that is neither occupied nor closed is yielded. |
| SearchModel.ExpansionOrdered | Assets/Scripts/PathFinding/PathFinding.cs:135-219 | The nodes come out in the fixed order (-1,1), (0,1), (1,1), (-1,0), (1,0), (-1,-1), (0,-1), (1,-1). |
| SearchModel.AppendNewFacts | Assets/Scripts/PathFinding/PathFinding.cs:67-76 | Offering neighbours leaves every node already open unchanged and in place (no relaxation). The open tiles afterwards are the old ones plus those offered, every new entry comes from the offered list, and distinct open tiles stay distinct. |
| SearchModel.Reversed | Assets/Scripts/PathFinding/PathFinding.cs:103 | Reversal keeps the length. |
| SearchModel.ReversedAt | Assets/Scripts/PathFinding/PathFinding.cs:103 | Element k of the reversal is element n-1-k of the original. |
| SearchModel.ReversedChain | Assets/Scripts/PathFinding/PathFinding.cs:80-104 | The reversed parent chain is non-empty. It starts at the root, ends at the node, and each element is the parent of the next. |
| SearchModel.ChainLinked | Assets/Scripts/PathFinding/PathFinding.cs:80-101 | The parent chain of a node reached by the search ends at the start node, and each link is one search step. |
| SearchModel.PathIsWalk | Assets/Scripts/PathFinding/PathFinding.cs:80-104 | The reversed chain runs from the start node to the given node, and each element is one search step (parent, adjacent free tile, g, h) from the one before. |
| SearchModel.RemoveAt | Assets/Scripts/PathFinding/PathFinding.cs:54 | The list loses exactly the element at k. The elements before k stay in place and the elements after it shift down by one. |
| SearchModel.StartInvariant | Assets/Scripts/PathFinding/PathFinding.cs:46-48 | The start node (no parent, g = 0, h of the start tile) alone in the open list satisfies the loop invariant, on any map. The only open tile is the player's. |
| SearchModel.MoveToClosed | Assets/Scripts/PathFinding/PathFinding.cs:52-54 | Moving one open node to the closed list closes exactly one new tile and removes exactly that tile from the open tiles. Both lists keep distinct tiles and stay disjoint. |
| SearchModel.ExpansionLinked | Assets/Scripts/PathFinding/PathFinding.cs:66 | The neighbours of a node reached by the search are reached by the search as well. |
| SearchModel.ExpandKeepsOpenLinked | Assets/Scripts/PathFinding/PathFinding.cs:52-76 | After an iteration, every open node chains back to the start and stands on a tile that is not closed. |
| SearchModel.ExpandKeepsClosure | Assets/Scripts/PathFinding/PathFinding.cs:66-76 | After an iteration, every neighbour of a closed tile is an obstacle, open or closed. |
| SearchModel.ExpandPreserves | Assets/Scripts/PathFinding/PathFinding.cs:50-77 | An iteration on a non-goal node keeps the loop invariant: distinct and disjoint lists, every node chained to the start, the goal tile never closed, and every neighbour of a closed tile occupied, open or closed. The open nodes that stay open keep their order and costs. This holds on any map. |
| SearchModel.ExpandConfined | Assets/Scripts/PathFinding/PathFinding.cs:50-77 | Inside a region that every step from it stays in or hits an obstacle, an iteration keeps both lists inside the region and closes one more of its tiles. |
| SearchModel.GoalReached | Assets/Scripts/PathFinding/PathFinding.cs:58-64 | Closing a node on the goal's tile ends the search with that node last in the closed list, chained back to the start. |
| SearchModel.Exhausted | Assets/Scripts/PathFinding/PathFinding.cs:50-77 | When the open list runs out after the start node was closed, the goal's tile is unreachable from the start over free tiles. |
| SearchModel.ExhaustedCoversReachable | Assets/Scripts/PathFinding/PathFinding.cs:50-77 | With the open list empty, every tile of a walk over free tiles that starts on a closed tile is closed, so the walk never visits the goal's tile. |
| SearchModel.ScanBest | Assets/Scripts/PathFinding/PathFinding.cs:251-261 | After looking at m > 0 nodes, the scan holds an index below m. Before any node it holds 0. |
| SearchModel.ScanBestIsFirstMinimum | Assets/Scripts/PathFinding/PathFinding.cs:253-261 | The held index has the least score among the nodes looked at, and every earlier node scores strictly more, so ties go to the first. |
| SearchModel.LastOpenNodeIgnored | Assets/Scripts/PathFinding/PathFinding.cs:253 | With two open nodes the first is picked even when the second scores lower: the last node is never looked at. |
| Search.PathFinding.constructor | Assets/Scripts/PathFinding/PathFinding.cs:16-20 | The search uses the editor and the editor's occupancy table. The lists are created empty here; the source creates them at the start of each search, which `Explore` also does. |
| Search.PathFinding.IsAlreadyOuterNode | Assets/Scripts/PathFinding/PathFinding.cs:114-123 | True exactly when some open node stands on the node's tile. |
| Search.PathFinding.IsTileValid | Assets/Scripts/PathFinding/PathFinding.cs:228-242 | True exactly when the tile is neither occupied nor the tile of a closed node. |
| Search.PathFinding.AddIfValid | Assets/Scripts/PathFinding/PathFinding.cs:140-144 | One neighbour block extends the expansion by that block's offset: the node is appended exactly when the tile is valid. |
| Search.PathFinding.FetchNeighbours | Assets/Scripts/PathFinding/PathFinding.cs:129-220 | The result is the full expansion of the node against the table and the closed list. `ExpansionBound`, `ExpansionSound`, `ExpansionComplete` and `ExpansionOrdered` give its bound, content, completeness and order. |
| Search.PathFinding.FindBestScoringNode | Assets/Scripts/PathFinding/PathFinding.cs:249-264 | The index lies in [0, Count) for a non-empty list and is 0 when Count ≤ 2. Its score is ≤ that of every node at indices 0..Count-2, and every earlier node scores strictly more. It equals `BestIndex`. |
| Search.PathFinding.AddNewNeighbours | Assets/Scripts/PathFinding/PathFinding.cs:67-76 | The open list becomes `AppendNew` of the old one: each neighbour is appended only when its tile is not open yet. |
| Search.PathFinding.ReconstructPath | Assets/Scripts/PathFinding/PathFinding.cs:80-104 | The path is the reversed parent chain of the given node. It is non-empty, starts at the chain's root (which has no parent), ends at the given node, and each element is the parent of the next. |
| Search.PathFinding.ExpandBest | Assets/Scripts/PathFinding/PathFinding.cs:52-76 | One iteration closes the open node `BestIndex` picks. The open list loses exactly that node and, unless it was the goal, becomes `AppendNew` of the rest with the node's expansion: nothing is reordered and no open node is replaced. It reports the goal exactly when that node stands on the goal's tile, and then the search outcome holds. Otherwise the loop invariant is kept, and inside an enclosed region both lists stay in the region and one more of its tiles is closed. |
| Search.PathFinding.Explore | Assets/Scripts/PathFinding/PathFinding.cs:40-77 | On every map: when the loop stops by itself, the last closed node chains back to the start by search steps, and either it stands on the goal's tile or the open list is empty and no walk over free tiles from the player's tile reaches the goal's tile. When `fuel` runs out first, the loop invariant holds and open nodes remain. The loop stops by itself when the player stands on the goal's tile, and within `|universe|` iterations when the player is in a finite enclosed region. |
| Search.PathFinding.CalculatePath | Assets/Scripts/PathFinding/PathFinding.cs:38-105 | On every map, a finished search gives the reversed chain of the last closed node, which walks from the start node to that node by search steps. The lists have distinct, disjoint tiles. Either the path ends on the goal's tile, or the open list ran out and the goal's tile is unreachable. `None` means `fuel` ran out with open nodes left. A path is always found when the player stands on the goal's tile or is in a finite enclosed region and `fuel` exceeds its size. |
| Editor.SwapThriceRestores | Assets/Scripts/Map/MapEditor.cs:235-245 | Three swaps return to the original mode; one or two never do. |
| Editor.ZoomStep | Assets/Scripts/Map/MapEditor.cs:51-69 | The size is the camera's float. Scrolling forward shrinks it by one exactly when it is above 15. Scrolling back grows it by one exactly when it is below 60. No other change happens. |
| Editor.ZoomStaysInRange | Assets/Scripts/Map/MapEditor.cs:51-69 | A whole-numbered camera size in [15, 60] stays whole-numbered and in [15, 60]. |
| Editor.FractionalSizeLeavesRange | Assets/Scripts/Map/MapEditor.cs:56-66 | The clamp tests the size before the step: 15.5 zooms in to 14.5, and 59.5 zooms out to 60.5. |
| Editor.MousePositionToTile | Assets/Scripts/Map/MapEditor.cs:140-150 | A miss of the ground plane gives tile (0, 0). A hit gives a tile within 0.5 of the hit point in x and z. |
| Editor.PlaceObstacle | Assets/Scripts/Map/MapEditor.cs:108-121 | Nothing changes on an occupied tile, the player's tile or the goal's tile. Otherwise exactly that one tile is added. The player's and the goal's tiles never become occupied. |
| Editor.ModeAction | Assets/Scripts/Map/MapEditor.cs:181-230 | The frame faults exactly on a Move-mode press that hits nothing. A drag starts only on a Move-mode press on a "Moveable" object. Release always ends the drag. Holding always stops the player. The table changes only while the button is held outside Move mode, and the player and goal move only while it is held in Move mode. The mode is never changed, and a frame without input changes nothing. |
| Editor.EditingKeepsPlayerAndGoalFree | Assets/Scripts/Map/MapEditor.cs:199-222 | Outside Move mode, a frame never occupies the player's tile or the goal's tile. |
| Editor.DragMovesPlayerToMouseTile | Assets/Scripts/Map/MapEditor.cs:212-217 | Dragging the player puts it on the tile under the mouse. |
| Editor.MapEditor.constructor | Assets/Scripts/Map/MapEditor.cs:28-35 | The editor starts in AddTile mode with no drag. |
| Editor.MapEditor.MapZoom | Assets/Scripts/Map/MapEditor.cs:51-69 | The camera size becomes `ZoomStep` of the old size, and nothing else changes. |
| Editor.MapEditor.SwapMode | Assets/Scripts/Map/MapEditor.cs:235-248 | A right click advances the mode along AddTile, RemoveTile, Move, AddTile and hands back "Mode: " plus the new mode's name. Without a right click nothing changes. |
| Editor.MapEditor.AddObstacle | Assets/Scripts/Map/MapEditor.cs:108-121 | The table becomes `PlaceObstacle` of the old table for the tile under the mouse. |
| Editor.MapEditor.RemoveObstacle | Assets/Scripts/Map/MapEditor.cs:126-134 | The tile under the mouse is freed if it was occupied. Otherwise the table is unchanged. |
| Editor.MapEditor.PressButton | Assets/Scripts/Map/MapEditor.cs:184-197 | The new state is `Pressed` of the old one. |
| Editor.MapEditor.HoldButton | Assets/Scripts/Map/MapEditor.cs:200-222 | The new state is `AfterHeld` of the old one. |
| Editor.MapEditor.ReleaseButton | Assets/Scripts/Map/MapEditor.cs:225-229 | The new state is `Released` of the old one. |
| Editor.MapEditor.HandleModeAction | Assets/Scripts/Map/MapEditor.cs:181-230 | The new state is `ModeAction` of the old one. A fault leaves the state unchanged, and the drag flags stay consistent. |

## Left out

- Engine plumbing. The `Update` methods of both components and the `MoveMap` camera translation are not part of this model, nor is input polling. The outcomes of the ray casts (`Plane.Raycast`, `Physics.Raycast`) become parameters, and a miss of the ground plane gives tile (0, 0) as in the source. The `Debug.Log` of the closed-list size when the goal is found (`CalculatePath`) is console output and is left out.
- `CreateObstacle` / `Instantiate` is left out: the new obstacle object is a parameter.
- `Destroy` of a removed obstacle is not modelled, because object lifetimes are outside the model.
- The mode text goes to `UIHandler`, which is not part of this model. `SwapMode` returns the text instead.
- `PlayerMove` is not part of this model. Only its `ShouldMove` flag is kept, as `playerShouldMove`. The path handed to it in `PathFinding.Update` is not modelled.
- The root-level `PathFinding.cs`, `Node.cs` and `MapEditor.cs` are earlier revisions of the same classes and are not part of this model.
- Floating point. Costs, positions and the heuristic are exact `real`s, so the diagonal cost is exactly 1.4. Rounding is round-half-to-even on reals. Tile comparison is exact equality; the engine's approximate `Vector2` equality is not modelled.
- Search.PathFinding.Explore: the source loop has no bound; the model stops it after `fuel` iterations and then reports that it has not finished. Given enough fuel, every run of the source that stops is modelled. A run on an unbounded free grid with an unreachable goal never stops in the source and never finishes in the model. That the source stops is proved only for the player on the goal's tile and for a player inside a finite enclosed region.
- Search.PathFinding.CalculatePath: a search cut off by `fuel` returns `None`; the source has no such case, because it never cuts the search off.
- Search.PathFinding.CalculatePath: the source's one method is modelled as the search loop `Explore` followed by `ReconstructPath`, and the loop's body is the method `ExpandBest`.
- The `break` on reaching the goal is a `return` from `Explore`.
- Search.PathFinding.FetchNeighbours: the eight unrolled blocks each go through the helper `AddIfValid`, which builds the same node.
- Nodes.ParentText: of `Node.ToString`, only the parent part is modelled. The float formatting of the costs is left out.
- Editor.ZoomStaysInRange: the range is kept only for a whole-numbered camera size. A fractional size can leave [15, 60] by half a unit (`FractionalSizeLeavesRange`).
- Editor.ModeAction: a Move-mode press that hits nothing is a null dereference in the source. It is modelled as a fault that leaves the state unchanged. That the exception also skips the rest of the frame's `Update` (including `SwapMode`) is not modelled.
- Editor.ModeAction: dragging an object other than the player or the goal leaves the model unchanged, because only the player's and the goal's positions are state here.
- Editor.MapEditor.HandleModeAction: the source's one method is modelled as the three phases `PressButton`, `HoldButton` and `ReleaseButton`, run in order.
