/**
 * The search component (Assets/Scripts/PathFinding/PathFinding.cs): one call
 * of `CalculatePath` runs a best-first search from the player's tile towards
 * the goal's tile over the occupancy table, keeping an open list and a closed
 * list, and reads the path back along parent links from the node closed last.
 * Every method is proved against the definitions of the `SearchModel` module.
 */
module Search {

  import opened Wrappers
  import opened Tiles
  import opened Nodes
  import opened SearchModel
  import opened Editor

  class PathFinding {

    /** The editor that holds the player and the goal. */
    const mapEditor: MapEditor
    /** The occupancy table, the same component the editor edits. */
    const tileHandler: TileHandler
    /** The open list: nodes found and not yet expanded. */
    var outerNodes: seq<Node>
    /** The closed list: nodes expanded, in the order they were closed. */
    var innerNodes: seq<Node>

    /** The component's start: it looks up the editor and the table it edits. */
    constructor (editor: MapEditor)
      ensures mapEditor == editor && tileHandler == editor.tileHandler
      ensures outerNodes == [] && innerNodes == []
    {
      mapEditor := editor;
      tileHandler := editor.tileHandler;
      outerNodes := [];
      innerNodes := [];
    }

    /** The tiles the search may not enter: the keys of the occupancy table. */
    function Blocked(): set<Tile>
      reads tileHandler
    {
      tileHandler.occupiedTiles.Keys
    }

    /** The goal's raw world position, which the heuristic measures from. */
    function Goal(): Position
      reads mapEditor
    {
      mapEditor.goalPosition
    }

    /** Whether some open node already stands on the tile of `node`. */
    method IsAlreadyOuterNode(node: Node) returns (found: bool)
      ensures found <==> exists i :: 0 <= i < |outerNodes| && outerNodes[i].tile == node.tile
      ensures found <==> node.tile in TileSet(outerNodes)
    {
      var i := 0;
      while i < |outerNodes|
        invariant 0 <= i <= |outerNodes|
        invariant forall j :: 0 <= j < i ==> outerNodes[j].tile != node.tile
      {
        if outerNodes[i].tile == node.tile {
          assert outerNodes[i] in outerNodes;
          return true;
        }
        i := i + 1;
      }
      forall n | n in outerNodes ensures n.tile != node.tile {
        var j :| 0 <= j < |outerNodes| && outerNodes[j] == n;
      }
      return false;
    }

    /** A tile is valid for a neighbour when it holds no obstacle and no closed node. */
    method IsTileValid(tile: Tile) returns (valid: bool)
      ensures valid <==> Passable(tile, Blocked(), TileSet(innerNodes))
    {
      if tileHandler.IsTileOccupied(tile) {
        return false;
      }
      var i := 0;
      while i < |innerNodes|
        invariant 0 <= i <= |innerNodes|
        invariant forall j :: 0 <= j < i ==> innerNodes[j].tile != tile
      {
        if tile == innerNodes[i].tile {
          assert innerNodes[i] in innerNodes;
          return false;
        }
        i := i + 1;
      }
      forall n | n in innerNodes ensures n.tile != tile {
        var j :| 0 <= j < |innerNodes| && innerNodes[j] == n;
      }
      return true;
    }

    /**
     * One block of `FetchNeighbours`: when `neighbourTile` is valid, a node on
     * it with `node` as its parent, g raised by `stepCost` and the heuristic of
     * the tile is appended to `neighbourList`. Tried as offset number `m`,
     * this extends the expansion of `node` by the `m`-th offset.
     */
    method AddIfValid(node: Node, neighbourTile: Tile, stepCost: Cost, neighbourList: seq<Node>, ghost m: nat) returns (r: seq<Node>)
      requires m < 8 && neighbourTile == Shift(node.tile, m)
      requires stepCost == if Offset(m).0 != 0 && Offset(m).1 != 0 then MoveCostDiagonal else MoveCost
      requires neighbourList == Expansion(node, Goal(), Blocked(), TileSet(innerNodes), m)
      ensures r == Expansion(node, Goal(), Blocked(), TileSet(innerNodes), m + 1)
    {
      ExpansionNext(node, Goal(), Blocked(), TileSet(innerNodes), m, neighbourTile, stepCost);
      r := neighbourList;
      var valid := IsTileValid(neighbourTile);
      if valid {
        var neighbourNode := Node(neighbourTile, Some(node), node.moveCost + stepCost, Manhattan(neighbourTile, Goal()));
        r := r + [neighbourNode];
      }
    }

    /**
     * The valid neighbours of `node`, tried in the fixed order (-1, 1), (0, 1),
     * (1, 1), (-1, 0), (1, 0), (-1, -1), (0, -1), (1, -1): the expansion of
     * `node` against the occupied tiles and the closed list.
     */
    method FetchNeighbours(node: Node) returns (neighbours: seq<Node>)
      ensures neighbours == Expansion(node, Goal(), Blocked(), TileSet(innerNodes), 8)
    {
      var neighbourTile: Tile;
      neighbours := [];

      // [ -1, 1 ]
      neighbourTile := Tile(node.tile.x - 1, node.tile.y + 1);
      neighbours := AddIfValid(node, neighbourTile, MoveCostDiagonal, neighbours, 0);

      // [ 0, 1 ]
      neighbourTile := Tile(node.tile.x, node.tile.y + 1);
      neighbours := AddIfValid(node, neighbourTile, MoveCost, neighbours, 1);

      // [ 1, 1 ]
      neighbourTile := Tile(node.tile.x + 1, node.tile.y + 1);
      neighbours := AddIfValid(node, neighbourTile, MoveCostDiagonal, neighbours, 2);

      // [ -1, 0 ]
      neighbourTile := Tile(node.tile.x - 1, node.tile.y);
      neighbours := AddIfValid(node, neighbourTile, MoveCost, neighbours, 3);

      // [ 1, 0 ]
      neighbourTile := Tile(node.tile.x + 1, node.tile.y);
      neighbours := AddIfValid(node, neighbourTile, MoveCost, neighbours, 4);

      // [ -1, -1 ]
      neighbourTile := Tile(node.tile.x - 1, node.tile.y - 1);
      neighbours := AddIfValid(node, neighbourTile, MoveCostDiagonal, neighbours, 5);

      // [ 0, -1 ]
      neighbourTile := Tile(node.tile.x, node.tile.y - 1);
      neighbours := AddIfValid(node, neighbourTile, MoveCost, neighbours, 6);

      // [ 1, -1 ]
      neighbourTile := Tile(node.tile.x + 1, node.tile.y - 1);
      neighbours := AddIfValid(node, neighbourTile, MoveCostDiagonal, neighbours, 7);
    }

    /**
     * The index of the open node to expand next: the first node of least total
     * score among all but the last node of the list, and 0 when the list has at
     * most two nodes.
     */
    method FindBestScoringNode(nodeList: seq<Node>) returns (bestNodeIndex: nat)
      ensures bestNodeIndex == BestIndex(nodeList)
      ensures |nodeList| <= 2 ==> bestNodeIndex == 0
      ensures |nodeList| > 0 ==> bestNodeIndex < |nodeList|
      ensures |nodeList| > 1 ==> bestNodeIndex < |nodeList| - 1
      ensures forall j :: 0 <= j < |nodeList| - 1 ==> nodeList[bestNodeIndex].TotalScore() <= nodeList[j].TotalScore()
      ensures forall j :: 0 <= j < bestNodeIndex ==> nodeList[j].TotalScore() > nodeList[bestNodeIndex].TotalScore()
    {
      bestNodeIndex := 0;
      var bestNodeScore: real := -1.0;
      var i := 0;
      while i < |nodeList| - 1
        invariant 0 <= i <= if |nodeList| == 0 then 0 else |nodeList| - 1
        invariant bestNodeIndex == ScanBest(nodeList, i)
        invariant i == 0 ==> bestNodeScore == -1.0
        invariant i > 0 ==> bestNodeScore == nodeList[bestNodeIndex].TotalScore()
      {
        var listNode := nodeList[i];
        if bestNodeScore == -1.0 || listNode.TotalScore() < bestNodeScore {
          bestNodeIndex := i;
          bestNodeScore := listNode.TotalScore();
        }
        i := i + 1;
      }
      if i > 0 {
        ScanBestIsFirstMinimum(nodeList, i);
      }
    }

    /** Offer each neighbour in turn to the open list, appending those whose tile is not open yet. */
    method AddNewNeighbours(neighbours: seq<Node>)
      modifies this`outerNodes
      ensures outerNodes == AppendNew(old(outerNodes), neighbours)
    {
      ghost var rest := outerNodes;
      var j := 0;
      while j < |neighbours|
        invariant 0 <= j <= |neighbours|
        invariant outerNodes == AppendNew(rest, neighbours[..j])
      {
        var neighbour := neighbours[j];
        assert neighbours[..j + 1][..j] == neighbours[..j];
        var isOuter := IsAlreadyOuterNode(neighbour);
        if !isOuter {
          outerNodes := outerNodes + [neighbour];
        }
        j := j + 1;
      }
      assert neighbours[..j] == neighbours;
    }

    /**
     * The path read back from `last`: its parent links are followed up to the
     * node without a parent, and the nodes collected are reversed, so the path
     * runs from that node down to `last`.
     */
    method ReconstructPath(last: Node) returns (bestPath: seq<Node>)
      ensures bestPath == Reversed(Chain(last))
      ensures |bestPath| >= 1 && bestPath[0] == Root(last) && bestPath[|bestPath| - 1] == last
      ensures forall i :: 0 <= i < |bestPath| - 1 ==> bestPath[i + 1].parent == Some(bestPath[i])
    {
      ghost var chain := Chain(last);
      bestPath := [];
      var foundStartNode := false;
      var lastAdded: Option<Node> := None;
      while !foundStartNode
        invariant |bestPath| <= |chain| && bestPath == chain[..|bestPath|]
        invariant lastAdded.None? <==> bestPath == []
        invariant lastAdded.Some? ==> lastAdded.value == chain[|bestPath| - 1]
        invariant foundStartNode ==> bestPath == chain
        decreases !foundStartNode, |chain| - |bestPath|
      {
        if lastAdded.None? {
          lastAdded := Some(last);
          bestPath := bestPath + [lastAdded.value];
          continue;
        }

        ChainNext(last, |bestPath| - 1);
        if lastAdded.value.parent.Some? {
          lastAdded := lastAdded.value.parent;
          bestPath := bestPath + [lastAdded.value];
        } else {
          foundStartNode := true;
        }
      }

      bestPath := Reversed(bestPath);
      ReversedChain(last);
    }

    /**
     * One iteration of the search loop: the best-scoring open node moves to the
     * end of the closed list; if it stands on the goal's tile the search is
     * over, otherwise its neighbours are offered to the open list, where only
     * those on tiles not open yet are appended and no open node changes. The loop
     * invariant is kept, and inside a region the search cannot leave one more
     * of its tiles is closed.
     */
    method ExpandBest(ghost start: Node, ghost universe: set<Tile>) returns (reachedGoal: bool)
      requires |outerNodes| > 0
      requires SearchInvariant(outerNodes, innerNodes, start, Blocked(), Goal(), ClosestTile(Goal()))
      modifies this
      ensures innerNodes == old(innerNodes) + [old(outerNodes)[BestIndex(old(outerNodes))]]
      ensures reachedGoal <==> old(outerNodes)[BestIndex(old(outerNodes))].tile == ClosestTile(Goal())
      ensures reachedGoal ==> outerNodes == RemoveAt(old(outerNodes), BestIndex(old(outerNodes)))
      ensures !reachedGoal ==> outerNodes == AppendNew(RemoveAt(old(outerNodes), BestIndex(old(outerNodes))),
                                                       Expansion(old(outerNodes)[BestIndex(old(outerNodes))], Goal(), Blocked(), TileSet(innerNodes), 8))
      ensures reachedGoal ==> SearchOutcome(outerNodes, innerNodes, start, Blocked(), Goal(), ClosestTile(Goal()))
      ensures !reachedGoal ==> SearchInvariant(outerNodes, innerNodes, start, Blocked(), Goal(), ClosestTile(Goal()))
      ensures !reachedGoal && Enclosed(universe, Blocked()) && Confined(old(outerNodes), old(innerNodes), universe) ==>
        Confined(outerNodes, innerNodes, universe) && |universe - TileSet(innerNodes)| < |universe - TileSet(old(innerNodes))|
    {
      ghost var blocked, goal, goalTile := Blocked(), Goal(), ClosestTile(Goal());
      var currentNodeIndex := FindBestScoringNode(outerNodes);
      ghost var open0, closed0 := outerNodes, innerNodes;
      innerNodes := innerNodes + [outerNodes[currentNodeIndex]];
      outerNodes := outerNodes[..currentNodeIndex] + outerNodes[currentNodeIndex + 1..];

      var currentNode := innerNodes[|innerNodes| - 1];
      assert currentNode == open0[currentNodeIndex];
      assert outerNodes == RemoveAt(open0, currentNodeIndex);

      if currentNode.tile == ClosestTile(Goal()) {
        GoalReached(open0, closed0, currentNodeIndex, start, blocked, goal, goalTile);
        return true;
      }

      var currentNodeNeighbours := FetchNeighbours(currentNode);
      AddNewNeighbours(currentNodeNeighbours);
      ExpandPreserves(open0, closed0, currentNodeIndex, outerNodes, start, blocked, goal, goalTile);
      if Enclosed(universe, blocked) && Confined(open0, closed0, universe) {
        ExpandConfined(open0, closed0, currentNodeIndex, outerNodes, start, blocked, goal, goalTile, universe);
      }
      return false;
    }

    /**
     * The search loop of CalculatePath: repeatedly closes the best-scoring open
     * node and opens its passable neighbours, until the goal's tile is closed or
     * the open list runs out. The source loop has no bound; here it runs for at
     * most `fuel` iterations, and `finished` tells whether it stopped by itself.
     *
     * Whenever it stops by itself, the outcome holds on every map: the node
     * closed last chains back to the start node, and either it stands on the
     * goal's tile or no walk over free tiles reaches the goal's tile. When the
     * fuel runs out first, the loop invariant still holds. It stops by itself
     * within one iteration when the player stands on the goal's tile, and
     * within `|universe|` iterations when the player's tile lies in a finite
     * region `universe` the search cannot leave (every neighbour of a tile in
     * it is in it or occupied). On an unbounded free grid with an unreachable
     * goal, no fuel is enough: the source then runs forever.
     */
    method Explore(ghost universe: set<Tile>, fuel: nat) returns (finished: bool)
      modifies this
      ensures finished ==> SearchOutcome(outerNodes, innerNodes, StartNode(ClosestTile(mapEditor.playerPosition), Goal()),
                                         Blocked(), Goal(), ClosestTile(Goal()))
      ensures !finished ==> (|innerNodes| == fuel && |outerNodes| > 0
        && SearchInvariant(outerNodes, innerNodes, StartNode(ClosestTile(mapEditor.playerPosition), Goal()),
                           Blocked(), Goal(), ClosestTile(Goal())))
      ensures ClosestTile(mapEditor.playerPosition) == ClosestTile(Goal()) && fuel > 0 ==> finished
      ensures Enclosed(universe, Blocked()) && ClosestTile(mapEditor.playerPosition) in universe && fuel > |universe| ==> finished
    {
      outerNodes := [];
      innerNodes := [];
      var goal := Goal();
      var goalTile := ClosestTile(goal);
      ghost var blocked := Blocked();

      // Add the starting node
      var playerTile := ClosestTile(mapEditor.playerPosition);
      var playerNode := Node(playerTile, None, 0.0, Manhattan(playerTile, goal));
      outerNodes := outerNodes + [playerNode];
      StartInvariant(playerTile, blocked, goal, goalTile);
      ghost var inside := Enclosed(universe, blocked) && playerTile in universe;

      var steps := 0;
      while |outerNodes| > 0 && steps < fuel
        invariant SearchInvariant(outerNodes, innerNodes, playerNode, blocked, goal, goalTile)
        invariant innerNodes == [] ==> outerNodes == [playerNode]
        invariant innerNodes != [] ==> innerNodes[0] == playerNode
        invariant |innerNodes| == steps <= fuel
        invariant inside ==> Confined(outerNodes, innerNodes, universe) && |universe - TileSet(innerNodes)| + steps <= |universe|
        decreases fuel - steps
      {
        var reachedGoal := ExpandBest(playerNode, universe);
        if reachedGoal {
          return true;
        }
        steps := steps + 1;
      }

      if |outerNodes| == 0 {
        Exhausted(innerNodes, playerNode, blocked, goal, goalTile);
        return true;
      }
      if steps > 0 {
        assert innerNodes[0] in innerNodes;
      }
      return false;
    }

    /**
     * The search followed by the path reconstruction. `None` is a search that
     * used up its `fuel` before it stopped (see `Explore`).
     *
     * A returned path starts at the start node (g = 0, no parent, h measured
     * from the player's tile), ends at the node closed last, and each node is a
     * search step from the one before. Either that node stands on the goal's
     * tile, or the open list ran out, in which case no walk over unoccupied
     * tiles from the player's tile reaches the goal's tile.
     */
    method CalculatePath(ghost universe: set<Tile>, fuel: nat) returns (path: Option<seq<Node>>)
      modifies this
      ensures path.Some? ==> |innerNodes| >= 1
      ensures path.Some? ==> path.value == Reversed(Chain(innerNodes[|innerNodes| - 1]))
      ensures path.Some? ==> Walk(path.value, StartNode(ClosestTile(mapEditor.playerPosition), Goal()), innerNodes[|innerNodes| - 1], Blocked(), Goal())
      ensures DistinctTiles(innerNodes) && DistinctTiles(outerNodes) && DisjointTiles(outerNodes, innerNodes)
      ensures path.Some? ==> (innerNodes[|innerNodes| - 1].tile == ClosestTile(Goal())
        || (outerNodes == [] && forall w :: TileWalk(w, Blocked()) && w[0] == ClosestTile(mapEditor.playerPosition) ==> ClosestTile(Goal()) !in w))
      ensures path.None? ==> |innerNodes| == fuel && |outerNodes| > 0
      ensures ClosestTile(mapEditor.playerPosition) == ClosestTile(Goal()) && fuel > 0 ==> path.Some?
      ensures Enclosed(universe, Blocked()) && ClosestTile(mapEditor.playerPosition) in universe && fuel > |universe| ==> path.Some?
    {
      var finished := Explore(universe, fuel);
      if !finished {
        return None;
      }
      var last := innerNodes[|innerNodes| - 1];
      ghost var inner, outer := innerNodes, outerNodes;
      var bestPath := ReconstructPath(last);
      assert inner == innerNodes && outer == outerNodes;
      PathIsWalk(last, StartNode(ClosestTile(mapEditor.playerPosition), Goal()), Blocked(), Goal());
      path := Some(bestPath);
    }
  }
}
