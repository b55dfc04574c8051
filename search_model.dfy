/**
 * The value-level model of the grid search in Assets/Scripts/PathFinding/PathFinding.cs:
 * the eight neighbour offsets and their costs, the Manhattan heuristic, the
 * neighbours one expansion yields, how they are appended to the open list, and
 * the parent chains the final path is read from. The class in the `Search`
 * module is proved against these definitions.
 */
module SearchModel {

  import opened Wrappers
  import opened Tiles
  import opened Nodes

  /** Cost of a horizontal or vertical step. */
  const MoveCost: real := 1.0

  /** Cost of a diagonal step (1.4 in the source, a float there). */
  const MoveCostDiagonal: real := 1.4

  /** The neighbour offsets in the order they are tried. */
  function Offset(k: nat): (int, int)
    requires k < 8
  {
    match k
    case 0 => (-1, 1)
    case 1 => (0, 1)
    case 2 => (1, 1)
    case 3 => (-1, 0)
    case 4 => (1, 0)
    case 5 => (-1, -1)
    case 6 => (0, -1)
    case _ => (1, -1)
  }

  /** The tile reached from `t` by offset number `k`. */
  function Shift(t: Tile, k: nat): Tile
    requires k < 8
  {
    Tile(t.x + Offset(k).0, t.y + Offset(k).1)
  }

  /** `b` is one of the eight tiles around `a`. */
  predicate Adjacent(a: Tile, b: Tile)
  {
    a != b && -1 <= b.x - a.x <= 1 && -1 <= b.y - a.y <= 1
  }

  /** The cost of the step from `a` to `b`: diagonal when both coordinates change. */
  function StepCost(a: Tile, b: Tile): real
  {
    if a.x != b.x && a.y != b.y then MoveCostDiagonal else MoveCost
  }

  /** The number of the offset that leads from `a` to `b`, or 8 if there is none. */
  function Direction(a: Tile, b: Tile): (k: nat)
    ensures k <= 8
  {
    var d := (b.x - a.x, b.y - a.y);
    if d == Offset(0) then 0
    else if d == Offset(1) then 1
    else if d == Offset(2) then 2
    else if d == Offset(3) then 3
    else if d == Offset(4) then 4
    else if d == Offset(5) then 5
    else if d == Offset(6) then 6
    else if d == Offset(7) then 7
    else 8
  }

  /** The offsets are exactly the eight neighbours, each reached once, with its cost. */
  lemma ShiftFacts(t: Tile, k: nat)
    requires k < 8
    ensures Adjacent(t, Shift(t, k))
    ensures Direction(t, Shift(t, k)) == k
    ensures StepCost(t, Shift(t, k)) == if Offset(k).0 != 0 && Offset(k).1 != 0 then MoveCostDiagonal else MoveCost
  {
  }

  function Abs(r: real): (a: Cost)
    ensures a == r || a == -r
  {
    if r < 0.0 then -r else r
  }

  /**
   * The heuristic: the Manhattan distance from a tile to the goal's raw world
   * position, measured on the x/z ground plane. It is zero exactly at a tile
   * whose coordinates equal the goal's.
   */
  function Manhattan(t: Tile, goal: Position): (h: Cost)
    ensures h == 0.0 <==> t.x as real == goal.x && t.y as real == goal.z
    ensures h >= Abs(t.x as real - goal.x) && h >= Abs(t.y as real - goal.z)
  {
    Abs(t.x as real - goal.x) + Abs(t.y as real - goal.z)
  }

  /**
   * For a goal standing on a tile centre, the heuristic is the integral
   * Manhattan distance to the goal's tile, which is zero only on that tile.
   */
  lemma ManhattanToCentredGoal(t: Tile, g: Tile, height: real)
    ensures Manhattan(t, TileCentre(g, height)) == Abs((t.x - g.x) as real) + Abs((t.y - g.y) as real)
    ensures Manhattan(t, TileCentre(g, height)) == 0.0 <==> t == ClosestTile(TileCentre(g, height))
  {
    ClosestTileOfCentre(g, height);
  }

  /**
   * The heuristic is measured from the raw goal position, not from the goal's
   * tile: a goal off the tile centre gives its own tile a positive estimate.
   */
  lemma HeuristicUsesRawGoal()
    ensures ClosestTile(Position(0.25, 0.0, 0.0)) == Tile(0, 0)
    ensures Manhattan(Tile(0, 0), Position(0.25, 0.0, 0.0)) == 0.25
  {
  }

  /**
   * Together with diagonal steps of cost 1.4 the heuristic overestimates:
   * one diagonal step away from the goal it estimates 2.
   */
  lemma HeuristicOverestimatesDiagonal()
    ensures StepCost(Tile(0, 0), Tile(1, 1)) == 1.4
    ensures Manhattan(Tile(0, 0), TileCentre(Tile(1, 1), 0.0)) == 2.0
  {
  }

  /** The node the search starts from: no parent, g = 0, h measured from the start tile. */
  function StartNode(start: Tile, goal: Position): (n: Node)
  {
    Node(start, None, 0.0, Manhattan(start, goal))
  }

  /**
   * The invariant every node of a search keeps: following its parent links one
   * reaches `start`; every other node on the way is an unoccupied neighbour of
   * its parent whose g is the parent's g plus the step cost and whose h is the
   * heuristic of its tile.
   */
  predicate Linked(n: Node, start: Node, blocked: set<Tile>, goal: Position)
    decreases n
  {
    match n.parent
    case None => n == start
    case Some(p) =>
      && Adjacent(p.tile, n.tile)
      && n.moveCost == p.moveCost + StepCost(p.tile, n.tile)
      && n.heuristicCost == Manhattan(n.tile, goal)
      && n.tile !in blocked
      && Linked(p, start, blocked, goal)
  }

  /**
   * `b` is one search step from `a`: `a` is its parent, it stands on an
   * unoccupied neighbour of `a`'s tile, its g is `a`'s g plus the step cost and
   * its h is the heuristic of its tile.
   */
  predicate Step(a: Node, b: Node, blocked: set<Tile>, goal: Position)
  {
    && b.parent == Some(a)
    && Adjacent(a.tile, b.tile)
    && b.tile !in blocked
    && b.moveCost == a.moveCost + StepCost(a.tile, b.tile)
    && b.heuristicCost == Manhattan(b.tile, goal)
  }

  /** A path from `start` to `last` made of search steps. */
  predicate Walk(p: seq<Node>, start: Node, last: Node, blocked: set<Tile>, goal: Position)
  {
    && |p| >= 1
    && p[0] == start
    && p[|p| - 1] == last
    && forall i :: 0 <= i < |p| - 1 ==> Step(p[i], p[i + 1], blocked, goal)
  }

  /** The tiles of the nodes of a list. */
  function TileSet(s: seq<Node>): set<Tile>
  {
    set n | n in s :: n.tile
  }

  predicate DistinctTiles(s: seq<Node>)
  {
    forall i, j :: 0 <= i < j < |s| ==> s[i].tile != s[j].tile
  }

  predicate DisjointTiles(a: seq<Node>, b: seq<Node>)
  {
    forall i, j :: 0 <= i < |a| && 0 <= j < |b| ==> a[i].tile != b[j].tile
  }

  /** A tile an expansion may step on: not an obstacle and not already closed. */
  predicate Passable(t: Tile, blocked: set<Tile>, closed: set<Tile>)
  {
    t !in blocked && t !in closed
  }

  /** The node an expansion of `node` builds for offset number `k`. */
  function Candidate(node: Node, k: nat, goal: Position): Node
    requires k < 8
  {
    var t := Shift(node.tile, k);
    var c := if Offset(k).0 != 0 && Offset(k).1 != 0 then MoveCostDiagonal else MoveCost;
    Node(t, Some(node), node.moveCost + c, Manhattan(t, goal))
  }

  /** The candidates for the first `m` offsets whose tiles are passable, in offset order. */
  function Expansion(node: Node, goal: Position, blocked: set<Tile>, closed: set<Tile>, m: nat): seq<Node>
    requires m <= 8
  {
    if m == 0 then []
    else
      Expansion(node, goal, blocked, closed, m - 1)
        + if Passable(Shift(node.tile, m - 1), blocked, closed) then [Candidate(node, m - 1, goal)] else []
  }

  /**
   * Trying offset number `m`, which leads to `tile` at step cost `cost`,
   * appends the node for that tile exactly when the tile is passable.
   */
  lemma ExpansionNext(node: Node, goal: Position, blocked: set<Tile>, closed: set<Tile>, m: nat, tile: Tile, cost: Cost)
    requires m < 8 && tile == Shift(node.tile, m)
    requires cost == if Offset(m).0 != 0 && Offset(m).1 != 0 then MoveCostDiagonal else MoveCost
    ensures Expansion(node, goal, blocked, closed, m + 1) == Expansion(node, goal, blocked, closed, m)
      + if Passable(tile, blocked, closed) then [Node(tile, Some(node), node.moveCost + cost, Manhattan(tile, goal))] else []
  {
  }

  /** An expansion yields at most one node per offset tried. */
  lemma {:induction false} ExpansionBound(node: Node, goal: Position, blocked: set<Tile>, closed: set<Tile>, m: nat)
    requires m <= 8
    ensures |Expansion(node, goal, blocked, closed, m)| <= m
  {
    if m > 0 {
      ExpansionBound(node, goal, blocked, closed, m - 1);
    }
  }

  /**
   * Every node an expansion yields is a passable neighbour of the expanded
   * node, has that node as its parent, costs the parent's g plus the step
   * cost, and carries the heuristic of its tile; its offset number is below `m`.
   */
  lemma {:induction false} ExpansionSound(node: Node, goal: Position, blocked: set<Tile>, closed: set<Tile>, m: nat)
    requires m <= 8
    ensures forall n :: n in Expansion(node, goal, blocked, closed, m) ==>
      && n.parent == Some(node)
      && Adjacent(node.tile, n.tile)
      && Direction(node.tile, n.tile) < m
      && n.moveCost == node.moveCost + StepCost(node.tile, n.tile)
      && n.heuristicCost == Manhattan(n.tile, goal)
      && Passable(n.tile, blocked, closed)
  {
    if m > 0 {
      ExpansionSound(node, goal, blocked, closed, m - 1);
      ShiftFacts(node.tile, m - 1);
    }
  }

  /** Every passable neighbour among the first `m` offsets is yielded. */
  lemma {:induction false} ExpansionComplete(node: Node, goal: Position, blocked: set<Tile>, closed: set<Tile>, m: nat)
    requires m <= 8
    ensures forall k :: 0 <= k < m && Passable(Shift(node.tile, k), blocked, closed) ==>
      Candidate(node, k, goal) in Expansion(node, goal, blocked, closed, m)
  {
    if m > 0 {
      ExpansionComplete(node, goal, blocked, closed, m - 1);
    }
  }

  /** The neighbours come out in the fixed offset order. */
  lemma {:induction false} ExpansionOrdered(node: Node, goal: Position, blocked: set<Tile>, closed: set<Tile>, m: nat)
    requires m <= 8
    ensures forall i, j :: 0 <= i < j < |Expansion(node, goal, blocked, closed, m)| ==>
      Direction(node.tile, Expansion(node, goal, blocked, closed, m)[i].tile)
        < Direction(node.tile, Expansion(node, goal, blocked, closed, m)[j].tile)
  {
    if m > 0 {
      ExpansionOrdered(node, goal, blocked, closed, m - 1);
      ExpansionSound(node, goal, blocked, closed, m - 1);
      ShiftFacts(node.tile, m - 1);
      var r0 := Expansion(node, goal, blocked, closed, m - 1);
      forall i | 0 <= i < |r0| ensures r0[i] in r0 { }
    }
  }

  /**
   * The open list after the neighbours `ns` are offered to it one by one: a
   * neighbour is appended when no open node has its tile yet, and dropped
   * otherwise.
   */
  function AppendNew(open: seq<Node>, ns: seq<Node>): seq<Node>
    decreases |ns|
  {
    if ns == [] then open
    else
      var o := AppendNew(open, ns[..|ns| - 1]);
      var n := ns[|ns| - 1];
      if n.tile in TileSet(o) then o else o + [n]
  }

  /**
   * Offering neighbours never changes or reorders the nodes already open (no
   * cost relaxation), keeps the open tiles pairwise distinct, and opens exactly
   * the tiles offered; everything appended comes from `ns`.
   */
  lemma {:induction false} AppendNewFacts(open: seq<Node>, ns: seq<Node>)
    decreases |ns|
    ensures |open| <= |AppendNew(open, ns)|
    ensures AppendNew(open, ns)[..|open|] == open
    ensures TileSet(AppendNew(open, ns)) == TileSet(open) + TileSet(ns)
    ensures forall n :: n in AppendNew(open, ns) ==> n in open || n in ns
    ensures DistinctTiles(open) ==> DistinctTiles(AppendNew(open, ns))
  {
    if ns != [] {
      var ns0 := ns[..|ns| - 1];
      var n := ns[|ns| - 1];
      AppendNewFacts(open, ns0);
      var o := AppendNew(open, ns0);
      assert ns == ns0 + [n];
      assert TileSet(ns) == TileSet(ns0) + {n.tile};
      if n.tile !in TileSet(o) {
        var r := o + [n];
        assert r[..|open|] == o[..|open|];
        assert TileSet(r) == TileSet(o) + {n.tile};
        if DistinctTiles(o) {
          forall i | 0 <= i < |o| ensures o[i].tile != n.tile {
            assert o[i] in o;
          }
        }
      }
    }
  }

  /** A region that no search from inside it can leave: every neighbour of a tile in it is inside or blocked. */
  ghost predicate Enclosed(universe: set<Tile>, blocked: set<Tile>)
  {
    forall a, b :: a in universe && Adjacent(a, b) ==> b in universe || b in blocked
  }

  /** The reverse of a sequence (the list reversal the path is finished with). */
  function Reversed<T>(s: seq<T>): (r: seq<T>)
    ensures |r| == |s|
    decreases |s|
  {
    if s == [] then [] else Reversed(s[1..]) + [s[0]]
  }

  lemma {:induction false} ReversedAt<T>(s: seq<T>, k: nat)
    requires k < |s|
    decreases |s|
    ensures Reversed(s)[k] == s[|s| - 1 - k]
  {
    if k < |s| - 1 {
      ReversedAt(s[1..], k);
    }
  }

  /**
   * The reversed parent chain runs from the root down to the node, and each
   * element is the parent of the next.
   */
  lemma ReversedChain(n: Node)
    ensures |Reversed(Chain(n))| >= 1
    ensures Reversed(Chain(n))[0] == Root(n) && Reversed(Chain(n))[|Reversed(Chain(n))| - 1] == n
    ensures forall i :: 0 <= i < |Reversed(Chain(n))| - 1 ==> Reversed(Chain(n))[i + 1].parent == Some(Reversed(Chain(n))[i])
  {
    var c := Chain(n);
    ChainShape(n);
    ReversedAt(c, 0);
    ReversedAt(c, |c| - 1);
    forall i | 0 <= i < |c| - 1 ensures Reversed(c)[i + 1].parent == Some(Reversed(c)[i]) {
      ReversedAt(c, i);
      ReversedAt(c, i + 1);
    }
  }

  /** Every link of the chain of a linked node is one search step, and the chain ends at the start node. */
  lemma {:induction false} ChainLinked(n: Node, start: Node, blocked: set<Tile>, goal: Position)
    requires Linked(n, start, blocked, goal)
    decreases n
    ensures Chain(n)[|Chain(n)| - 1] == start
    ensures forall i :: 0 <= i < |Chain(n)| - 1 ==> Step(Chain(n)[i + 1], Chain(n)[i], blocked, goal)
  {
    ChainShape(n);
    match n.parent
    case None =>
    case Some(p) =>
      ChainLinked(p, start, blocked, goal);
      assert Chain(n) == [n] + Chain(p);
      ChainShape(p);
  }

  /**
   * The path read back from a linked node runs from the start node to that
   * node, and each element is one search step from the one before.
   */
  lemma PathIsWalk(last: Node, start: Node, blocked: set<Tile>, goal: Position)
    requires Linked(last, start, blocked, goal)
    ensures Walk(Reversed(Chain(last)), start, last, blocked, goal)
  {
    var c := Chain(last);
    ChainLinked(last, start, blocked, goal);
    var p := Reversed(c);
    ReversedAt(c, 0);
    ReversedAt(c, |c| - 1);
    forall i | 0 <= i < |p| - 1
      ensures Step(p[i], p[i + 1], blocked, goal)
    {
      ReversedAt(c, i);
      ReversedAt(c, i + 1);
      var j := |c| - 2 - i;
      assert p[i] == c[j + 1] && p[i + 1] == c[j];
    }
  }

  /** `s` without its element at index `k` (the list's RemoveAt). */
  function RemoveAt<T>(s: seq<T>, k: nat): (r: seq<T>)
    requires k < |s|
    ensures |r| == |s| - 1
    ensures forall i :: 0 <= i < k ==> r[i] == s[i]
    ensures forall i :: k <= i < |r| ==> r[i] == s[i + 1]
  {
    s[..k] + s[k + 1..]
  }

  lemma TileSetConcat(a: seq<Node>, b: seq<Node>)
    ensures TileSet(a + b) == TileSet(a) + TileSet(b)
  {
    assert forall n :: n in a + b <==> n in a || n in b;
  }

  /** Removing the node at `k` removes exactly its tile when the tiles are distinct. */
  lemma TileSetRemoveAt(s: seq<Node>, k: nat)
    requires k < |s| && DistinctTiles(s)
    ensures TileSet(RemoveAt(s, k)) == TileSet(s) - {s[k].tile}
  {
    var r := RemoveAt(s, k);
    forall t | t in TileSet(s) - {s[k].tile} ensures t in TileSet(r) {
      var n :| n in s && n.tile == t;
      var i :| 0 <= i < |s| && s[i] == n;
      assert i != k;
      if i < k { assert r[i] == n; } else { assert r[i - 1] == n; }
    }
    forall t | t in TileSet(r) ensures t in TileSet(s) - {s[k].tile} {
      var n :| n in r && n.tile == t;
      var i :| 0 <= i < |r| && r[i] == n;
      if i < k { assert s[i] == n; } else { assert s[i + 1] == n; }
    }
  }

  /**
   * What holds of the lists at the top of every iteration of the search
   * loop: the open tiles and the closed tiles are each pairwise distinct and
   * the two are disjoint; every node chains back to the start node by search
   * steps; no closed node stands on the goal tile; every neighbour of a closed
   * tile is an obstacle, open or closed.
   */
  ghost predicate SearchInvariant(open: seq<Node>, closed: seq<Node>, start: Node, blocked: set<Tile>,
                                  goal: Position, goalTile: Tile)
  {
    && DistinctTiles(open) && DistinctTiles(closed) && DisjointTiles(open, closed)
    && (forall n :: n in open ==> Linked(n, start, blocked, goal))
    && (forall n :: n in closed ==> Linked(n, start, blocked, goal))
    && goalTile !in TileSet(closed)
    && (forall n, k :: n in closed && 0 <= k < 8 ==>
          Shift(n.tile, k) in blocked || Shift(n.tile, k) in TileSet(open) || Shift(n.tile, k) in TileSet(closed))
  }

  /** Every listed tile lies in the region `universe`. */
  predicate Confined(open: seq<Node>, closed: seq<Node>, universe: set<Tile>)
  {
    TileSet(open) <= universe && TileSet(closed) <= universe
  }

  /** The search starts with the start node open and nothing closed. */
  lemma StartInvariant(start: Tile, blocked: set<Tile>, goal: Position, goalTile: Tile)
    ensures SearchInvariant([StartNode(start, goal)], [], StartNode(start, goal), blocked, goal, goalTile)
    ensures TileSet([StartNode(start, goal)]) == {start}
  {
    assert TileSet([StartNode(start, goal)]) == {start};
  }

  /**
   * Moving the open node at `k` to the closed list keeps both lists free of
   * repeated tiles and disjoint, and closes one tile that was not closed
   * before.
   */
  lemma {:induction false} MoveToClosed(open: seq<Node>, closed: seq<Node>, k: nat)
    requires k < |open|
    requires DistinctTiles(open) && DistinctTiles(closed) && DisjointTiles(open, closed)
    ensures open[k].tile !in TileSet(closed)
    ensures TileSet(closed + [open[k]]) == TileSet(closed) + {open[k].tile}
    ensures TileSet(RemoveAt(open, k)) == TileSet(open) - {open[k].tile}
    ensures DistinctTiles(RemoveAt(open, k)) && DistinctTiles(closed + [open[k]])
    ensures DisjointTiles(RemoveAt(open, k), closed + [open[k]])
  {
    var c := open[k];
    forall n | n in closed ensures n.tile != c.tile {
      var j :| 0 <= j < |closed| && closed[j] == n;
    }
    TileSetConcat(closed, [c]);
    assert TileSet([c]) == {c.tile};
    TileSetRemoveAt(open, k);
    var r := RemoveAt(open, k);
    var cl := closed + [c];
    forall i, j | 0 <= i < |r| && 0 <= j < |cl| ensures r[i].tile != cl[j].tile {
      var i' := if i < k then i else i + 1;
      assert r[i] == open[i'];
    }
    forall i, j | 0 <= i < j < |r| ensures r[i].tile != r[j].tile {
      var i' := if i < k then i else i + 1;
      var j' := if j < k then j else j + 1;
      assert r[i] == open[i'] && r[j] == open[j'];
    }
  }

  /** A node an expansion yields is linked back to the start when the expanded node is. */
  lemma {:induction false} ExpansionLinked(c: Node, start: Node, blocked: set<Tile>, closed: set<Tile>, goal: Position)
    requires Linked(c, start, blocked, goal)
    ensures forall n :: n in Expansion(c, goal, blocked, closed, 8) ==> Linked(n, start, blocked, goal)
  {
    ExpansionSound(c, goal, blocked, closed, 8);
  }

  /**
   * After an iteration every open node still chains back to the start and
   * stands on a tile that is not closed.
   */
  lemma {:induction false} ExpandKeepsOpenLinked(open: seq<Node>, closed: seq<Node>, k: nat, next: seq<Node>, start: Node,
                                                  blocked: set<Tile>, goal: Position, goalTile: Tile)
    requires k < |open|
    requires SearchInvariant(open, closed, start, blocked, goal, goalTile)
    requires next == AppendNew(RemoveAt(open, k), Expansion(open[k], goal, blocked, TileSet(closed + [open[k]]), 8))
    ensures forall n :: n in next ==> Linked(n, start, blocked, goal) && n.tile !in TileSet(closed + [open[k]])
  {
    var c := open[k];
    var cl := closed + [c];
    var rest := RemoveAt(open, k);
    var ns := Expansion(c, goal, blocked, TileSet(cl), 8);
    MoveToClosed(open, closed, k);
    AppendNewFacts(rest, ns);
    ExpansionSound(c, goal, blocked, TileSet(cl), 8);
    forall n | n in next ensures Linked(n, start, blocked, goal) && n.tile !in TileSet(cl) {
      if n in rest {
        var j :| 0 <= j < |rest| && rest[j] == n;
        var j' := if j < k then j else j + 1;
        assert open[j'] == n;
        forall m | m in cl ensures m.tile != n.tile {
          var l :| 0 <= l < |cl| && cl[l] == m;
        }
      } else {
        assert n in ns;
        assert c in open;
        ExpansionLinked(c, start, blocked, TileSet(cl), goal);
      }
    }
  }

  /**
   * After an iteration every neighbour of a closed tile is still an obstacle,
   * open or closed: the expanded node's free neighbours have all been offered.
   */
  lemma {:induction false} ExpandKeepsClosure(open: seq<Node>, closed: seq<Node>, k: nat, next: seq<Node>, start: Node,
                                               blocked: set<Tile>, goal: Position, goalTile: Tile)
    requires k < |open|
    requires SearchInvariant(open, closed, start, blocked, goal, goalTile)
    requires next == AppendNew(RemoveAt(open, k), Expansion(open[k], goal, blocked, TileSet(closed + [open[k]]), 8))
    ensures forall n, d :: n in closed + [open[k]] && 0 <= d < 8 ==>
      Shift(n.tile, d) in blocked || Shift(n.tile, d) in TileSet(next) || Shift(n.tile, d) in TileSet(closed + [open[k]])
  {
    var c := open[k];
    var cl := closed + [c];
    var rest := RemoveAt(open, k);
    var ns := Expansion(c, goal, blocked, TileSet(cl), 8);
    MoveToClosed(open, closed, k);
    AppendNewFacts(rest, ns);
    ExpansionComplete(c, goal, blocked, TileSet(cl), 8);
    forall n, d | n in cl && 0 <= d < 8
      ensures Shift(n.tile, d) in blocked || Shift(n.tile, d) in TileSet(next) || Shift(n.tile, d) in TileSet(cl)
    {
      var t := Shift(n.tile, d);
      if n in closed {
        if t in TileSet(open) && t !in TileSet(cl) {
          assert t in TileSet(rest);
        }
      } else if t !in blocked && t !in TileSet(cl) {
        assert n == c;
        assert Candidate(c, d, goal) in ns;
        assert t in TileSet(ns);
      }
    }
  }

  /**
   * One iteration of the search loop on a node that is not the goal: the node
   * at index `k` moves from the open list to the end of the closed list and its
   * neighbours (checked against the closed list that now holds it) are offered
   * to the open list, giving `next`. This keeps the loop invariant and leaves
   * every other open node where and as it was (no cost relaxation): `next`
   * starts with the old open list minus the chosen node.
   */
  lemma {:induction false} ExpandPreserves(open: seq<Node>, closed: seq<Node>, k: nat, next: seq<Node>, start: Node,
                                            blocked: set<Tile>, goal: Position, goalTile: Tile)
    requires k < |open| && open[k].tile != goalTile
    requires SearchInvariant(open, closed, start, blocked, goal, goalTile)
    requires next == AppendNew(RemoveAt(open, k), Expansion(open[k], goal, blocked, TileSet(closed + [open[k]]), 8))
    ensures SearchInvariant(next, closed + [open[k]], start, blocked, goal, goalTile)
    ensures |next| >= |open| - 1 && next[..|open| - 1] == RemoveAt(open, k)
  {
    var c := open[k];
    var cl := closed + [c];
    var rest := RemoveAt(open, k);
    var ns := Expansion(c, goal, blocked, TileSet(cl), 8);
    MoveToClosed(open, closed, k);
    AppendNewFacts(rest, ns);
    ExpandKeepsOpenLinked(open, closed, k, next, start, blocked, goal, goalTile);
    ExpandKeepsClosure(open, closed, k, next, start, blocked, goal, goalTile);
    forall i, j | 0 <= i < |next| && 0 <= j < |cl| ensures next[i].tile != cl[j].tile {
      assert next[i] in next && cl[j] in cl;
    }
    forall n | n in cl ensures Linked(n, start, blocked, goal) {
      if n !in closed { assert n == open[k]; }
    }
  }

  /**
   * Inside a region the search cannot leave, an iteration keeps every listed
   * tile in the region and closes one more of its tiles.
   */
  lemma {:induction false} ExpandConfined(open: seq<Node>, closed: seq<Node>, k: nat, next: seq<Node>, start: Node,
                                           blocked: set<Tile>, goal: Position, goalTile: Tile, universe: set<Tile>)
    requires k < |open|
    requires SearchInvariant(open, closed, start, blocked, goal, goalTile)
    requires Enclosed(universe, blocked) && Confined(open, closed, universe)
    requires next == AppendNew(RemoveAt(open, k), Expansion(open[k], goal, blocked, TileSet(closed + [open[k]]), 8))
    ensures Confined(next, closed + [open[k]], universe)
    ensures |universe - TileSet(closed + [open[k]])| < |universe - TileSet(closed)|
  {
    var c := open[k];
    var cl := closed + [c];
    var rest := RemoveAt(open, k);
    var ns := Expansion(c, goal, blocked, TileSet(cl), 8);
    MoveToClosed(open, closed, k);
    AppendNewFacts(rest, ns);
    ExpansionSound(c, goal, blocked, TileSet(cl), 8);
    assert c in open;
    assert c.tile in TileSet(open);
    assert universe - TileSet(closed) == (universe - TileSet(cl)) + {c.tile};
    forall t | t in TileSet(ns) ensures t in universe {
      var n :| n in ns && n.tile == t;
    }
  }

  /**
   * What holds when the search loop has stopped: something was closed, the
   * lists are free of repeated tiles and disjoint, the node closed last chains
   * back to the start node, and either it stands on the goal tile or the open
   * list ran out and no walk from the start reaches the goal tile.
   */
  ghost predicate SearchOutcome(open: seq<Node>, closed: seq<Node>, start: Node, blocked: set<Tile>, goal: Position, goalTile: Tile)
  {
    && |closed| >= 1
    && DistinctTiles(open) && DistinctTiles(closed) && DisjointTiles(open, closed)
    && Linked(closed[|closed| - 1], start, blocked, goal)
    && (closed[|closed| - 1].tile == goalTile
        || (open == [] && forall w :: TileWalk(w, blocked) && w[0] == start.tile ==> goalTile !in w))
  }

  /** Closing a node on the goal tile ends the search with that node's chain as the outcome. */
  lemma GoalReached(open: seq<Node>, closed: seq<Node>, k: nat, start: Node, blocked: set<Tile>,
                    goal: Position, goalTile: Tile)
    requires k < |open| && open[k].tile == goalTile
    requires SearchInvariant(open, closed, start, blocked, goal, goalTile)
    ensures SearchOutcome(RemoveAt(open, k), closed + [open[k]], start, blocked, goal, goalTile)
  {
    MoveToClosed(open, closed, k);
  }

  /**
   * A search whose open list ran out, having closed the start node first,
   * ends with the goal tile unreachable.
   */
  lemma Exhausted(closed: seq<Node>, start: Node, blocked: set<Tile>, goal: Position, goalTile: Tile)
    requires |closed| >= 1 && closed[0] == start
    requires SearchInvariant([], closed, start, blocked, goal, goalTile)
    ensures SearchOutcome([], closed, start, blocked, goal, goalTile)
  {
    forall w | TileWalk(w, blocked) && w[0] == start.tile ensures goalTile !in w {
      assert closed[0] in closed;
      ExhaustedCoversReachable(closed, start, blocked, goal, goalTile, w);
    }
  }

  /** A move from `a` to `b` on the grid: `b` is an unoccupied neighbour of `a`. */
  predicate Move(a: Tile, b: Tile, blocked: set<Tile>)
  {
    Adjacent(a, b) && b !in blocked
  }

  /** A run of tiles each of which is an unoccupied neighbour of the one before. */
  predicate TileWalk(w: seq<Tile>, blocked: set<Tile>)
  {
    |w| >= 1 && forall i :: 0 <= i < |w| - 1 ==> Move(w[i], w[i + 1], blocked)
  }

  /** Every neighbour of a tile is reached by one of the eight offsets. */
  lemma AdjacentIsShift(a: Tile, b: Tile)
    requires Adjacent(a, b)
    ensures Direction(a, b) < 8 && Shift(a, Direction(a, b)) == b
  {
  }

  /**
   * When the open list has run out, the closed tiles contain every tile a walk
   * from a closed tile can reach; so a tile that is not closed, the goal's
   * among them, cannot be reached from the start at all.
   */
  lemma {:induction false} ExhaustedCoversReachable(closed: seq<Node>, start: Node, blocked: set<Tile>, goal: Position,
                                                     goalTile: Tile, w: seq<Tile>)
    requires SearchInvariant([], closed, start, blocked, goal, goalTile)
    requires TileWalk(w, blocked) && w[0] in TileSet(closed)
    ensures forall i :: 0 <= i < |w| ==> w[i] in TileSet(closed)
    ensures goalTile !in w
  {
    assert TileSet([]) == {};
    var i := 0;
    while i < |w| - 1
      invariant 0 <= i <= |w| - 1
      invariant forall j :: 0 <= j <= i ==> w[j] in TileSet(closed)
    {
      var n :| n in closed && n.tile == w[i];
      var l :| 0 <= l < |closed| && closed[l] == n;
      AdjacentIsShift(w[i], w[i + 1]);
      assert Shift(closed[l].tile, Direction(w[i], w[i + 1])) == w[i + 1];
      i := i + 1;
    }
    forall n | n in closed ensures n.tile != goalTile {
      var l :| 0 <= l < |closed| && closed[l] == n;
    }
    forall j | 0 <= j < |w| ensures w[j] != goalTile {
      assert w[j] in TileSet(closed);
    }
  }

  /**
   * The index the best-node scan holds after looking at the first `m` nodes of
   * the open list: the first node is taken unconditionally (the scan's score
   * starts at the sentinel -1, which no score equals), and a later node
   * replaces the current best only when its score is strictly lower.
   */
  function ScanBest(nodes: seq<Node>, m: nat): (b: nat)
    requires m <= |nodes|
    ensures m == 0 ==> b == 0
    ensures m > 0 ==> b < m
    decreases m
  {
    if m == 0 then 0
    else
      var b := ScanBest(nodes, m - 1);
      if m - 1 == 0 || nodes[m - 1].TotalScore() < nodes[b].TotalScore() then m - 1 else b
  }

  /**
   * After `m > 0` nodes the scan holds the first index of a minimum score among
   * them: nothing it looked at scores lower, and everything before it scores
   * strictly higher.
   */
  lemma {:induction false} ScanBestIsFirstMinimum(nodes: seq<Node>, m: nat)
    requires 0 < m <= |nodes|
    decreases m
    ensures ScanBest(nodes, m) < m
    ensures forall j :: 0 <= j < m ==> nodes[ScanBest(nodes, m)].TotalScore() <= nodes[j].TotalScore()
    ensures forall j :: 0 <= j < ScanBest(nodes, m) ==> nodes[j].TotalScore() > nodes[ScanBest(nodes, m)].TotalScore()
  {
    if m > 1 {
      ScanBestIsFirstMinimum(nodes, m - 1);
    }
  }

  /** The node `FindBestScoringNode` picks from an open list: the scan stops one short of the end. */
  function BestIndex(nodes: seq<Node>): nat
  {
    ScanBest(nodes, if |nodes| == 0 then 0 else |nodes| - 1)
  }

  /**
   * The last open node is never looked at: with two open nodes the first is
   * picked even when the second, the one added last, scores lower.
   */
  lemma LastOpenNodeIgnored()
    ensures var a := Node(Tile(0, 0), None, 0.0, 5.0);
      var b := Node(Tile(1, 0), None, 0.0, 1.0);
      b.TotalScore() < a.TotalScore() && BestIndex([a, b]) == 0
  {
  }
}
