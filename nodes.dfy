/**
 * The search node (Assets/Scripts/PathFinding/Node.cs): an immutable record of
 * a tile, the node it was reached from, the accumulated move cost g and the
 * heuristic cost h. The parent is fixed when the node is built and is always a
 * node that already exists, so parent links form finite chains; a datatype
 * captures exactly that.
 */
module Nodes {

  import opened Wrappers
  import opened Tiles

  /** Costs are sums of non-negative step costs and distances. */
  type Cost = r: real | 0.0 <= r

  datatype Node = Node(tile: Tile, parent: Option<Node>, moveCost: Cost, heuristicCost: Cost)
  {
    /**
     * f = g + h, the score the search ranks open nodes by; both parts are
     * non-negative, so the score bounds each of them.
     */
    function TotalScore(): (f: real)
      ensures f >= moveCost && f >= heuristicCost
    {
      moveCost + heuristicCost
    }
  }

  /** The node followed by its ancestors, ending at the node with no parent. */
  function Chain(n: Node): (c: seq<Node>)
    decreases n
  {
    [n] + match n.parent { case None => [] case Some(p) => Chain(p) }
  }

  /** The end of the parent chain that starts at `n`. */
  function Root(n: Node): (r: Node)
    decreases n
    ensures r.parent.None?
    ensures n.parent.None? ==> r == n
  {
    match n.parent
    case None => n
    case Some(p) => Root(p)
  }

  /**
   * Following parent links from `n` terminates at its root: the chain starts at
   * `n`, each element's parent is the next element, and it ends at the one node
   * of the chain without a parent.
   */
  lemma {:induction false} ChainShape(n: Node)
    decreases n
    ensures |Chain(n)| >= 1 && Chain(n)[0] == n
    ensures Chain(n)[|Chain(n)| - 1] == Root(n)
    ensures forall i :: 0 <= i < |Chain(n)| - 1 ==> Chain(n)[i].parent == Some(Chain(n)[i + 1])
    ensures forall i :: 0 <= i < |Chain(n)| - 1 ==> Chain(n)[i].parent.Some?
  {
    match n.parent
    case None =>
    case Some(p) =>
      ChainShape(p);
      assert Chain(n) == [n] + Chain(p);
  }

  /**
   * Walking the chain one link at a time: element `i` has a parent exactly when
   * it is not the last element, and that parent is the next element.
   */
  lemma ChainNext(n: Node, i: nat)
    requires i < |Chain(n)|
    ensures Chain(n)[i].parent.Some? <==> i + 1 < |Chain(n)|
    ensures i + 1 < |Chain(n)| ==> Chain(n)[i + 1] == Chain(n)[i].parent.value
  {
    ChainShape(n);
  }

  /** The decimal digits of a natural number. */
  function NatText(k: nat): (s: string)
    decreases k
    ensures |s| >= 1
    ensures forall i :: 0 <= i < |s| ==> '0' <= s[i] <= '9'
  {
    var digit := ['0' + (k % 10) as char];
    if k < 10 then digit else NatText(k / 10) + digit
  }

  function IntText(k: int): (s: string)
    ensures |s| >= 1
  {
    if k < 0 then "-" + NatText(-k) else NatText(k)
  }

  /** A tile as the engine prints a Vector2 with integral components: "(x.0, y.0)". */
  function TileText(t: Tile): (s: string)
    ensures |s| >= 1 && s[0] == '('
  {
    "(" + IntText(t.x) + ".0, " + IntText(t.y) + ".0)"
  }

  /**
   * The parent part of a node's text: "Null" when the node has no parent, the
   * parent's tile otherwise.
   */
  function ParentText(n: Node): (s: string)
    ensures s == "Null" <==> n.parent.None?
    ensures n.parent.Some? ==> s == TileText(n.parent.value.tile)
  {
    match n.parent
    case None => "Null"
    case Some(p) => TileText(p.tile)
  }
}
