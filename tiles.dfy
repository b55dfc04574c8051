/**
 * The occupancy table of the tile world (Assets/Scripts/TileHandler.cs): grid
 * tiles, quantisation of world positions to tiles, and the table that maps each
 * occupied tile to the obstacle object standing on it.
 */
module Tiles {

  /** A grid tile: the integral (x, y) pair the engine stores in a Vector2. */
  datatype Tile = Tile(x: int, y: int)

  /** A world position (the engine's Vector3); the ground plane is x/z, y is height. */
  datatype Position = Position(x: real, y: real, z: real)

  /** The identity of a scene object (an obstacle, the player, the goal). */
  type ObjectId = nat

  /**
   * Round to the nearest integer, halves going to the even neighbour, as the
   * engine's rounding of a coordinate does. The ensures clauses determine the
   * result uniquely.
   */
  function Round(r: real): (n: int)
    ensures -0.5 <= n as real - r <= 0.5
    ensures (n as real - r == 0.5 || r - n as real == 0.5) ==> n % 2 == 0
    ensures r == r.Floor as real ==> n == r.Floor
  {
    var f := r.Floor;
    var d := r - f as real;
    if d < 0.5 then f
    else if d > 0.5 then f + 1
    else if f % 2 == 0 then f
    else f + 1
  }

  /** An integral coordinate is its own rounding. */
  lemma RoundIntegral(k: int)
    ensures Round(k as real) == k
  {
  }

  /**
   * The tile nearest to a world position: the x and z axes are rounded and
   * the height is ignored.
   */
  function ClosestTile(p: Position): (t: Tile)
    ensures -0.5 <= t.x as real - p.x <= 0.5
    ensures -0.5 <= t.y as real - p.z <= 0.5
  {
    Tile(Round(p.x), Round(p.z))
  }

  /** The height of a position plays no part in its tile. */
  lemma ClosestTileIgnoresHeight(p: Position, h: real)
    ensures ClosestTile(Position(p.x, h, p.z)) == ClosestTile(p)
  {
  }

  /** The position at the centre of a tile, at height `h`. */
  function TileCentre(t: Tile, h: real): Position
  {
    Position(t.x as real, h, t.y as real)
  }

  /** On a position whose ground coordinates are integral, quantisation is the identity. */
  lemma ClosestTileOfCentre(t: Tile, h: real)
    ensures ClosestTile(TileCentre(t, h)) == t
  {
    RoundIntegral(t.x);
    RoundIntegral(t.y);
  }

  /** Quantising the centre of a quantised position gives the same tile again. */
  lemma ClosestTileIdempotent(p: Position, h: real)
    ensures ClosestTile(TileCentre(ClosestTile(p), h)) == ClosestTile(p)
  {
    ClosestTileOfCentre(ClosestTile(p), h);
  }

  /** The table after `AddTile(t, o)`: an occupied tile keeps its object. */
  function Added(m: map<Tile, ObjectId>, t: Tile, o: ObjectId): (r: map<Tile, ObjectId>)
    ensures t in r
    ensures r[t] == if t in m then m[t] else o
    ensures forall u :: u != t ==> (u in r <==> u in m)
    ensures forall u :: u != t && u in m ==> r[u] == m[u]
  {
    if t in m then m else m[t := o]
  }

  /** The table after `RemoveTile(t)`: the tile is free, every other entry is kept. */
  function Removed(m: map<Tile, ObjectId>, t: Tile): (r: map<Tile, ObjectId>)
    ensures t !in r
    ensures forall u :: u != t ==> (u in r <==> u in m)
    ensures forall u :: u != t && u in m ==> r[u] == m[u]
    ensures t !in m ==> r == m
  {
    m - {t}
  }

  /** Adding an obstacle to a free tile and removing it again restores the table. */
  lemma AddThenRemove(m: map<Tile, ObjectId>, t: Tile, o: ObjectId)
    requires t !in m
    ensures Removed(Added(m, t, o), t) == m
  {
  }

  /** Adding to an occupied tile changes nothing. */
  lemma AddToOccupied(m: map<Tile, ObjectId>, t: Tile, o: ObjectId)
    requires t in m
    ensures Added(m, t, o) == m
  {
  }

  /** The engine component that owns the occupancy table. */
  class TileHandler {

    /** Occupied tiles, each mapped to the obstacle object that stands on it. */
    var occupiedTiles: map<Tile, ObjectId>

    /** The component's start: the table is empty. */
    constructor ()
      ensures occupiedTiles == map[]
    {
      occupiedTiles := map[];
    }

    /** A tile is occupied exactly when it is a key of the table. */
    function IsTileOccupied(t: Tile): (b: bool)
      reads this
      ensures b <==> t in occupiedTiles
    {
      t in occupiedTiles
    }

    /** Occupy a free tile with `obstacle`; an occupied tile is left as it is. */
    method AddTile(t: Tile, obstacle: ObjectId)
      modifies this
      ensures occupiedTiles == Added(old(occupiedTiles), t, obstacle)
    {
      if IsTileOccupied(t) {
        return;
      }
      occupiedTiles := occupiedTiles[t := obstacle];
    }

    /** Free an occupied tile; a free tile is left as it is. */
    method RemoveTile(t: Tile)
      modifies this
      ensures occupiedTiles == Removed(old(occupiedTiles), t)
    {
      if IsTileOccupied(t) {
        occupiedTiles := occupiedTiles - {t};
      }
    }
  }
}
