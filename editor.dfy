/**
 * The map editor's decision logic (Assets/Scripts/Map/MapEditor.cs): the
 * three-state mode cycle, the zoom clamp, the guards around adding and
 * removing obstacles, and the drag flags of Move mode. Mouse, keyboard, ray
 * casts and object creation are engine calls; their outcomes are parameters.
 */
module Editor {

  import opened Wrappers
  import opened Tiles

  datatype EditorMode = AddTile | RemoveTile | Move

  /** The enum's underlying value. */
  function Ordinal(m: EditorMode): int
  {
    match m
    case AddTile => 0
    case RemoveTile => 1
    case Move => 2
  }

  function ModeOfOrdinal(k: int): (m: EditorMode)
    requires 0 <= k <= 2
    ensures Ordinal(m) == k
  {
    if k == 0 then AddTile else if k == 1 then RemoveTile else Move
  }

  /** The mode cycle: AddTile, then RemoveTile, then Move, then AddTile again. */
  function NextMode(m: EditorMode): EditorMode
  {
    match m
    case AddTile => RemoveTile
    case RemoveTile => Move
    case Move => AddTile
  }

  /** Three swaps bring the editor back to the mode it started in; fewer never do. */
  lemma SwapThriceRestores(m: EditorMode)
    ensures NextMode(NextMode(NextMode(m))) == m
    ensures NextMode(m) != m && NextMode(NextMode(m)) != m
  {
  }

  /** The enum's name, as printed in the mode text. */
  function ModeName(m: EditorMode): string
  {
    match m
    case AddTile => "AddTile"
    case RemoveTile => "RemoveTile"
    case Move => "Move"
  }

  const MinZoom: real := 15.0
  const MaxZoom: real := 60.0

  /**
   * The camera size after one scroll reading: scrolling forward zooms in by one
   * unit while the size is above 15, scrolling back zooms out by one unit while
   * it is below 60, no scroll leaves it. The size is the camera's float, so it
   * need not be a whole number.
   */
  function ZoomStep(size: real, scroll: real): (r: real)
    ensures r == size - 1.0 <==> scroll > 0.0 && size > MinZoom
    ensures r == size + 1.0 <==> scroll < 0.0 && size < MaxZoom
    ensures r == size || r == size - 1.0 || r == size + 1.0
  {
    if scroll > 0.0 then (if size > MinZoom then size - 1.0 else size)
    else if scroll < 0.0 then (if size < MaxZoom then size + 1.0 else size)
    else size
  }

  /** A size with no fractional part. */
  predicate Integral(size: real)
  {
    size == size.Floor as real
  }

  /**
   * A whole-numbered camera size within [15, 60] stays whole-numbered and
   * within [15, 60], whatever is scrolled.
   */
  lemma ZoomStaysInRange(size: real, scroll: real)
    requires MinZoom <= size <= MaxZoom && Integral(size)
    ensures MinZoom <= ZoomStep(size, scroll) <= MaxZoom
    ensures Integral(ZoomStep(size, scroll))
  {
  }

  /**
   * The clamp tests the size before the step, not after it: a fractional size
   * just above 15 is zoomed in to below 15, and one just below 60 is zoomed out
   * to above 60.
   */
  lemma FractionalSizeLeavesRange()
    ensures ZoomStep(15.5, 1.0) == 14.5 < MinZoom
    ensures ZoomStep(59.5, -1.0) == 60.5 > MaxZoom
  {
  }

  /** The tile under the mouse: the tile of the ray's hit on the ground, or (0, 0) when it misses. */
  function MousePositionToTile(hit: Option<Position>): (t: Tile)
    ensures hit.None? ==> t == Tile(0, 0)
    ensures hit.Some? ==> -0.5 <= t.x as real - hit.value.x <= 0.5 && -0.5 <= t.y as real - hit.value.z <= 0.5
  {
    match hit
    case Some(p) => ClosestTile(p)
    case None => Tile(0, 0)
  }

  /**
   * The table after the editor tries to put `obstacle` on `tile`: it refuses an
   * occupied tile, the player's tile and the goal's tile, and otherwise adds
   * exactly that one entry.
   */
  function PlaceObstacle(m: map<Tile, ObjectId>, tile: Tile, playerTile: Tile, goalTile: Tile, obstacle: ObjectId): (r: map<Tile, ObjectId>)
    ensures tile in m || tile == playerTile || tile == goalTile ==> r == m
    ensures tile !in m && tile != playerTile && tile != goalTile ==> r == m[tile := obstacle]
    ensures playerTile in r ==> playerTile in m
    ensures goalTile in r ==> goalTile in m
  {
    if tile in m then m
    else if playerTile == tile || goalTile == tile then m
    else Added(m, tile, obstacle)
  }

  /** The objects of the scene a click can hit. */
  datatype SceneObject = PlayerObject | GoalObject | OtherObject(id: ObjectId)

  /** What the ray cast of a click hit, with its tag. */
  datatype Clicked = Clicked(target: SceneObject, tag: string)

  /** The left button's readings in one frame. */
  datatype Button = Button(down: bool, held: bool, up: bool)

  /** The part of the editor's state that the mouse changes. */
  datatype EditorView = EditorView(
    mode: EditorMode,
    isMoving: bool,
    movingObject: Option<SceneObject>,
    playerShouldMove: bool,
    player: Position,
    goal: Position,
    occupied: map<Tile, ObjectId>)

  /** A drag is in progress exactly when there is an object being dragged. */
  predicate DragConsistent(v: EditorView)
  {
    v.isMoving == v.movingObject.Some?
  }

  /** Where a dragged object is put: on the tile, half a unit below the ground plane. */
  function DropPosition(t: Tile): Position
  {
    TileCentre(t, -0.5)
  }

  /** The drag of `obj` to the tile under the mouse. */
  function Dragged(v: EditorView, obj: SceneObject, tile: Tile): EditorView
  {
    match obj
    case PlayerObject => v.(player := DropPosition(tile))
    case GoalObject => v.(goal := DropPosition(tile))
    case OtherObject(_) => v
  }

  /** What holding the button does in each mode, before the player is stopped. */
  function Held(v: EditorView, hit: Option<Position>, obstacle: ObjectId): EditorView
    requires DragConsistent(v)
  {
    var tile := MousePositionToTile(hit);
    match v.mode
    case AddTile => v.(occupied := PlaceObstacle(v.occupied, tile, ClosestTile(v.player), ClosestTile(v.goal), obstacle))
    case RemoveTile => v.(occupied := if tile in v.occupied then Removed(v.occupied, tile) else v.occupied)
    case Move => if v.isMoving then Dragged(v, v.movingObject.value, tile) else v
  }

  /**
   * One frame of mouse handling. `None` is the frame in which a click in Move
   * mode hits nothing: the source then reads the tag of a null object and the
   * frame stops with an exception before anything has changed.
   */
  function ModeAction(v: EditorView, b: Button, clicked: Option<Clicked>, hit: Option<Position>, obstacle: ObjectId): (r: Option<EditorView>)
    requires DragConsistent(v)
    ensures r.None? <==> b.down && v.mode == Move && clicked.None?
    ensures r.Some? ==> DragConsistent(r.value) && r.value.mode == v.mode
    ensures r.Some? && b.up ==> !r.value.isMoving && r.value.movingObject.None?
    ensures r.Some? && b.held ==> !r.value.playerShouldMove
    ensures r.Some? && r.value.isMoving && !v.isMoving ==>
      b.down && v.mode == Move && clicked.Some? && clicked.value.tag == "Moveable"
      && r.value.movingObject == Some(clicked.value.target)
    ensures r.Some? && r.value.occupied != v.occupied ==> b.held && v.mode != Move
    ensures r.Some? && (r.value.player != v.player || r.value.goal != v.goal) ==> b.held && v.mode == Move
    ensures r.Some? && !b.down && !b.held && !b.up ==> r.value == v
  {
    if b.down && v.mode == Move && clicked.None? then None
    else Some(Released(AfterHeld(Pressed(v, b, clicked), b, hit, obstacle), b))
  }

  /** The press: in Move mode a click on a "Moveable" object starts dragging it and stops the player. */
  function Pressed(v: EditorView, b: Button, clicked: Option<Clicked>): EditorView
    requires !(b.down && v.mode == Move && clicked.None?)
  {
    if b.down && v.mode == Move && clicked.value.tag == "Moveable"
    then v.(isMoving := true, movingObject := Some(clicked.value.target), playerShouldMove := false)
    else v
  }

  /** Holding the button: the mode's action, then the player is stopped. */
  function AfterHeld(v: EditorView, b: Button, hit: Option<Position>, obstacle: ObjectId): EditorView
    requires DragConsistent(v)
  {
    if b.held then Held(v, hit, obstacle).(playerShouldMove := false) else v
  }

  /** The release ends every drag. */
  function Released(v: EditorView, b: Button): EditorView
  {
    if b.up then v.(isMoving := false, movingObject := None) else v
  }

  /**
   * Outside Move mode the player's and the goal's tiles never become occupied:
   * adding refuses them and removing only frees tiles.
   */
  lemma EditingKeepsPlayerAndGoalFree(v: EditorView, b: Button, clicked: Option<Clicked>, hit: Option<Position>, obstacle: ObjectId)
    requires DragConsistent(v) && v.mode != Move
    requires ClosestTile(v.player) !in v.occupied && ClosestTile(v.goal) !in v.occupied
    ensures ModeAction(v, b, clicked, hit, obstacle).Some?
    ensures var w := ModeAction(v, b, clicked, hit, obstacle).value;
      ClosestTile(w.player) !in w.occupied && ClosestTile(w.goal) !in w.occupied
  {
  }

  /** Dragging the player puts it on the tile under the mouse. */
  lemma DragMovesPlayerToMouseTile(v: EditorView, b: Button, hit: Option<Position>, obstacle: ObjectId)
    requires DragConsistent(v) && v.mode == Move && v.movingObject == Some(PlayerObject)
    requires !b.down && b.held
    ensures ModeAction(v, b, None, hit, obstacle).Some?
    ensures ClosestTile(ModeAction(v, b, None, hit, obstacle).value.player) == MousePositionToTile(hit)
  {
    ClosestTileOfCentre(MousePositionToTile(hit), -0.5);
  }

  /** The editor component. */
  class MapEditor {

    const tileHandler: TileHandler
    var mode: EditorMode
    var isMoving: bool
    var movingObject: Option<SceneObject>
    /** The camera's orthographic size, stepped by whole units. */
    var orthographicSize: real
    var playerPosition: Position
    var goalPosition: Position
    /** The player's movement flag, which the editor switches off while the button is held. */
    var playerShouldMove: bool

    ghost predicate Valid()
      reads this
    {
      isMoving == movingObject.Some?
    }

    function View(): EditorView
      reads this, tileHandler
    {
      EditorView(mode, isMoving, movingObject, playerShouldMove, playerPosition, goalPosition, tileHandler.occupiedTiles)
    }

    /** The component's start: AddTile mode and no drag; the rest comes from the scene. */
    constructor (handler: TileHandler, player: Position, goal: Position, cameraSize: real, shouldMove: bool)
      ensures Valid()
      ensures tileHandler == handler && mode == AddTile && !isMoving && movingObject == None
      ensures orthographicSize == cameraSize && playerPosition == player && goalPosition == goal
      ensures playerShouldMove == shouldMove
    {
      tileHandler := handler;
      mode := AddTile;
      isMoving := false;
      movingObject := None;
      orthographicSize := cameraSize;
      playerPosition := player;
      goalPosition := goal;
      playerShouldMove := shouldMove;
    }

    /** One scroll reading zooms by at most one unit; the bounds 15 and 60 are tested before the step. */
    method MapZoom(scroll: real)
      modifies this
      ensures orthographicSize == ZoomStep(old(orthographicSize), scroll)
      ensures mode == old(mode) && isMoving == old(isMoving) && movingObject == old(movingObject)
      ensures playerPosition == old(playerPosition) && goalPosition == old(goalPosition)
      ensures playerShouldMove == old(playerShouldMove)
    {
      if scroll > 0.0 {
        if orthographicSize > MinZoom {
          orthographicSize := orthographicSize - 1.0;
        }
      } else if scroll < 0.0 {
        if orthographicSize < MaxZoom {
          orthographicSize := orthographicSize + 1.0;
        }
      }
    }

    /**
     * A right click advances the mode by one and wraps past Move; the text
     * handed to the status display names the new mode.
     */
    method SwapMode(rightButtonDown: bool) returns (modeText: Option<string>)
      modifies this
      ensures mode == if rightButtonDown then NextMode(old(mode)) else old(mode)
      ensures modeText == if rightButtonDown then Some("Mode: " + ModeName(mode)) else None
      ensures isMoving == old(isMoving) && movingObject == old(movingObject)
      ensures orthographicSize == old(orthographicSize) && playerShouldMove == old(playerShouldMove)
      ensures playerPosition == old(playerPosition) && goalPosition == old(goalPosition)
    {
      modeText := None;
      if rightButtonDown {
        var next := Ordinal(mode) + 1;
        if next > Ordinal(Move) {
          mode := AddTile;
        } else {
          mode := ModeOfOrdinal(next);
        }
        modeText := Some("Mode: " + ModeName(mode));
      }
    }

    /** Put `obstacle` on the tile under the mouse unless the guards refuse. */
    method AddObstacle(hit: Option<Position>, obstacle: ObjectId)
      modifies tileHandler
      ensures tileHandler.occupiedTiles ==
        PlaceObstacle(old(tileHandler.occupiedTiles), MousePositionToTile(hit), ClosestTile(playerPosition), ClosestTile(goalPosition), obstacle)
    {
      var tile := MousePositionToTile(hit);
      if tileHandler.IsTileOccupied(tile) {
        return;
      }
      if ClosestTile(playerPosition) == tile || ClosestTile(goalPosition) == tile {
        return;
      }
      tileHandler.AddTile(tile, obstacle);
    }

    /** Free the tile under the mouse if it is occupied. */
    method RemoveObstacle(hit: Option<Position>)
      modifies tileHandler
      ensures var tile := MousePositionToTile(hit);
        tileHandler.occupiedTiles == if tile in old(tileHandler.occupiedTiles)
          then Removed(old(tileHandler.occupiedTiles), tile) else old(tileHandler.occupiedTiles)
    {
      var tile := MousePositionToTile(hit);
      if tileHandler.IsTileOccupied(tile) {
        tileHandler.RemoveTile(tile);
      }
    }

    /** The press: in Move mode a click on a "Moveable" object starts dragging it and stops the player. */
    method PressButton(b: Button, clicked: Option<Clicked>)
      requires Valid() && !(b.down && mode == Move && clicked.None?)
      modifies this
      ensures Valid()
      ensures View() == Pressed(old(View()), b, clicked)
      ensures orthographicSize == old(orthographicSize)
    {
      if b.down && mode == Move && clicked.value.tag == "Moveable" {
        isMoving := true;
        movingObject := Some(clicked.value.target);
        playerShouldMove := false;
      }
    }

    /** Holding the button: add, remove or drag according to the mode, then stop the player. */
    method HoldButton(b: Button, hit: Option<Position>, obstacle: ObjectId)
      requires Valid()
      modifies this, tileHandler
      ensures Valid()
      ensures View() == AfterHeld(old(View()), b, hit, obstacle)
      ensures orthographicSize == old(orthographicSize)
    {
      if b.held {
        match mode {
          case AddTile =>
            AddObstacle(hit, obstacle);
          case RemoveTile =>
            RemoveObstacle(hit);
          case Move =>
            if isMoving {
              var tile := MousePositionToTile(hit);
              match movingObject.value {
                case PlayerObject => playerPosition := DropPosition(tile);
                case GoalObject => goalPosition := DropPosition(tile);
                case OtherObject(_) =>
              }
            }
        }
        playerShouldMove := false;
      }
    }

    /** The release ends every drag. */
    method ReleaseButton(b: Button)
      requires Valid()
      modifies this
      ensures Valid()
      ensures View() == Released(old(View()), b)
      ensures orthographicSize == old(orthographicSize)
    {
      if b.up {
        isMoving := false;
        movingObject := None;
      }
    }

    /**
     * The left button's effect in one frame: press starts a drag in Move mode,
     * holding edits or drags according to the mode and stops the player, release
     * ends any drag. `fault` is the frame whose click in Move mode hit nothing.
     */
    method HandleModeAction(b: Button, clicked: Option<Clicked>, hit: Option<Position>, obstacle: ObjectId) returns (fault: bool)
      requires Valid()
      modifies this, tileHandler
      ensures Valid()
      ensures fault == ModeAction(old(View()), b, clicked, hit, obstacle).None?
      ensures View() == if fault then old(View()) else ModeAction(old(View()), b, clicked, hit, obstacle).value
      ensures orthographicSize == old(orthographicSize)
    {
      if b.down && mode == Move && clicked.None? {
        return true;
      }
      ghost var v0 := View();
      PressButton(b, clicked);
      ghost var v1 := View();
      HoldButton(b, hit, obstacle);
      ghost var v2 := View();
      ReleaseButton(b);
      assert View() == Released(v2, b);
      fault := false;
    }
  }
}
