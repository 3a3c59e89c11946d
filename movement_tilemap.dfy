/**
 * The movement highlight overlay: a GridXZ whose cells are TilemapObjects, each
 * holding a TilemapSprite, with single-cell and whole-grid updates that re-fire
 * the grid's change notification, and a save/load of every cell's sprite as an
 * ordered list of records followed by one OnLoaded notification.
 */
module MovementTilemaps {
  import Grids

  /** The highlight of one cell; None is the first member and so every cell's initial value. */
  datatype TilemapSprite = None | Move

  /** What one cell saves: its sprite and its own grid position. */
  datatype SaveObject = SaveObject(tilemapSprite: TilemapSprite, x: int, y: int)

  /**
   * The sprite of cell (x, y) after `records` have been loaded, in order, into a
   * cell that held `before`: the last record addressed to (x, y) wins.
   */
  function LoadedSprite(records: seq<SaveObject>, x: int, y: int, before: TilemapSprite): TilemapSprite
  {
    if records == [] then before
    else
      var last := records[|records| - 1];
      if last.x == x && last.y == y then last.tilemapSprite
      else LoadedSprite(records[..|records| - 1], x, y, before)
  }

  /** A cell that no record addresses keeps the sprite it held. */
  lemma {:induction false} LoadedSpriteUnaddressed(records: seq<SaveObject>, x: int, y: int, before: TilemapSprite)
    requires forall k :: 0 <= k < |records| ==> !(records[k].x == x && records[k].y == y)
    ensures LoadedSprite(records, x, y, before) == before
  {
    if records != [] {
      var prefix := records[..|records| - 1];
      forall k | 0 <= k < |prefix|
        ensures !(prefix[k].x == x && prefix[k].y == y)
      {
        assert prefix[k] == records[k];
      }
      LoadedSpriteUnaddressed(prefix, x, y, before);
    }
  }

  /** A cell that some record addresses ends with the sprite of one of the records addressed to it. */
  lemma {:induction false} LoadedSpriteAddressed(records: seq<SaveObject>, x: int, y: int, before: TilemapSprite)
    requires exists k :: 0 <= k < |records| && records[k].x == x && records[k].y == y
    ensures exists k :: (0 <= k < |records| && records[k].x == x && records[k].y == y &&
                         records[k].tilemapSprite == LoadedSprite(records, x, y, before))
  {
    var n := |records|;
    if !(records[n - 1].x == x && records[n - 1].y == y) {
      var k :| 0 <= k < n && records[k].x == x && records[k].y == y;
      var prefix := records[..n - 1];
      assert prefix[k] == records[k];
      LoadedSpriteAddressed(prefix, x, y, before);
      var j :| 0 <= j < |prefix| && prefix[j].x == x && prefix[j].y == y &&
        prefix[j].tilemapSprite == LoadedSprite(prefix, x, y, before);
      assert records[j] == prefix[j];
    }
  }

  /** The last record addressed to (x, y) decides the cell's sprite, whatever came before it. */
  lemma {:induction false} LoadedSpriteLastWins(records: seq<SaveObject>, x: int, y: int, before: TilemapSprite, k: int)
    requires 0 <= k < |records| && records[k].x == x && records[k].y == y
    requires forall j :: k < j < |records| ==> !(records[j].x == x && records[j].y == y)
    ensures LoadedSprite(records, x, y, before) == records[k].tilemapSprite
  {
    var n := |records|;
    if k < n - 1 {
      var prefix := records[..n - 1];
      assert prefix[k] == records[k];
      forall j | k < j < |prefix|
        ensures !(prefix[j].x == x && prefix[j].y == y)
      {
        assert prefix[j] == records[j];
      }
      LoadedSpriteLastWins(prefix, x, y, before, k);
    }
  }

  /**
   * Loading records that address (x, y) at least once, always with sprite s,
   * leaves s in cell (x, y) whatever it held before.
   */
  lemma {:induction false} LoadedSpriteOfAgreeingRecords(records: seq<SaveObject>, x: int, y: int, before: TilemapSprite, s: TilemapSprite)
    requires exists k :: 0 <= k < |records| && records[k].x == x && records[k].y == y
    requires forall k :: 0 <= k < |records| && records[k].x == x && records[k].y == y ==> records[k].tilemapSprite == s
    ensures LoadedSprite(records, x, y, before) == s
  {
    var n := |records|;
    var last := records[n - 1];
    if !(last.x == x && last.y == y) {
      var k :| 0 <= k < n && records[k].x == x && records[k].y == y;
      var prefix := records[..n - 1];
      assert prefix[k].x == x && prefix[k].y == y;
      forall j | 0 <= j < |prefix| && prefix[j].x == x && prefix[j].y == y
        ensures prefix[j].tilemapSprite == s
      {
        assert prefix[j] == records[j];
      }
      LoadedSpriteOfAgreeingRecords(prefix, x, y, before, s);
    }
  }

  /**
   * Loading a snapshot whose records follow the grid's x-major enumeration gives
   * every cell of the grid the sprite its own record carries.
   */
  lemma LoadedSpriteOfSnapshot(records: seq<SaveObject>, width: nat, height: nat, x: int, y: int, before: TilemapSprite, s: TilemapSprite)
    requires |records| == |Grids.CellOrder(width, height)|
    requires forall k :: 0 <= k < |records| ==> (records[k].x, records[k].y) == Grids.CellOrder(width, height)[k]
    requires 0 <= x < width && 0 <= y < height
    requires forall k :: 0 <= k < |records| && records[k].x == x && records[k].y == y ==> records[k].tilemapSprite == s
    ensures LoadedSprite(records, x, y, before) == s
  {
    Grids.CellOrderAt(width, height, x, y);
    var k := x * height + y;
    assert records[k].x == x && records[k].y == y;
    LoadedSpriteOfAgreeingRecords(records, x, y, before, s);
  }

  /** One cell of the overlay. Its grid and position are fixed; its sprite is changed in place. */
  class TilemapObject {
    const grid: Grids.GridXZ<TilemapObject?>
    const x: int
    const y: int
    var tilemapSprite: TilemapSprite

    constructor (grid: Grids.GridXZ<TilemapObject?>, x: int, y: int)
      ensures this.grid == grid && this.x == x && this.y == y
      ensures tilemapSprite == TilemapSprite.None
    {
      this.grid := grid;
      this.x := x;
      this.y := y;
      tilemapSprite := TilemapSprite.None;
    }

    /** Changes the sprite and fires the grid's change notification for this cell's own position. */
    method SetTilemapSprite(tilemapSprite: TilemapSprite)
      modifies this`tilemapSprite, grid`events
      ensures this.tilemapSprite == tilemapSprite
      ensures grid.events == old(grid.events) + [(x, y)]
    {
      this.tilemapSprite := tilemapSprite;
      grid.TriggerGridObjectChanged(x, y);
    }

    /** The sprite the cell reports is the one a save of the cell records. */
    function GetTilemapSprite(): (r: TilemapSprite)
      reads this
      ensures r == Save().tilemapSprite
    {
      tilemapSprite
    }

    /** A save records the cell's own fixed position. */
    function Save(): (r: SaveObject)
      reads this
      ensures r.x == x && r.y == y
    {
      SaveObject(tilemapSprite, x, y)
    }

    /** Takes the record's sprite; its coordinates are ignored and no notification is fired. */
    method Load(saveObject: SaveObject)
      modifies this`tilemapSprite
      ensures tilemapSprite == saveObject.tilemapSprite
      ensures Save() == SaveObject(saveObject.tilemapSprite, x, y)
      ensures saveObject == old(Save()) ==> Save() == old(Save())
    {
      tilemapSprite := saveObject.tilemapSprite;
    }
  }

  class MovementTilemap {
    const grid: Grids.GridXZ<TilemapObject?>
    /** Number of OnLoaded notifications fired so far. */
    var loadedEvents: nat

    /** The cell objects: everything the overlay's operations may change besides the grid's notifications. */
    ghost const tiles: set<TilemapObject>

    /** Every cell holds its own TilemapObject, which knows this grid and its position. */
    ghost predicate Valid()
      reads grid.cells
    {
      grid.Valid() &&
      forall x, y :: 0 <= x < grid.width && 0 <= y < grid.height ==>
        grid.cells[x, y] != null && grid.cells[x, y] in tiles && grid.cells[x, y].grid == grid &&
        grid.cells[x, y].x == x && grid.cells[x, y].y == y
    }

    /**
     * Builds the grid and gives every cell a fresh TilemapObject(grid, x, y) with
     * sprite None, visiting the cells x-outer, y-inner; no notification is fired.
     */
    constructor (width: nat, height: nat, cellSize: int, originPosition: Grids.Vector3)
      requires cellSize > 0
      ensures Valid() && fresh(grid) && fresh(grid.cells) && fresh(tiles)
      ensures grid.width == width && grid.height == height
      ensures grid.cellSize == cellSize && grid.origin == originPosition
      ensures forall x, y :: grid.InRange(x, y) ==> grid.cells[x, y].tilemapSprite == TilemapSprite.None
      ensures grid.events == [] && loadedEvents == 0
    {
      var g := new Grids.GridXZ<TilemapObject?>(width, height, cellSize, originPosition, (x, z) => null);
      ghost var made: set<TilemapObject> := {};
      for x := 0 to width
        invariant fresh(made)
        invariant forall i, j :: 0 <= i < x && 0 <= j < height ==>
          g.cells[i, j] != null && g.cells[i, j] in made && g.cells[i, j].grid == g &&
          g.cells[i, j].x == i && g.cells[i, j].y == j && g.cells[i, j].tilemapSprite == TilemapSprite.None
        invariant g.events == []
      {
        for y := 0 to height
          invariant fresh(made)
          invariant forall i, j :: (0 <= i < x && 0 <= j < height) || (i == x && 0 <= j < y) ==>
            g.cells[i, j] != null && g.cells[i, j] in made && g.cells[i, j].grid == g &&
            g.cells[i, j].x == i && g.cells[i, j].y == j && g.cells[i, j].tilemapSprite == TilemapSprite.None
          invariant g.events == []
        {
          var tilemapObject := new TilemapObject(g, x, y);
          g.cells[x, y] := tilemapObject;
          made := made + {tilemapObject};
        }
      }
      grid := g;
      tiles := made;
      loadedEvents := 0;
    }

    /** Sets the sprite of cell (x, y); off the grid nothing changes and nothing is fired. */
    method SetTilemapSprite(x: int, y: int, tilemapSprite: TilemapSprite)
      requires Valid()
      modifies grid`events, tiles
      ensures Valid()
      ensures grid.InRange(x, y) ==> grid.cells[x, y].tilemapSprite == tilemapSprite
      ensures grid.InRange(x, y) ==> grid.events == old(grid.events) + [(x, y)]
      ensures !grid.InRange(x, y) ==> grid.events == old(grid.events)
      ensures forall i, j :: grid.InRange(i, j) && (i, j) != (x, y) ==>
        grid.cells[i, j].tilemapSprite == old(grid.cells[i, j].tilemapSprite)
    {
      var tilemapObject := grid.GetGridObject(x, y);
      if tilemapObject.Some? && tilemapObject.value != null {
        tilemapObject.value.SetTilemapSprite(tilemapSprite);
      }
    }

    /** Sets the sprite of the cell containing a world position; outside the grid nothing changes. */
    method SetTilemapSpriteAt(worldPosition: Grids.Vector3, tilemapSprite: TilemapSprite)
      requires Valid()
      modifies grid`events, tiles
      ensures Valid()
      ensures var (x, y) := grid.GetXZ(worldPosition);
        (grid.InRange(x, y) <==> grid.InsideWorld(worldPosition)) &&
        (grid.InRange(x, y) ==>
          grid.cells[x, y].tilemapSprite == tilemapSprite && grid.events == old(grid.events) + [(x, y)]) &&
        (!grid.InRange(x, y) ==> grid.events == old(grid.events)) &&
        (forall i, j :: grid.InRange(i, j) && (i, j) != (x, y) ==>
          grid.cells[i, j].tilemapSprite == old(grid.cells[i, j].tilemapSprite))
    {
      ghost var (x, y) := grid.GetXZ(worldPosition);
      grid.GetXZInsideWorld(worldPosition);
      var tilemapObject := grid.GetGridObjectAt(worldPosition);
      assert tilemapObject == grid.GetGridObject(x, y);
      if tilemapObject.Some? && tilemapObject.value != null {
        tilemapObject.value.SetTilemapSprite(tilemapSprite);
      }
    }

    /** Sets every cell's sprite, one cell and one notification at a time, x-outer, y-inner. */
    method SetAllTilemapSprite(tilemapSprite: TilemapSprite)
      requires Valid()
      modifies grid`events, tiles
      ensures Valid()
      ensures forall i, j :: grid.InRange(i, j) ==> grid.cells[i, j].tilemapSprite == tilemapSprite
      ensures grid.events == old(grid.events) + Grids.CellOrder(grid.width, grid.height)
    {
      var x := 0;
      while x < grid.GetWidth()
        invariant 0 <= x <= grid.width && Valid()
        invariant forall i, j :: grid.InRange(i, j) && i < x ==> grid.cells[i, j].tilemapSprite == tilemapSprite
        invariant grid.events == old(grid.events) + Grids.CellOrder(x, grid.height)
      {
        SetColumnTilemapSprite(x, tilemapSprite);
        Grids.AppendAssoc(old(grid.events), Grids.CellOrder(x, grid.height), Grids.Column(x, grid.height));
        x := x + 1;
      }
    }

    /** The inner loop of SetAllTilemapSprite: sets the cells of column x in order of y. */
    method SetColumnTilemapSprite(x: int, tilemapSprite: TilemapSprite)
      requires Valid() && 0 <= x < grid.width
      modifies grid`events, tiles
      ensures Valid()
      ensures forall j :: 0 <= j < grid.height ==> grid.cells[x, j].tilemapSprite == tilemapSprite
      ensures forall i, j :: grid.InRange(i, j) && i != x ==>
        grid.cells[i, j].tilemapSprite == old(grid.cells[i, j].tilemapSprite)
      ensures grid.events == old(grid.events) + Grids.Column(x, grid.height)
    {
      var y := 0;
      while y < grid.GetHeight()
        invariant 0 <= y <= grid.height
        invariant forall i, j :: grid.InRange(i, j) && i != x ==>
          grid.cells[i, j].tilemapSprite == old(grid.cells[i, j].tilemapSprite)
        invariant forall j :: 0 <= j < y ==> grid.cells[x, j].tilemapSprite == tilemapSprite
        invariant grid.events == old(grid.events) + Grids.Column(x, y)
      {
        SetTilemapSprite(x, y, tilemapSprite);
        Grids.ColumnSnoc(x, y);
        Grids.AppendAssoc(old(grid.events), Grids.Column(x, y), [(x, y)]);
        y := y + 1;
      }
    }

    /**
     * One record per cell, x-major then y: record x * height + y carries (x, y)
     * and the sprite that cell holds. Nothing changes and nothing is fired.
     */
    method Save() returns (records: seq<SaveObject>)
      requires Valid()
      ensures |records| == |Grids.CellOrder(grid.width, grid.height)| == grid.width * grid.height
      ensures forall k :: 0 <= k < |records| ==>
        (records[k].x, records[k].y) == Grids.CellOrder(grid.width, grid.height)[k]
      ensures forall k :: 0 <= k < |records| ==>
        grid.InRange(records[k].x, records[k].y) &&
        records[k].tilemapSprite == grid.cells[records[k].x, records[k].y].tilemapSprite
      ensures forall x, y :: grid.InRange(x, y) ==>
        x * grid.height + y < |records| && records[x * grid.height + y] == grid.cells[x, y].Save()
    {
      var list: seq<SaveObject> := [];
      ghost var order: seq<(int, int)> := [];
      var x := 0;
      while x < grid.GetWidth()
        invariant 0 <= x <= grid.width
        invariant order == Grids.CellOrder(x, grid.height)
        invariant |list| == |order|
        invariant forall k :: 0 <= k < |list| ==>
          (list[k].x, list[k].y) == order[k] && grid.InRange(list[k].x, list[k].y) &&
          list[k].tilemapSprite == grid.cells[list[k].x, list[k].y].tilemapSprite
      {
        var y := 0;
        while y < grid.GetHeight()
          invariant 0 <= y <= grid.height
          invariant order == Grids.CellOrder(x, grid.height) + Grids.Column(x, y)
          invariant |list| == |order|
          invariant forall k :: 0 <= k < |list| ==>
            (list[k].x, list[k].y) == order[k] && grid.InRange(list[k].x, list[k].y) &&
            list[k].tilemapSprite == grid.cells[list[k].x, list[k].y].tilemapSprite
        {
          var tilemapObject := grid.GetGridObject(x, y);
          list := list + [tilemapObject.value.Save()];
          order := order + [(x, y)];
          y := y + 1;
        }
        x := x + 1;
      }
      records := list;
      Grids.CellOrderLength(grid.width, grid.height);
      forall x, y | grid.InRange(x, y)
        ensures x * grid.height + y < |records| && records[x * grid.height + y] == grid.cells[x, y].Save()
      {
        Grids.CellOrderAt(grid.width, grid.height, x, y);
      }
    }

    /** The number of leading records that address a cell of the grid. */
    function LoadablePrefix(records: seq<SaveObject>): (k: nat)
      ensures k <= |records|
      ensures forall i :: 0 <= i < k ==> grid.InRange(records[i].x, records[i].y)
      ensures k < |records| ==> !grid.InRange(records[k].x, records[k].y)
    {
      if records == [] || !grid.InRange(records[0].x, records[0].y) then 0
      else 1 + LoadablePrefix(records[1..])
    }

    /**
     * Applies the records in order, then fires OnLoaded once. A record off the
     * grid stops the load there (the source dereferences a null cell): the records
     * before it stay applied, OnLoaded is not fired and `loaded` is false.
     * No change notification is fired either way.
     */
    method Load(records: seq<SaveObject>) returns (loaded: bool)
      requires Valid()
      modifies this`loadedEvents, tiles
      ensures Valid()
      ensures loaded <==> LoadablePrefix(records) == |records|
      ensures forall x, y :: grid.InRange(x, y) ==>
        grid.cells[x, y].tilemapSprite ==
          LoadedSprite(records[..LoadablePrefix(records)], x, y, old(grid.cells[x, y].tilemapSprite))
      ensures loadedEvents == old(loadedEvents) + (if loaded then 1 else 0)
      ensures grid.events == old(grid.events)
    {
      var i := 0;
      while i < |records|
        invariant 0 <= i <= |records| && Valid()
        invariant forall j :: 0 <= j < i ==> grid.InRange(records[j].x, records[j].y)
        invariant forall x, y :: grid.InRange(x, y) ==>
          grid.cells[x, y].tilemapSprite == LoadedSprite(records[..i], x, y, old(grid.cells[x, y].tilemapSprite))
        invariant loadedEvents == old(loadedEvents)
      {
        var tilemapObjectSaveObject := records[i];
        var tilemapObject := grid.GetGridObject(tilemapObjectSaveObject.x, tilemapObjectSaveObject.y);
        if tilemapObject.None? {
          assert LoadablePrefix(records) == i;
          return false;
        }
        tilemapObject.value.Load(tilemapObjectSaveObject);
        assert records[..i + 1][..i] == records[..i];
        i := i + 1;
      }
      assert records[..|records|] == records;
      loadedEvents := loadedEvents + 1;
      loaded := true;
    }
  }

  /**
   * Saving, then changing every cell, then loading what was saved brings back
   * every cell's sprite as it was at the save.
   */
  method SaveChangeAllLoad(tilemap: MovementTilemap, tilemapSprite: TilemapSprite) returns (loaded: bool)
    requires tilemap.Valid()
    modifies tilemap`loadedEvents, tilemap.grid`events, tilemap.tiles
    ensures tilemap.Valid() && loaded
    ensures forall x, y :: tilemap.grid.InRange(x, y) ==>
      tilemap.grid.cells[x, y].tilemapSprite == old(tilemap.grid.cells[x, y].tilemapSprite)
  {
    var records := tilemap.Save();
    assert forall k :: 0 <= k < |records| ==>
      tilemap.grid.InRange(records[k].x, records[k].y) &&
      records[k].tilemapSprite == old(tilemap.grid.cells[records[k].x, records[k].y].tilemapSprite);
    tilemap.SetAllTilemapSprite(tilemapSprite);
    loaded := tilemap.Load(records);
    assert records[..|records|] == records;
    forall x, y | tilemap.grid.InRange(x, y)
      ensures tilemap.grid.cells[x, y].tilemapSprite == old(tilemap.grid.cells[x, y].tilemapSprite)
    {
      LoadedSpriteOfSnapshot(records, tilemap.grid.width, tilemap.grid.height, x, y, tilemapSprite,
        old(tilemap.grid.cells[x, y].tilemapSprite));
    }
  }
}
