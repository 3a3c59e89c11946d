# GridXZ and the movement tilemap, in Dafny

This project models two cooperating classes of a Unity grid-combat prototype.

- **`GridXZ<TGridObject>`** (module `Grids`, `grid_xz.dfy`) is a dense
  `width` x `height` grid of cell objects on the world's X-Z plane.
  - The constructor fills every cell from a caller-supplied factory, x-outer and z-inner.
  - Reads and writes are bounds-checked. An off-grid read yields the type's default, and an off-grid write is ignored.
  - Every accepted write, and every explicit trigger, fires the `OnGridObjectChanged(x, z)` notification.
  - It converts between cell indices and world positions by multiplying, and by floor division.
- **`MovementTilemap`** (module `MovementTilemaps`, `movement_tilemap.dfy`) is a highlight
  overlay whose grid cells are `TilemapObject`s.
  - Each cell holds a `TilemapSprite` (`None` or `Move`) and knows its own grid and position.
  - A single cell can be set by index or by world position, and every cell can be set at once.
    Each change re-fires the grid's notification.
  - `Save` snapshots every cell as a record list, x-major then y.
  - `Load` writes records back without notifications and then fires `OnLoaded` once.

How the C# constructs are represented:
- Both classes are Dafny classes.
  - The cell array is an `array2`.
  - `width`, `height`, `cellSize` and the origin are `const` fields, because nothing reassigns them.
  - The sprite of a `TilemapObject` is a mutable field, changed in place through the shared cell object.
- `OnGridObjectChanged` is the field `events`, the log of every `(x, z)` notified, in order.
- `OnLoaded` is the counter `loadedEvents`.
- The grid's factory calls are logged in the ghost field `created`.
- `default(TGridObject)`, returned for an off-grid read, is `Option.None`.
- The tilemap's grid is a `GridXZ<TilemapObject?>`, so `null` is the cell type's default.
- `Column` and `CellOrder` describe the order in which the nested x/z loops visit the cells. This single enumeration serves three purposes:
  - it specifies the factory calls;
  - it specifies the notifications of `SetAllTilemapSprite`;
  - it specifies the record order of `Save`.
- `TilemapObject.GetTilemapSprite` and `TilemapObject.Save` are reading functions. The sprite the getter reports is the one a save records, and a save carries the cell's own position.
- `LoadedSprite` is the sprite a cell holds after a list of records has been loaded. Its properties are stated by the `LoadedSprite…` lemmas.
- `SetAllTilemapSprite`'s inner loop over y is the method `SetColumnTilemapSprite`. That keeps each loop's proof small.

World positions and the cell size are integers, and the cell size is positive. Dafny's `/` with a positive divisor rounds toward negative infinity, which is what `Mathf.FloorToInt` of the float quotient does.

`GetWorldPosition` returns the origin's `y` as the `y` component: it computes `(x, 0, z) * cellSize + originPosition`. The position's `y` is therefore 0 only when the origin's is. The model follows the code.

## Model

| member | source | states |
|---|---|---|
| Grids.CellOrderLength | Assets/_/Stuff/Videos/Grid/GridXZ.cs:53-57 | The x-outer, z-inner loops visit exactly width * height cells. |
| Grids.CellOrderAt | Assets/_/Stuff/Videos/Grid/GridXZ.cs:53-57 | Cell (x, z) of the grid is visited, and it is visited at step x * height + z. |
| Grids.CellOrderInverse | Assets/_/Stuff/Videos/Grid/GridXZ.cs:53-57 | Step k of the visit order is cell (k / height, k % height), so every step visits a cell of the grid. |
| Grids.CellOrderDistinct | Assets/_/Stuff/Videos/Grid/GridXZ.cs:53-57 | No cell is visited twice. Together with CellOrderAt, each cell is visited exactly once. |
| Grids.FloorDiv | Assets/_/Stuff/Videos/Grid/GridXZ.cs:118-119 | The floored quotient of k by a positive d is the unique q with q * d <= k < q * d + d. |
| Grids.QuotientInRange | Assets/_/Stuff/Videos/Grid/GridXZ.cs:118-119 | A floored quotient lies in [0, n) exactly when the dividend lies in [0, n * d). |
| Grids.GridXZ.constructor | Assets/_/Stuff/Videos/Grid/GridXZ.cs:45-57 | Fields take the arguments, and every cell (x, z) holds createGridObject(x, z). The factory is called once per cell, x-outer then z-inner. No notification is fired. |
| Grids.GridXZ.GetWorldPosition | Assets/_/Stuff/Videos/Grid/GridXZ.cs:107-109 | The y component is the origin's y, whatever the cell. Its inverse partner is GetXZOfWorldPosition. |
| Grids.GridXZ.GetXZ | Assets/_/Stuff/Videos/Grid/GridXZ.cs:117-120 | The returned cell's square contains the world position, corner included and far edges excluded, even when the cell is off the grid. |
| Grids.GridXZ.GetXZUnique | Assets/_/Stuff/Videos/Grid/GridXZ.cs:117-120 | GetXZ names (x, z) if and only if the square of (x, z) contains the position, so every position lies in exactly one cell. |
| Grids.GridXZ.GetXZOfWorldPosition | Assets/_/Stuff/Videos/Grid/GridXZ.cs:107-120 | For every integer cell, converting it to its world position and back gives the same cell. |
| Grids.GridXZ.GetXZInsideWorld | Assets/_/Stuff/Videos/Grid/GridXZ.cs:117-120 | The cell of a position passes the grid's bounds check if and only if the position lies in the rectangle the grid covers. |
| Grids.GridXZ.GetGridObject | Assets/_/Stuff/Videos/Grid/GridXZ.cs:159-165 | Returns a value if and only if (x, z) is on the grid, and that value is the stored cell. Off the grid it returns the default. |
| Grids.GridXZ.GetGridObjectAt | Assets/_/Stuff/Videos/Grid/GridXZ.cs:171-175 | Behaves as the index read at GetXZ(position). It returns a value exactly when the position is inside the grid, and the value's cell contains the position. |
| Grids.GridXZ.TriggerGridObjectChanged | Assets/_/Stuff/Videos/Grid/GridXZ.cs:141-143 | Appends exactly the one notification (x, z), with no bounds check, and changes no cell. |
| Grids.GridXZ.SetGridObject | Assets/_/Stuff/Videos/Grid/GridXZ.cs:128-134 | On the grid: a later read of (x, z) returns the value, and exactly one notification (x, z) is appended. Off the grid: no notification. Either way, every other cell keeps its object. |
| Grids.GridXZ.SetGridObjectAt | Assets/_/Stuff/Videos/Grid/GridXZ.cs:149-152 | Acts as the index write at GetXZ(position). Inside the grid, the cell is written and notified. Outside, nothing is notified. Every other cell is kept. |
| MovementTilemaps.LoadedSpriteUnaddressed | Assets/GridCombatSystem/Scripts/MovementTilemap.cs:91-94 | A cell that no loaded record addresses keeps the sprite it held. |
| MovementTilemaps.LoadedSpriteAddressed | Assets/GridCombatSystem/Scripts/MovementTilemap.cs:91-94 | A cell that some loaded record addresses ends with a sprite carried by one of the records addressed to it, never just by keeping its old sprite. |
| MovementTilemaps.LoadedSpriteLastWins | Assets/GridCombatSystem/Scripts/MovementTilemap.cs:91-94 | Each record overwrites the one before, so the last record addressed to a cell decides its sprite. |
| MovementTilemaps.LoadedSpriteOfAgreeingRecords | Assets/GridCombatSystem/Scripts/MovementTilemap.cs:91-94 | If at least one record addresses a cell, and all records that address it carry the same sprite, loading leaves that sprite in the cell whatever it held before. |
| MovementTilemaps.LoadedSpriteOfSnapshot | Assets/GridCombatSystem/Scripts/MovementTilemap.cs:75-94 | Loading records laid out in the grid's x-major order gives every cell of the grid the sprite its own record carries. |
| MovementTilemaps.TilemapObject.constructor | Assets/GridCombatSystem/Scripts/MovementTilemap.cs:128-132 | The cell keeps its grid and position, and starts at TilemapSprite.None, the enum's first member. |
| MovementTilemaps.TilemapObject.GetTilemapSprite | Assets/GridCombatSystem/Scripts/MovementTilemap.cs:145-147 | The sprite the cell reports is the sprite its save records. |
| MovementTilemaps.TilemapObject.Save | Assets/GridCombatSystem/Scripts/MovementTilemap.cs:164-170 | The record carries the cell's own fixed position. Its sprite is the one GetTilemapSprite reports, and TilemapObject.Load of it changes nothing. |
| MovementTilemaps.TilemapObject.SetTilemapSprite | Assets/GridCombatSystem/Scripts/MovementTilemap.cs:137-140 | The sprite becomes the argument, and exactly one notification, for the cell's own (x, y), is appended to its grid. |
| MovementTilemaps.TilemapObject.Load | Assets/GridCombatSystem/Scripts/MovementTilemap.cs:172-174 | Only the sprite is taken from the record, so saving afterwards gives the record's sprite at the cell's own position. Loading the cell's own saved record changes nothing. |
| MovementTilemaps.MovementTilemap.constructor | Assets/GridCombatSystem/Scripts/MovementTilemap.cs:24-26 | Builds a fresh grid of the given size. Every cell holds its own TilemapObject, which knows this grid and its position and has sprite None. No notification has been fired. |
| MovementTilemaps.MovementTilemap.SetTilemapSprite | Assets/GridCombatSystem/Scripts/MovementTilemap.cs:44-49 | On the grid, that cell's sprite becomes s and exactly one notification (x, y) is appended. Off the grid, nothing is notified. Every other cell's sprite is unchanged. |
| MovementTilemaps.MovementTilemap.SetTilemapSpriteAt | Assets/GridCombatSystem/Scripts/MovementTilemap.cs:32-37 | Acts as the index overload at GetXZ(position). The cell is on the grid exactly when the position is inside it. Outside, nothing changes and nothing is notified. |
| MovementTilemaps.MovementTilemap.SetAllTilemapSprite | Assets/GridCombatSystem/Scripts/MovementTilemap.cs:54-60 | Every cell ends with sprite s. The notifications appended are exactly one per cell, in x-major then y order. |
| MovementTilemaps.MovementTilemap.SetColumnTilemapSprite | Assets/GridCombatSystem/Scripts/MovementTilemap.cs:56-58 | One pass of the inner loop. Every cell of column x ends with sprite s, and every cell of the other columns keeps its sprite. The notifications appended are exactly (x, 0), ..., (x, height - 1), in order. |
| MovementTilemaps.MovementTilemap.Save | Assets/GridCombatSystem/Scripts/MovementTilemap.cs:75-84 | Produces width * height records in x-major then y order. Record x * height + y is cell (x, y)'s own save: its position and current sprite. Saving changes nothing. |
| MovementTilemaps.MovementTilemap.LoadablePrefix | Assets/GridCombatSystem/Scripts/MovementTilemap.cs:91-93 | Counts the leading records that address a cell of the grid. The record after them, if any, is off the grid. |
| MovementTilemaps.MovementTilemap.Load | Assets/GridCombatSystem/Scripts/MovementTilemap.cs:89-96 | Succeeds exactly when every record addresses a cell on the grid. Each cell ends with the sprite of the last applied record addressed to it, or keeps its sprite if none is addressed to it. OnLoaded fires exactly once on success and not on failure. No change notification is fired either way. |
| MovementTilemaps.SaveChangeAllLoad | Assets/GridCombatSystem/Scripts/MovementTilemap.cs:75-96 | Save, then SetAllTilemapSprite, then Load of the saved records: the load succeeds and every cell is back at its sprite from the time of saving. |

## Left out

- Floating point: `cellSize` and world positions are integers, and `GetWorldPosition`/`GetXZ` use exact integer arithmetic. Float rounding in the product and the quotient is not modelled.
- Grids.GridXZ.constructor:
  - It requires `cellSize > 0`, which is a modelling choice. The source accepts any float. A negative size gives a mirrored grid on which the conversions still round-trip. A zero size divides by zero. Neither is modelled.
  - Its dimensions are `nat`. The source's negative array dimension throws an exception, and that path is not modelled.
- Grids.GridXZ.constructor: the factory receives only `(x, z)`, not the partly built grid. The factory cannot reach the grid's cells or events while it runs.
- MovementTilemaps.MovementTilemap.constructor: Dafny functions cannot allocate, so the grid is built with a factory that yields `null`. A fresh `TilemapObject(grid, x, y)` is then stored in every cell, in the same x-outer, y-inner order. No notification is fired, as in the source.
- MovementTilemaps.MovementTilemap.Load:
  - The source dereferences the `null` cell of an off-grid record and throws `NullReferenceException`. The model returns `false` at that record instead.
  - It takes the record list as a parameter. Reading the most recent save through `SaveSystem`, and the missing-save case, are not modelled.
- MovementTilemaps.MovementTilemap.Save returns the record list. Writing it through `SaveSystem.SaveObject` is file persistence and is not modelled.
- Event subscribers: `OnGridObjectChanged` and `OnLoaded` are an append-only log and a counter. Handlers, and any re-entrant calls they could make, are not modelled.
- The `showDebug` branch of the grid constructor is dead code (the flag is the constant `false`): it draws debug text and lines.
- `SetTilemapVisual` hands the grid to rendering code, and `MovementTilemapVisual` is not part of this model.
- The `ToString` overrides only produce display text.
- The scene script that drives the overlay, and the camera-facing behaviour, are input and presentation code outside the grid and the overlay.
- `GetWidth`, `GetHeight` and `GetCellSize` are modelled as reads of `const` fields. That no operation changes them holds by construction, and they carry no contract of their own.
