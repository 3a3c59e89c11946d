/**
 * A generic two-dimensional grid lying on the world's X-Z plane: a dense
 * `width` x `height` array of cell objects, filled by a caller-supplied factory,
 * with bounds-checked reads and writes, a change notification per accepted
 * write, and conversions between cell indices and world positions.
 *
 * World positions and the cell size are integers in this model; with a positive
 * cell size Dafny's `/` rounds toward negative infinity, as `Mathf.FloorToInt`
 * of the quotient does.
 */
module Grids {

  datatype Option<T> = None | Some(value: T)

  /** A point in world space. Only `x` and `z` take part in cell lookups. */
  datatype Vector3 = Vector3(x: int, y: int, z: int)

  // ---------------------------------------------------------------------
  // The order in which nested x-outer, z-inner loops visit the cells.
  // ---------------------------------------------------------------------

  /** The cells (x, 0), ..., (x, n - 1): what the inner loop visits for one x. */
  function Column(x: int, n: nat): (r: seq<(int, int)>)
    ensures |r| == n
  {
    seq(n, k => (x, k))
  }

  lemma ColumnAt(x: int, n: nat, k: int)
    requires 0 <= k < n
    ensures Column(x, n)[k] == (x, k)
  {
  }

  lemma AppendAssoc<A>(a: seq<A>, b: seq<A>, c: seq<A>)
    ensures a + b + c == a + (b + c)
  {
  }

  /** The inner loop's visit log grows by one cell per step. */
  lemma ColumnSnoc(x: int, n: nat)
    ensures Column(x, n + 1) == Column(x, n) + [(x, n)]
  {
    assert forall k :: 0 <= k < n ==> Column(x, n + 1)[k] == Column(x, n)[k];
  }

  /** Every cell of the first `m` columns of a grid `height` cells tall, x-major then z. */
  function CellOrder(m: nat, height: nat): seq<(int, int)>
  {
    if m == 0 then [] else CellOrder(m - 1, height) + Column(m - 1, height)
  }

  /** There are m * height cells in m columns. */
  lemma {:induction false} CellOrderLength(m: nat, height: nat)
    ensures |CellOrder(m, height)| == m * height
  {
    if m > 0 {
      CellOrderLength(m - 1, height);
      assert m * height == (m - 1) * height + height;
    }
  }

  lemma {:induction false} MulMonotone(a: int, b: int, d: nat)
    requires a <= b
    ensures a * d <= b * d
  {
    if d > 0 {
      MulMonotone(a, b, d - 1);
      assert a * d == a * (d - 1) + a && b * d == b * (d - 1) + b;
    }
  }

  /** Floor division is characterised by the interval its quotient picks out. */
  lemma FloorDiv(k: int, d: int, q: int)
    requires d > 0
    ensures k / d == q <==> q * d <= k < q * d + d
  {
    var r := k / d;
    assert k == r * d + k % d && 0 <= k % d < d;
    if q * d <= k < q * d + d {
      if r < q {
        MulMonotone(r + 1, q, d);
        assert false;
      } else if r > q {
        MulMonotone(q + 1, r, d);
        assert false;
      }
    }
  }

  /** Cell (x, z) sits at position x * height + z of the enumeration. */
  lemma {:induction false} CellOrderAt(m: nat, height: nat, x: int, z: int)
    requires 0 <= x < m && 0 <= z < height
    ensures x * height + z < |CellOrder(m, height)|
    ensures CellOrder(m, height)[x * height + z] == (x, z)
  {
    CellOrderLength(m - 1, height);
    if x < m - 1 {
      CellOrderAt(m - 1, height, x, z);
    } else {
      assert x * height + z == (m - 1) * height + z;
      ColumnAt(x, height, z);
    }
  }

  /** A quotient lies in [0, n) exactly when the dividend lies in [0, n * d). */
  lemma QuotientInRange(k: int, d: int, n: int)
    requires d > 0
    ensures 0 <= k / d < n <==> 0 <= k < n * d
  {
    var q := k / d;
    FloorDiv(k, d, q);
    assert (q + 1) * d == q * d + d;
    if q < 0 {
      MulMonotone(q + 1, 0, d);
    } else {
      MulMonotone(0, q, d);
    }
    if q < n {
      MulMonotone(q + 1, n, d);
    } else {
      MulMonotone(n, q, d);
    }
  }

  /** Position k of the enumeration holds cell (k / height, k % height). */
  lemma CellOrderInverse(m: nat, height: nat, k: int)
    requires height > 0 && 0 <= k < |CellOrder(m, height)|
    ensures CellOrder(m, height)[k] == (k / height, k % height)
  {
    CellOrderLength(m, height);
    var q, r := k / height, k % height;
    assert k == q * height + r && 0 <= r < height;
    QuotientInRange(k, height, m);
    CellOrderAt(m, height, q, r);
  }

  /** No cell occurs twice in the enumeration. */
  lemma CellOrderDistinct(m: nat, height: nat, i: int, j: int)
    requires height > 0 && 0 <= i < |CellOrder(m, height)| && 0 <= j < |CellOrder(m, height)|
    requires CellOrder(m, height)[i] == CellOrder(m, height)[j]
    ensures i == j
  {
    CellOrderInverse(m, height, i);
    CellOrderInverse(m, height, j);
    var qi, ri, qj, rj := i / height, i % height, j / height, j % height;
    assert i == qi * height + ri;
    assert j == qj * height + rj;
  }

  // ---------------------------------------------------------------------
  // The grid.
  // ---------------------------------------------------------------------

  class GridXZ<T(0)> {
    /** Number of cells along X. */
    const width: nat
    /** Number of cells along Z. */
    const height: nat
    /** Side length of one square cell in world units. */
    const cellSize: int
    /** World position of the corner of cell (0, 0). */
    const origin: Vector3
    /** The cell objects, indexed [x, z]. */
    const cells: array2<T>
    /** Every OnGridObjectChanged notification fired so far, as its (x, z), in order. */
    var events: seq<(int, int)>
    /** The (x, z) arguments the cell factory was called with, in call order. */
    ghost const created: seq<(int, int)>

    ghost predicate Valid()
    {
      cellSize > 0 && cells.Length0 == width && cells.Length1 == height
    }

    predicate InRange(x: int, z: int)
    {
      x >= 0 && z >= 0 && x < width && z < height
    }

    constructor (width: nat, height: nat, cellSize: int, origin: Vector3, createGridObject: (int, int) -> T)
      requires cellSize > 0
      ensures Valid() && fresh(cells)
      ensures this.width == width && this.height == height
      ensures this.cellSize == cellSize && this.origin == origin
      ensures forall x, z :: 0 <= x < width && 0 <= z < height ==> cells[x, z] == createGridObject(x, z)
      ensures created == CellOrder(width, height)
      ensures events == []
    {
      var a := new T[width, height];
      ghost var calls: seq<(int, int)> := [];
      for x := 0 to a.Length0
        invariant calls == CellOrder(x, height)
        invariant forall i, j :: 0 <= i < x && 0 <= j < height ==> a[i, j] == createGridObject(i, j)
      {
        for z := 0 to a.Length1
          invariant calls == CellOrder(x, height) + Column(x, z)
          invariant forall i, j :: 0 <= i < x && 0 <= j < height ==> a[i, j] == createGridObject(i, j)
          invariant forall j :: 0 <= j < z ==> a[x, j] == createGridObject(x, j)
        {
          a[x, z] := createGridObject(x, z);
          calls := calls + [(x, z)];
        }
      }
      this.width := width;
      this.height := height;
      this.cellSize := cellSize;
      this.origin := origin;
      cells := a;
      created := calls;
      events := [];
    }

    function GetWidth(): nat { width }

    function GetHeight(): nat { height }

    function GetCellSize(): int { cellSize }

    /** The world position of the corner of cell (x, z). */
    function GetWorldPosition(x: int, z: int): (r: Vector3)
      ensures r.y == origin.y
    {
      Vector3(x * cellSize + origin.x, origin.y, z * cellSize + origin.z)
    }

    /** Whether the world position lies in the square of cell (x, z), corner included, far edges excluded. */
    predicate CellContains(x: int, z: int, worldPosition: Vector3)
    {
      var corner := GetWorldPosition(x, z);
      corner.x <= worldPosition.x < corner.x + cellSize &&
      corner.z <= worldPosition.z < corner.z + cellSize
    }

    /** Whether the world position lies in the rectangle the grid's cells cover. */
    predicate InsideWorld(worldPosition: Vector3)
    {
      origin.x <= worldPosition.x < origin.x + width * cellSize &&
      origin.z <= worldPosition.z < origin.z + height * cellSize
    }

    /** The cell whose square contains the world position; not clamped to the grid. */
    function GetXZ(worldPosition: Vector3): (r: (int, int))
      requires Valid()
      ensures CellContains(r.0, r.1, worldPosition)
    {
      var x := (worldPosition.x - origin.x) / cellSize;
      var z := (worldPosition.z - origin.z) / cellSize;
      FloorDiv(worldPosition.x - origin.x, cellSize, x);
      FloorDiv(worldPosition.z - origin.z, cellSize, z);
      (x, z)
    }

    /** A world position lies in exactly one cell, and that is the one GetXZ names. */
    lemma GetXZUnique(worldPosition: Vector3, x: int, z: int)
      requires Valid()
      ensures GetXZ(worldPosition) == (x, z) <==> CellContains(x, z, worldPosition)
    {
      FloorDiv(worldPosition.x - origin.x, cellSize, x);
      FloorDiv(worldPosition.z - origin.z, cellSize, z);
    }

    /** Converting a cell to its world position and back gives the cell again, for every integer cell. */
    lemma GetXZOfWorldPosition(x: int, z: int)
      requires Valid()
      ensures GetXZ(GetWorldPosition(x, z)) == (x, z)
    {
      GetXZUnique(GetWorldPosition(x, z), x, z);
    }

    /** The cell of a world position is on the grid exactly when the position is inside the grid's rectangle. */
    lemma GetXZInsideWorld(worldPosition: Vector3)
      requires Valid()
      ensures InRange(GetXZ(worldPosition).0, GetXZ(worldPosition).1) <==> InsideWorld(worldPosition)
    {
      QuotientInRange(worldPosition.x - origin.x, cellSize, width);
      QuotientInRange(worldPosition.z - origin.z, cellSize, height);
    }

    /** The cell at (x, z), or None (the type's default) when (x, z) is off the grid. */
    function GetGridObject(x: int, z: int): (r: Option<T>)
      requires Valid()
      reads cells
      ensures r.Some? <==> InRange(x, z)
      ensures r.Some? ==> r.value == cells[x, z]
    {
      if x >= 0 && z >= 0 && x < width && z < height then Some(cells[x, z]) else None
    }

    /** The cell containing a world position, or None when the position is outside the grid. */
    function GetGridObjectAt(worldPosition: Vector3): (r: Option<T>)
      requires Valid()
      reads cells
      ensures r.Some? <==> InsideWorld(worldPosition)
      ensures r.Some? ==> CellContains(GetXZ(worldPosition).0, GetXZ(worldPosition).1, worldPosition)
      ensures r == GetGridObject(GetXZ(worldPosition).0, GetXZ(worldPosition).1)
    {
      var (x, z) := GetXZ(worldPosition);
      GetXZInsideWorld(worldPosition);
      GetGridObject(x, z)
    }

    /** Fires the change notification for (x, z) without touching any cell; no bounds check. */
    method TriggerGridObjectChanged(x: int, z: int)
      modifies this`events
      ensures events == old(events) + [(x, z)]
    {
      events := events + [(x, z)];
    }

    /** Stores a value in cell (x, z) and notifies, or does nothing at all when (x, z) is off the grid. */
    method SetGridObject(x: int, z: int, value: T)
      requires Valid()
      modifies this`events, cells
      ensures InRange(x, z) ==> GetGridObject(x, z) == Some(value) && events == old(events) + [(x, z)]
      ensures !InRange(x, z) ==> events == old(events)
      ensures forall i, j :: InRange(i, j) && (i, j) != (x, z) ==> cells[i, j] == old(cells[i, j])
    {
      if x >= 0 && z >= 0 && x < width && z < height {
        cells[x, z] := value;
        TriggerGridObjectChanged(x, z);
      }
    }

    /** SetGridObject on the cell that contains the world position. */
    method SetGridObjectAt(worldPosition: Vector3, value: T)
      requires Valid()
      modifies this`events, cells
      ensures var (x, z) := GetXZ(worldPosition);
        (InsideWorld(worldPosition) ==> GetGridObject(x, z) == Some(value) && events == old(events) + [(x, z)]) &&
        (!InsideWorld(worldPosition) ==> events == old(events)) &&
        (forall i, j :: InRange(i, j) && (i, j) != (x, z) ==> cells[i, j] == old(cells[i, j]))
    {
      var (x, z) := GetXZ(worldPosition);
      GetXZInsideWorld(worldPosition);
      SetGridObject(x, z, value);
    }
  }
}
