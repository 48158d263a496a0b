/**
  The spatial hash of agent ids (Geometry/Primitives/UniformGrid.cs): a dictionary
  from grid cells to the lists of values added in them. The floating-point
  computation of a point's cell is a function the grid is given.
*/
module UniformGrids {

  type Cell = (int, int)

  /** The cell list stored for `key`, or the empty list `Get` returns for a missing cell. */
  function Lookup(grid: map<Cell, seq<int>>, key: Cell): seq<int>
  {
    if key in grid then grid[key] else []
  }

  /**
    The dictionary after adding `value` in cell `key`: that cell's list gains
    `value` at its end (a missing cell gets the list [value]); no other cell changes.
  */
  function Added(grid: map<Cell, seq<int>>, key: Cell, value: int): (r: map<Cell, seq<int>>)
    ensures key in r && r.Keys == grid.Keys + {key}
    ensures forall k :: k in grid && k != key ==> r[k] == grid[k]
  {
    if key in grid then grid[key := grid[key] + [value]] else grid[key := [value]]
  }

  /** Reading a cell just added to gives the old list (empty if none) with the value at its end. */
  lemma AddThenGet(grid: map<Cell, seq<int>>, key: Cell, value: int, other: Cell)
    ensures Lookup(Added(grid, key, value), key) == Lookup(grid, key) + [value]
    ensures other != key ==> Lookup(Added(grid, key, value), other) == Lookup(grid, other)
  {
  }

  /** Adding never removes anything: every cell's old list is a prefix of its new one. */
  lemma AddOnlyGrows(grid: map<Cell, seq<int>>, key: Cell, value: int, other: Cell)
    ensures Lookup(grid, other) <= Lookup(Added(grid, key, value), other)
    ensures |Lookup(Added(grid, key, value), other)| == |Lookup(grid, other)| + (if other == key then 1 else 0)
  {
  }

  /** `UniformGrid`: the cell dictionary is a field that `Add` updates in place. */
  class UniformGrid {
    /** The cell of a point: floor(x / cellWidth), floor(y / cellHeight) in the source. */
    const CellOf: (real, real) -> Cell
    var grid: map<Cell, seq<int>>

    constructor (cellOf: (real, real) -> Cell)
      ensures CellOf == cellOf && grid == map[]
    {
      CellOf := cellOf;
      grid := map[];
    }

    /** Appends `value` to the list of the cell holding (x, y), creating the list if the cell is new. */
    method Add(x: real, y: real, value: int)
      modifies this
      ensures grid == Added(old(grid), CellOf(x, y), value)
    {
      var key := CellOf(x, y);
      if key in grid {
        grid := grid[key := grid[key] + [value]];
      } else {
        grid := grid[key := [value]];
      }
    }

    /** The list of the cell holding (x, y), or an empty list; the grid is not changed. */
    method Get(x: real, y: real) returns (cellValue: seq<int>)
      ensures cellValue == Lookup(grid, CellOf(x, y))
      ensures CellOf(x, y) !in grid ==> cellValue == []
    {
      var key := CellOf(x, y);
      if key in grid {
        return grid[key];
      }
      return [];
    }
  }
}
