/** Shared value types of the path finder: grid cells, real-valued points
    and the two barrier oracles of the map. */
module Grid {

  datatype Option<T> = None | Some(value: T)

  /** A grid cell, the value the source keeps in an XNA `Point`. */
  datatype Cell = Cell(x: int, y: int)

  /** A point with exact real coordinates, standing for an XNA `Vector2`. */
  datatype Vec = Vec(x: real, y: real)

  /** The map's barrier lookups: static and dynamic barrier membership. */
  datatype Barriers = Barriers(isStatic: Cell -> bool, isDynamic: Cell -> bool)

  /** The grid is 100 by 100 cells, 0..99 on each axis. */
  const GridMax: int := 99

  /** World units per cell. */
  const CellSize: int := 32

  predicate InGrid(c: Cell) {
    0 <= c.x <= GridMax && 0 <= c.y <= GridMax
  }

  /** A cell is impassable if either barrier set contains it. */
  predicate Blocked(m: Barriers, c: Cell) {
    m.isStatic(c) || m.isDynamic(c)
  }

  function Abs(n: int): (r: nat)
    ensures r == n || r == -n
  {
    if n < 0 then -n else n
  }

  /** Two cells are 4-neighbours: they differ by exactly 1 in exactly one coordinate. */
  predicate Adjacent(a: Cell, b: Cell) {
    (a.x == b.x && (a.y == b.y + 1 || b.y == a.y + 1)) || (a.y == b.y && (a.x == b.x + 1 || b.x == a.x + 1))
  }

  /** The world position of a cell's corner, `cell * 32`. */
  function Scale(c: Cell): Vec {
    Vec((c.x * CellSize) as real, (c.y * CellSize) as real)
  }

  /** Dividing a waypoint by the cell size gives back its cell. */
  lemma CellOfScale(c: Cell)
    ensures Scale(c).x / CellSize as real == c.x as real && Scale(c).y / CellSize as real == c.y as real
  {
  }

  /** Distinct cells have distinct waypoints. */
  lemma ScaleInjective(a: Cell, b: Cell)
    ensures Scale(a) == Scale(b) <==> a == b
  {
    CellOfScale(a);
    CellOfScale(b);
  }

  /** Both coordinates of `c` lie in `lo..hi`. */
  predicate InBox(c: Cell, lo: int, hi: int) {
    lo <= c.x <= hi && lo <= c.y <= hi
  }

  /** The square of cells whose two coordinates both lie in `lo..hi`. */
  ghost function Box(lo: int, hi: int): (b: set<Cell>)
    ensures forall c :: c in b <==> InBox(c, lo, hi)
  {
    set x, y | lo <= x <= hi && lo <= y <= hi :: Cell(x, y)
  }
}
