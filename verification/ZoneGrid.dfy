// The zone grid: rectangles numbered row by row from the top, and the inverse computation the
// client uses. Generalised from the 2 x 2 grid of 100-unit zones to any positive shape.
module ZoneGrid {
  import opened Arithmetic

  datatype ZoneDef = ZoneDef(zoneId: nat, xMin: real, xMax: real, yMin: real, yMax: real) {
    // Half-open on both axes.
    predicate Contains(x: real, y: real) {
      xMin <= x < xMax && yMin <= y < yMax
    }
  }

  datatype Grid = Grid(zonesPerRow: nat, rows: nat, size: real)

  predicate ValidGrid(g: Grid) {
    g.zonesPerRow >= 1 && g.rows >= 1 && g.size > 0.0
  }

  const WORLD := Grid(2, 2, 100.0)

  // The k-th grid line.
  function Edge(k: int, size: real): real {
    k as real * size
  }

  // uint32 arithmetic of ParseZoneList: 0 is "no zone", and rows past the last are off the grid.
  predicate OnGrid(g: Grid, zoneId: nat)
    requires ValidGrid(g)
  {
    zoneId != 0 && (zoneId - 1) / g.zonesPerRow < g.rows
  }

  // Row 0 is at the top, and y grows upwards.
  function DefOf(g: Grid, zoneId: nat): ZoneDef
    requires ValidGrid(g) && OnGrid(g, zoneId)
  {
    var index := zoneId - 1;
    var column := index % g.zonesPerRow;
    var row := index / g.zonesPerRow;
    var xMin := Edge(column, g.size);
    var yMax := Edge(g.rows - row, g.size);
    ZoneDef(zoneId, xMin, xMin + g.size, yMax - g.size, yMax)
  }

  predicate InWorld(g: Grid, x: real, y: real) {
    0.0 <= x < Edge(g.zonesPerRow, g.size) && 0.0 <= y < Edge(g.rows, g.size)
  }

  // A C# (int) cast truncates toward zero.
  function Truncate(r: real): int {
    if r >= 0.0 then r.Floor else -((-r).Floor)
  }

  function Clamp(v: int, lo: int, hi: int): int {
    if v < lo then lo else if v > hi then hi else v
  }

  // ZoneLayout.ZoneIdOf.
  function ZoneIdOf(g: Grid, x: real, y: real): int
    requires ValidGrid(g)
  {
    var column := Clamp(Truncate(x / g.size), 0, g.zonesPerRow - 1);
    var row := Clamp(g.rows - 1 - Truncate(y / g.size), 0, g.rows - 1);
    1 + row * g.zonesPerRow + column
  }

  lemma EdgeStep(k: int, s: real)
    ensures Edge(0, s) == 0.0 && Edge(k + 1, s) == Edge(k, s) + s
  {
  }

  lemma EdgeOrder(i: int, j: int, s: real)
    requires s > 0.0 && i <= j
    ensures Edge(i, s) <= Edge(j, s)
  {
  }

  // A grid line is at or below a coordinate exactly when its number is at most the coordinate's cell.
  lemma EdgeBelow(v: real, s: real, k: int)
    requires s > 0.0
    ensures Edge(k, s) <= v <==> k <= (v / s).Floor
  {
    var q := v / s;
    assert q * s == v;
    ScaleOrder(k as real, q, s);
    assert k as real <= q <==> k <= q.Floor;
  }

  // Coordinate v lies in the k-th cell exactly when k is the floor of v / s.
  lemma CellOf(v: real, s: real, k: int)
    requires s > 0.0
    ensures Edge(k, s) <= v < Edge(k, s) + s <==> (v / s).Floor == k
  {
    hide Edge;
    EdgeBelow(v, s, k);
    EdgeBelow(v, s, k + 1);
    EdgeStep(k, s);
  }

  lemma CellInRange(v: real, s: real, n: nat)
    requires s > 0.0 && 0.0 <= v < Edge(n, s)
    ensures 0 <= (v / s).Floor < n && v / s >= 0.0
  {
  }

  // The ids on the grid are exactly 1 .. zonesPerRow * rows.
  lemma OnGridIffCounted(g: Grid, zoneId: nat)
    requires ValidGrid(g)
    ensures OnGrid(g, zoneId) <==> 1 <= zoneId <= g.zonesPerRow * g.rows
  {
    if zoneId != 0 {
      var d := g.zonesPerRow;
      var q, r := (zoneId - 1) / d, (zoneId - 1) % d;
      assert zoneId - 1 == d * q + r;
      if q < g.rows {
        assert d * g.rows == d * q + d * (g.rows - q) && d * (g.rows - q) >= d by { Grows(d, g.rows - q); }
      } else {
        assert d * q == d * g.rows + d * (q - g.rows) && d * (q - g.rows) >= 0;
      }
    }
  }

  lemma Grows(d: nat, k: int)
    requires k >= 1
    ensures d * k >= d
  {
  }

  // A zone contains a point exactly when the point's cell is the zone's column and row.
  lemma ContainsIffCell(g: Grid, zoneId: nat, x: real, y: real)
    requires ValidGrid(g) && OnGrid(g, zoneId)
    ensures DefOf(g, zoneId).Contains(x, y) <==>
            && (x / g.size).Floor == (zoneId - 1) % g.zonesPerRow
            && (y / g.size).Floor == g.rows - 1 - (zoneId - 1) / g.zonesPerRow
  {
    hide Edge;
    var column, row := (zoneId - 1) % g.zonesPerRow, (zoneId - 1) / g.zonesPerRow;
    CellOf(x, g.size, column);
    CellOf(y, g.size, g.rows - 1 - row);
    EdgeStep(g.rows - 1 - row, g.size);
  }

  // The client's computation names the zone in the point's column and row.
  lemma ZoneIdOfCell(g: Grid, x: real, y: real)
    requires ValidGrid(g) && InWorld(g, x, y)
    ensures var z := ZoneIdOf(g, x, y);
            && z >= 1 && OnGrid(g, z)
            && (z - 1) % g.zonesPerRow == (x / g.size).Floor
            && (z - 1) / g.zonesPerRow == g.rows - 1 - (y / g.size).Floor
  {
    hide Edge;
    CellInRange(x, g.size, g.zonesPerRow);
    CellInRange(y, g.size, g.rows);
    var column, row := (x / g.size).Floor, g.rows - 1 - (y / g.size).Floor;
    DivMod(g.zonesPerRow, row, column);
    assert ZoneIdOf(g, x, y) - 1 == g.zonesPerRow * row + column;
    assert g.zonesPerRow * row >= 0;
  }

  // The rectangles tile the world: the zone of a point is the one the client computes, and no other.
  lemma ZonesTileTheWorld(g: Grid, x: real, y: real)
    requires ValidGrid(g) && InWorld(g, x, y)
    ensures 1 <= ZoneIdOf(g, x, y) <= g.zonesPerRow * g.rows && OnGrid(g, ZoneIdOf(g, x, y))
    ensures forall id: nat :: OnGrid(g, id) ==> (DefOf(g, id).Contains(x, y) <==> id == ZoneIdOf(g, x, y))
  {
    hide DefOf, ZoneIdOf, InWorld;
    var d, z := g.zonesPerRow, ZoneIdOf(g, x, y);
    ZoneIdOfCell(g, x, y);
    OnGridIffCounted(g, z);
    forall id: nat | OnGrid(g, id)
      ensures DefOf(g, id).Contains(x, y) <==> id == z
    {
      ContainsIffCell(g, id, x, y);
      assert id - 1 == d * ((id - 1) / d) + (id - 1) % d;
      assert z - 1 == d * ((z - 1) / d) + (z - 1) % d;
    }
  }

  // Outside the world no zone owns a point.
  lemma NoZoneOutsideTheWorld(g: Grid, id: nat, x: real, y: real)
    requires ValidGrid(g) && OnGrid(g, id) && DefOf(g, id).Contains(x, y)
    ensures InWorld(g, x, y)
  {
    hide Edge;
    var column, row := (id - 1) % g.zonesPerRow, (id - 1) / g.zonesPerRow;
    EdgeStep(column, g.size);
    EdgeStep(g.rows - row - 1, g.size);
    EdgeOrder(0, column, g.size);
    EdgeOrder(column + 1, g.zonesPerRow, g.size);
    EdgeOrder(0, g.rows - row - 1, g.size);
    EdgeOrder(g.rows - row, g.rows, g.size);
  }
}
