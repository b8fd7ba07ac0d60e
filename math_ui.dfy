/** Line-of-sight geometry (`MathUi`): the line through two cell centres,
    the cells meeting at a point, and the barrier sweep between two cells.
    Floats are exact reals here. */
module MathUi {
  import opened Grid

  /** C#'s `(int)` conversion of a float: truncation toward zero. */
  function Trunc(r: real): (n: int)
    ensures 0.0 <= r ==> n as real <= r < n as real + 1.0
    ensures r < 0.0 ==> n as real - 1.0 < r <= n as real
  {
    if 0.0 <= r then r.Floor else -((-r).Floor)
  }

  /** `Math.Abs(r % 1) <= 0`: the value has no fractional part. */
  predicate IsIntegral(r: real) {
    r.Floor as real == r
  }

  /** C#'s remainder keeps the dividend's sign, so the source's `r % 1` is
      `r - Trunc(r)`; the test agrees with it on negative values too. */
  lemma IntegralRemainder(r: real)
    ensures IsIntegral(r) <==> r - Trunc(r) as real == 0.0
  {
    if r < 0.0 {
      if IsIntegral(r) {
        FloorOfInteger(-(r.Floor));
        assert (-(r.Floor)) as real == -r;
      }
      if r - Trunc(r) as real == 0.0 {
        FloorOfInteger(Trunc(r));
      }
    }
  }

  lemma FloorOfInteger(k: int)
    ensures (k as real).Floor == k
  {
  }

  function Min(a: int, b: int): int {
    if a < b then a else b
  }

  function Max(a: int, b: int): int {
    if a < b then b else a
  }

  /** The centre of a cell, offset by one half on both axes. */
  function Center(c: Cell): Vec {
    Vec(c.x as real + 0.5, c.y as real + 0.5)
  }

  /** A centre lies inside its own cell and on no grid line, so the sweep's
      probes between two centres never start on a cell corner. */
  lemma CenterInside(c: Cell)
    ensures Center(c).x.Floor == c.x && Center(c).y.Floor == c.y
    ensures !IsIntegral(Center(c).x) && !IsIntegral(Center(c).y)
  {
  }

  /** The line through two points, as `(a, b)` for `y = a * x + b`. The two
      degenerate lines keep the source's encodings: `(1, x1)` when the X
      coordinates agree and `(0, -y1)` when only the Y coordinates agree. */
  function GetLineFunc(point1: Vec, point2: Vec): (line: Vec)
    ensures point1.x == point2.x ==> line == Vec(1.0, point1.x)
    ensures point1.x != point2.x && point1.y == point2.y ==> line == Vec(0.0, -point1.y)
    ensures point1.x != point2.x && point1.y != point2.y ==>
      && line.x != 0.0
      && point1.y == line.x * point1.x + line.y
      && point2.y == line.x * point2.x + line.y
  {
    if point1.x == point2.x then
      Vec(1.0, point1.x)
    else if point1.y == point2.y then
      Vec(0.0, -point1.y)
    else
      var a := (point1.y - point2.y) / (point1.x - point2.x);
      assert a * (point1.x - point2.x) == point1.y - point2.y;
      Vec(a, point1.y - a * point1.x)
  }

  /** The candidate cells of `GetNodesUnderPoint`, before the exclusion filter:
      four cells around a lattice corner, two cells beside a grid line, or the
      one cell holding the point, in the source's order. */
  function CellsMeetingAt(xPos: real, yPos: real): (r: seq<Cell>)
    ensures |r| == (if IsIntegral(xPos) then 2 else 1) * (if IsIntegral(yPos) then 2 else 1)
    ensures r[|r| - 1] == Cell(Trunc(xPos), Trunc(yPos))
  {
    var x, y := Trunc(xPos), Trunc(yPos);
    if IsIntegral(xPos) && IsIntegral(yPos) then
      [Cell(x - 1, y - 1), Cell(x, y - 1), Cell(x - 1, y), Cell(x, y)]
    else if !IsIntegral(yPos) && IsIntegral(xPos) then
      [Cell(x - 1, y), Cell(x, y)]
    else if IsIntegral(yPos) then
      [Cell(x, y - 1), Cell(x, y)]
    else
      [Cell(x, y)]
  }

  /** The closed unit square of cell `c` contains the point. */
  predicate Touches(c: Cell, xPos: real, yPos: real) {
    c.x as real <= xPos <= c.x as real + 1.0 && c.y as real <= yPos <= c.y as real + 1.0
  }

  /** For a point with non-negative coordinates the candidates are exactly
      the cells whose closed square contains the point. */
  lemma CellsMeetingAtAreTouching(xPos: real, yPos: real)
    requires 0.0 <= xPos && 0.0 <= yPos
    ensures forall c :: c in CellsMeetingAt(xPos, yPos) <==> Touches(c, xPos, yPos)
  {
    var r := CellsMeetingAt(xPos, yPos);
    forall c | Touches(c, xPos, yPos) ensures c in r {
      AxisCell(c.x, xPos);
      AxisCell(c.y, yPos);
    }
  }

  /** On one axis: the cells whose closed interval contains a non-negative
      coordinate are the truncation and, when the coordinate is integral,
      the one before it. */
  lemma AxisCell(cx: int, pos: real)
    requires 0.0 <= pos && cx as real <= pos <= cx as real + 1.0
    ensures IsIntegral(pos) ==> cx == Trunc(pos) || cx == Trunc(pos) - 1
    ensures !IsIntegral(pos) ==> cx == Trunc(pos)
  {
    var f := pos.Floor;
    assert f as real <= pos < f as real + 1.0;
    if cx < f - 1 || cx > f {
      assert false;
    }
    if cx == f - 1 {
      assert pos == f as real;
    }
  }

  /** The list with every cell that is a key of the exclusion map removed,
      keeping the order of the others. */
  function Without(s: seq<Cell>, excluded: set<Cell>): (r: seq<Cell>)
    ensures |r| <= |s|
    ensures forall c :: c in r <==> c in s && c !in excluded
  {
    if s == [] then []
    else (if s[0] in excluded then [] else [s[0]]) + Without(s[1..], excluded)
  }

  /** An empty exclusion map changes nothing. */
  lemma {:induction false} WithoutNothing(s: seq<Cell>)
    ensures Without(s, {}) == s
  {
    if s != [] {
      WithoutNothing(s[1..]);
      assert s == [s[0]] + s[1..];
    }
  }

  /** One step of the filtering loop: removing an excluded cell at `i`, or
      stepping past a kept one, leaves the same filtered list. */
  lemma WithoutStep(s: seq<Cell>, i: nat, excluded: set<Cell>)
    requires i < |s|
    ensures s[i] in excluded ==>
      var r := s[..i] + s[i + 1..];
      r[..i] + Without(r[i..], excluded) == s[..i] + Without(s[i..], excluded)
    ensures s[i] !in excluded ==>
      s[..i + 1] + Without(s[i + 1..], excluded) == s[..i] + Without(s[i..], excluded)
  {
    var tail := s[i..];
    assert tail[0] == s[i] && tail[1..] == s[i + 1..];
    assert Without(tail, excluded) == (if s[i] in excluded then [] else [s[i]]) + Without(s[i + 1..], excluded);
    if s[i] in excluded {
      var r := s[..i] + s[i + 1..];
      assert r[..i] == s[..i] && r[i..] == s[i + 1..];
      assert Without(tail, excluded) == Without(r[i..], excluded);
    } else {
      assert s[..i + 1] == s[..i] + [s[i]];
    }
  }

  /** The cells meeting at a point, less those that are keys of `exception`;
      removal is in place, stepping the index back after each `RemoveAt`. */
  method GetNodesUnderPoint(xPos: real, yPos: real, exception: Option<map<Cell, Cell>>)
    returns (result: seq<Cell>)
    ensures exception.None? ==> result == CellsMeetingAt(xPos, yPos)
    ensures exception.Some? ==> result == Without(CellsMeetingAt(xPos, yPos), exception.value.Keys)
  {
    result := CellsMeetingAt(xPos, yPos);
    if exception.Some? && |exception.value| > 0 {
      var excluded := exception.value.Keys;
      ghost var wanted := Without(result, excluded);
      var i: int := 0;
      while i < |result|
        invariant 0 <= i <= |result|
        invariant result[..i] + Without(result[i..], excluded) == wanted
        decreases |result| - i
      {
        WithoutStep(result, i, excluded);
        if result[i] in exception.value {
          result := result[..i] + result[i + 1..];
          i := i - 1;
        }
        i := i + 1;
      }
      assert result[i..] == [];
    } else if exception.Some? {
      assert exception.value.Keys == {};
      WithoutNothing(result);
    }
  }

  /** The sweep runs along X exactly when the X distance is the larger. */
  predicate SweepsHorizontally(start: Cell, destination: Cell) {
    Abs(destination.x - start.x) > Abs(destination.y - start.y)
  }

  /** The first and last major-axis coordinate of the sweep. */
  function LoopStart(start: Cell, destination: Cell): int {
    if SweepsHorizontally(start, destination) then Min(start.x, destination.x)
    else Min(start.y, destination.y)
  }

  function LoopEnd(start: Cell, destination: Cell): int {
    if SweepsHorizontally(start, destination) then Max(start.x, destination.x)
    else Max(start.y, destination.y)
  }

  /** For distinct cells the sweep spans at least one cell. */
  lemma SpanPositive(start: Cell, destination: Cell)
    requires start != destination
    ensures LoopStart(start, destination) < LoopEnd(start, destination)
  {
  }

  /** The number of samples: one per unit of the major-axis span. */
  function SampleCount(start: Cell, destination: Cell): nat
    requires start != destination
  {
    SpanPositive(start, destination);
    LoopEnd(start, destination) - LoopStart(start, destination)
  }

  /** The `k`-th sample on the major axis, `loopStart + k + 0.5`. */
  function SamplePos(start: Cell, destination: Cell, k: nat): real {
    LoopStart(start, destination) as real + k as real + 0.5
  }

  /** The line the sweep evaluates. */
  function SweepLine(start: Cell, destination: Cell): Vec {
    GetLineFunc(Center(start), Center(destination))
  }

  /** The point probed at sample `k`: the other coordinate comes from the
      line, `y = a * x + b` along X, `x = (y - b) / a` along Y. */
  function ProbePoint(start: Cell, destination: Cell, k: nat): (p: Vec)
    requires start != destination
    ensures SweepsHorizontally(start, destination) ==> p.x == SamplePos(start, destination, k)
    ensures !SweepsHorizontally(start, destination) ==> p.y == SamplePos(start, destination, k)
  {
    var line := SweepLine(start, destination);
    var i := SamplePos(start, destination, k);
    if SweepsHorizontally(start, destination) then
      Vec(i, line.x * i + line.y)
    else
      assert line.x != 0.0;
      Vec((i - line.y) / line.x, i)
  }

  /** Along X the probe is the line's value at the sample. */
  lemma ProbeAlongX(start: Cell, destination: Cell, k: nat, line: Vec, i: real)
    requires start != destination && SweepsHorizontally(start, destination)
    requires line == SweepLine(start, destination) && i == SamplePos(start, destination, k)
    ensures ProbedCells(start, destination, k) == CellsMeetingAt(i, line.x * i + line.y)
  {
    assert ProbePoint(start, destination, k) == Vec(i, line.x * i + line.y);
  }

  /** Along Y the probe inverts the line at the sample. */
  lemma ProbeAlongY(start: Cell, destination: Cell, k: nat, line: Vec, i: real)
    requires start != destination && !SweepsHorizontally(start, destination)
    requires line == SweepLine(start, destination) && i == SamplePos(start, destination, k)
    ensures line.x != 0.0 && ProbedCells(start, destination, k) == CellsMeetingAt((i - line.y) / line.x, i)
  {
    assert ProbePoint(start, destination, k) == Vec((i - line.y) / line.x, i);
  }

  /** The cells probed at sample `k`. */
  function ProbedCells(start: Cell, destination: Cell, k: nat): seq<Cell>
    requires start != destination
  {
    var p := ProbePoint(start, destination, k);
    CellsMeetingAt(p.x, p.y)
  }

  predicate AnyBlocked(cells: seq<Cell>, m: Barriers) {
    exists c :: c in cells && Blocked(m, c)
  }

  /** What `HasBarrier` answers: the cells differ and some sample of the
      sweep probes a barrier cell. */
  predicate LineOfSightBlocked(start: Cell, destination: Cell, m: Barriers): (b: bool)
    ensures b ==> start != destination
    ensures (forall c :: !Blocked(m, c)) ==> !b
  {
    && start != destination
    && exists k :: 0 <= k < SampleCount(start, destination) && AnyBlocked(ProbedCells(start, destination, k), m)
  }

  /** Sweeps the major axis at half-integer positions and tests the cells
      under each probed point against both barrier sets. */
  method HasBarrier(start: Cell, destination: Cell, m: Barriers) returns (blocked: bool)
    ensures blocked == LineOfSightBlocked(start, destination, m)
    ensures start == destination ==> !blocked
  {
    if start == destination {
      return false;
    }
    var point1 := Center(start);
    var point2 := Center(destination);
    var distX := Abs(destination.x - start.x);
    var distY := Abs(destination.y - start.y);
    var loopDirection := distX > distY;
    var lineFunction := GetLineFunc(point1, point2);
    var loopStart: int;
    var loopEnd: int;
    if loopDirection {
      loopStart := Min(start.x, destination.x);
      loopEnd := Max(start.x, destination.x);
    } else {
      loopStart := Min(start.y, destination.y);
      loopEnd := Max(start.y, destination.y);
    }
    assert loopDirection == SweepsHorizontally(start, destination);
    assert lineFunction == SweepLine(start, destination);
    assert loopStart == LoopStart(start, destination) && loopEnd == LoopEnd(start, destination);
    SpanPositive(start, destination);
    ghost var count := SampleCount(start, destination);
    var i: real := loopStart as real;
    ghost var k: nat := 0;
    while i <= loopEnd as real
      invariant k <= count
      invariant k == 0 ==> i == loopStart as real
      invariant k > 0 ==> i == loopStart as real + k as real + 0.5
      invariant forall j :: 0 <= j < k ==> !AnyBlocked(ProbedCells(start, destination, j), m)
      decreases count - k
    {
      if i == loopStart as real {
        i := i + 0.5;
      }
      assert i == SamplePos(start, destination, k);
      var passedNodeList;
      if loopDirection {
        var yPos := lineFunction.x * i + lineFunction.y;
        ProbeAlongX(start, destination, k, lineFunction, i);
        passedNodeList := GetNodesUnderPoint(i, yPos, None);
      } else {
        ProbeAlongY(start, destination, k, lineFunction, i);
        var xPos := (i - lineFunction.y) / lineFunction.x;
        passedNodeList := GetNodesUnderPoint(xPos, i, None);
      }
      assert passedNodeList == ProbedCells(start, destination, k);
      for n := 0 to |passedNodeList|
        invariant forall t :: 0 <= t < n ==> !Blocked(m, passedNodeList[t])
      {
        if Blocked(m, passedNodeList[n]) {
          assert AnyBlocked(ProbedCells(start, destination, k), m);
          return true;
        }
      }
      assert !AnyBlocked(ProbedCells(start, destination, k), m);
      if i == loopEnd as real + 0.5 {
        i := i - 0.5;
      }
      i := i + 1.0;
      k := k + 1;
    }
    return false;
  }

  /** Every sample lies strictly inside the major-axis span: the first at the
      centre of the lower cell, the last half a cell before the upper end, so
      the far cell's centre is never sampled. */
  lemma SamplesInsideSpan(start: Cell, destination: Cell, k: nat)
    requires start != destination && k < SampleCount(start, destination)
    ensures LoopStart(start, destination) as real < SamplePos(start, destination, k)
    ensures SamplePos(start, destination, k) <= LoopEnd(start, destination) as real - 0.5
  {
  }

  /** Every probed point lies on the line the sweep evaluates. */
  lemma ProbeOnSweepLine(start: Cell, destination: Cell, k: nat)
    requires start != destination
    ensures var p, line := ProbePoint(start, destination, k), SweepLine(start, destination);
      p.y == line.x * p.x + line.y
  {
    var p, line, i := ProbePoint(start, destination, k), SweepLine(start, destination), SamplePos(start, destination, k);
    if SweepsHorizontally(start, destination) {
      assert p == Vec(i, line.x * i + line.y);
    } else {
      assert line.x != 0.0 && p == Vec((i - line.y) / line.x, i);
      InverseOnLine(line, i);
    }
  }

  /** Inverting a non-horizontal line at `y` gives a point on that line. */
  lemma InverseOnLine(line: Vec, y: real)
    requires line.x != 0.0
    ensures y == line.x * ((y - line.y) / line.x) + line.y
  {
  }

  lemma TruncOfInt(n: int)
    ensures Trunc(n as real) == n && IsIntegral(n as real)
  {
  }

  /** A non-negative half-integer truncates to its integer part; its negation
      truncates toward zero. */
  lemma TruncOfHalf(n: nat)
    ensures Trunc(n as real + 0.5) == n && !IsIntegral(n as real + 0.5)
    ensures Trunc(-(n as real + 0.5)) == -(n as int) && !IsIntegral(-(n as real + 0.5))
  {
    assert (n as real + 0.5).Floor == n;
    assert (-(n as real + 0.5)).Floor == -(n as int) - 1;
  }

  /** Along a row, the degenerate line `(0, -y1)` puts every probe at
      `y = -(y + 0.5)`, so the sweep tests the mirrored row `-y`, not the row
      the two cells share. */
  lemma SameRowProbesMirroredRow(start: Cell, destination: Cell, k: nat)
    requires InGrid(start) && InGrid(destination)
    requires start.y == destination.y && start.x != destination.x
    ensures ProbedCells(start, destination, k) == [Cell(LoopStart(start, destination) + k, -start.y)]
  {
    var i := SamplePos(start, destination, k);
    var n: nat := LoopStart(start, destination) + k;
    assert i == n as real + 0.5;
    TruncOfHalf(n);
    TruncOfHalf(start.y);
    assert ProbePoint(start, destination, k) == Vec(i, -(start.y as real + 0.5));
  }

  /** The same row, shown on one input: a barrier between (0, 5) and (3, 5)
      on that row is not seen. */
  lemma SameRowMissesBarrier()
    ensures var m := Barriers(c => c == Cell(1, 5), c => false);
      !LineOfSightBlocked(Cell(0, 5), Cell(3, 5), m)
  {
    var start, destination := Cell(0, 5), Cell(3, 5);
    var m := Barriers(c => c == Cell(1, 5), c => false);
    forall k | 0 <= k < SampleCount(start, destination)
      ensures !AnyBlocked(ProbedCells(start, destination, k), m)
    {
      SameRowProbesMirroredRow(start, destination, k);
    }
  }

  /** Along a column, the degenerate line `(1, x1)` makes `x = i - x1`
      integral at every sample, so the probe is the pair of cells either side
      of column `loopStart + k - x`, which drifts with the row. */
  lemma SameColumnProbesDriftingColumn(start: Cell, destination: Cell, k: nat)
    requires InGrid(start) && InGrid(destination)
    requires start.x == destination.x && start.y != destination.y
    ensures var row := LoopStart(start, destination) + k;
      ProbedCells(start, destination, k) == [Cell(row - start.x - 1, row), Cell(row - start.x, row)]
  {
    var i := SamplePos(start, destination, k);
    var row: nat := LoopStart(start, destination) + k;
    assert i == row as real + 0.5;
    TruncOfHalf(row);
    TruncOfInt(row - start.x);
    assert ProbePoint(start, destination, k) == Vec((row - start.x) as real, i);
  }
}
