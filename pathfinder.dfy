/** The grid path finder (`Pathfinder`): bidirectional A* over the 4-connected
    100 by 100 grid, the reconstruction of the found path from both
    predecessor maps, and the three smoothing passes applied to it. */
module Pathfinder {
  import opened Grid
  import opened Heap
  import opened MathUi

  // ---------------------------------------------------------------------
  // Heuristic, comparison and neighbourhood
  // ---------------------------------------------------------------------

  /** Manhattan distance between two cells. */
  function Heuristic(startPosition: Cell, endPosition: Cell): (h: nat)
    ensures h == 0 <==> startPosition == endPosition
  {
    Abs(startPosition.x - endPosition.x) + Abs(startPosition.y - endPosition.y)
  }

  /** One step to a 4-neighbour changes the distance to any goal by exactly
      one, so the heuristic is consistent (and admissible) for unit steps. */
  lemma HeuristicStep(a: Cell, b: Cell, goal: Cell)
    requires Adjacent(a, b)
    ensures Heuristic(a, goal) == Heuristic(b, goal) + 1 || Heuristic(b, goal) == Heuristic(a, goal) + 1
  {
  }

  /** The distance obeys the triangle inequality. */
  lemma HeuristicTriangle(a: Cell, b: Cell, c: Cell)
    ensures Heuristic(a, c) <= Heuristic(a, b) + Heuristic(b, c)
  {
  }

  /** A frontier entry: a cell and its priority (`Tuple<Point, long>`). */
  datatype Entry = Entry(cell: Cell, priority: int)

  /** The inverted comparison: the entry with the smaller priority compares
      greater, so the max-heap pops the smallest priority. */
  function Compare(x: Entry, y: Entry): (r: int)
    ensures r == 1 <==> x.priority < y.priority
    ensures r == -1 <==> x.priority > y.priority
    ensures r == 0 <==> x.priority == y.priority
  {
    if x.priority < y.priority then 1
    else if x.priority > y.priority then -1
    else 0
  }

  /** `Compare` meets the heap's requirement on its comparison. */
  lemma CompareIsTotalPreorder()
    ensures TotalPreorder(Compare)
  {
    forall x: Entry, y: Entry ensures Flips(Compare, x, y) {
    }
    forall x: Entry, y: Entry, z: Entry ensures Chains(Compare, x, y, z) {
    }
  }

  /** An entry no other compares greater than has the smallest priority. */
  lemma MaximalHasLeastPriority(x: Entry, top: Entry)
    ensures Compare(x, top) <= 0 <==> top.priority <= x.priority
  {
  }

  /** An entry maximal under `Compare` has the least priority of all. */
  lemma PoppedLeast(entries: multiset<Entry>, top: Entry)
    requires forall x :: x in entries ==> Compare(x, top) <= 0
    ensures forall x :: x in entries ==> top.priority <= x.priority
  {
    forall x | x in entries
      ensures top.priority <= x.priority
    {
      MaximalHasLeastPriority(x, top);
    }
  }

  /** The source's guard for cells off the board on both axes. */
  predicate OffBoard(c: Cell): (b: bool)
    ensures b ==> !InGrid(c)
  {
    (c.x < 0 && c.y < 0) || (c.x > GridMax && c.y > GridMax)
  }

  /** The 4-neighbours of a cell, left, right, up, down; a step down an axis
      is taken only from above 0 and a step up only from below 99. */
  function FindNeighbours(start: Cell): (neighbours: seq<Cell>)
    ensures |neighbours| <= 4
    ensures OffBoard(start) ==> neighbours == []
    ensures forall n :: n in neighbours ==>
      && Adjacent(start, n)
      && (n.x < start.x ==> 0 <= n.x) && (n.x > start.x ==> n.x <= GridMax)
      && (n.y < start.y ==> 0 <= n.y) && (n.y > start.y ==> n.y <= GridMax)
    ensures InGrid(start) ==> forall n :: n in neighbours <==> Adjacent(start, n) && InGrid(n)
  {
    if OffBoard(start) then []
    else
      (if start.x > 0 then [Cell(start.x - 1, start.y)] else [])
      + (if start.x < GridMax then [Cell(start.x + 1, start.y)] else [])
      + (if start.y > 0 then [Cell(start.x, start.y - 1)] else [])
      + (if start.y < GridMax then [Cell(start.x, start.y + 1)] else [])
  }

  /** Every neighbour of a cell in a square that contains the whole grid is
      in that square too. */
  lemma NeighboursStayInBox(c: Cell, lo: int, hi: int)
    requires lo <= 0 && GridMax <= hi && InBox(c, lo, hi)
    ensures forall n :: n in FindNeighbours(c) ==> InBox(n, lo, hi)
  {
  }

  /** `FloydVector`: the step from `n2` to `n1`, written into `target`. */
  function FloydVector(n1: Cell, n2: Cell): (target: Cell)
    ensures Cell(n2.x + target.x, n2.y + target.y) == n1
  {
    Cell(n1.x - n2.x, n1.y - n2.y)
  }

  // ---------------------------------------------------------------------
  // Subsequences
  // ---------------------------------------------------------------------

  /** `idx` places each element of `sub` at a strictly increasing position of `s`. */
  ghost predicate Embeds(sub: seq<Cell>, s: seq<Cell>, idx: seq<nat>) {
    && |idx| == |sub|
    && (forall t :: 0 <= t < |idx| ==> idx[t] < |s| && sub[t] == s[idx[t]])
    && (forall t, u :: 0 <= t < u < |idx| ==> idx[t] < idx[u])
  }

  /** `sub` is obtained from `s` by deleting elements. */
  ghost predicate IsSubsequence(sub: seq<Cell>, s: seq<Cell>) {
    exists idx :: Embeds(sub, s, idx)
  }

  /** The embedding also keeps the first and the last element. */
  ghost predicate KeepsEnds(s: seq<Cell>, idx: seq<nat>) {
    |s| > 0 ==> |idx| > 0 && idx[0] == 0 && idx[|idx| - 1] == |s| - 1
  }

  /** The identity embedding. */
  function Identity(n: nat): (idx: seq<nat>)
    ensures |idx| == n && forall t :: 0 <= t < n ==> idx[t] == t
  {
    seq(n, t => t)
  }

  /** Every sequence embeds in itself, one step per step. */
  lemma IdentityEmbeds(s: seq<Cell>)
    ensures Embeds(s, s, Identity(|s|)) && KeepsEnds(s, Identity(|s|))
    ensures forall t :: 0 <= t < |s| - 1 ==> StraightStep(s, Identity(|s|), t)
    ensures forall t :: 0 <= t < |s| - 1 ==> CollapsedStep(s, Identity(|s|), t)
  {
    var idx := Identity(|s|);
    forall t | 0 <= t < |s| - 1 ensures StraightStep(s, idx, t) && CollapsedStep(s, idx, t) {
      assert idx[t] == t && idx[t + 1] == t + 1;
    }
  }

  /** The identity embedding also meets the third pass's step property. */
  lemma IdentityClear(s: seq<Cell>, m: Barriers)
    ensures forall t :: 0 <= t < |s| - 1 ==> ClearStep(s, Identity(|s|), t, m)
  {
    var idx := Identity(|s|);
    forall t | 0 <= t < |s| - 1 ensures ClearStep(s, idx, t, m) {
      assert idx[t] == t && idx[t + 1] == t + 1;
    }
  }

  /** Deleting the positions `lo..hi-1` (strictly inside) keeps an embedding,
      and its ends. */
  lemma EmbedsDelete(sub: seq<Cell>, s: seq<Cell>, idx: seq<nat>, lo: nat, hi: nat)
    requires Embeds(sub, s, idx) && KeepsEnds(s, idx)
    requires 0 < lo <= hi < |sub|
    ensures Embeds(sub[..lo] + sub[hi..], s, idx[..lo] + idx[hi..])
    ensures KeepsEnds(s, idx[..lo] + idx[hi..])
  {
    var sub', idx' := sub[..lo] + sub[hi..], idx[..lo] + idx[hi..];
    forall t | 0 <= t < |idx'| ensures idx'[t] < |s| && sub'[t] == s[idx'[t]] {
      if t >= lo {
        assert idx'[t] == idx[t - lo + hi] && sub'[t] == sub[t - lo + hi];
      }
    }
    forall t, u | 0 <= t < u < |idx'| ensures idx'[t] < idx'[u] {
      var t0 := if t < lo then t else t - lo + hi;
      var u0 := if u < lo then u else u - lo + hi;
      assert idx'[t] == idx[t0] && idx'[u] == idx[u0];
    }
  }

  /** `ab` composed with `bc`: positions of `a` in `c` when `a` sits in `b` and `b` in `c`. */
  function Compose(ab: seq<nat>, bc: seq<nat>): (ac: seq<nat>)
    requires forall t :: 0 <= t < |ab| ==> ab[t] < |bc|
    ensures |ac| == |ab| && forall t :: 0 <= t < |ab| ==> ac[t] == bc[ab[t]]
  {
    seq(|ab|, t requires 0 <= t < |ab| => bc[ab[t]])
  }

  /** Embeddings compose: a subsequence of a subsequence is a subsequence,
      and keeping the ends twice keeps them. */
  lemma EmbedsCompose(a: seq<Cell>, b: seq<Cell>, c: seq<Cell>, ab: seq<nat>, bc: seq<nat>)
    requires Embeds(a, b, ab) && Embeds(b, c, bc)
    ensures Embeds(a, c, Compose(ab, bc))
    ensures KeepsEnds(b, ab) && KeepsEnds(c, bc) ==> KeepsEnds(c, Compose(ab, bc))
  {
  }

  /** What an embedding that keeps the ends says about the two sequences. */
  lemma EmbedsEnds(sub: seq<Cell>, s: seq<Cell>, idx: seq<nat>)
    requires Embeds(sub, s, idx) && KeepsEnds(s, idx)
    ensures IsSubsequence(sub, s)
    ensures |s| > 0 ==> |sub| > 0 && sub[0] == s[0] && sub[|sub| - 1] == s[|s| - 1]
    ensures |s| >= 2 ==> |sub| >= 2
  {
    if |s| >= 2 {
      assert idx[0] < idx[|idx| - 1];
    }
  }

  // ---------------------------------------------------------------------
  // Floyd smoothing
  // ---------------------------------------------------------------------

  /** The two cells differ by one on both axes. */
  predicate Diagonal(a: Cell, b: Cell) {
    Abs(b.x - a.x) == 1 && Abs(b.y - a.y) == 1
  }

  /** A step of the result of the first pass: a step of the input, or a
      diagonal jump over exactly one input cell. */
  ghost predicate CollapsedStep(result: seq<Cell>, idx: seq<nat>, t: nat)
    requires t + 1 < |result| == |idx|
  {
    idx[t + 1] == idx[t] + 1 || (idx[t + 1] == idx[t] + 2 && Diagonal(result[t], result[t + 1]))
  }

  /** The loop invariant of the first pass: `result` embeds `path`, every
      step is a `CollapsedStep`, and from `index` on nothing was dropped yet. */
  ghost predicate Collapsing(result: seq<Cell>, path: seq<Cell>, idx: seq<nat>, index: nat) {
    && 2 <= |result| && index <= |result| - 1
    && Embeds(result, path, idx) && KeepsEnds(path, idx)
    && (forall t :: index <= t < |result| - 1 ==> idx[t + 1] == idx[t] + 1)
    && (forall t :: 0 <= t < |result| - 1 ==> CollapsedStep(result, idx, t))
  }

  /** One deletion of the first pass keeps its loop invariant. */
  lemma CollapseOne(result: seq<Cell>, path: seq<Cell>, idx: seq<nat>, index: nat)
    requires index + 2 < |result|
    requires Collapsing(result, path, idx, index)
    requires Diagonal(result[index], result[index + 2])
    ensures Collapsing(result[..index + 1] + result[index + 2..], path, idx[..index + 1] + idx[index + 2..], index + 1)
  {
    var r, x := result[..index + 1] + result[index + 2..], idx[..index + 1] + idx[index + 2..];
    EmbedsDelete(result, path, idx, index + 1, index + 2);
    forall t | index + 1 <= t < |r| - 1 ensures x[t + 1] == x[t] + 1 {
      assert x[t] == idx[t + 1] && x[t + 1] == idx[t + 2];
    }
    forall t | 0 <= t < |r| - 1 ensures CollapsedStep(r, x, t) {
      if t > index {
        assert x[t] == idx[t + 1] && x[t + 1] == idx[t + 2];
        assert r[t] == result[t + 1] && r[t + 1] == result[t + 2];
        assert CollapsedStep(result, idx, t + 1);
      } else if t < index {
        assert x[t] == idx[t] && x[t + 1] == idx[t + 1];
        assert CollapsedStep(result, idx, t);
      } else {
        assert x[t + 1] == idx[index + 2] == idx[index] + 2;
      }
    }
  }

  /** First pass: walking forward, drop the middle one of three cells whose
      outer two are diagonal neighbours, then move on by one. */
  method CollapseDiagonals(path: seq<Cell>) returns (result: seq<Cell>, ghost idx: seq<nat>)
    ensures Embeds(result, path, idx) && KeepsEnds(path, idx)
    ensures |path| <= 2 ==> result == path
    ensures forall t :: 0 <= t < |result| - 1 ==> CollapsedStep(result, idx, t)
  {
    result := path;
    idx := Identity(|path|);
    IdentityEmbeds(path);
    var index := 0;
    if |result| > 2 {
      while index < |result| - 2
        invariant Collapsing(result, path, idx, index)
      {
        if Abs(result[index + 2].x - result[index].x) == 1
          && Abs(result[index + 2].y - result[index].y) == 1
        {
          CollapseOne(result, path, idx, index);
          result := result[..index + 1] + result[index + 2..];
          idx := idx[..index + 1] + idx[index + 2..];
        }
        index := index + 1;
      }
    }
  }

  /** The step from cell `u` to cell `u + 1` of `s`. */
  function Step(s: seq<Cell>, u: nat): Cell
    requires u + 1 < |s|
  {
    FloydVector(s[u + 1], s[u])
  }

  /** A step of the result of the second pass spans a run of equal input
      steps: the cells it skips lie on one straight line. */
  ghost predicate StraightStep(path: seq<Cell>, idx: seq<nat>, t: nat)
    requires t + 1 < |idx|
  {
    && idx[t] < idx[t + 1] < |path|
    && forall u :: idx[t] <= u < idx[t + 1] ==> Step(path, u) == Step(path, idx[t])
  }

  /** One deletion of the second pass keeps its loop invariant. */
  lemma MergeOne(result: seq<Cell>, path: seq<Cell>, idx: seq<nat>, i: nat)
    requires i + 2 < |result|
    requires Embeds(result, path, idx) && KeepsEnds(path, idx)
    requires forall t :: 0 <= t <= i + 1 ==> idx[t] == t
    requires forall t :: 0 <= t < |result| - 1 ==> StraightStep(path, idx, t)
    requires FloydVector(result[i + 1], result[i]) == Step(path, i + 1)
    ensures var r, x := result[..i + 1] + result[i + 2..], idx[..i + 1] + idx[i + 2..];
      && Embeds(r, path, x) && KeepsEnds(path, x)
      && (forall t :: 0 <= t <= i ==> x[t] == t)
      && (forall t :: 0 <= t < |r| - 1 ==> StraightStep(path, x, t))
  {
    var r, x := result[..i + 1] + result[i + 2..], idx[..i + 1] + idx[i + 2..];
    EmbedsDelete(result, path, idx, i + 1, i + 2);
    assert Step(path, i) == Step(path, i + 1);
    forall t | 0 <= t < |r| - 1 ensures StraightStep(path, x, t) {
      if t > i {
        assert x[t] == idx[t + 1] && x[t + 1] == idx[t + 2];
        assert StraightStep(path, idx, t + 1);
      } else if t < i {
        assert x[t] == idx[t] && x[t + 1] == idx[t + 1];
        assert StraightStep(path, idx, t);
      } else {
        assert x[t] == i && x[t + 1] == idx[i + 2];
        assert StraightStep(path, idx, i + 1);
      }
    }
  }

  /** Second pass: walking backward from the end, drop the middle cell of
      two equal consecutive steps; `vector` holds the step last kept. */
  method MergeStraightRuns(path: seq<Cell>) returns (result: seq<Cell>, ghost idx: seq<nat>)
    ensures Embeds(result, path, idx) && KeepsEnds(path, idx)
    ensures |path| <= 2 ==> result == path
    ensures forall t :: 0 <= t < |result| - 1 ==> StraightStep(path, idx, t)
  {
    result := path;
    idx := Identity(|path|);
    IdentityEmbeds(path);
    var len := |result|;
    if len > 2 {
      var vector := FloydVector(result[len - 1], result[len - 2]);
      var i: int := |result| - 3;
      while i >= 0
        invariant -1 <= i && i + 2 < |result|
        invariant Embeds(result, path, idx) && KeepsEnds(path, idx)
        invariant forall t :: 0 <= t <= i + 1 ==> idx[t] == t
        invariant vector == Step(path, idx[i + 1])
        invariant forall t :: 0 <= t < |result| - 1 ==> StraightStep(path, idx, t)
      {
        assert result[i] == path[i] && result[i + 1] == path[i + 1];
        var tempVector := FloydVector(result[i + 1], result[i]);
        assert tempVector == Step(path, i);
        if vector == tempVector {
          MergeOne(result, path, idx, i);
          result := result[..i + 1] + result[i + 2..];
          idx := idx[..i + 1] + idx[i + 2..];
        } else {
          vector := tempVector;
        }
        i := i - 1;
      }
    }
  }

  /** A step of the result of the third pass: a step of its input, or a
      shortcut between two cells with a clear line of sight. */
  ghost predicate ClearStep(result: seq<Cell>, idx: seq<nat>, t: nat, m: Barriers)
    requires t + 1 < |result| == |idx|
  {
    idx[t + 1] == idx[t] + 1 || !LineOfSightBlocked(result[t + 1], result[t], m)
  }

  /** One shortcut of the third pass keeps its loop invariant. */
  lemma ShortcutOne(result: seq<Cell>, path: seq<Cell>, idx: seq<nat>, j: nat, i: nat, m: Barriers,
                    r: seq<Cell>, x: seq<nat>)
    requires j + 2 <= i < |result|
    requires Embeds(result, path, idx) && KeepsEnds(path, idx)
    requires forall t :: 0 <= t < |result| - 1 ==> ClearStep(result, idx, t, m)
    requires !LineOfSightBlocked(result[i], result[j], m)
    requires r == result[..j + 1] + result[i..] && x == idx[..j + 1] + idx[i..]
    ensures Embeds(r, path, x) && KeepsEnds(path, x)
    ensures forall t :: 0 <= t < |r| - 1 ==> ClearStep(r, x, t, m)
  {
    EmbedsDelete(result, path, idx, j + 1, i);
    forall t | 0 <= t < |r| - 1 ensures ClearStep(r, x, t, m) {
      var d := i - j - 1;
      if t > j {
        assert x[t] == idx[t + d] && x[t + 1] == idx[t + 1 + d];
        assert r[t] == result[t + d] && r[t + 1] == result[t + 1 + d];
        assert ClearStep(result, idx, t + d, m);
      } else if t < j {
        assert x[t] == idx[t] && x[t + 1] == idx[t + 1];
        assert r[t] == result[t] && r[t + 1] == result[t + 1];
        assert ClearStep(result, idx, t, m);
      } else {
        assert r[t] == result[j] && r[t + 1] == result[i];
      }
    }
  }

  /** The removal loop of the third pass: `RemoveAt(k)` for `k` from
      `i - 1` down to `j + 1`, leaving the cells up to `j` and from `i` on. */
  method RemoveBetween(path: seq<Cell>, j: nat, i: nat) returns (result: seq<Cell>)
    requires j < i <= |path|
    ensures result == path[..j + 1] + path[i..]
  {
    result := path;
    var k := i - 1;
    assert path[..k + 1] + path[i..] == path;
    while k > j
      invariant j <= k <= i - 1
      invariant result == path[..k + 1] + path[i..]
    {
      RemoveBelow(path, k, i, result);
      result := result[..k] + result[k + 1..];
      k := k - 1;
    }
  }

  /** One `RemoveAt(k)` below the cells already removed. */
  lemma RemoveBelow(s: seq<Cell>, k: nat, i: nat, cur: seq<Cell>)
    requires k < i <= |s| && cur == s[..k + 1] + s[i..]
    ensures cur[..k] + cur[k + 1..] == s[..k] + s[i..]
  {
    assert cur[..k] == s[..k];
    assert cur[k + 1..] == s[i..];
  }

  /** Third pass: from the last cell backward, look for the first earlier
      cell `j <= i - 2` in clear sight of cell `i`, delete every cell between
      them (one `RemoveAt` at a time, from `i - 1` down) and resume below `j`. */
  method CutCorners(path: seq<Cell>, m: Barriers) returns (result: seq<Cell>, ghost idx: seq<nat>)
    ensures Embeds(result, path, idx) && KeepsEnds(path, idx)
    ensures |path| <= 2 ==> result == path
    ensures forall t :: 0 <= t < |result| - 1 ==> ClearStep(result, idx, t, m)
  {
    result := path;
    idx := Identity(|path|);
    IdentityEmbeds(path);
    IdentityClear(path, m);
    var len := |result|;
    var i: int := len - 1;
    while i >= 0
      invariant -1 <= i < |result|
      invariant Embeds(result, path, idx) && KeepsEnds(path, idx)
      invariant |path| <= 2 ==> result == path
      invariant forall t :: 0 <= t < |result| - 1 ==> ClearStep(result, idx, t, m)
    {
      var j := 0;
      while j <= i - 2
        invariant 0 <= j
        invariant -1 <= i < |result|
        invariant Embeds(result, path, idx) && KeepsEnds(path, idx)
        invariant |path| <= 2 ==> result == path
        invariant forall t :: 0 <= t < |result| - 1 ==> ClearStep(result, idx, t, m)
        decreases i - j
      {
        var hasBarrier := HasBarrier(result[i], result[j], m);
        if !hasBarrier {
          ghost var before, idx0 := result, idx;
          result := RemoveBetween(result, j, i);
          idx := idx[..j + 1] + idx[i..];
          ShortcutOne(before, path, idx0, j, i, m, result, idx);
          i := j;
          break;
        }
        j := j + 1;
      }
      i := i - 1;
    }
  }

  /** `Floyd`: the three smoothing passes in order. The result keeps a
      subsequence of the path with both end cells; paths of up to two cells
      come back unchanged. */
  method Floyd(path: seq<Cell>, m: Barriers) returns (result: seq<Cell>)
    ensures IsSubsequence(result, path)
    ensures |path| > 0 ==> |result| > 0 && result[0] == path[0] && result[|result| - 1] == path[|path| - 1]
    ensures |path| >= 2 ==> |result| >= 2
    ensures |path| <= 2 ==> result == path
  {
    var diagonal, straight;
    ghost var idx1, idx2, idx3;
    diagonal, idx1 := CollapseDiagonals(path);
    straight, idx2 := MergeStraightRuns(diagonal);
    result, idx3 := CutCorners(straight, m);
    EmbedsCompose(straight, diagonal, path, idx2, idx1);
    ghost var idx12 := Compose(idx2, idx1);
    EmbedsCompose(result, straight, path, idx3, idx12);
    EmbedsEnds(result, path, Compose(idx3, idx12));
  }

  // ---------------------------------------------------------------------
  // Predecessor maps and the paths they encode
  // ---------------------------------------------------------------------

  /** The invariant of one search direction's `cameFrom` and `costSoFar`:
      the origin is its own predecessor at cost 0, and every other cell
      points to a 4-neighbour in the map whose cost is one less. */
  ghost predicate Rooted(cameFrom: map<Cell, Cell>, costSoFar: map<Cell, nat>, origin: Cell) {
    && origin in cameFrom && cameFrom[origin] == origin
    && cameFrom.Keys == costSoFar.Keys && costSoFar[origin] == 0
    && forall c {:trigger cameFrom[c]} :: c in cameFrom && c != origin ==>
         && cameFrom[c] in cameFrom && Adjacent(c, cameFrom[c])
         && costSoFar[c] == costSoFar[cameFrom[c]] + 1
  }

  /** The predecessor chain read from the origin to `c`. */
  ghost function PathFromOrigin(cameFrom: map<Cell, Cell>, costSoFar: map<Cell, nat>, origin: Cell, c: Cell): (w: seq<Cell>)
    requires Rooted(cameFrom, costSoFar, origin) && c in cameFrom
    ensures |w| == costSoFar[c] + 1 && w[0] == origin && w[|w| - 1] == c
    decreases costSoFar[c]
  {
    if c == origin then [c] else PathFromOrigin(cameFrom, costSoFar, origin, cameFrom[c]) + [c]
  }

  /** The predecessor chain read from `c` back to the origin. */
  ghost function PathToOrigin(cameFrom: map<Cell, Cell>, costSoFar: map<Cell, nat>, origin: Cell, c: Cell): (w: seq<Cell>)
    requires Rooted(cameFrom, costSoFar, origin) && c in cameFrom
    ensures |w| == costSoFar[c] + 1 && w[0] == c && w[|w| - 1] == origin
    decreases costSoFar[c]
  {
    if c == origin then [c] else [c] + PathToOrigin(cameFrom, costSoFar, origin, cameFrom[c])
  }

  /** Every cell of `w` is a key of `cameFrom` and consecutive cells are 4-neighbours. */
  ghost predicate StepsWithin(w: seq<Cell>, cameFrom: map<Cell, Cell>) {
    && (forall t :: 0 <= t < |w| ==> w[t] in cameFrom)
    && (forall t :: 0 <= t < |w| - 1 ==> Adjacent(w[t], w[t + 1]))
  }

  /** The chain from the origin stays inside the map and steps between 4-neighbours. */
  lemma {:induction false} PathFromOriginSteps(cameFrom: map<Cell, Cell>, costSoFar: map<Cell, nat>, origin: Cell, c: Cell)
    requires Rooted(cameFrom, costSoFar, origin) && c in cameFrom
    ensures StepsWithin(PathFromOrigin(cameFrom, costSoFar, origin, c), cameFrom)
    decreases costSoFar[c]
  {
    if c != origin {
      var w, rest := PathFromOrigin(cameFrom, costSoFar, origin, c), PathFromOrigin(cameFrom, costSoFar, origin, cameFrom[c]);
      PathFromOriginSteps(cameFrom, costSoFar, origin, cameFrom[c]);
      assert w == rest + [c];
      forall t | 0 <= t < |w| - 1 ensures Adjacent(w[t], w[t + 1]) {
        if t < |rest| - 1 {
          assert w[t] == rest[t] && w[t + 1] == rest[t + 1];
        } else {
          assert w[t] == rest[t] == cameFrom[c];
        }
      }
      forall t | 0 <= t < |w| ensures w[t] in cameFrom {
        if t < |rest| {
          assert w[t] == rest[t];
        }
      }
    }
  }

  /** The chain back to the origin stays inside the map and steps between 4-neighbours. */
  lemma {:induction false} PathToOriginSteps(cameFrom: map<Cell, Cell>, costSoFar: map<Cell, nat>, origin: Cell, c: Cell)
    requires Rooted(cameFrom, costSoFar, origin) && c in cameFrom
    ensures StepsWithin(PathToOrigin(cameFrom, costSoFar, origin, c), cameFrom)
    decreases costSoFar[c]
  {
    if c != origin {
      var w, rest := PathToOrigin(cameFrom, costSoFar, origin, c), PathToOrigin(cameFrom, costSoFar, origin, cameFrom[c]);
      PathToOriginSteps(cameFrom, costSoFar, origin, cameFrom[c]);
      assert w == [c] + rest;
      forall t | 0 <= t < |w| - 1 ensures Adjacent(w[t], w[t + 1]) {
        if t == 0 {
          assert w[1] == rest[0] == cameFrom[c];
        } else {
          assert w[t] == rest[t - 1] && w[t + 1] == rest[t];
        }
      }
      forall t | 0 <= t < |w| ensures w[t] in cameFrom {
        if t > 0 {
          assert w[t] == rest[t - 1];
        }
      }
    }
  }

  /** A walk from `from` to `to` through 4-neighbours; every cell on it other
      than its two ends is free of barriers. */
  ghost predicate IsWalk(w: seq<Cell>, from: Cell, to: Cell, m: Barriers) {
    && |w| > 0 && w[0] == from && w[|w| - 1] == to
    && (forall t :: 0 <= t < |w| - 1 ==> Adjacent(w[t], w[t + 1]))
    && (forall t :: 0 <= t < |w| ==> w[t] == from || w[t] == to || !Blocked(m, w[t]))
  }

  /** Only the origin of a direction may be a barrier cell. */
  ghost predicate FreeBesidesOrigin(cameFrom: map<Cell, Cell>, origin: Cell, m: Barriers) {
    forall c :: c in cameFrom ==> c == origin || !Blocked(m, c)
  }

  /** The list `PathOutPut` builds before dropping its first cell: the begin
      chain up to `before`, then `after` and the end chain from it. */
  ghost function Joined(cameFromBegin: map<Cell, Cell>, costBegin: map<Cell, nat>, start: Cell,
                        cameFromEnd: map<Cell, Cell>, costEnd: map<Cell, nat>, destination: Cell,
                        before: Cell, after: Cell): seq<Cell>
    requires Rooted(cameFromBegin, costBegin, start) && before in cameFromBegin
    requires Rooted(cameFromEnd, costEnd, destination) && after in cameFromEnd
  {
    PathFromOrigin(cameFromBegin, costBegin, start, before) + PathToOrigin(cameFromEnd, costEnd, destination, after)
  }

  /** Where the two searches meet, the joined chains form a walk from the
      start to the destination whose length is fixed by the two costs. */
  lemma JoinedIsWalk(cameFromBegin: map<Cell, Cell>, costBegin: map<Cell, nat>, start: Cell,
                     cameFromEnd: map<Cell, Cell>, costEnd: map<Cell, nat>, destination: Cell,
                     before: Cell, after: Cell, m: Barriers)
    requires Rooted(cameFromBegin, costBegin, start) && before in cameFromBegin
    requires Rooted(cameFromEnd, costEnd, destination) && after in cameFromEnd
    requires Adjacent(before, after)
    requires FreeBesidesOrigin(cameFromBegin, start, m) && FreeBesidesOrigin(cameFromEnd, destination, m)
    ensures var w := Joined(cameFromBegin, costBegin, start, cameFromEnd, costEnd, destination, before, after);
      IsWalk(w, start, destination, m) && |w| == costBegin[before] + costEnd[after] + 2
  {
    var u := PathFromOrigin(cameFromBegin, costBegin, start, before);
    var v := PathToOrigin(cameFromEnd, costEnd, destination, after);
    PathFromOriginSteps(cameFromBegin, costBegin, start, before);
    PathToOriginSteps(cameFromEnd, costEnd, destination, after);
    var w := u + v;
    forall t | 0 <= t < |w| - 1 ensures Adjacent(w[t], w[t + 1]) {
      if t < |u| - 1 {
        assert w[t] == u[t] && w[t + 1] == u[t + 1];
      } else if t >= |u| {
        assert w[t] == v[t - |u|] && w[t + 1] == v[t - |u| + 1];
      }
    }
    forall t | 0 <= t < |w| ensures w[t] == start || w[t] == destination || !Blocked(m, w[t]) {
      if t < |u| {
        assert w[t] == u[t] && u[t] in cameFromBegin;
      } else {
        assert w[t] == v[t - |u|] && v[t - |u|] in cameFromEnd;
      }
    }
  }

  /** One step of `PathOutPut`'s first loop: prepending the predecessor of
      the front cell keeps "chain to the front, then the rest" unchanged. */
  lemma PrependPredecessor(cameFrom: map<Cell, Cell>, costSoFar: map<Cell, nat>, origin: Cell, b: Cell, list: seq<Cell>)
    requires Rooted(cameFrom, costSoFar, origin) && b in cameFrom && b != origin
    requires |list| > 0 && list[0] == b
    ensures PathFromOrigin(cameFrom, costSoFar, origin, cameFrom[b]) + ([cameFrom[b]] + list)[1..]
         == PathFromOrigin(cameFrom, costSoFar, origin, b) + list[1..]
  {
    var upToPredecessor := PathFromOrigin(cameFrom, costSoFar, origin, cameFrom[b]);
    assert PathFromOrigin(cameFrom, costSoFar, origin, b) == upToPredecessor + [b];
    assert ([cameFrom[b]] + list)[1..] == list == [b] + list[1..];
    AppendAssociates(upToPredecessor, b, list[1..]);
  }

  /** One step of `PathOutPut`'s second loop: appending the predecessor of
      the last cell keeps "the list, then the rest of its chain" unchanged. */
  lemma AppendPredecessor(cameFrom: map<Cell, Cell>, costSoFar: map<Cell, nat>, origin: Cell, a: Cell, list: seq<Cell>)
    requires Rooted(cameFrom, costSoFar, origin) && a in cameFrom && a != origin
    ensures (list + [cameFrom[a]]) + PathToOrigin(cameFrom, costSoFar, origin, cameFrom[a])[1..]
         == list + PathToOrigin(cameFrom, costSoFar, origin, a)[1..]
  {
    var rest := PathToOrigin(cameFrom, costSoFar, origin, cameFrom[a]);
    assert PathToOrigin(cameFrom, costSoFar, origin, a) == [a] + rest;
    assert rest == [cameFrom[a]] + rest[1..];
    AppendAssociates(list, cameFrom[a], rest[1..]);
  }

  lemma AppendAssociates(list: seq<Cell>, x: Cell, rest: seq<Cell>)
    ensures (list + [x]) + rest == list + ([x] + rest)
  {
  }

  /** The first loop of `PathOutPut`: starting from `[before, after]`, insert
      predecessors at the front until the origin is reached. */
  method CollectBegin(before: Cell, after: Cell, cameFromBegin: map<Cell, Cell>,
                      ghost costBegin: map<Cell, nat>, ghost start: Cell)
    returns (list: seq<Cell>)
    requires Rooted(cameFromBegin, costBegin, start) && before in cameFromBegin
    ensures list == PathFromOrigin(cameFromBegin, costBegin, start, before) + [after]
  {
    ghost var fromStart := PathFromOrigin(cameFromBegin, costBegin, start, before);
    list := [before, after];
    var b := before;
    while cameFromBegin[b] != b
      invariant b in cameFromBegin && |list| >= 2 && list[0] == b
      invariant PathFromOrigin(cameFromBegin, costBegin, start, b) + list[1..] == fromStart + [after]
      decreases costBegin[b]
    {
      PrependPredecessor(cameFromBegin, costBegin, start, b, list);
      b := cameFromBegin[b];
      list := [b] + list;
    }
    assert b == start && list == [b] + list[1..];
  }

  /** The second loop of `PathOutPut`: append successive predecessors of
      `after`, whose chain in the end direction leads to its origin. */
  method CollectEnd(list0: seq<Cell>, after: Cell, cameFromEnd: map<Cell, Cell>,
                    ghost costEnd: map<Cell, nat>, ghost destination: Cell)
    returns (list: seq<Cell>)
    requires Rooted(cameFromEnd, costEnd, destination) && after in cameFromEnd
    requires |list0| > 0 && list0[|list0| - 1] == after
    ensures list == list0 + PathToOrigin(cameFromEnd, costEnd, destination, after)[1..]
  {
    list := list0;
    var a := after;
    while cameFromEnd[a] != a
      invariant a in cameFromEnd && |list| >= 1 && list[|list| - 1] == a
      invariant list + PathToOrigin(cameFromEnd, costEnd, destination, a)[1..]
             == list0 + PathToOrigin(cameFromEnd, costEnd, destination, after)[1..]
      decreases costEnd[a]
    {
      AppendPredecessor(cameFromEnd, costEnd, destination, a, list);
      a := cameFromEnd[a];
      list := list + [a];
    }
    assert a == destination && list + [] == list;
  }

  /** The list built by the two loops of `PathOutPut` is the joined chains. */
  lemma JoinedTail(cameFromBegin: map<Cell, Cell>, costBegin: map<Cell, nat>, start: Cell,
                   cameFromEnd: map<Cell, Cell>, costEnd: map<Cell, nat>, destination: Cell,
                   before: Cell, after: Cell, list: seq<Cell>)
    requires Rooted(cameFromBegin, costBegin, start) && before in cameFromBegin
    requires Rooted(cameFromEnd, costEnd, destination) && after in cameFromEnd
    requires list == PathFromOrigin(cameFromBegin, costBegin, start, before) + [after]
                     + PathToOrigin(cameFromEnd, costEnd, destination, after)[1..]
    ensures list == Joined(cameFromBegin, costBegin, start, cameFromEnd, costEnd, destination, before, after)
    ensures |list| >= 2 && list[|list| - 1] == destination
  {
    var fromStart := PathFromOrigin(cameFromBegin, costBegin, start, before);
    var toDestination := PathToOrigin(cameFromEnd, costEnd, destination, after);
    Splice(fromStart, after, toDestination, list);
  }

  /** Re-attaching the head of `rest` after `prefix`. */
  lemma Splice(prefix: seq<Cell>, x: Cell, rest: seq<Cell>, list: seq<Cell>)
    requires |prefix| > 0 && |rest| > 0 && rest[0] == x
    requires list == prefix + [x] + rest[1..]
    ensures list == prefix + rest && |list| >= 2 && list[|list| - 1] == rest[|rest| - 1]
  {
    assert rest == [x] + rest[1..];
    AppendAssociates(prefix, x, rest[1..]);
  }

  /** `PathOutPut`: walk the begin chain back from `before` (inserting at the
      front) and the end chain on from `after` (appending), drop the first
      cell, and smooth the rest. */
  method PathOutPut(before: Cell, after: Cell, cameFromBegin: map<Cell, Cell>, cameFromEnd: map<Cell, Cell>,
                    m: Barriers, ghost costBegin: map<Cell, nat>, ghost costEnd: map<Cell, nat>,
                    ghost start: Cell, ghost destination: Cell)
    returns (result: seq<Cell>)
    requires Rooted(cameFromBegin, costBegin, start) && before in cameFromBegin
    requires Rooted(cameFromEnd, costEnd, destination) && after in cameFromEnd
    ensures var joined := Joined(cameFromBegin, costBegin, start, cameFromEnd, costEnd, destination, before, after);
      && IsSubsequence(result, joined[1..])
      && |result| > 0 && result[0] == joined[1] && result[|result| - 1] == destination
  {
    ghost var joined := Joined(cameFromBegin, costBegin, start, cameFromEnd, costEnd, destination, before, after);
    var list := CollectBegin(before, after, cameFromBegin, costBegin, start);
    list := CollectEnd(list, after, cameFromEnd, costEnd, destination);
    JoinedTail(cameFromBegin, costBegin, start, cameFromEnd, costEnd, destination, before, after, list);
    list := list[1..];
    result := Floyd(list, m);
  }

  // ---------------------------------------------------------------------
  // Bidirectional A*
  // ---------------------------------------------------------------------

  /** An open-list entry's priority: its cost so far plus the distance to the
      goal, except that the seed entry of a direction has priority 0. */
  ghost predicate Prioritised(e: Entry, costSoFar: map<Cell, nat>, origin: Cell, goal: Cell)
    requires e.cell in costSoFar
  {
    e.priority == costSoFar[e.cell] + Heuristic(e.cell, goal) || (e.cell == origin && e.priority == 0)
  }

  /** The maps of one search direction between expansions: rooted at the
      origin, no barrier cell other than the origin reached, and every
      reached cell inside the square `lo..hi`. */
  ghost predicate Reached(cameFrom: map<Cell, Cell>, costSoFar: map<Cell, nat>, origin: Cell, m: Barriers, lo: int, hi: int) {
    && Rooted(cameFrom, costSoFar, origin)
    && FreeBesidesOrigin(cameFrom, origin, m)
    && (forall c :: c in cameFrom ==> InBox(c, lo, hi))
  }

  /** The open list of one search direction: a valid heap whose entries are
      all reached cells with their priorities. */
  ghost predicate Frontier(frontier: BinaryHeap<Entry>, cameFrom: map<Cell, Cell>, costSoFar: map<Cell, nat>,
                           origin: Cell, goal: Cell)
    reads frontier, frontier.Repr
  {
    && frontier.Valid() && frontier.mComparison == Compare
    && forall e :: e in frontier.Elements() ==>
         e.cell in cameFrom && e.cell in costSoFar && Prioritised(e, costSoFar, origin, goal)
  }

  /** The state of a direction right after its open list is seeded. */
  lemma Seeded(frontier: BinaryHeap<Entry>, origin: Cell, goal: Cell, m: Barriers, lo: int, hi: int)
    requires frontier.Valid() && frontier.mComparison == Compare
    requires frontier.Elements() == multiset{Entry(origin, 0)} && InBox(origin, lo, hi)
    ensures Reached(map[origin := origin], map[origin := 0], origin, m, lo, hi)
    ensures Frontier(frontier, map[origin := origin], map[origin := 0], origin, goal)
  {
  }

  /** Reached cells inside the square `lo..hi` form a subset of that square. */
  lemma KeysInBox(cameFrom: map<Cell, Cell>, lo: int, hi: int)
    requires forall c :: c in cameFrom ==> InBox(c, lo, hi)
    ensures cameFrom.Keys <= Box(lo, hi)
  {
  }

  /** Recording a new cell one step beyond a reached one keeps the maps rooted. */
  lemma RootedExtend(cameFrom: map<Cell, Cell>, costSoFar: map<Cell, nat>, origin: Cell, from: Cell, next: Cell)
    requires Rooted(cameFrom, costSoFar, origin) && from in cameFrom && next !in cameFrom && Adjacent(from, next)
    ensures Rooted(cameFrom[next := from], costSoFar[next := costSoFar[from] + 1], origin)
  {
    var cf, cost := cameFrom[next := from], costSoFar[next := costSoFar[from] + 1];
    forall c | c in cf && c != origin
      ensures cf[c] in cf && Adjacent(c, cf[c]) && cost[c] == cost[cf[c]] + 1
    {
      if c != next {
        assert cf[c] == cameFrom[c];
      }
    }
  }

  /** Reaching a new cell: record its cost and its predecessor, and push its
      entry with priority cost plus distance to the goal. */
  method Record(frontier: BinaryHeap<Entry>, cameFrom: map<Cell, Cell>, costSoFar: map<Cell, nat>,
                from: Cell, next: Cell, newCost: nat, goal: Cell,
                ghost origin: Cell, ghost m: Barriers, ghost lo: int, ghost hi: int)
    returns (cameFrom': map<Cell, Cell>, costSoFar': map<Cell, nat>)
    requires Reached(cameFrom, costSoFar, origin, m, lo, hi) && Frontier(frontier, cameFrom, costSoFar, origin, goal)
    requires from in cameFrom && next !in cameFrom && Adjacent(from, next)
    requires !Blocked(m, next) && InBox(next, lo, hi) && newCost == costSoFar[from] + 1
    modifies frontier.Repr
    ensures Reached(cameFrom', costSoFar', origin, m, lo, hi) && Frontier(frontier, cameFrom', costSoFar', origin, goal)
    ensures frontier.mData == old(frontier.mData) || fresh(frontier.mData)
    ensures cameFrom' == cameFrom[next := from] && costSoFar' == costSoFar[next := newCost]
    ensures frontier.Elements() == old(frontier.Elements()) + multiset{Entry(next, newCost + Heuristic(next, goal))}
    ensures frontier.Size() == old(frontier.Size()) + 1
  {
    ghost var before := frontier.Elements();
    RootedExtend(cameFrom, costSoFar, origin, from, next);
    costSoFar' := costSoFar[next := newCost];
    frontier.Insert(Entry(next, newCost + Heuristic(next, goal)));
    cameFrom' := cameFrom[next := from];
    PushQueued(before, cameFrom, costSoFar, origin, goal, from, next, newCost);
  }

  /** Pushing the entry of a newly recorded cell keeps every open-list entry
      reached and prioritised. */
  lemma PushQueued(entries: multiset<Entry>, cameFrom: map<Cell, Cell>, costSoFar: map<Cell, nat>,
                   origin: Cell, goal: Cell, from: Cell, next: Cell, newCost: nat)
    requires forall e :: e in entries ==>
               e.cell in cameFrom && e.cell in costSoFar && Prioritised(e, costSoFar, origin, goal)
    requires next !in cameFrom
    ensures forall e :: e in entries + multiset{Entry(next, newCost + Heuristic(next, goal))} ==>
              e.cell in cameFrom[next := from] && e.cell in costSoFar[next := newCost]
              && Prioritised(e, costSoFar[next := newCost], origin, goal)
  {
  }

  /** The maps of a direction only grow: reached cells keep their
      predecessor and their cost. */
  ghost predicate Grows(cameFrom: map<Cell, Cell>, costSoFar: map<Cell, nat>,
                        cameFrom': map<Cell, Cell>, costSoFar': map<Cell, nat>)
  {
    forall c :: c in cameFrom ==>
      c in cameFrom' && cameFrom'[c] == cameFrom[c] && (c in costSoFar ==> c in costSoFar' && costSoFar'[c] == costSoFar[c])
  }

  lemma GrowsTransitive(cf0: map<Cell, Cell>, cost0: map<Cell, nat>, cf1: map<Cell, Cell>, cost1: map<Cell, nat>,
                        cf2: map<Cell, Cell>, cost2: map<Cell, nat>)
    requires Grows(cf0, cost0, cf1, cost1) && Grows(cf1, cost1, cf2, cost2)
    ensures Grows(cf0, cost0, cf2, cost2)
  {
  }

  /** What one neighbour visit does, with `entries` the open list's elements
      before and `entries'` after: a barrier or reached cell is skipped, a
      cell the other direction has reached is reported as the meeting, and
      any other cell is recorded with cost one more than `from` and pushed. */
  ghost predicate VisitOutcome(cameFrom: map<Cell, Cell>, costSoFar: map<Cell, nat>, entries: multiset<Entry>,
                               from: Cell, next: Cell, others: map<Cell, Cell>, goal: Cell, m: Barriers,
                               cameFrom': map<Cell, Cell>, costSoFar': map<Cell, nat>, entries': multiset<Entry>,
                               meeting: Option<(Cell, Cell)>)
  {
    if Blocked(m, next) || next in cameFrom then
      meeting.None? && cameFrom' == cameFrom && costSoFar' == costSoFar && entries' == entries
    else if next in others then
      meeting == Some((from, next)) && cameFrom' == cameFrom && costSoFar' == costSoFar && entries' == entries
    else
      && from in costSoFar && meeting.None?
      && cameFrom' == cameFrom[next := from] && costSoFar' == costSoFar[next := costSoFar[from] + 1]
      && entries' == entries + multiset{Entry(next, costSoFar[from] + 1 + Heuristic(next, goal))}
  }

  /** The third case of `VisitOutcome`, reached through `Record`. */
  lemma RecordedOutcome(cameFrom: map<Cell, Cell>, costSoFar: map<Cell, nat>, entries: multiset<Entry>,
                        from: Cell, next: Cell, others: map<Cell, Cell>, goal: Cell, m: Barriers, newCost: nat,
                        cameFrom': map<Cell, Cell>, costSoFar': map<Cell, nat>, entries': multiset<Entry>)
    requires !Blocked(m, next) && next !in cameFrom && next !in others && from in costSoFar && newCost == costSoFar[from] + 1
    requires cameFrom' == cameFrom[next := from] && costSoFar' == costSoFar[next := newCost]
    requires entries' == entries + multiset{Entry(next, newCost + Heuristic(next, goal))}
    ensures VisitOutcome(cameFrom, costSoFar, entries, from, next, others, goal, m, cameFrom', costSoFar', entries', None)
  {
  }

  /** The body of the neighbour loop for one neighbour `next` of `from`: skip
      a barrier or reached cell, report a cell the other direction has
      reached, and otherwise record and push it. */
  method Visit(frontier: BinaryHeap<Entry>, cameFrom: map<Cell, Cell>, costSoFar: map<Cell, nat>,
               from: Cell, next: Cell, others: map<Cell, Cell>, goal: Cell, m: Barriers,
               ghost origin: Cell, ghost lo: int, ghost hi: int)
    returns (cameFrom': map<Cell, Cell>, costSoFar': map<Cell, nat>, meeting: Option<(Cell, Cell)>)
    requires Reached(cameFrom, costSoFar, origin, m, lo, hi) && Frontier(frontier, cameFrom, costSoFar, origin, goal)
    requires from in cameFrom && Adjacent(from, next) && InBox(next, lo, hi)
    modifies frontier.Repr
    ensures Reached(cameFrom', costSoFar', origin, m, lo, hi) && Frontier(frontier, cameFrom', costSoFar', origin, goal)
    ensures frontier.mData == old(frontier.mData) || fresh(frontier.mData)
    ensures Grows(cameFrom, costSoFar, cameFrom', costSoFar')
    ensures frontier.Size() + |cameFrom.Keys| == old(frontier.Size()) + |cameFrom'.Keys|
    ensures meeting.Some? ==> meeting == Some((from, next)) && next in others && !Blocked(m, next)
    ensures VisitOutcome(cameFrom, costSoFar, old(frontier.Elements()), from, next, others, goal, m,
                         cameFrom', costSoFar', frontier.Elements(), meeting)
  {
    ghost var entries := frontier.Elements();
    cameFrom', costSoFar', meeting := cameFrom, costSoFar, None;
    if Blocked(m, next) || next in cameFrom {
      return;
    }
    if next in others {
      meeting := Some((from, next));
      return;
    }
    var newCost := costSoFar[from] + 1;
    // the keys of the two maps agree, so the source's test for a costlier
    // known cost never succeeds and is not repeated here
    assert next !in costSoFar;
    cameFrom', costSoFar' := Record(frontier, cameFrom, costSoFar, from, next, newCost, goal, origin, m, lo, hi);
    ghost var after := frontier.Elements();
    RecordedOutcome(cameFrom, costSoFar, entries, from, next, others, goal, m, newCost, cameFrom', costSoFar', after);
  }

  /** Every cell newly recorded since `cameFrom` is among `candidates`, has
      `from` as its predecessor and costs one more than `from`. */
  ghost predicate RecordedFrom(cameFrom: map<Cell, Cell>, costSoFar: map<Cell, nat>,
                               cameFrom': map<Cell, Cell>, costSoFar': map<Cell, nat>,
                               from: Cell, candidates: seq<Cell>)
    requires from in costSoFar
  {
    forall c :: c in cameFrom' && c !in cameFrom ==>
      c in candidates && cameFrom'[c] == from && c in costSoFar' && costSoFar'[c] == costSoFar[from] + 1
  }

  /** Every free cell among `candidates` is reached. */
  ghost predicate FreeReached(candidates: seq<Cell>, m: Barriers, cameFrom: map<Cell, Cell>) {
    forall c :: c in candidates && !Blocked(m, c) ==> c in cameFrom
  }

  /** Visiting the neighbour `neighbours[n]` keeps `RecordedFrom` and,
      without a meeting, extends `FreeReached` to that neighbour. */
  lemma VisitRecords(cameFrom: map<Cell, Cell>, costSoFar: map<Cell, nat>,
                     cf: map<Cell, Cell>, cost: map<Cell, nat>, entries: multiset<Entry>,
                     from: Cell, neighbours: seq<Cell>, n: nat, others: map<Cell, Cell>, goal: Cell, m: Barriers,
                     cf': map<Cell, Cell>, cost': map<Cell, nat>, entries': multiset<Entry>, meeting: Option<(Cell, Cell)>)
    requires n < |neighbours| && from in costSoFar && from in cost && cost[from] == costSoFar[from]
    requires cameFrom.Keys <= cf.Keys
    requires RecordedFrom(cameFrom, costSoFar, cf, cost, from, neighbours)
    requires FreeReached(neighbours[..n], m, cf)
    requires VisitOutcome(cf, cost, entries, from, neighbours[n], others, goal, m, cf', cost', entries', meeting)
    ensures RecordedFrom(cameFrom, costSoFar, cf', cost', from, neighbours)
    ensures meeting.None? ==> FreeReached(neighbours[..n + 1], m, cf')
  {
    assert neighbours[..n + 1] == neighbours[..n] + [neighbours[n]];
  }

  /** The open-list entries `entries` are `base` plus entries for the cells
      newly reached since `cameFrom`: nothing of `base` is lost, every added
      entry belongs to a new cell with its cost plus heuristic, and every new
      cell has its entry. */
  ghost predicate Pushed(base: multiset<Entry>, entries: multiset<Entry>, cameFrom: map<Cell, Cell>,
                         cameFrom': map<Cell, Cell>, costSoFar': map<Cell, nat>, goal: Cell)
  {
    && base <= entries
    && (forall e :: e in entries - base ==>
          && e.cell in cameFrom' && e.cell !in cameFrom && e.cell in costSoFar'
          && e.priority == costSoFar'[e.cell] + Heuristic(e.cell, goal))
    && (forall c :: c in cameFrom' && c !in cameFrom ==>
          c in costSoFar' && Entry(c, costSoFar'[c] + Heuristic(c, goal)) in entries)
  }

  /** Recording `next` and pushing its entry keeps `Pushed`. */
  lemma PushedRecord(base: multiset<Entry>, cameFrom: map<Cell, Cell>,
                     cf: map<Cell, Cell>, cost: map<Cell, nat>, entries: multiset<Entry>,
                     from: Cell, next: Cell, newCost: nat, goal: Cell,
                     cf': map<Cell, Cell>, cost': map<Cell, nat>, entries': multiset<Entry>)
    requires cameFrom.Keys <= cf.Keys && next !in cf
    requires Pushed(base, entries, cameFrom, cf, cost, goal)
    requires cf' == cf[next := from] && cost' == cost[next := newCost]
    requires entries' == entries + multiset{Entry(next, newCost + Heuristic(next, goal))}
    ensures Pushed(base, entries', cameFrom, cf', cost', goal)
  {
    var added := Entry(next, newCost + Heuristic(next, goal));
    forall e | e in entries' - base
      ensures && e.cell in cf' && e.cell !in cameFrom && e.cell in cost'
              && e.priority == cost'[e.cell] + Heuristic(e.cell, goal)
    {
      if e != added {
        assert (entries' - base)[e] == (entries - base)[e];
        assert e.cell != next;
      }
    }
    forall c | c in cf' && c !in cameFrom
      ensures c in cost' && Entry(c, cost'[c] + Heuristic(c, goal)) in entries'
    {
      if c != next {
        assert Entry(c, cost[c] + Heuristic(c, goal)) in entries;
      }
    }
  }

  /** One neighbour visit keeps `Pushed`. */
  lemma PushedStep(base: multiset<Entry>, cameFrom: map<Cell, Cell>,
                   cf: map<Cell, Cell>, cost: map<Cell, nat>, entries: multiset<Entry>,
                   from: Cell, next: Cell, others: map<Cell, Cell>, goal: Cell, m: Barriers,
                   cf': map<Cell, Cell>, cost': map<Cell, nat>, entries': multiset<Entry>, meeting: Option<(Cell, Cell)>)
    requires cameFrom.Keys <= cf.Keys
    requires Pushed(base, entries, cameFrom, cf, cost, goal)
    requires VisitOutcome(cf, cost, entries, from, next, others, goal, m, cf', cost', entries', meeting)
    ensures Pushed(base, entries', cameFrom, cf', cost', goal)
  {
    if !Blocked(m, next) && next !in cf && next !in others {
      PushedRecord(base, cameFrom, cf, cost, entries, from, next, cost[from] + 1, goal, cf', cost', entries');
    }
  }

  /** The state inside the neighbour loop of `Expand`, where `cameFrom` and
      `costSoFar` are the maps before the expansion, `base` the open list's
      elements after the pop, and `cf` and `cost` the maps reached so far:
      the invariants hold, the maps grow from `cameFrom`, new cells are
      recorded from `from` and their entries pushed onto `base`. */
  ghost predicate ExpansionSoFar(frontier: BinaryHeap<Entry>, cameFrom: map<Cell, Cell>, costSoFar: map<Cell, nat>,
                                 cf: map<Cell, Cell>, cost: map<Cell, nat>, from: Cell, neighbours: seq<Cell>,
                                 base: multiset<Entry>, origin: Cell, goal: Cell, m: Barriers, lo: int, hi: int)
    reads frontier, frontier.Repr
  {
    && Reached(cf, cost, origin, m, lo, hi) && Frontier(frontier, cf, cost, origin, goal)
    && from in cf && from in costSoFar && Grows(cameFrom, costSoFar, cf, cost)
    && RecordedFrom(cameFrom, costSoFar, cf, cost, from, neighbours)
    && Pushed(base, frontier.Elements(), cameFrom, cf, cost, goal)
  }

  /** `Visit` of `neighbours[n]` inside `Expand`: the loop state is kept, and
      without a meeting every free neighbour up to `n` is reached. */
  method VisitNeighbour(frontier: BinaryHeap<Entry>, ghost cameFrom: map<Cell, Cell>, ghost costSoFar: map<Cell, nat>,
                        cf: map<Cell, Cell>, cost: map<Cell, nat>, from: Cell, neighbours: seq<Cell>, n: nat,
                        others: map<Cell, Cell>, goal: Cell, m: Barriers,
                        ghost origin: Cell, ghost lo: int, ghost hi: int, ghost base: multiset<Entry>)
    returns (cf': map<Cell, Cell>, cost': map<Cell, nat>, meeting: Option<(Cell, Cell)>)
    requires ExpansionSoFar(frontier, cameFrom, costSoFar, cf, cost, from, neighbours, base, origin, goal, m, lo, hi)
    requires n < |neighbours| && Adjacent(from, neighbours[n]) && InBox(neighbours[n], lo, hi)
    requires FreeReached(neighbours[..n], m, cf)
    modifies frontier.Repr
    ensures ExpansionSoFar(frontier, cameFrom, costSoFar, cf', cost', from, neighbours, base, origin, goal, m, lo, hi)
    ensures frontier.mData == old(frontier.mData) || fresh(frontier.mData)
    ensures frontier.Size() + |cf.Keys| == old(frontier.Size()) + |cf'.Keys|
    ensures meeting.None? ==> FreeReached(neighbours[..n + 1], m, cf')
    ensures meeting.Some? ==> meeting == Some((from, neighbours[n])) && neighbours[n] in others && !Blocked(m, neighbours[n])
  {
    ghost var before := frontier.Elements();
    cf', cost', meeting := Visit(frontier, cf, cost, from, neighbours[n], others, goal, m, origin, lo, hi);
    GrowsTransitive(cameFrom, costSoFar, cf, cost, cf', cost');
    VisitRecords(cameFrom, costSoFar, cf, cost, before, from, neighbours, n, others, goal, m,
                 cf', cost', frontier.Elements(), meeting);
    PushedStep(base, cameFrom, cf, cost, before, from, neighbours[n], others, goal, m,
               cf', cost', frontier.Elements(), meeting);
  }

  /** One half of the search loop (the begin half, or with the roles swapped
      the end half): pop the entry of least priority and visit its
      neighbours, stopping at the first one the other direction has reached.
      Each newly reached cell is a neighbour of the popped cell, recorded
      with it as predecessor; without a meeting, every free neighbour ends
      up reached. */
  method Expand(frontier: BinaryHeap<Entry>, cameFrom: map<Cell, Cell>, costSoFar: map<Cell, nat>,
                others: map<Cell, Cell>, goal: Cell, m: Barriers,
                ghost origin: Cell, ghost lo: int, ghost hi: int)
    returns (cameFrom': map<Cell, Cell>, costSoFar': map<Cell, nat>, meeting: Option<(Cell, Cell)>, ghost popped: Entry)
    requires lo <= 0 && GridMax <= hi
    requires Reached(cameFrom, costSoFar, origin, m, lo, hi) && Frontier(frontier, cameFrom, costSoFar, origin, goal) && frontier.Size() > 0
    modifies frontier.Repr
    ensures Reached(cameFrom', costSoFar', origin, m, lo, hi) && Frontier(frontier, cameFrom', costSoFar', origin, goal)
    ensures frontier.mData == old(frontier.mData) || fresh(frontier.mData)
    ensures Grows(cameFrom, costSoFar, cameFrom', costSoFar')
    ensures frontier.Size() + 1 + |cameFrom.Keys| == old(frontier.Size()) + |cameFrom'.Keys|
    ensures popped in old(frontier.Elements()) && popped.cell in cameFrom && popped.cell in costSoFar
    ensures forall e :: e in old(frontier.Elements()) ==> popped.priority <= e.priority
    ensures RecordedFrom(cameFrom, costSoFar, cameFrom', costSoFar', popped.cell, FindNeighbours(popped.cell))
    ensures meeting.None? ==> FreeReached(FindNeighbours(popped.cell), m, cameFrom')
    ensures Pushed(old(frontier.Elements()) - multiset{popped}, frontier.Elements(), cameFrom, cameFrom', costSoFar', goal)
    ensures meeting.Some? ==>
      && meeting.value.0 == popped.cell && meeting.value.1 in FindNeighbours(popped.cell)
      && meeting.value.0 in cameFrom' && meeting.value.1 in others
      && Adjacent(meeting.value.0, meeting.value.1) && !Blocked(m, meeting.value.1)
  {
    ghost var entries := frontier.Elements();
    var current := frontier.Pop();
    popped := current;
    PoppedLeast(entries, current);
    NeighboursStayInBox(current.cell, lo, hi);
    cameFrom', costSoFar', meeting := VisitAll(frontier, cameFrom, costSoFar, current.cell, others, goal, m, origin, lo, hi);
  }

  /** The neighbour loop of `Expand` for the popped cell `from`. */
  method VisitAll(frontier: BinaryHeap<Entry>, cameFrom: map<Cell, Cell>, costSoFar: map<Cell, nat>, from: Cell,
                  others: map<Cell, Cell>, goal: Cell, m: Barriers,
                  ghost origin: Cell, ghost lo: int, ghost hi: int)
    returns (cameFrom': map<Cell, Cell>, costSoFar': map<Cell, nat>, meeting: Option<(Cell, Cell)>)
    requires Reached(cameFrom, costSoFar, origin, m, lo, hi) && Frontier(frontier, cameFrom, costSoFar, origin, goal)
    requires from in cameFrom && forall n :: n in FindNeighbours(from) ==> InBox(n, lo, hi)
    modifies frontier.Repr
    ensures Reached(cameFrom', costSoFar', origin, m, lo, hi) && Frontier(frontier, cameFrom', costSoFar', origin, goal)
    ensures frontier.mData == old(frontier.mData) || fresh(frontier.mData)
    ensures Grows(cameFrom, costSoFar, cameFrom', costSoFar')
    ensures frontier.Size() + |cameFrom.Keys| == old(frontier.Size()) + |cameFrom'.Keys|
    ensures RecordedFrom(cameFrom, costSoFar, cameFrom', costSoFar', from, FindNeighbours(from))
    ensures meeting.None? ==> FreeReached(FindNeighbours(from), m, cameFrom')
    ensures Pushed(old(frontier.Elements()), frontier.Elements(), cameFrom, cameFrom', costSoFar', goal)
    ensures meeting.Some? ==>
      && meeting.value.0 == from && meeting.value.1 in FindNeighbours(from)
      && meeting.value.0 in cameFrom' && meeting.value.1 in others
      && Adjacent(meeting.value.0, meeting.value.1) && !Blocked(m, meeting.value.1)
  {
    ghost var base := frontier.Elements();
    cameFrom', costSoFar' := cameFrom, costSoFar;
    meeting := None;
    var neighbours := FindNeighbours(from);
    for n := 0 to |neighbours|
      invariant ExpansionSoFar(frontier, cameFrom, costSoFar, cameFrom', costSoFar', from, neighbours, base, origin, goal, m, lo, hi)
      invariant frontier.mData == old(frontier.mData) || fresh(frontier.mData)
      invariant meeting == None
      invariant frontier.Size() + |cameFrom.Keys| == old(frontier.Size()) + |cameFrom'.Keys|
      invariant FreeReached(neighbours[..n], m, cameFrom')
    {
      cameFrom', costSoFar', meeting := VisitNeighbour(frontier, cameFrom, costSoFar, cameFrom', costSoFar',
                                                       from, neighbours, n, others, goal, m, origin, lo, hi, base);
      if meeting.Some? {
        return;
      }
    }
    assert neighbours[..|neighbours|] == neighbours;
  }

  /** `Expand` on one direction, leaving the other direction's open list
      as it was. */
  method ExpandBeside(frontier: BinaryHeap<Entry>, cameFrom: map<Cell, Cell>, costSoFar: map<Cell, nat>,
                      others: map<Cell, Cell>, goal: Cell, m: Barriers,
                      ghost origin: Cell, ghost lo: int, ghost hi: int,
                      ghost other: BinaryHeap<Entry>, ghost otherCost: map<Cell, nat>)
    returns (cameFrom': map<Cell, Cell>, costSoFar': map<Cell, nat>, meeting: Option<(Cell, Cell)>, ghost popped: Entry)
    requires lo <= 0 && GridMax <= hi
    requires Reached(cameFrom, costSoFar, origin, m, lo, hi) && Frontier(frontier, cameFrom, costSoFar, origin, goal)
    requires frontier.Size() > 0
    requires Frontier(other, others, otherCost, goal, origin) && frontier.Repr !! other.Repr
    modifies frontier.Repr
    ensures Reached(cameFrom', costSoFar', origin, m, lo, hi) && Frontier(frontier, cameFrom', costSoFar', origin, goal)
    ensures frontier.mData == old(frontier.mData) || fresh(frontier.mData)
    ensures Grows(cameFrom, costSoFar, cameFrom', costSoFar')
    ensures frontier.Size() + 1 + |cameFrom.Keys| == old(frontier.Size()) + |cameFrom'.Keys|
    ensures popped in old(frontier.Elements()) && popped.cell in cameFrom && popped.cell in costSoFar
    ensures forall e :: e in old(frontier.Elements()) ==> popped.priority <= e.priority
    ensures RecordedFrom(cameFrom, costSoFar, cameFrom', costSoFar', popped.cell, FindNeighbours(popped.cell))
    ensures meeting.None? ==> FreeReached(FindNeighbours(popped.cell), m, cameFrom')
    ensures Pushed(old(frontier.Elements()) - multiset{popped}, frontier.Elements(), cameFrom, cameFrom', costSoFar', goal)
    ensures meeting.Some? ==>
      && meeting.value.0 == popped.cell && meeting.value.1 in FindNeighbours(popped.cell)
      && meeting.value.0 in cameFrom' && meeting.value.1 in others
      && Adjacent(meeting.value.0, meeting.value.1) && !Blocked(m, meeting.value.1)
    ensures Frontier(other, others, otherCost, goal, origin) && frontier.Repr !! other.Repr
    ensures other.Elements() == old(other.Elements())
  {
    cameFrom', costSoFar', meeting, popped := Expand(frontier, cameFrom, costSoFar, others, goal, m, origin, lo, hi);
  }

  /** What the search promises: either no path, or a list of waypoints
      ending at the destination, the first a 4-neighbour of the start, all
      taken in order from a walk from the start whose inner cells are free. */
  ghost predicate SearchResult(path: seq<Cell>, start: Cell, destination: Cell, m: Barriers) {
    || path == []
    || (&& path[|path| - 1] == destination
        && exists w :: IsWalk(w, start, destination, m) && |w| >= 2 && path[0] == w[1] && IsSubsequence(path, w[1..]))
  }

  /** The cells of a square not yet reached. */
  lemma OutsideCount(box: set<Cell>, reached: set<Cell>)
    requires reached <= box
    ensures |box - reached| == |box| - |reached|
  {
    assert box == (box - reached) + reached;
  }

  /** The waypoints `PathOutPut` returns at a meeting of the two searches
      satisfy `SearchResult`. */
  lemma MeetingResult(cameFromBegin: map<Cell, Cell>, costBegin: map<Cell, nat>, start: Cell,
                      cameFromEnd: map<Cell, Cell>, costEnd: map<Cell, nat>, destination: Cell,
                      before: Cell, after: Cell, m: Barriers, path: seq<Cell>)
    requires Rooted(cameFromBegin, costBegin, start) && before in cameFromBegin
    requires Rooted(cameFromEnd, costEnd, destination) && after in cameFromEnd
    requires Adjacent(before, after)
    requires FreeBesidesOrigin(cameFromBegin, start, m) && FreeBesidesOrigin(cameFromEnd, destination, m)
    requires var joined := Joined(cameFromBegin, costBegin, start, cameFromEnd, costEnd, destination, before, after);
      && IsSubsequence(path, joined[1..])
      && |path| > 0 && path[0] == joined[1] && path[|path| - 1] == destination
    ensures SearchResult(path, start, destination, m)
  {
    JoinedIsWalk(cameFromBegin, costBegin, start, cameFromEnd, costEnd, destination, before, after, m);
  }

  /** The cells of the square `lo..hi` a direction has not reached yet. */
  ghost function Unsettled(cameFrom: map<Cell, Cell>, lo: int, hi: int): nat {
    |Box(lo, hi) - cameFrom.Keys|
  }

  /** An expansion that pops one entry and pushes one per newly reached cell
      lowers unreached cells plus open list size by exactly one. */
  lemma UnsettledAccount(cameFrom: map<Cell, Cell>, cameFrom': map<Cell, Cell>, lo: int, hi: int, size: nat, size': nat)
    requires forall c :: c in cameFrom ==> InBox(c, lo, hi)
    requires forall c :: c in cameFrom' ==> InBox(c, lo, hi)
    requires size' + 1 + |cameFrom.Keys| == size + |cameFrom'.Keys|
    ensures Unsettled(cameFrom', lo, hi) + size' + 1 == Unsettled(cameFrom, lo, hi) + size
  {
    KeysInBox(cameFrom, lo, hi);
    KeysInBox(cameFrom', lo, hi);
    OutsideCount(Box(lo, hi), cameFrom.Keys);
    OutsideCount(Box(lo, hi), cameFrom'.Keys);
  }

  /** One pass of the search loop: expand the begin direction, then the end
      direction, stopping with the reconstructed path at the first meeting.
      Without a meeting, the unreached cells of the square plus the open
      list sizes drop by two. */
  method SearchRound(openListBegin: BinaryHeap<Entry>, openListEnd: BinaryHeap<Entry>,
                     cameFromBegin: map<Cell, Cell>, costSoFarBegin: map<Cell, nat>,
                     cameFromEnd: map<Cell, Cell>, costSoFarEnd: map<Cell, nat>,
                     start: Cell, destination: Cell, m: Barriers, ghost lo: int, ghost hi: int)
    returns (cameFromBegin': map<Cell, Cell>, costSoFarBegin': map<Cell, nat>,
             cameFromEnd': map<Cell, Cell>, costSoFarEnd': map<Cell, nat>, found: Option<seq<Cell>>,
             ghost poppedBegin: Entry, ghost poppedEnd: Entry)
    requires lo <= 0 && GridMax <= hi
    requires Reached(cameFromBegin, costSoFarBegin, start, m, lo, hi)
    requires Frontier(openListBegin, cameFromBegin, costSoFarBegin, start, destination)
    requires Reached(cameFromEnd, costSoFarEnd, destination, m, lo, hi)
    requires Frontier(openListEnd, cameFromEnd, costSoFarEnd, destination, start)
    requires openListBegin.Repr !! openListEnd.Repr
    requires openListBegin.Size() > 0 && openListEnd.Size() > 0
    modifies openListBegin.Repr, openListEnd.Repr
    ensures found.Some? ==> SearchResult(found.value, start, destination, m) && |found.value| > 0
    ensures found.None? ==>
      && Reached(cameFromBegin', costSoFarBegin', start, m, lo, hi)
      && Frontier(openListBegin, cameFromBegin', costSoFarBegin', start, destination)
      && Reached(cameFromEnd', costSoFarEnd', destination, m, lo, hi)
      && Frontier(openListEnd, cameFromEnd', costSoFarEnd', destination, start)
      && openListBegin.Repr !! openListEnd.Repr
      && Unsettled(cameFromBegin', lo, hi) + openListBegin.Size() + Unsettled(cameFromEnd', lo, hi) + openListEnd.Size() + 2
         == Unsettled(cameFromBegin, lo, hi) + old(openListBegin.Size()) + Unsettled(cameFromEnd, lo, hi) + old(openListEnd.Size())
    ensures found.None? ==>
      && poppedBegin in old(openListBegin.Elements()) && poppedBegin.cell in costSoFarBegin
      && (forall e :: e in old(openListBegin.Elements()) ==> poppedBegin.priority <= e.priority)
      && RecordedFrom(cameFromBegin, costSoFarBegin, cameFromBegin', costSoFarBegin', poppedBegin.cell, FindNeighbours(poppedBegin.cell))
      && FreeReached(FindNeighbours(poppedBegin.cell), m, cameFromBegin')
      && Pushed(old(openListBegin.Elements()) - multiset{poppedBegin}, openListBegin.Elements(),
                cameFromBegin, cameFromBegin', costSoFarBegin', destination)
    ensures found.None? ==>
      && poppedEnd in old(openListEnd.Elements()) && poppedEnd.cell in costSoFarEnd
      && (forall e :: e in old(openListEnd.Elements()) ==> poppedEnd.priority <= e.priority)
      && RecordedFrom(cameFromEnd, costSoFarEnd, cameFromEnd', costSoFarEnd', poppedEnd.cell, FindNeighbours(poppedEnd.cell))
      && FreeReached(FindNeighbours(poppedEnd.cell), m, cameFromEnd')
      && Pushed(old(openListEnd.Elements()) - multiset{poppedEnd}, openListEnd.Elements(),
                cameFromEnd, cameFromEnd', costSoFarEnd', start)
    ensures openListBegin.mData == old(openListBegin.mData) || fresh(openListBegin.mData)
    ensures openListEnd.mData == old(openListEnd.mData) || fresh(openListEnd.mData)
  {
    cameFromEnd', costSoFarEnd' := cameFromEnd, costSoFarEnd;
    poppedEnd := Entry(destination, 0);
    var meeting;
    cameFromBegin', costSoFarBegin', meeting, poppedBegin :=
      ExpandBeside(openListBegin, cameFromBegin, costSoFarBegin, cameFromEnd, destination, m, start, lo, hi,
                   openListEnd, costSoFarEnd);
    UnsettledAccount(cameFromBegin, cameFromBegin', lo, hi, old(openListBegin.Size()), openListBegin.Size());
    if meeting.Some? {
      var path := PathOutPut(meeting.value.0, meeting.value.1, cameFromBegin', cameFromEnd,
                             m, costSoFarBegin', costSoFarEnd, start, destination);
      MeetingResult(cameFromBegin', costSoFarBegin', start, cameFromEnd, costSoFarEnd, destination,
                    meeting.value.0, meeting.value.1, m, path);
      found := Some(path);
      return;
    }
    ghost var sizeEnd := openListEnd.Size();
    cameFromEnd', costSoFarEnd', meeting, poppedEnd :=
      ExpandBeside(openListEnd, cameFromEnd, costSoFarEnd, cameFromBegin', start, m, destination, lo, hi,
                   openListBegin, costSoFarBegin');
    UnsettledAccount(cameFromEnd, cameFromEnd', lo, hi, sizeEnd, openListEnd.Size());
    if meeting.Some? {
      var path := PathOutPut(meeting.value.1, meeting.value.0, cameFromBegin', cameFromEnd',
                             m, costSoFarBegin', costSoFarEnd', start, destination);
      MeetingResult(cameFromBegin', costSoFarBegin', start, cameFromEnd', costSoFarEnd', destination,
                    meeting.value.1, meeting.value.0, m, path);
      found := Some(path);
      return;
    }
    found := None;
  }

  /** The loop of `BidirectionAStar`: run search rounds while both open
      lists are non-empty; an exhausted open list means no path. */
  method Search(openListBegin: BinaryHeap<Entry>, openListEnd: BinaryHeap<Entry>,
                cameFromBegin: map<Cell, Cell>, costSoFarBegin: map<Cell, nat>,
                cameFromEnd: map<Cell, Cell>, costSoFarEnd: map<Cell, nat>,
                start: Cell, destination: Cell, m: Barriers, ghost lo: int, ghost hi: int)
    returns (path: seq<Cell>)
    requires lo <= 0 && GridMax <= hi
    requires Reached(cameFromBegin, costSoFarBegin, start, m, lo, hi)
    requires Frontier(openListBegin, cameFromBegin, costSoFarBegin, start, destination)
    requires Reached(cameFromEnd, costSoFarEnd, destination, m, lo, hi)
    requires Frontier(openListEnd, cameFromEnd, costSoFarEnd, destination, start)
    requires openListBegin.Repr !! openListEnd.Repr
    modifies openListBegin.Repr, openListEnd.Repr
    ensures SearchResult(path, start, destination, m)
    ensures path == [] ==>
      openListBegin.Valid() && openListEnd.Valid() && (openListBegin.Size() == 0 || openListEnd.Size() == 0)
  {
    var cfBegin, costBegin, cfEnd, costEnd := cameFromBegin, costSoFarBegin, cameFromEnd, costSoFarEnd;
    while openListBegin.Size() > 0 && openListEnd.Size() > 0
      invariant Reached(cfBegin, costBegin, start, m, lo, hi)
      invariant Frontier(openListBegin, cfBegin, costBegin, start, destination)
      invariant Reached(cfEnd, costEnd, destination, m, lo, hi)
      invariant Frontier(openListEnd, cfEnd, costEnd, destination, start)
      invariant openListBegin.Repr !! openListEnd.Repr
      invariant openListBegin.mData == old(openListBegin.mData) || fresh(openListBegin.mData)
      invariant openListEnd.mData == old(openListEnd.mData) || fresh(openListEnd.mData)
      decreases Unsettled(cfBegin, lo, hi) + openListBegin.Size() + Unsettled(cfEnd, lo, hi) + openListEnd.Size()
    {
      var found;
      ghost var poppedBegin, poppedEnd;
      cfBegin, costBegin, cfEnd, costEnd, found, poppedBegin, poppedEnd :=
        SearchRound(openListBegin, openListEnd, cfBegin, costBegin, cfEnd, costEnd, start, destination, m, lo, hi);
      if found.Some? {
        return found.value;
      }
    }
    path := [];
  }

  /** `BidirectionAStar`: a search from each end, both seeded with priority
      0, expanding alternately until one reaches a cell the other has
      reached or either open list runs empty. */
  method BidirectionAStar(start: Cell, destination: Cell, m: Barriers) returns (path: seq<Cell>)
    ensures SearchResult(path, start, destination, m)
  {
    CompareIsTotalPreorder();
    var openListBegin := new BinaryHeap<Entry>(Compare);
    openListBegin.Insert(Entry(start, 0));
    var openListEnd := new BinaryHeap<Entry>(Compare);
    openListEnd.Insert(Entry(destination, 0));
    var cameFromBegin := map[start := start];
    var costSoFarBegin: map<Cell, nat> := map[start := 0];
    var cameFromEnd := map[destination := destination];
    var costSoFarEnd: map<Cell, nat> := map[destination := 0];
    ghost var lo := Min(0, Min(Min(start.x, start.y), Min(destination.x, destination.y)));
    ghost var hi := Max(GridMax, Max(Max(start.x, start.y), Max(destination.x, destination.y)));
    Seeded(openListBegin, start, destination, m, lo, hi);
    Seeded(openListEnd, destination, start, m, lo, hi);
    path := Search(openListBegin, openListEnd, cameFromBegin, costSoFarBegin, cameFromEnd, costSoFarEnd,
                   start, destination, m, lo, hi);
  }

  // ---------------------------------------------------------------------
  // Cells to waypoints
  // ---------------------------------------------------------------------

  /** The request's guard: both cell coordinates negative. */
  predicate BothNegative(c: Cell): (b: bool)
    ensures b ==> OffBoard(c) && !InGrid(c)
  {
    c.x < 0 && c.y < 0
  }

  /** The cell a request heads for: `endPos`, or the map's substitute for it
      when it is a barrier cell. */
  function Target(endPos: Cell, m: Barriers, substitute: Cell -> Cell): (t: Cell)
    ensures !Blocked(m, endPos) ==> t == endPos
    ensures !Blocked(m, substitute(endPos)) ==> !Blocked(m, t)
  {
    if Blocked(m, endPos) then substitute(endPos) else endPos
  }

  /** The requests `PathFinding` answers with an empty list: an endpoint
      with both coordinates negative, or a barrier target the map finds no substitute for (its
      answer is then the zero point). */
  predicate Refused(startPos: Cell, endPos: Cell, m: Barriers, substitute: Cell -> Cell): (b: bool)
    ensures BothNegative(startPos) || BothNegative(endPos) ==> b
    ensures !b ==> Target(endPos, m, substitute) != Cell(0, 0) || !Blocked(m, endPos)
  {
    || BothNegative(startPos) || BothNegative(endPos)
    || (Blocked(m, endPos) && substitute(endPos) == Cell(0, 0))
  }

  /** Every cell of a path as the world position of its corner. */
  function ScaleAll(path: seq<Cell>): seq<Vec> {
    seq(|path|, i requires 0 <= i < |path| => Scale(path[i]))
  }

  /** The decision logic of a unit's move order, on the two cells already
      converted from world positions: refuse a request with an endpoint whose
      coordinates are both negative, replace a
      barrier target by the map's substitute (the parameter `substitute`),
      and either go straight there when the line of sight is clear or follow
      the waypoints of the bidirectional search, in world units. */
  method PathFinding(startPos: Cell, endPos: Cell, m: Barriers, substitute: Cell -> Cell) returns (result: seq<Vec>)
    ensures Refused(startPos, endPos, m, substitute) ==> result == []
    ensures !Refused(startPos, endPos, m, substitute) && !LineOfSightBlocked(startPos, Target(endPos, m, substitute), m)
            ==> result == [Scale(Target(endPos, m, substitute))]
    ensures !Refused(startPos, endPos, m, substitute) && LineOfSightBlocked(startPos, Target(endPos, m, substitute), m)
            ==> exists path :: SearchResult(path, startPos, Target(endPos, m, substitute), m) && result == ScaleAll(path)
    ensures |result| > 0 ==> result[|result| - 1] == Scale(Target(endPos, m, substitute))
  {
    if BothNegative(startPos) || BothNegative(endPos) {
      return [];
    }
    var target := endPos;
    if Blocked(m, target) {
      target := substitute(target);
      if target == Cell(0, 0) {
        return [];
      }
    }
    var hasBarrier := HasBarrier(startPos, target, m);
    if hasBarrier {
      var path := BidirectionAStar(startPos, target, m);
      result := ScaleAll(path);
    } else {
      result := [Scale(target)];
    }
  }
}
