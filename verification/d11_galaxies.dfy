/** Day 11: distances between galaxies in an expanding universe
    (src/d11.rs).

    Every row and column without a galaxy counts `expansion` times when a
    distance crosses it; every other step counts once. */
module Galaxies {
  import opened Collections

  type Point = (nat, nat)

  /** `Board`. The set of galaxy x-coordinates is called `rows_not_expanding`
      and the set of y-coordinates `cols_not_expanding`: the names are
      swapped, but each set is only ever consulted for its own axis. */
  datatype Board = Board(galaxies: seq<Point>, rowsNotExpanding: set<nat>, colsNotExpanding: set<nat>)

  /** `Board::new`: the occupied x- and y-coordinates. */
  function NewBoard(gs: seq<Point>): (b: Board)
    ensures b.galaxies == gs
    ensures forall i :: 0 <= i < |gs| ==> gs[i].0 in b.rowsNotExpanding && gs[i].1 in b.colsNotExpanding
    ensures forall x :: x in b.rowsNotExpanding ==> exists i :: 0 <= i < |gs| && gs[i].0 == x
    ensures forall y :: y in b.colsNotExpanding ==> exists i :: 0 <= i < |gs| && gs[i].1 == y
  {
    Board(gs, set i | 0 <= i < |gs| :: gs[i].0, set i | 0 <= i < |gs| :: gs[i].1)
  }

  // ------------------------------------------------------------ distances

  /** The cost of the coordinates `k` with `lo <= k < hi`: 1 for an
      occupied one, `expansion` for an empty one. */
  function Span(lo: nat, hi: nat, occupied: set<nat>, expansion: nat): nat
    decreases hi - lo
  {
    if lo >= hi then 0
    else (if lo in occupied then 1 else expansion) + Span(lo + 1, hi, occupied, expansion)
  }

  /** The empty coordinates `k` with `lo <= k < hi`. */
  function Empties(lo: nat, hi: nat, occupied: set<nat>): nat
    decreases hi - lo
  {
    if lo >= hi then 0 else Ind(lo !in occupied) + Empties(lo + 1, hi, occupied)
  }

  /** The distance along one axis, as one half of `adjusted_distance`
      computes it: 0 for equal coordinates, otherwise 1 plus the cost of
      every coordinate strictly between the two. */
  function AxisDistance(a: nat, b: nat, occupied: set<nat>, expansion: nat): (r: nat)
    ensures r == 0 <==> a == b
  {
    if a == b then 0
    else if a < b then 1 + Span(a + 1, b, occupied, expansion)
    else 1 + Span(b + 1, a, occupied, expansion)
  }

  /** `Board::adjusted_distance` between two galaxies. */
  function Distance(b: Board, p: Point, q: Point, expansion: nat): nat {
    AxisDistance(p.0, q.0, b.rowsNotExpanding, expansion)
    + AxisDistance(p.1, q.1, b.colsNotExpanding, expansion)
  }

  function AdjustedDistance(b: Board, i1: nat, i2: nat, expansion: nat): (r: nat)
    requires i1 < |b.galaxies| && i2 < |b.galaxies|
    ensures r == 0 <==> b.galaxies[i1] == b.galaxies[i2]
  {
    Distance(b, b.galaxies[i1], b.galaxies[i2], expansion)
  }

  /** Each empty coordinate costs `expansion` instead of 1: the span is its
      length plus `expansion - 1` for every empty coordinate in it. */
  lemma {:induction false} SpanClosedForm(lo: nat, hi: nat, occupied: set<nat>, expansion: nat)
    requires lo <= hi
    ensures Span(lo, hi, occupied, expansion) + Empties(lo, hi, occupied)
         == (hi - lo) + expansion * Empties(lo, hi, occupied)
    decreases hi - lo
  {
    if lo < hi {
      SpanClosedForm(lo + 1, hi, occupied, expansion);
      var e := Empties(lo + 1, hi, occupied);
      MulDist(expansion, Ind(lo !in occupied), e);
    }
  }

  function Abs(d: int): nat {
    if d < 0 then -d else d
  }

  /** Along one axis, the distance is the coordinate difference plus
      `expansion - 1` for every empty coordinate strictly between. */
  lemma AxisClosedForm(a: nat, b: nat, occupied: set<nat>, expansion: nat)
    ensures a < b ==> AxisDistance(a, b, occupied, expansion) + Empties(a + 1, b, occupied)
                      == Abs(a - b) + expansion * Empties(a + 1, b, occupied)
    ensures b < a ==> AxisDistance(a, b, occupied, expansion) + Empties(b + 1, a, occupied)
                      == Abs(a - b) + expansion * Empties(b + 1, a, occupied)
  {
    if a < b {
      SpanClosedForm(a + 1, b, occupied, expansion);
    } else if b < a {
      SpanClosedForm(b + 1, a, occupied, expansion);
    }
  }

  /** With `expansion` = 1 the distance is the Manhattan distance. */
  lemma UnitExpansion(b: Board, p: Point, q: Point)
    ensures Distance(b, p, q, 1) == Abs(p.0 - q.0) + Abs(p.1 - q.1)
  {
    AxisClosedForm(p.0, q.0, b.rowsNotExpanding, 1);
    AxisClosedForm(p.1, q.1, b.colsNotExpanding, 1);
  }

  /** The distance is symmetric and does not shrink as the expansion grows. */
  lemma DistanceSymmetricMonotone(b: Board, p: Point, q: Point, e1: nat, e2: nat)
    requires e1 <= e2
    ensures Distance(b, p, q, e1) == Distance(b, q, p, e1)
    ensures Distance(b, p, q, e1) <= Distance(b, p, q, e2)
  {
    AxisMonotone(p.0, q.0, b.rowsNotExpanding, e1, e2);
    AxisMonotone(p.1, q.1, b.colsNotExpanding, e1, e2);
  }

  lemma AxisMonotone(a: nat, c: nat, occupied: set<nat>, e1: nat, e2: nat)
    requires e1 <= e2
    ensures AxisDistance(a, c, occupied, e1) <= AxisDistance(a, c, occupied, e2)
  {
    if a < c {
      SpanMonotone(a + 1, c, occupied, e1, e2);
    } else if c < a {
      SpanMonotone(c + 1, a, occupied, e1, e2);
    }
  }

  lemma {:induction false} SpanMonotone(lo: nat, hi: nat, occupied: set<nat>, e1: nat, e2: nat)
    requires e1 <= e2
    ensures Span(lo, hi, occupied, e1) <= Span(lo, hi, occupied, e2)
    decreases hi - lo
  {
    if lo < hi {
      SpanMonotone(lo + 1, hi, occupied, e1, e2);
    }
  }

  // --------------------------------------------------------------- parsing

  predicate IsGalaxy(lines: seq<string>, x: int, y: int) {
    0 <= y < |lines| && 0 <= x < |lines[y]| && lines[y][x] == '#'
  }

  /** The galaxies of row `y` from column `x` on, left to right. */
  function RowGalaxies(line: string, x: nat, y: nat): (r: seq<Point>)
    requires x <= |line|
    ensures forall k :: 0 <= k < |r| ==> r[k].1 == y && x <= r[k].0 < |line| && line[r[k].0] == '#'
    ensures forall i :: x <= i < |line| && line[i] == '#' ==> (i, y) in r
    decreases |line| - x
  {
    if x == |line| then []
    else if line[x] == '#' then [(x, y)] + RowGalaxies(line, x + 1, y)
    else RowGalaxies(line, x + 1, y)
  }

  /** The galaxies of the rows from `y` on, in row-major order. */
  function GalaxiesFrom(lines: seq<string>, y: nat): (r: seq<Point>)
    requires y <= |lines|
    ensures forall k :: 0 <= k < |r| ==> y <= r[k].1 && IsGalaxy(lines, r[k].0, r[k].1)
    ensures forall j, i :: y <= j && IsGalaxy(lines, i, j) ==> (i, j) in r
    decreases |lines| - y
  {
    if y == |lines| then []
    else RowGalaxies(lines[y], 0, y) + GalaxiesFrom(lines, y + 1)
  }

  /** `parse_board`: one galaxy per '#', and no other. */
  function ParseBoard(lines: seq<string>): (b: Board)
    ensures forall k :: 0 <= k < |b.galaxies| ==> IsGalaxy(lines, b.galaxies[k].0, b.galaxies[k].1)
    ensures forall y, x :: IsGalaxy(lines, x, y) ==> (x, y) in b.galaxies
  {
    NewBoard(GalaxiesFrom(lines, 0))
  }

  // ------------------------------------------------------------------- run

  /** The distances from `p` to every galaxy of `qs`. */
  function RowSum(b: Board, p: Point, qs: seq<Point>, expansion: nat): nat {
    if |qs| == 0 then 0 else Distance(b, p, qs[0], expansion) + RowSum(b, p, qs[1..], expansion)
  }

  /** The loops of `run`: every galaxy paired with each later one, so every
      unordered pair of positions in the list is counted once. */
  function PairSum(b: Board, gs: seq<Point>, expansion: nat): nat {
    if |gs| == 0 then 0 else RowSum(b, gs[0], gs[1..], expansion) + PairSum(b, gs[1..], expansion)
  }

  /** The puzzle answer: the distances over unordered pairs of galaxies,
      which is half the sum over all ordered pairs of the '#' cells. */
  function Run(lines: seq<string>, expansion: nat): (r: nat)
    ensures var b := ParseBoard(lines);
            2 * r == CrossSum(b, b.galaxies, b.galaxies, expansion)
    ensures |ParseBoard(lines).galaxies| <= 1 ==> r == 0
  {
    var b := ParseBoard(lines);
    PairSumIsHalf(b, b.galaxies, expansion);
    PairSum(b, b.galaxies, expansion)
  }

  /** Every galaxy of `ps` paired with every galaxy of `qs`, in both roles. */
  function CrossSum(b: Board, ps: seq<Point>, qs: seq<Point>, expansion: nat): nat {
    if |ps| == 0 then 0 else RowSum(b, ps[0], qs, expansion) + CrossSum(b, ps[1..], qs, expansion)
  }

  /** Summing over pairs i1 < i2 counts exactly half of the sum over all
      ordered pairs: the diagonal contributes nothing and the distance is
      symmetric. */
  lemma {:induction false} PairSumIsHalf(b: Board, gs: seq<Point>, expansion: nat)
    ensures 2 * PairSum(b, gs, expansion) == CrossSum(b, gs, gs, expansion)
    decreases |gs|
  {
    if |gs| > 0 {
      var g, rest := gs[0], gs[1..];
      PairSumIsHalf(b, rest, expansion);
      assert gs == [g] + rest;
      CrossCons(b, rest, g, rest, expansion);
      ColumnIsRow(b, rest, g, expansion);
      assert RowSum(b, g, gs, expansion) == Distance(b, g, g, expansion) + RowSum(b, g, rest, expansion);
    }
  }

  /** Adding a galaxy in front of the second list adds its column. */
  lemma {:induction false} CrossCons(b: Board, ps: seq<Point>, q: Point, qs: seq<Point>, expansion: nat)
    ensures CrossSum(b, ps, [q] + qs, expansion) == CrossSum(b, ps, qs, expansion) + Column(b, ps, q, expansion)
    decreases |ps|
  {
    if |ps| > 0 {
      CrossCons(b, ps[1..], q, qs, expansion);
      assert ([q] + qs)[1..] == qs;
    }
  }

  /** The distances from every galaxy of `ps` to `q`. */
  function Column(b: Board, ps: seq<Point>, q: Point, expansion: nat): nat {
    if |ps| == 0 then 0 else Distance(b, ps[0], q, expansion) + Column(b, ps[1..], q, expansion)
  }

  lemma {:induction false} ColumnIsRow(b: Board, ps: seq<Point>, q: Point, expansion: nat)
    ensures Column(b, ps, q, expansion) == RowSum(b, q, ps, expansion)
    decreases |ps|
  {
    if |ps| > 0 {
      ColumnIsRow(b, ps[1..], q, expansion);
      DistanceSymmetricMonotone(b, ps[0], q, expansion, expansion);
    }
  }
}
