/** Day 14: rolling stones on the parabolic reflector dish (src/d14.rs).

    Round stones roll north until they hit the edge, a cube-shaped stone or
    another round stone; a spin cycle tilts the dish north, west, south and
    east by tilting north and rotating clockwise four times. */
module ReflectorDish {
  import opened Wrappers
  import opened Collections

  datatype Tile = Empty | Cube | Round

  type Rows = seq<seq<Tile>>

  /** Every row is at least as long as the first, over whose width the
      source's loops index. The row count must be positive because the
      source subtracts 1 from it. */
  predicate Wide(rows: Rows) {
    |rows| > 0 && forall y :: 0 <= y < |rows| ==> |rows[0]| <= |rows[y]|
  }

  /** A board a spin cycle can run on: rotating a board of empty rows
      leaves no rows, which the next tilt cannot handle. */
  predicate Tiltable(rows: Rows) {
    Wide(rows) && |rows[0]| > 0
  }

  /** All rows have the same, positive length. */
  predicate Rectangular(rows: Rows) {
    |rows| > 0 && |rows[0]| > 0 && forall y :: 0 <= y < |rows| ==> |rows[y]| == |rows[0]|
  }

  function RowRounds(row: seq<Tile>): nat {
    multiset(row)[Round]
  }

  // ------------------------------------------------------------ measures

  /** `total_load` from row `y` on: each round stone weighs the number of
      rows from its own to the south edge. */
  function LoadFrom(rows: Rows, y: nat): nat
    decreases |rows| - y
  {
    if y >= |rows| then 0 else (|rows| - y) * RowRounds(rows[y]) + LoadFrom(rows, y + 1)
  }

  function Load(rows: Rows): nat {
    LoadFrom(rows, 0)
  }

  /** The sum of the row numbers of the round stones from row `y` on: it
      drops by one with every stone that rolls one row north. */
  function PotentialFrom(rows: Rows, y: nat): nat
    decreases |rows| - y
  {
    if y >= |rows| then 0 else y * RowRounds(rows[y]) + PotentialFrom(rows, y + 1)
  }

  function Potential(rows: Rows): nat {
    PotentialFrom(rows, 0)
  }

  /** A two-row example: the stones in the first and second row of a
      two-row board weigh 2 and 1. */
  lemma LoadExample()
    ensures Load([[Round, Empty], [Cube, Round]]) == 2 + 1
  {
    var b := [[Round, Empty], [Cube, Round]];
    assert RowRounds(b[0]) == 1 by { assert multiset(b[0]) == multiset{Round, Empty}; }
    assert RowRounds(b[1]) == 1 by { assert multiset(b[1]) == multiset{Cube, Round}; }
    assert LoadFrom(b, 2) == 0;
  }

  // ------------------------------------------------------------------ shift

  /** A round stone directly below an empty cell. */
  predicate Swappable(rows: Rows, y: nat, x: nat)
    requires y + 1 < |rows| && x < |rows[y]| && x < |rows[y + 1]|
  {
    rows[y][x] == Empty && rows[y + 1][x] == Round
  }

  /** The round stone at (`x`, `y` + 1) rolls one row north. */
  function Swap(rows: Rows, y: nat, x: nat): (r: Rows)
    requires y + 1 < |rows| && x < |rows[y]| && x < |rows[y + 1]|
    ensures |r| == |rows| && forall j :: 0 <= j < |rows| ==> |r[j]| == |rows[j]|
  {
    rows[y := rows[y][x := Round]][y + 1 := rows[y + 1][x := Empty]]
  }

  /** Row `y` of column `x` down to the south edge. */
  function Column(rows: Rows, x: nat): (c: seq<Tile>)
    requires Wide(rows) && x < |rows[0]|
    ensures |c| == |rows| && forall y :: 0 <= y < |rows| ==> c[y] == rows[y][x]
  {
    seq(|rows|, y requires 0 <= y < |rows| => rows[y][x])
  }

  /** `b` is `a` with round stones moved within their columns and never
      past a cube stone: same shape, the cube stones in place, every column
      of the first row's width holding the same tiles both in all and below
      each cube stone, and the cells beyond that width untouched. */
  predicate Moved(a: Rows, b: Rows)
    requires Wide(a)
  {
    |b| == |a| && (forall y :: 0 <= y < |a| ==> |b[y]| == |a[y]|)
    && Wide(b)
    && (forall y, x :: 0 <= y < |a| && 0 <= x < |a[y]| ==> (a[y][x] == Cube <==> b[y][x] == Cube))
    && (forall y, x :: 0 <= y < |a| && |a[0]| <= x < |a[y]| ==> b[y][x] == a[y][x])
    && (forall x :: 0 <= x < |a[0]| ==> multiset(Column(b, x)) == multiset(Column(a, x)))
    && forall y, x :: 0 <= y < |a| && 0 <= x < |a[0]| && a[y][x] == Cube ==>
         multiset(Column(b, x)[y + 1..]) == multiset(Column(a, x)[y + 1..])
  }

  lemma MovedRefl(a: Rows)
    requires Wide(a)
    ensures Moved(a, a)
  {
  }

  lemma MovedTrans(a: Rows, b: Rows, c: Rows)
    requires Wide(a) && Moved(a, b) && Moved(b, c)
    ensures Moved(a, c)
  {
    assert |b[0]| == |a[0]|;
    forall y, x | 0 <= y < |a| && 0 <= x < |a[0]| && a[y][x] == Cube
      ensures multiset(Column(c, x)[y + 1..]) == multiset(Column(a, x)[y + 1..])
    {
      assert b[y][x] == Cube;
    }
  }

  /** A swap moves a stone within its column, and nothing else. */
  lemma SwapMoved(rows: Rows, y: nat, x: nat)
    requires Wide(rows) && y + 1 < |rows| && x < |rows[0]| && Swappable(rows, y, x)
    ensures Moved(rows, Swap(rows, y, x))
  {
    var s := Swap(rows, y, x);
    forall c | 0 <= c < |rows[0]| ensures multiset(Column(s, c)) == multiset(Column(rows, c)) {
      SwapColumn(rows, y, x, c);
    }
    forall k, c | 0 <= k < |rows| && 0 <= c < |rows[0]| && rows[k][c] == Cube
      ensures multiset(Column(s, c)[k + 1..]) == multiset(Column(rows, c)[k + 1..])
    {
      SwapBelowCube(rows, y, x, k, c);
    }
  }

  lemma SwapColumn(rows: Rows, y: nat, x: nat, c: nat)
    requires Wide(rows) && y + 1 < |rows| && x < |rows[0]| && Swappable(rows, y, x) && c < |rows[0]|
    ensures Wide(Swap(rows, y, x))
    ensures multiset(Column(Swap(rows, y, x), c)) == multiset(Column(rows, c))
  {
    var s := Swap(rows, y, x);
    var col := Column(rows, c);
    if c == x {
      assert Column(s, c) == col[y := Round][y + 1 := Empty];
      assert col[y] == Empty && col[y + 1] == Round;
    } else {
      assert Column(s, c) == col;
    }
  }

  lemma SwapBelowCube(rows: Rows, y: nat, x: nat, k: nat, c: nat)
    requires Wide(rows) && y + 1 < |rows| && x < |rows[0]| && Swappable(rows, y, x)
    requires k < |rows| && c < |rows[0]| && rows[k][c] == Cube
    ensures Wide(Swap(rows, y, x))
    ensures multiset(Column(Swap(rows, y, x), c)[k + 1..]) == multiset(Column(rows, c)[k + 1..])
  {
    var s := Swap(rows, y, x);
    var col := Column(rows, c);
    if c != x {
      assert Column(s, c) == col;
    } else if k < y {
      var tail := col[k + 1..];
      assert Column(s, c)[k + 1..] == tail[y - k - 1 := Round][y - k := Empty];
      assert tail[y - k - 1] == Empty && tail[y - k] == Round;
    } else {
      assert Column(s, c)[k + 1..] == col[k + 1..];
    }
  }

  lemma RoundsUpdate(row: seq<Tile>, x: nat, v: Tile)
    requires x < |row|
    ensures RowRounds(row[x := v]) + Ind(row[x] == Round) == RowRounds(row) + Ind(v == Round)
  {
  }

  /** Rows from `y` on that agree have the same load and potential. */
  lemma {:induction false} MeasuresSame(a: Rows, b: Rows, y: nat)
    requires |a| == |b| && forall j :: y <= j < |a| ==> a[j] == b[j]
    ensures LoadFrom(a, y) == LoadFrom(b, y) && PotentialFrom(a, y) == PotentialFrom(b, y)
    decreases |a| - y
  {
    if y < |a| {
      MeasuresSame(a, b, y + 1);
    }
  }

  /** A stone rolling one row north raises the load by one and lowers the
      potential by one. */
  lemma {:induction false} SwapMeasures(rows: Rows, y: nat, x: nat, y0: nat)
    requires y + 1 < |rows| && x < |rows[y]| && x < |rows[y + 1]| && Swappable(rows, y, x) && y0 <= y
    ensures LoadFrom(Swap(rows, y, x), y0) == LoadFrom(rows, y0) + 1
    ensures PotentialFrom(Swap(rows, y, x), y0) + 1 == PotentialFrom(rows, y0)
    decreases y - y0
  {
    var s := Swap(rows, y, x);
    if y0 < y {
      SwapMeasures(rows, y, x, y0 + 1);
      assert s[y0] == rows[y0];
    } else {
      SwapMeasuresAt(rows, y, x);
    }
  }

  lemma SwapMeasuresAt(rows: Rows, y: nat, x: nat)
    requires y + 1 < |rows| && x < |rows[y]| && x < |rows[y + 1]| && Swappable(rows, y, x)
    ensures LoadFrom(Swap(rows, y, x), y) == LoadFrom(rows, y) + 1
    ensures PotentialFrom(Swap(rows, y, x), y) + 1 == PotentialFrom(rows, y)
  {
    var s := Swap(rows, y, x);
    MeasuresSame(s, rows, y + 2);
    RoundsUpdate(rows[y], x, Round);
    RoundsUpdate(rows[y + 1], x, Empty);
    SwapRowPair(|rows|, y, RowRounds(rows[y]), RowRounds(rows[y + 1]));
    assert LoadFrom(s, y) == (|rows| - y) * RowRounds(s[y]) + (|rows| - y - 1) * RowRounds(s[y + 1]) + LoadFrom(s, y + 2);
    assert PotentialFrom(s, y) == y * RowRounds(s[y]) + (y + 1) * RowRounds(s[y + 1]) + PotentialFrom(s, y + 2);
  }

  /** The arithmetic of one stone moving from row `y + 1` with `m2`
      stones to row `y` with `m1` stones, on a board of `n` rows. */
  lemma SwapRowPair(n: nat, y: nat, m1: nat, m2: nat)
    requires y + 1 < n && m2 >= 1
    ensures (n - y) * (m1 + 1) + (n - y - 1) * (m2 - 1) == (n - y) * m1 + (n - y - 1) * m2 + 1
    ensures y * (m1 + 1) + (y + 1) * (m2 - 1) + 1 == y * m1 + (y + 1) * m2
  {
    MulDist(n - y, m1, 1);
    MulDist(n - y - 1, m2 - 1, 1);
    MulDist(y, m1, 1);
    MulDist(y + 1, m2 - 1, 1);
  }

  /** Cell (`i`, `j`) does not come before (`x`, `y`) in row-major order. */
  predicate AtOrAfter(j: nat, i: nat, y: nat, x: nat) {
    j > y || (j == y && i >= x)
  }

  /** No round stone below an empty cell from (`x`, `y`) on. */
  predicate SettledFrom(rows: Rows, y: nat, x: nat)
    requires Wide(rows)
  {
    forall j, i :: 0 <= j && j + 1 < |rows| && 0 <= i < |rows[0]| && AtOrAfter(j, i, y, x) ==> !Swappable(rows, j, i)
  }

  /** No round stone anywhere directly below an empty cell: the fixpoint of
      `tilt_north`. */
  predicate Settled(rows: Rows)
    requires Wide(rows)
  {
    SettledFrom(rows, 0, 0)
  }

  /** The loops of `shift_north` from (`x`, `y`) on, with `changed` the flag
      so far: every round stone directly below an empty cell, in row-major
      order on the board as already changed, rolls one row north. */
  function ShiftFrom(rows: Rows, y: nat, x: nat, changed: bool): (r: (Rows, bool))
    requires Wide(rows) && x <= |rows[0]|
    ensures Moved(rows, r.0)
    ensures !r.1 ==> !changed && r.0 == rows
    ensures Potential(r.0) <= Potential(rows) && Load(rows) <= Load(r.0)
    ensures r.1 && !changed ==> Potential(r.0) < Potential(rows) && Load(rows) < Load(r.0)
    ensures r.1 == (changed || !SettledFrom(rows, y, x))
    decreases |rows| - y, |rows[0]| - x
  {
    if y + 1 >= |rows| then
      MovedRefl(rows);
      (rows, changed)
    else if x == |rows[0]| then
      ShiftFrom(rows, y + 1, 0, changed)
    else if Swappable(rows, y, x) then
      var s := Swap(rows, y, x);
      SwapMoved(rows, y, x);
      SwapMeasures(rows, y, x, 0);
      var r := ShiftFrom(s, y, x + 1, true);
      MovedTrans(rows, s, r.0);
      r
    else
      ShiftFrom(rows, y, x + 1, changed)
  }

  /** `Board::shift_north`: one pass; it reports a change exactly when some
      round stone lay directly below an empty cell. */
  function ShiftNorth(rows: Rows): (r: (Rows, bool))
    requires Wide(rows)
    ensures Moved(rows, r.0)
    ensures r.1 <==> !Settled(rows)
    ensures !r.1 ==> r.0 == rows
    ensures r.1 ==> Potential(r.0) < Potential(rows) && Load(r.0) > Load(rows)
  {
    ShiftFrom(rows, 0, 0, false)
  }

  /** `Board::tilt_north`: shift until nothing moves. Each productive pass
      lowers the potential, so the loop ends. */
  function TiltNorth(rows: Rows): (r: Rows)
    requires Wide(rows)
    ensures Moved(rows, r) && Settled(r)
    ensures Load(rows) <= Load(r)
    decreases Potential(rows)
  {
    var (s, changed) := ShiftNorth(rows);
    if changed then
      var r := TiltNorth(s);
      MovedTrans(rows, s, r);
      r
    else rows
  }

  /** A settled board is left as it is by a tilt. */
  lemma TiltSettled(rows: Rows)
    requires Wide(rows) && Settled(rows)
    ensures TiltNorth(rows) == rows
  {
  }

  // ----------------------------------------------------------------- rotate

  /** `Board::rotate_cw`: column `x` read from the south edge up becomes
      row `x`. */
  function RotateCw(rows: Rows): (r: Rows)
    requires Wide(rows)
    ensures |r| == |rows[0]| && forall x :: 0 <= x < |r| ==> |r[x]| == |rows|
    ensures forall x, k :: 0 <= x < |r| && 0 <= k < |rows| ==> r[x][k] == rows[|rows| - 1 - k][x]
  {
    seq(|rows[0]|, x requires 0 <= x < |rows[0]| =>
      seq(|rows|, k requires 0 <= k < |rows| => rows[|rows| - 1 - k][x]))
  }

  lemma RotateRectangular(rows: Rows)
    requires Tiltable(rows)
    ensures Rectangular(RotateCw(rows)) && Tiltable(RotateCw(rows))
  {
  }

  /** Two rotations turn the board upside down and mirror it. */
  lemma RotateTwice(rows: Rows)
    requires Rectangular(rows)
    ensures var h, w := |rows|, |rows[0]|;
      var r := RotateCw(RotateCw(rows));
      Rectangular(r) && |r| == h && |r[0]| == w
      && forall y, x :: 0 <= y < h && 0 <= x < w ==> r[y][x] == rows[h - 1 - y][w - 1 - x]
  {
    RotateRectangular(rows);
  }

  /** Four rotations give the board back. */
  lemma RotateFour(rows: Rows)
    requires Rectangular(rows)
    ensures RotateCw(RotateCw(RotateCw(RotateCw(rows)))) == rows
  {
    RotateTwice(rows);
    var r2 := RotateCw(RotateCw(rows));
    RotateTwice(r2);
    var r4 := RotateCw(RotateCw(r2));
    forall y | 0 <= y < |rows| ensures r4[y] == rows[y] {
    }
  }

  /** The two-by-two example: rotating puts the bottom-left tile in the
      top-left corner. */
  lemma RotateExample()
    ensures RotateCw([[Round, Empty], [Cube, Round]]) == [[Cube, Round], [Round, Empty]]
  {
    var b := [[Round, Empty], [Cube, Round]];
    var r := RotateCw(b);
    assert r[0][0] == Cube && r[0][1] == Round && r[1][0] == Round && r[1][1] == Empty;
    assert r[0] == [Cube, Round] && r[1] == [Round, Empty];
  }

  // ------------------------------------------------------------------ cycle

  /** `Board::perform_tilt_cycle`: tilt north and rotate clockwise, four
      times. */
  function Cycle(rows: Rows): (r: Rows)
    requires Tiltable(rows)
    ensures Rectangular(r) && Tiltable(r)
  {
    var a := TiltAndTurn(rows);
    var b := TiltAndTurn(a);
    var c := TiltAndTurn(b);
    TiltAndTurn(c)
  }

  function TiltAndTurn(rows: Rows): (r: Rows)
    requires Tiltable(rows)
    ensures Rectangular(r) && Tiltable(r)
  {
    var t := TiltNorth(rows);
    RotateRectangular(t);
    RotateCw(t)
  }

  /** A spin cycle on any board: boards that cannot be cycled are left as
      they are. Every board the part-2 loop reaches is tiltable, so that
      branch is never taken there. */
  function SpinCycle(rows: Rows): Rows {
    if Tiltable(rows) then Cycle(rows) else rows
  }

  /** `f` applied `n` times. */
  function Iterate<T>(f: T -> T, x: T, n: nat): T {
    if n == 0 then x else Iterate(f, f(x), n - 1)
  }

  lemma {:induction false} IterateAdd<T>(f: T -> T, x: T, m: nat, n: nat)
    ensures Iterate(f, x, m + n) == Iterate(f, Iterate(f, x, m), n)
    decreases m
  {
    if m > 0 {
      IterateAdd(f, f(x), m - 1, n);
    }
  }

  /** Once the value after `i` steps comes back after `i + p` steps, the
      values repeat with period `p`: after `i + a` steps the value is the
      one after `i + (a mod p)`. */
  lemma {:induction false} IteratePeriodic<T>(f: T -> T, x: T, i: nat, p: nat, a: nat)
    requires p > 0 && Iterate(f, x, i + p) == Iterate(f, x, i)
    ensures Iterate(f, x, i + a) == Iterate(f, x, i + Phase(a, p))
    decreases a
  {
    if a >= p {
      IteratePeriodic(f, x, i, p, a - p);
      IterateAdd(f, x, i + p, a - p);
      IterateAdd(f, x, i, a - p);
      assert i + a == (i + p) + (a - p);
    }
  }

  lemma {:induction false} PhaseAddPeriod(a: nat, p: nat)
    requires p > 0
    ensures Phase(p + a, p) == Phase(a, p)
  {
  }

  /** The number of spin cycles part 2 asks for. */
  const Steps: nat := 1000000000

  /** The first position of `b` in `history`. */
  function FirstIndex<T(==)>(history: seq<T>, b: T): (r: Option<nat>)
    ensures r.Some? ==> r.value < |history| && history[r.value] == b
    ensures r.None? <==> b !in history
  {
    if |history| == 0 then None
    else if history[0] == b then Some(0)
    else
      var rest := FirstIndex(history[1..], b);
      if rest.Some? then Some(rest.value + 1) else None
  }

  /** The loop of part 2 from iteration `i` on, `history[k]` being the
      board seen at iteration `k` (the cache, in insertion order): on the
      first board seen before, at iteration `j`, only `(steps - i) mod
      (i - j)` more cycles run. */
  function Skip<T(==)>(f: T -> T, board: T, history: seq<T>, i: nat, steps: nat): T
    requires i <= steps && |history| == i
    decreases steps - i
  {
    if i == steps then board
    else
      match FirstIndex(history, board)
      case Some(j) => Iterate(f, board, Phase(steps - i, i - j))
      case None => Skip(f, f(board), history + [board], i + 1, steps)
  }

  /** The cycle skip ends on the value that all `steps` applications
      reach. */
  lemma {:induction false} SkipCorrect<T>(f: T -> T, start: T, board: T, history: seq<T>, i: nat, steps: nat)
    requires i <= steps && |history| == i
    requires forall k :: 0 <= k < i ==> history[k] == Iterate(f, start, k)
    requires board == Iterate(f, start, i)
    ensures Skip(f, board, history, i, steps) == Iterate(f, start, steps)
    decreases steps - i
  {
    if i < steps {
      match FirstIndex(history, board)
      case Some(j) =>
        var p := i - j;
        var rem := Phase(steps - i, p);
        assert Iterate(f, start, j + p) == Iterate(f, start, j);
        // all steps land where j + rem steps do ...
        IteratePeriodic(f, start, j, p, steps - j);
        assert steps - j == p + (steps - i);
        PhaseAddPeriod(steps - i, p);
        // ... and so do i + rem = j + (p + rem) steps
        IteratePeriodic(f, start, j, p, p + rem);
        PhaseAddPeriod(rem, p);
        IterateAdd(f, start, i, rem);
      case None =>
        IterateAdd(f, start, i, 1);
        SkipCorrect(f, start, f(board), history + [board], i + 1, steps);
    }
  }

  /** Started with an empty cache, the skip ends where all `steps`
      applications do. */
  lemma SkipFromStart<T>(f: T -> T, start: T, steps: nat)
    ensures Skip(f, start, [], 0, steps) == Iterate(f, start, steps)
  {
    SkipCorrect(f, start, start, [], 0, steps);
  }

  // ---------------------------------------------------------------- parsing

  /** The tile of one character; any other character is an error. */
  function ParseTile(c: char): (r: Result<Tile>)
    ensures r.Ok? <==> c in ".O#"
    ensures r.Ok? ==> TileChar(r.value) == c
  {
    match c
    case '.' => Ok(Empty)
    case 'O' => Ok(Round)
    case '#' => Ok(Cube)
    case _ => Err("invalid character")
  }

  function TileChar(t: Tile): char {
    match t
    case Empty => '.'
    case Round => 'O'
    case Cube => '#'
  }

  lemma TileCharRoundTrip(t: Tile)
    ensures ParseTile(TileChar(t)) == Ok(t)
  {
  }

  /** `parse_board`: one tile per character. */
  function ParseBoard(lines: seq<string>): (r: Result<Rows>)
    ensures r.Ok? <==> forall y, x :: 0 <= y < |lines| && 0 <= x < |lines[y]| ==> lines[y][x] in ".O#"
    ensures r.Ok? ==> |r.value| == |lines| && forall y :: 0 <= y < |lines| ==>
      |r.value[y]| == |lines[y]| && forall x :: 0 <= x < |lines[y]| ==> TileChar(r.value[y][x]) == lines[y][x]
  {
    var r := MapAllOk(lines, (line: string) => MapAllOk(line, ParseTile));
    assert r.Ok? ==> forall y :: 0 <= y < |lines| ==> MapAllOk(lines[y], ParseTile).Ok?;
    r
  }

  /** The example of the tests: ".O" and "#." parse to the board used in
      the rotation and load examples. */
  lemma ParseExample()
    ensures ParseBoard([".O", "#."]) == Ok([[Empty, Round], [Cube, Empty]])
  {
    var lines := [".O", "#."];
    assert lines[0][0] == '.' && lines[0][1] == 'O' && lines[1][0] == '#' && lines[1][1] == '.';
    var r := ParseBoard(lines);
    assert r.Ok?;
    var b := r.value;
    assert |b| == 2 && |b[0]| == 2 && |b[1]| == 2;
    TileCharRoundTrip(b[0][0]);
    TileCharRoundTrip(b[0][1]);
    TileCharRoundTrip(b[1][0]);
    TileCharRoundTrip(b[1][1]);
    assert b[0] == [Empty, Round] && b[1] == [Cube, Empty];
    assert b == [[Empty, Round], [Cube, Empty]];
    assert r == Ok(b);
  }

  // -------------------------------------------------------------------- run

  /** The load at the end of part 2: the cycle skip lands on the board
      that all `Steps` spin cycles reach. */
  function SpunLoad(rows: Rows, steps: nat): (r: nat)
    requires Tiltable(rows)
    ensures r == Load(Iterate(SpinCycle, rows, steps))
  {
    SkipFromStart(SpinCycle, rows, steps);
    Load(Skip(SpinCycle, rows, [], 0, steps))
  }

  /** `run`: the load after one tilt north (part 1) or after `Steps` spin
      cycles (part 2). An empty input, a row shorter than the first, or (in
      part 2) an empty first row makes the source panic. */
  function Run(lines: seq<string>, part1: bool): (r: Result<nat>)
    ensures r.Ok? <==> ParseBoard(lines).Ok? &&
                       (if part1 then Wide(ParseBoard(lines).value) else Tiltable(ParseBoard(lines).value))
    ensures r.Ok? && part1 ==>
              var rows := ParseBoard(lines).value;
              && Load(rows) <= r.value
              && exists b :: Moved(rows, b) && Settled(b) && Load(b) == r.value
    ensures r.Ok? && !part1 ==> r.value == Load(Iterate(SpinCycle, ParseBoard(lines).value, Steps))
  {
    var rows :- ParseBoard(lines);
    if part1 then
      if Wide(rows) then Ok(Load(TiltNorth(rows))) else Err("short or empty board")
    else if Tiltable(rows) then Ok(SpunLoad(rows, Steps))
    else Err("short or empty board")
  }
}
