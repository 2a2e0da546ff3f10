/** Day 13: lines of reflection in patterns of ash and rocks (src/d13.rs).

    A board is a sequence of rows of cells, `true` for rock ('#'). A
    horizontal line of reflection sits between two rows; vertical ones are
    found as horizontal lines of the transposed board. */
module Mirrors {
  import opened Wrappers
  import opened Collections

  type Rows = seq<seq<bool>>

  // ------------------------------------------------------------ reflections

  /** Row `k-1-d` equals row `k+d`: the pair at distance `d` from the line
      above row `k`. */
  predicate PairMatches(rows: Rows, k: int, d: int)
    requires 0 <= d < k && k + d < |rows|
  {
    rows[k - 1 - d] == rows[k + d]
  }

  /** A line of reflection above row `k`: every pair of rows at the same
      distance from the line matches, until one side runs out of rows. */
  predicate IsReflection(rows: Rows, k: int) {
    1 <= k < |rows| && forall d :: 0 <= d < k && k + d < |rows| ==> PairMatches(rows, k, d)
  }

  /** The inner loop of `horizontal_reflections` for the line above row
      `k` (`y + 1` in `horizontal_reflections`), from distance `d` on: stop at the first
      pair of rows that differ, and succeed when the pair reached an edge of
      the board. */
  function ScanMirror(rows: Rows, k: nat, d: nat): bool
    requires d < k && k + d < |rows|
    decreases k - d
  {
    if rows[k - 1 - d] != rows[k + d] then false
    else if k - 1 - d == 0 || k + d == |rows| - 1 then true
    else ScanMirror(rows, k, d + 1)
  }

  /** The scan succeeds exactly when every remaining pair matches. */
  lemma {:induction false} ScanMirrorCorrect(rows: Rows, k: nat, d: nat)
    requires d < k && k + d < |rows|
    ensures ScanMirror(rows, k, d) <==>
      forall e :: d <= e < k && k + e < |rows| ==> PairMatches(rows, k, e)
    decreases k - d
  {
    if rows[k - 1 - d] != rows[k + d] {
      assert !PairMatches(rows, k, d);
    } else if k - 1 - d == 0 || k + d == |rows| - 1 {
    } else {
      ScanMirrorCorrect(rows, k, d + 1);
    }
  }

  /** The lines found by the outer loop from row `y` on. */
  function ReflectionsFrom(rows: Rows, y: nat): (r: seq<nat>)
    requires y < |rows|
    ensures forall k :: k in r <==> y < k && IsReflection(rows, k)
    ensures forall i :: 0 <= i < |r| ==> y < r[i]
    ensures Increasing(r)
    decreases |rows| - y
  {
    if y + 1 == |rows| then []
    else
      ScanMirrorCorrect(rows, y + 1, 0);
      (if ScanMirror(rows, y + 1, 0) then [y + 1] else []) + ReflectionsFrom(rows, y + 1)
  }

  /** `Board::horizontal_reflections`: every line of reflection, in
      ascending order. The source subtracts 1 from the row count, so a board
      needs at least one row. */
  function HorizontalReflections(rows: Rows): (r: seq<nat>)
    requires |rows| >= 1
    ensures forall k :: k in r <==> IsReflection(rows, k)
    ensures Increasing(r)
  {
    ReflectionsFrom(rows, 0)
  }

  /** A board of one row has no line of reflection, and a board whose two
      halves mirror each other has one in the middle. */
  lemma ReflectionExamples(row: seq<bool>, other: seq<bool>)
    ensures HorizontalReflections([row]) == []
    ensures HorizontalReflections([row, row]) == [1]
    ensures row != other ==> HorizontalReflections([row, other]) == []
  {
    var two := [row, row];
    assert ReflectionsFrom(two, 1) == [];
    assert ScanMirror(two, 1, 0);
    assert ReflectionsFrom(two, 0) == [1] + [];
    if row != other {
      var diff := [row, other];
      assert ReflectionsFrom(diff, 1) == [];
      assert !ScanMirror(diff, 1, 0);
      assert ReflectionsFrom(diff, 0) == [] + [];
    }
  }

  // ------------------------------------------------------------- transpose

  /** Every row is at least as long as the first: what `transposed` and
      `fuzzy_horizontal_reflection` index without panicking. */
  predicate Wide(rows: Rows) {
    |rows| > 0 && forall y :: 0 <= y < |rows| ==> |rows[0]| <= |rows[y]|
  }

  /** All rows have the same, positive length. */
  predicate Rectangular(rows: Rows) {
    |rows| > 0 && |rows[0]| > 0 && forall y :: 0 <= y < |rows| ==> |rows[y]| == |rows[0]|
  }

  /** `Board::transposed`: column `x` of the board (over the width of the
      first row) becomes row `x`. */
  function Transposed(rows: Rows): (t: Rows)
    requires Wide(rows)
    ensures |t| == |rows[0]|
    ensures forall x :: 0 <= x < |t| ==> |t[x]| == |rows|
    ensures forall x, y :: 0 <= x < |t| && 0 <= y < |rows| ==> t[x][y] == rows[y][x]
  {
    seq(|rows[0]|, x requires 0 <= x < |rows[0]| => seq(|rows|, y requires 0 <= y < |rows| => rows[y][x]))
  }

  /** Transposing a rectangular board twice gives the board back. */
  lemma TransposeTwice(rows: Rows)
    requires Rectangular(rows)
    ensures Rectangular(Transposed(rows))
    ensures Transposed(Transposed(rows)) == rows
  {
    var t := Transposed(rows);
    var tt := Transposed(t);
    assert |tt| == |rows|;
    forall y | 0 <= y < |rows| ensures tt[y] == rows[y] {
      assert |tt[y]| == |rows[y]|;
    }
  }

  /** A vertical line of reflection left of column `k`: in every row,
      column `k-1-d` equals column `k+d` until one side runs out. */
  predicate IsColumnReflection(rows: Rows, k: int)
    requires Wide(rows)
  {
    1 <= k < |rows[0]|
    && forall d :: 0 <= d < k && k + d < |rows[0]| ==> ColumnPairMatches(rows, k, d)
  }

  /** Columns `k-1-d` and `k+d` agree in every row. */
  predicate ColumnPairMatches(rows: Rows, k: int, d: int)
    requires Wide(rows) && 0 <= d < k && k + d < |rows[0]|
  {
    ColumnsMatch(rows, k - 1 - d, k + d)
  }

  /** Columns `a` and `b` agree in every row. */
  predicate ColumnsMatch(rows: Rows, a: nat, b: nat)
    requires Wide(rows) && a < |rows[0]| && b < |rows[0]|
  {
    forall y :: 0 <= y < |rows| ==> rows[y][a] == rows[y][b]
  }

  /** Two rows of the transposed board are equal exactly when the two
      columns agree in every row. */
  lemma ColumnsEqual(rows: Rows, a: nat, b: nat)
    requires Wide(rows) && a < |rows[0]| && b < |rows[0]|
    ensures Transposed(rows)[a] == Transposed(rows)[b] <==> ColumnsMatch(rows, a, b)
  {
    var t := Transposed(rows);
    if forall y :: 0 <= y < |rows| ==> rows[y][a] == rows[y][b] {
      assert forall y :: 0 <= y < |rows| ==> t[a][y] == t[b][y];
    } else {
      var y :| 0 <= y < |rows| && rows[y][a] != rows[y][b];
      assert t[a][y] != t[b][y];
    }
  }

  /** The horizontal lines of the transposed board are exactly the vertical
      lines of the board. */
  lemma VerticalReflections(rows: Rows, k: int)
    requires Wide(rows) && |rows[0]| >= 1
    ensures k in HorizontalReflections(Transposed(rows)) <==> IsColumnReflection(rows, k)
  {
    var t := Transposed(rows);
    if 1 <= k < |t| {
      forall d | 0 <= d < k && k + d < |t|
        ensures PairMatches(t, k, d) <==> ColumnPairMatches(rows, k, d)
      {
        ColumnsEqual(rows, k - 1 - d, k + d);
      }
    }
  }

  // ---------------------------------------------------------------- smudges

  /** The board with the cell at (`x`, `y`) flipped. */
  function Flip(rows: Rows, y: nat, x: nat): (r: Rows)
    requires y < |rows| && x < |rows[y]|
    ensures |r| == |rows| && |r[y]| == |rows[y]|
    ensures r[y][x] == !rows[y][x]
    ensures forall j, i :: 0 <= j < |rows| && 0 <= i < |rows[j]| && (j, i) != (y, x) ==> |r[j]| == |rows[j]| && r[j][i] == rows[j][i]
  {
    rows[y := rows[y][x := !rows[y][x]]]
  }

  /** Flipping the same cell back restores the board, which is why
      `fuzzy_horizontal_reflection` leaves its board unchanged. */
  lemma FlipTwice(rows: Rows, y: nat, x: nat)
    requires y < |rows| && x < |rows[y]|
    ensures Flip(Flip(rows, y, x), y, x) == rows
  {
    var f := Flip(Flip(rows, y, x), y, x);
    assert f[y] == rows[y];
  }

  /** The first line of `fixed` that is not among `originals`. */
  function FirstNew(fixed: seq<nat>, originals: seq<nat>): (r: Option<nat>)
    ensures r.Some? ==> r.value in fixed && r.value !in originals
    ensures r.None? <==> forall i :: 0 <= i < |fixed| ==> fixed[i] in originals
    ensures r.Some? && Increasing(fixed) ==> forall i :: 0 <= i < |fixed| && fixed[i] !in originals ==> r.value <= fixed[i]
  {
    if |fixed| == 0 then None
    else if fixed[0] !in originals then Some(fixed[0])
    else FirstNew(fixed[1..], originals)
  }

  /** The new line of reflection after flipping the cell at (`x`, `y`). */
  function NewAfterFlip(rows: Rows, originals: seq<nat>, y: nat, x: nat): Option<nat>
    requires y < |rows| && x < |rows[y]|
  {
    FirstNew(HorizontalReflections(Flip(rows, y, x)), originals)
  }

  /** Row-major order on cells, the order in which `fuzzy_horizontal_reflection` flips them. */
  predicate CellBefore(y1: nat, x1: nat, y2: nat, x2: nat) {
    y1 < y2 || (y1 == y2 && x1 < x2)
  }

  /** The loops of `fuzzy_horizontal_reflection` from the cell at (`x`, `y`)
      on: the first cell whose flip brings a new line, with that line. */
  function FindSmudge(rows: Rows, originals: seq<nat>, y: nat, x: nat): (r: Option<(nat, nat, nat)>)
    requires Wide(rows) && y <= |rows| && x <= |rows[0]|
    ensures r.Some? ==>
      var (sy, sx, k) := r.value;
      sy < |rows| && sx < |rows[0]| && !CellBefore(sy, sx, y, x)
      && NewAfterFlip(rows, originals, sy, sx) == Some(k)
      && forall j, i :: 0 <= j < |rows| && 0 <= i < |rows[0]| && !CellBefore(j, i, y, x) && CellBefore(j, i, sy, sx)
           ==> NewAfterFlip(rows, originals, j, i).None?
    ensures r.None? ==>
      forall j, i :: 0 <= j < |rows| && 0 <= i < |rows[0]| && !CellBefore(j, i, y, x)
        ==> NewAfterFlip(rows, originals, j, i).None?
    decreases |rows| - y, |rows[0]| - x
  {
    if y == |rows| then None
    else if x == |rows[0]| then FindSmudge(rows, originals, y + 1, 0)
    else match NewAfterFlip(rows, originals, y, x)
      case Some(k) => Some((y, x, k))
      case None => FindSmudge(rows, originals, y, x + 1)
  }

  /** `Board::fuzzy_horizontal_reflection`. */
  function FuzzyReflection(rows: Rows): (r: Option<nat>)
    requires Wide(rows)
  {
    match FindSmudge(rows, HorizontalReflections(rows), 0, 0)
    case Some((_, _, k)) => Some(k)
    case None => None
  }

  /** A fuzzy line is a line of reflection of the board with one cell
      flipped that was not a line of the board itself; there is none only
      when no single flip brings a new line. */
  lemma FuzzySpec(rows: Rows)
    requires Wide(rows)
    ensures FuzzyReflection(rows).Some? ==>
      exists y, x :: 0 <= y < |rows| && 0 <= x < |rows[0]|
        && IsReflection(Flip(rows, y, x), FuzzyReflection(rows).value)
        && !IsReflection(rows, FuzzyReflection(rows).value)
    ensures FuzzyReflection(rows).None? <==>
      forall y, x, k :: 0 <= y < |rows| && 0 <= x < |rows[0]| && IsReflection(Flip(rows, y, x), k) ==> IsReflection(rows, k)
  {
    var originals := HorizontalReflections(rows);
    var s := FindSmudge(rows, originals, 0, 0);
    if s.Some? {
      var (y, x, k) := s.value;
      assert NewAfterFlip(rows, originals, y, x) == Some(k);
      assert IsReflection(Flip(rows, y, x), k) && !IsReflection(rows, k);
    } else {
      forall y, x, k | 0 <= y < |rows| && 0 <= x < |rows[0]| && IsReflection(Flip(rows, y, x), k)
        ensures IsReflection(rows, k)
      {
        assert !CellBefore(y, x, 0, 0);
        assert NewAfterFlip(rows, originals, y, x).None?;
        var fixed := HorizontalReflections(Flip(rows, y, x));
        assert k in fixed;
      }
    }
  }

  // ---------------------------------------------------------------- parsing

  /** `parse_board`: '#' is rock, every other character is ash. */
  function ParseBoard(lines: seq<string>): (rows: Rows)
    ensures |rows| == |lines|
    ensures forall y :: 0 <= y < |lines| ==> |rows[y]| == |lines[y]|
  {
    seq(|lines|, y requires 0 <= y < |lines| => seq(|lines[y]|, x requires 0 <= x < |lines[y]| => lines[y][x] == '#'))
  }

  function ShowBoard(rows: Rows): seq<string> {
    seq(|rows|, y requires 0 <= y < |rows| => seq(|rows[y]|, x requires 0 <= x < |rows[y]| => if rows[y][x] then '#' else '.'))
  }

  predicate AshAndRocks(lines: seq<string>) {
    forall y, x :: 0 <= y < |lines| && 0 <= x < |lines[y]| ==> lines[y][x] in "#."
  }

  /** Parsing undoes showing, and showing undoes parsing on boards of '#'
      and '.' only. */
  lemma ParseShowBoard(rows: Rows, lines: seq<string>)
    ensures ParseBoard(ShowBoard(rows)) == rows
    ensures AshAndRocks(lines) ==> ShowBoard(ParseBoard(lines)) == lines
  {
    var p := ParseBoard(ShowBoard(rows));
    forall y | 0 <= y < |rows| ensures p[y] == rows[y] {
    }
    if AshAndRocks(lines) {
      var s := ShowBoard(ParseBoard(lines));
      forall y | 0 <= y < |lines| ensures s[y] == lines[y] {
        forall x | 0 <= x < |lines[y]| ensures s[y][x] == lines[y][x] {
          assert lines[y][x] in "#.";
        }
      }
    }
  }

  // -------------------------------------------------------------------- run

  /** The end of the board that starts at line `i`: the next empty line,
      or the end of the input. */
  function BlockEnd(lines: seq<string>, i: nat): (j: nat)
    requires i <= |lines|
    ensures i <= j <= |lines|
    ensures forall m :: i <= m < j ==> lines[m] != ""
    ensures j < |lines| ==> lines[j] == ""
    decreases |lines| - i
  {
    if i == |lines| || lines[i] == "" then i else BlockEnd(lines, i + 1)
  }

  /** Non-empty boards of non-empty lines. */
  predicate Boards(bs: seq<seq<string>>) {
    forall n :: 0 <= n < |bs| ==> |bs[n]| > 0 && forall m :: 0 <= m < |bs[n]| ==> bs[n][m] != ""
  }

  /** The boards of `run` from line `i` on: take the lines up to the next
      empty one, drop that empty line, and stop at the first empty board. */
  function Blocks(lines: seq<string>, i: nat): (bs: seq<seq<string>>)
    requires i <= |lines|
    ensures Boards(bs)
    decreases |lines| - i
  {
    var j := BlockEnd(lines, i);
    if j == i then []
    else [lines[i..j]] + Blocks(lines, if j < |lines| then j + 1 else j)
  }

  /** The boards put back together, each followed by an empty line. */
  function JoinBlocks(bs: seq<seq<string>>): seq<string> {
    if |bs| == 0 then [] else bs[0] + [""] + JoinBlocks(bs[1..])
  }

  /** One step of `Blocks` and of `JoinBlocks` together. */
  lemma BlocksStep(lines: seq<string>, i: nat)
    requires i <= |lines| && BlockEnd(lines, i) != i
    ensures var j := BlockEnd(lines, i);
      JoinBlocks(Blocks(lines, i)) == lines[i..j] + [""] + JoinBlocks(Blocks(lines, if j < |lines| then j + 1 else j))
  {
    var j := BlockEnd(lines, i);
    var rest := Blocks(lines, if j < |lines| then j + 1 else j);
    assert ([lines[i..j]] + rest)[1..] == rest;
  }

  /** The boards, each followed by its separator, are a prefix of the
      input (with one empty line added at the end). */
  lemma {:induction false} BlocksPrefix(lines: seq<string>, i: nat)
    requires i <= |lines|
    ensures JoinBlocks(Blocks(lines, i)) <= (lines + [""])[i..]
    decreases |lines| - i
  {
    var j := BlockEnd(lines, i);
    if j != i {
      var next := if j < |lines| then j + 1 else j;
      BlocksPrefix(lines, next);
      BlocksStep(lines, i);
      SeparatorAt(lines, i, j);
      if j < |lines| {
        PrefixAppend(lines[i..j] + [""], JoinBlocks(Blocks(lines, next)), (lines + [""])[next..]);
      } else {
        assert Blocks(lines, next) == [];
      }
    }
  }

  /** The input from line `i` on is the board up to line `j`, an empty
      line, and the rest. */
  lemma SeparatorAt(lines: seq<string>, i: nat, j: nat)
    requires i <= j <= |lines| && (j < |lines| ==> lines[j] == "")
    ensures (lines + [""])[i..] == lines[i..j] + [""] + (lines + [""])[j + 1..]
  {
    var all := lines + [""];
    assert all[i..] == all[i..j] + [all[j]] + all[j + 1..];
    assert all[i..j] == lines[i..j];
  }

  lemma PrefixAppend<T>(a: seq<T>, b: seq<T>, c: seq<T>)
    requires b <= c
    ensures a + b <= a + c
  {
    assert (a + c)[..|a + b|] == a + b;
  }

  /** Input where every empty line is followed by a non-empty one. */
  predicate WellSpaced(lines: seq<string>) {
    forall m :: 0 <= m < |lines| && lines[m] == "" ==> m + 1 < |lines| && lines[m + 1] != ""
  }

  /** When the input does not start with an empty line and no two empty
      lines are adjacent, the boards cover all of it. */
  lemma {:induction false} BlocksComplete(lines: seq<string>, i: nat)
    requires i < |lines| && lines[i] != "" && WellSpaced(lines)
    ensures JoinBlocks(Blocks(lines, i)) == (lines + [""])[i..]
    decreases |lines| - i
  {
    var j := BlockEnd(lines, i);
    BlocksStep(lines, i);
    SeparatorAt(lines, i, j);
    if j < |lines| {
      BlocksComplete(lines, j + 1);
    } else {
      assert Blocks(lines, j) == [];
    }
  }

  /** An absent line counts 0. */
  function OrZero(o: Option<nat>): nat {
    if o.Some? then o.value else 0
  }

  /** The score of one board: 100 per row above each horizontal line plus
      one per column left of each vertical line. A board with a row shorter
      than its first makes `Board::transposed` index past a row's end. */
  function BoardScore(lines: seq<string>, part1: bool): (r: Result<nat>)
    requires |lines| > 0 && |lines[0]| > 0
    ensures r.Ok? <==> Wide(ParseBoard(lines))
  {
    var rows := ParseBoard(lines);
    if !Wide(rows) then Err("row shorter than the first")
    else if part1 then Ok(100 * Sum(HorizontalReflections(rows)) + Sum(HorizontalReflections(Transposed(rows))))
    else Ok(100 * OrZero(FuzzyReflection(rows)) + OrZero(FuzzyReflection(Transposed(rows))))
  }

  /** The scores of all boards added up; it fails exactly when some board
      has a row shorter than its first. */
  function ScoreBlocks(bs: seq<seq<string>>, part1: bool): (r: Result<nat>)
    requires Boards(bs)
    ensures r.Ok? <==> forall n :: 0 <= n < |bs| ==> Wide(ParseBoard(bs[n]))
    ensures r.Ok? && |bs| > 0 ==> BoardScore(bs[0], part1).value <= r.value
  {
    if |bs| == 0 then Ok(0)
    else
      var s :- BoardScore(bs[0], part1);
      var rest :- ScoreBlocks(bs[1..], part1);
      assert forall n :: 1 <= n < |bs| ==> bs[1..][n - 1] == bs[n];
      Ok(s + rest)
  }

  /** Every board read has each row at least as long as its first. */
  predicate AllWide(bs: seq<seq<string>>) {
    forall n :: 0 <= n < |bs| ==> Wide(ParseBoard(bs[n]))
  }

  /** `run`: the sum of the scores of the boards read up to the first empty
      one; it fails exactly when one of them has a row shorter than its
      first. */
  function Run(lines: seq<string>, part1: bool): (r: Result<nat>)
    ensures r.Ok? <==> AllWide(Blocks(lines, 0))
    ensures r.Ok? && |Blocks(lines, 0)| > 0 ==> BoardScore(Blocks(lines, 0)[0], part1).value <= r.value
  {
    ScoreBlocks(Blocks(lines, 0), part1)
  }
}
