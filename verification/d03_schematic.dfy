/** Day 3: the engine schematic (src/d3.rs).

    Symbols are the characters that are neither ASCII digits nor '.'.
    Numbers are read per line by a scan whose running value doubles as the
    "inside a number" flag: leading zeros are not part of a number, and a
    digit run whose value is 0 is never reported. */
module Schematic {
  import opened Text

  /** A number of the schematic: its first (non-zero) digit at column `x`
      of row `y`, `digits` characters long. */
  datatype Number = Number(x: nat, y: nat, digits: nat, value: nat)

  predicate IsSymbol(c: char) {
    !IsDigit(c) && c != '.'
  }

  // --------------------------------------------------------------- symbols

  /** `parse_symbols`: every symbol character keyed by (column, row). */
  method ParseSymbols(lines: seq<string>) returns (symbols: map<(nat, nat), char>)
    ensures forall x: nat, y: nat :: (x, y) in symbols <==> (y < |lines| && x < |lines[y]| && IsSymbol(lines[y][x]))
    ensures forall x: nat, y: nat :: (x, y) in symbols ==> symbols[(x, y)] == lines[y][x]
  {
    symbols := map[];
    var y := 0;
    while y < |lines|
      invariant y <= |lines|
      invariant forall px: nat, py: nat :: (px, py) in symbols <==> (py < y && px < |lines[py]| && IsSymbol(lines[py][px]))
      invariant forall px: nat, py: nat :: (px, py) in symbols ==> symbols[(px, py)] == lines[py][px]
    {
      var x := 0;
      while x < |lines[y]|
        invariant x <= |lines[y]|
        invariant forall px: nat, py: nat :: (px, py) in symbols <==>
                    ((py < y && px < |lines[py]| && IsSymbol(lines[py][px])) || (py == y && px < x && IsSymbol(lines[py][px])))
        invariant forall px: nat, py: nat :: (px, py) in symbols ==> symbols[(px, py)] == lines[py][px]
      {
        var ch := lines[y][x];
        if !IsDigit(ch) && ch != '.' {
          symbols := symbols[(x, y) := ch];
        }
        x := x + 1;
      }
      y := y + 1;
    }
  }

  /** The symbol map as a comprehension. */
  function SymbolsOf(lines: seq<string>): map<(nat, nat), char> {
    map y: nat, x: nat | y < |lines| && x < |lines[y]| && IsSymbol(lines[y][x]) :: (x, y) := lines[y][x]
  }

  /** The loop of `parse_symbols` builds exactly the comprehension. */
  lemma ParseSymbolsMap(lines: seq<string>, symbols: map<(nat, nat), char>)
    requires forall x: nat, y: nat :: (x, y) in symbols <==> (y < |lines| && x < |lines[y]| && IsSymbol(lines[y][x]))
    requires forall x: nat, y: nat :: (x, y) in symbols ==> symbols[(x, y)] == lines[y][x]
    ensures symbols == SymbolsOf(lines)
  {
    var m := SymbolsOf(lines);
    forall p | p in symbols
      ensures p in m && m[p] == symbols[p]
    {
      var (x, y) := p;
      assert y < |lines| && x < |lines[y]| && IsSymbol(lines[y][x]);
    }
    forall p | p in m
      ensures p in symbols
    {
      var y: nat, x: nat :| y < |lines| && x < |lines[y]| && IsSymbol(lines[y][x]) && p == (x, y);
      assert (x, y) in symbols;
    }
  }

  // --------------------------------------------------------------- numbers

  /** The scan of `parse_numbers` over row `y` from column `x`, with the
      loop state `start` (start_x) and `num` (the running value). */
  function Scan(line: string, y: nat, x: nat, start: nat, num: nat): seq<Number>
    requires start <= x <= |line|
    decreases |line| - x
  {
    if x == |line| then
      if num > 0 then [Number(start, y, |line| - start, num)] else []
    else if IsDigit(line[x]) then
      Scan(line, y, x + 1, if num == 0 then x else start, num * 10 + DigitVal(line[x]))
    else if num > 0 then
      [Number(start, y, x - start, num)] + Scan(line, y, x + 1, start, 0)
    else
      Scan(line, y, x + 1, start, 0)
  }

  /** The end of the digit run containing column `x`. */
  function RunEnd(line: string, x: nat): (b: nat)
    requires x <= |line|
    ensures x <= b <= |line|
    ensures forall k :: x <= k < b ==> IsDigit(line[k])
    ensures b == |line| || !IsDigit(line[b])
    decreases |line| - x
  {
    if x == |line| || !IsDigit(line[x]) then x else RunEnd(line, x + 1)
  }

  /** The first column in [x, b) that is not '0', or b. */
  function SkipZeros(line: string, x: nat, b: nat): (a: nat)
    requires x <= b <= |line|
    ensures x <= a <= b
    ensures forall k :: x <= k < a ==> line[k] == '0'
    ensures a == b || line[a] != '0'
    decreases b - x
  {
    if x == b || line[x] != '0' then x else SkipZeros(line, x + 1, b)
  }

  /** Reference reading of a row, run by run: each maximal digit run, with
      its leading zeros dropped, is a number unless nothing is left. */
  function Runs(line: string, y: nat, x: nat): seq<Number>
    requires x <= |line|
    decreases |line| - x
  {
    if x == |line| then []
    else if !IsDigit(line[x]) then Runs(line, y, x + 1)
    else
      var b := RunEnd(line, x);
      var a := SkipZeros(line, x, b);
      if a < b then [Number(a, y, b - a, DigitsValue(line[a..b]))] + Runs(line, y, b)
      else Runs(line, y, b)
  }

  lemma RunEndStep(line: string, x: nat)
    requires x < |line| && IsDigit(line[x])
    ensures RunEnd(line, x) == RunEnd(line, x + 1)
  {
  }

  /** Within a run whose value so far is `num > 0`, the scan reports the rest
      of the run as one number and then reads like `Runs`. */
  lemma {:induction false} ScanInRun(line: string, y: nat, x: nat, start: nat, num: nat)
    requires x <= |line| && start < x
    requires forall k :: start <= k < x ==> IsDigit(line[k])
    requires line[start] != '0' && num > 0 && num == DigitsValue(line[start..x])
    ensures var b := RunEnd(line, x);
            Scan(line, y, x, start, num) == [Number(start, y, b - start, DigitsValue(line[start..b]))] + Runs(line, y, b)
    decreases |line| - x, 1
  {
    if x == |line| {
      assert Runs(line, y, x) == [];
    } else if IsDigit(line[x]) {
      DigitsStep(line, start, x);
      ScanInRun(line, y, x + 1, start, num * 10 + DigitVal(line[x]));
      ScanRunGrows(line, y, x, start, num);
    } else {
      ScanOutside(line, y, x + 1, start);
      ScanRunStops(line, y, x, start, num);
    }
  }

  /** One more digit of the run: the scan and the run's end both move on. */
  lemma ScanRunGrows(line: string, y: nat, x: nat, start: nat, num: nat)
    requires start < x < |line| && IsDigit(line[x]) && num > 0
    requires forall k :: start <= k < x ==> IsDigit(line[k])
    requires Scan(line, y, x + 1, start, num * 10 + DigitVal(line[x]))
             == [Number(start, y, RunEnd(line, x + 1) - start, DigitsValue(line[start..RunEnd(line, x + 1)]))] + Runs(line, y, RunEnd(line, x + 1))
    ensures Scan(line, y, x, start, num)
            == [Number(start, y, RunEnd(line, x) - start, DigitsValue(line[start..RunEnd(line, x)]))] + Runs(line, y, RunEnd(line, x))
  {
    RunEndStep(line, x);
  }

  /** A run ends at a non-digit: the scan reports it and reads on with the
      running value 0. */
  lemma ScanRunStops(line: string, y: nat, x: nat, start: nat, num: nat)
    requires start < x < |line| && !IsDigit(line[x]) && num > 0
    requires forall k :: start <= k < x ==> IsDigit(line[k])
    requires num == DigitsValue(line[start..x])
    requires Scan(line, y, x + 1, start, 0) == Runs(line, y, x + 1)
    ensures Scan(line, y, x, start, num) == [Number(start, y, RunEnd(line, x) - start, DigitsValue(line[start..RunEnd(line, x)]))] + Runs(line, y, RunEnd(line, x))
  {
    assert RunEnd(line, x) == x;
    assert Runs(line, y, x) == Runs(line, y, x + 1);
  }

  /** One more digit at the end shifts the value by one decimal place. */
  lemma DigitsStep(line: string, start: nat, x: nat)
    requires start <= x < |line| && IsDigit(line[x])
    requires forall k :: start <= k < x ==> IsDigit(line[k])
    ensures DigitsValue(line[start..x + 1]) == DigitsValue(line[start..x]) * 10 + DigitVal(line[x])
  {
    assert line[start..x + 1][..x - start] == line[start..x];
  }

  /** With the running value 0, the scan reads exactly like `Runs`, whatever
      the stale start column. */
  lemma {:induction false} ScanOutside(line: string, y: nat, x: nat, start: nat)
    requires start <= x <= |line|
    ensures Scan(line, y, x, start, 0) == Runs(line, y, x)
    decreases |line| - x, 0
  {
    if x < |line| {
      if !IsDigit(line[x]) {
        ScanOutside(line, y, x + 1, start);
      } else if line[x] == '0' {
        ScanOutside(line, y, x + 1, x);
        RunsLeadingZero(line, y, x);
      } else {
        OneDigit(line, x);
        ScanInRun(line, y, x + 1, x, DigitVal(line[x]));
        ScanRunStarts(line, y, x, start);
      }
    }
  }

  lemma OneDigit(line: string, x: nat)
    requires x < |line| && IsDigit(line[x])
    ensures DigitsValue(line[x..x + 1]) == DigitVal(line[x])
  {
    assert line[x..x + 1] == [line[x]];
    assert line[x..x + 1][..0] == [];
  }

  /** A non-zero digit after a gap starts a run, read as one number. */
  lemma ScanRunStarts(line: string, y: nat, x: nat, start: nat)
    requires start <= x < |line| && IsDigit(line[x]) && line[x] != '0'
    requires Scan(line, y, x + 1, x, DigitVal(line[x]))
             == [Number(x, y, RunEnd(line, x + 1) - x, DigitsValue(line[x..RunEnd(line, x + 1)]))] + Runs(line, y, RunEnd(line, x + 1))
    ensures Scan(line, y, x, start, 0) == Runs(line, y, x)
  {
    RunEndStep(line, x);
    RunsAtNonZero(line, y, x);
  }

  /** A leading zero of a run is skipped. */
  lemma RunsLeadingZero(line: string, y: nat, x: nat)
    requires x < |line| && line[x] == '0'
    ensures Runs(line, y, x) == Runs(line, y, x + 1)
  {
    RunEndStep(line, x);
    var b := RunEnd(line, x);
    if x + 1 < b {
      assert SkipZeros(line, x, b) == SkipZeros(line, x + 1, b);
    }
  }

  /** A run starting with a non-zero digit is one number. */
  lemma RunsAtNonZero(line: string, y: nat, x: nat)
    requires x < |line| && IsDigit(line[x]) && line[x] != '0'
    ensures var b := RunEnd(line, x);
            Runs(line, y, x) == [Number(x, y, b - x, DigitsValue(line[x..b]))] + Runs(line, y, b)
  {
  }

  /** The numbers of one row, as `parse_numbers` reads them. */
  function LineNumbers(line: string, y: nat): seq<Number> {
    Scan(line, y, 0, 0, 0)
  }

  /** The scan of `parse_numbers` agrees with the run-by-run reading. */
  lemma LineNumbersAreRuns(line: string, y: nat)
    ensures LineNumbers(line, y) == Runs(line, y, 0)
  {
    ScanOutside(line, y, 0, 0);
  }

  /** Every number `Runs` reports starts at a non-zero digit, spans digits
      only, ends where the run ends, and has a positive value. */
  lemma {:induction false} RunsShape(line: string, y: nat, x: nat)
    requires x <= |line|
    ensures forall n :: n in Runs(line, y, x) ==>
      n.y == y && n.digits >= 1 && x <= n.x && n.x + n.digits <= |line| && line[n.x] != '0'
      && (forall k :: n.x <= k < n.x + n.digits ==> IsDigit(line[k]))
      && (n.x + n.digits == |line| || !IsDigit(line[n.x + n.digits]))
      && n.value == DigitsValue(line[n.x..n.x + n.digits]) && n.value > 0
    decreases |line| - x
  {
    if x < |line| {
      if !IsDigit(line[x]) {
        RunsShape(line, y, x + 1);
      } else {
        var b := RunEnd(line, x);
        var a := SkipZeros(line, x, b);
        RunsShape(line, y, b);
        if a < b {
          NonZeroLeading(line[a..b]);
        }
      }
    }
  }

  /** A digit string starting with a non-zero digit has a positive value. */
  lemma {:induction false} NonZeroLeading(s: string)
    requires |s| >= 1 && AllDigits(s) && s[0] != '0'
    ensures DigitsValue(s) > 0
    decreases |s|
  {
    if |s| > 1 {
      NonZeroLeading(s[..|s| - 1]);
    }
  }

  /** `parse_numbers`: the rows' numbers, row after row. */
  function ParseNumbers(lines: seq<string>, y: nat): seq<Number>
    requires y <= |lines|
    decreases |lines| - y
  {
    if y == |lines| then [] else LineNumbers(lines[y], y) + ParseNumbers(lines, y + 1)
  }

  /** Non-digits before column `a` contribute nothing. */
  lemma {:induction false} RunsSkip(line: string, y: nat, x: nat, a: nat)
    requires x <= a <= |line|
    requires forall k :: x <= k < a ==> !IsDigit(line[k])
    ensures Runs(line, y, x) == Runs(line, y, a)
    decreases a - x
  {
    if x < a {
      RunsSkip(line, y, x + 1, a);
    }
  }

  /** A row holding one digit run with a non-zero first digit and otherwise
      only non-digits (the shape of the unit tests "123" and "..123..")
      yields exactly that run as its one number. */
  lemma SingleRun(line: string, y: nat, a: nat, b: nat)
    requires a < b <= |line|
    requires forall k :: 0 <= k < a ==> !IsDigit(line[k])
    requires forall k :: a <= k < b ==> IsDigit(line[k])
    requires forall k :: b <= k < |line| ==> !IsDigit(line[k])
    requires line[a] != '0'
    ensures LineNumbers(line, y) == [Number(a, y, b - a, DigitsValue(line[a..b]))]
  {
    LineNumbersAreRuns(line, y);
    RunsSkip(line, y, 0, a);
    RunsSkip(line, y, b, |line|);
    assert RunEnd(line, a) == b;
    assert SkipZeros(line, a, b) == a;
  }

  // ---------------------------------------------------------------- part 1

  /** The cell (cx, cy) lies in the box around a number: rows y−1..y+1,
      columns x−1..x+digits. */
  predicate Adjacent(n: Number, cx: int, cy: int) {
    n.y - 1 <= cy <= n.y + 1 && n.x - 1 <= cx <= n.x + n.digits
  }

  /** A symbol is adjacent to the number. */
  predicate NextToSymbol(n: Number, symbols: map<(nat, nat), char>) {
    exists c :: c in symbols && Adjacent(n, c.0, c.1)
  }

  function SumNextToSymbol(numbers: seq<Number>, symbols: map<(nat, nat), char>): nat {
    if |numbers| == 0 then 0
    else SumNextToSymbol(numbers[..|numbers| - 1], symbols)
         + (if NextToSymbol(numbers[|numbers| - 1], symbols) then numbers[|numbers| - 1].value else 0)
  }

  /** Part 1's neighbour scan for one number: rows dy = −1..1, columns
      dx = −1..digits, stopping at the first symbol. */
  method HasSymbolNeighbour(n: Number, symbols: map<(nat, nat), char>) returns (found: bool)
    ensures found <==> NextToSymbol(n, symbols)
  {
    found := false;
    var dy := -1;
    while dy <= 1
      invariant -1 <= dy <= 2
      invariant !found ==> forall cx: nat, cy: nat :: (cx, cy) in symbols && n.y - 1 <= cy < n.y + dy && n.x - 1 <= cx <= n.x + n.digits ==> false
      invariant found ==> NextToSymbol(n, symbols)
    {
      var dx := -1;
      while dx <= n.digits
        invariant -1 <= dx <= n.digits + 1
        invariant !found ==> forall cx: nat, cy: nat :: (cx, cy) in symbols && n.y - 1 <= cy < n.y + dy && n.x - 1 <= cx <= n.x + n.digits ==> false
        invariant !found ==> forall cx: nat, cy: nat :: (cx, cy) in symbols && cy == n.y + dy && n.x - 1 <= cx < n.x + dx ==> false
        invariant found ==> NextToSymbol(n, symbols)
      {
        var nx := n.x + dx;
        var ny := n.y + dy;
        if nx >= 0 && ny >= 0 && (nx, ny) in symbols {
          found := true;
          break;
        }
        dx := dx + 1;
      }
      if found {
        break;
      }
      dy := dy + 1;
    }
  }

  /** Part 1: the sum of the numbers next to a symbol, each counted once. */
  method Part1(numbers: seq<Number>, symbols: map<(nat, nat), char>) returns (total: nat)
    ensures total == SumNextToSymbol(numbers, symbols)
  {
    total := 0;
    var i := 0;
    while i < |numbers|
      invariant i <= |numbers|
      invariant total == SumNextToSymbol(numbers[..i], symbols)
    {
      var found := HasSymbolNeighbour(numbers[i], symbols);
      assert numbers[..i + 1][..i] == numbers[..i];
      if found {
        total := total + numbers[i].value;
      }
      i := i + 1;
    }
    assert numbers[..|numbers|] == numbers;
  }

  // ---------------------------------------------------------------- part 2

  /** How many numbers are adjacent to the cell. */
  function GearCount(numbers: seq<Number>, cx: nat, cy: nat): nat {
    if |numbers| == 0 then 0
    else GearCount(numbers[..|numbers| - 1], cx, cy) + (if Adjacent(numbers[|numbers| - 1], cx, cy) then 1 else 0)
  }

  /** The product of the numbers adjacent to the cell (1 if none). */
  function GearRatio(numbers: seq<Number>, cx: nat, cy: nat): nat {
    if |numbers| == 0 then 1
    else GearRatio(numbers[..|numbers| - 1], cx, cy) * (if Adjacent(numbers[|numbers| - 1], cx, cy) then numbers[|numbers| - 1].value else 1)
  }

  /** A count of exactly two means two distinct numbers are adjacent, and the
      ratio is their product. */
  lemma {:induction false} GearOfTwo(numbers: seq<Number>, cx: nat, cy: nat)
    requires GearCount(numbers, cx, cy) == 2
    ensures exists i, j :: (0 <= i < j < |numbers| && Adjacent(numbers[i], cx, cy) && Adjacent(numbers[j], cx, cy)
                            && GearRatio(numbers, cx, cy) == numbers[i].value * numbers[j].value)
    decreases |numbers|
  {
    var n := |numbers|;
    var init := numbers[..n - 1];
    assert forall k :: 0 <= k < n - 1 ==> init[k] == numbers[k];
    if Adjacent(numbers[n - 1], cx, cy) {
      var i := GearOfOne(init, cx, cy);
      assert Adjacent(numbers[i], cx, cy);
    } else {
      GearOfTwo(init, cx, cy);
      var i, j :| 0 <= i < j < n - 1 && Adjacent(init[i], cx, cy) && Adjacent(init[j], cx, cy)
        && GearRatio(init, cx, cy) == init[i].value * init[j].value;
      assert Adjacent(numbers[i], cx, cy) && Adjacent(numbers[j], cx, cy);
    }
  }

  lemma {:induction false} GearOfOne(numbers: seq<Number>, cx: nat, cy: nat) returns (i: nat)
    requires GearCount(numbers, cx, cy) == 1
    ensures i < |numbers| && Adjacent(numbers[i], cx, cy)
    ensures GearRatio(numbers, cx, cy) == numbers[i].value
    decreases |numbers|
  {
    var n := |numbers|;
    var init := numbers[..n - 1];
    if Adjacent(numbers[n - 1], cx, cy) {
      GearOfNone(init, cx, cy);
      i := n - 1;
    } else {
      i := GearOfOne(init, cx, cy);
      assert init[i] == numbers[i];
    }
  }

  lemma {:induction false} GearOfNone(numbers: seq<Number>, cx: nat, cy: nat)
    requires GearCount(numbers, cx, cy) == 0
    ensures GearRatio(numbers, cx, cy) == 1
    decreases |numbers|
  {
    if |numbers| > 0 {
      GearOfNone(numbers[..|numbers| - 1], cx, cy);
    }
  }

  /** Part 2 over the cells of row `y` from column `x` on, then the later rows:
      each '*' with exactly two adjacent numbers adds their product. */
  function GearSum(lines: seq<string>, numbers: seq<Number>, y: nat, x: nat): nat
    requires y <= |lines| && (y < |lines| ==> x <= |lines[y]|)
    decreases |lines| - y, if y < |lines| then |lines[y]| - x else 0
  {
    if y == |lines| then 0
    else if x == |lines[y]| then GearSum(lines, numbers, y + 1, 0)
    else
      (if lines[y][x] == '*' && GearCount(numbers, x, y) == 2 then GearRatio(numbers, x, y) else 0)
      + GearSum(lines, numbers, y, x + 1)
  }

  /** `run`: part 1 or part 2 over the parsed schematic. */
  method Run(lines: seq<string>, part1: bool) returns (total: nat)
    ensures part1 ==> total == SumNextToSymbol(ParseNumbers(lines, 0), SymbolsOf(lines))
    ensures !part1 ==> total == GearSum(lines, ParseNumbers(lines, 0), 0, 0)
  {
    var symbols := ParseSymbols(lines);
    ParseSymbolsMap(lines, symbols);
    var numbers := ParseNumbers(lines, 0);
    if part1 {
      total := Part1(numbers, symbols);
    } else {
      total := GearSum(lines, numbers, 0, 0);
    }
  }
}
