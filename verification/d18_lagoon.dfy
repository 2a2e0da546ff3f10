/** Day 18: digging a lagoon from a dig plan (src/d18.rs).

    A plan is a list of steps, each a direction and a distance. Digging
    follows the plan from the origin and marks every cell it passes as dug,
    and the cells beside the trench as on its left or its right. The
    lagoon's area is then counted row by row: every dug cell, plus every
    run of undug cells between two dug ones whose colouring says it lies
    on the inside. */
module Lagoon {
  import opened Wrappers
  import opened Text
  import opened Collections

  datatype Dir = Up | Left | Down | Right

  /** A cell; `y` grows downwards. */
  type Pos = (int, int)

  function Dx(d: Dir): int {
    match d
    case Left => -1
    case Right => 1
    case _ => 0
  }

  function Dy(d: Dir): int {
    match d
    case Up => -1
    case Down => 1
    case _ => 0
  }

  /** `Dir::forward`: the neighbouring cell in direction `d`. */
  function Forward(d: Dir, p: Pos): (r: Pos)
    ensures r == (p.0 + Dx(d), p.1 + Dy(d))
  {
    match d
    case Up => (p.0, p.1 - 1)
    case Left => (p.0 - 1, p.1)
    case Down => (p.0, p.1 + 1)
    case Right => (p.0 + 1, p.1)
  }

  /** `Dir::left` */
  function TurnLeft(d: Dir): Dir {
    match d
    case Up => Left
    case Left => Down
    case Down => Right
    case Right => Up
  }

  /** `Dir::right` */
  function TurnRight(d: Dir): Dir {
    match d
    case Up => Right
    case Right => Down
    case Down => Left
    case Left => Up
  }

  /** Left and right turns undo each other, four of either come back, a
      left turn is a quarter turn of the step vector, and turning about
      retraces a step. */
  lemma Turns(d: Dir, p: Pos)
    ensures TurnLeft(TurnRight(d)) == d && TurnRight(TurnLeft(d)) == d
    ensures TurnLeft(TurnLeft(TurnLeft(TurnLeft(d)))) == d
    ensures TurnRight(TurnRight(TurnRight(TurnRight(d)))) == d
    ensures Dx(TurnLeft(d)) == Dy(d) && Dy(TurnLeft(d)) == -Dx(d)
    ensures Forward(TurnLeft(TurnLeft(d)), Forward(d, p)) == p
  {
  }

  /** The cell `n` steps from `p` in direction `d`. */
  function Go(p: Pos, d: Dir, n: nat): Pos {
    match d
    case Up => (p.0, p.1 - n)
    case Left => (p.0 - n, p.1)
    case Down => (p.0, p.1 + n)
    case Right => (p.0 + n, p.1)
  }

  // ------------------------------------------------------------- the plan

  /** `PlanStep`: a direction and a number of cells. */
  datatype PlanStep = PlanStep(dir: Dir, steps: nat)

  function ParseLetter(s: string): (r: Result<Dir>)
    ensures r.Ok? <==> s in ["U", "L", "D", "R"]
    ensures r.Ok? ==> [Letter(r.value)] == s
  {
    if s == "U" then Ok(Up)
    else if s == "L" then Ok(Left)
    else if s == "D" then Ok(Down)
    else if s == "R" then Ok(Right)
    else Err("unknown direction")
  }

  function Letter(d: Dir): char {
    match d
    case Up => 'U'
    case Left => 'L'
    case Down => 'D'
    case Right => 'R'
  }

  /** The sixth colour digit: 0, 1, 2, 3 are right, down, left, up. */
  function ParseHexDir(c: char): (r: Result<Dir>)
    ensures r.Ok? <==> c in "0123"
    ensures r.Ok? ==> HexDirChar(r.value) == c
  {
    match c
    case '0' => Ok(Right)
    case '1' => Ok(Down)
    case '2' => Ok(Left)
    case '3' => Ok(Up)
    case _ => Err("unknown hex direction")
  }

  function HexDirChar(d: Dir): char {
    match d
    case Right => '0'
    case Down => '1'
    case Left => '2'
    case Up => '3'
  }

  /** "(#" and ")" around the colour proper. */
  predicate Bracketed(field: string) {
    |field| >= 3 && field[0] == '(' && field[1] == '#' && field[|field| - 1] == ')'
  }

  /** The colour field read as a step: "(#" and ")" around at least six
      characters, the sixth the direction and the first five the distance
      in hexadecimal. Characters after the sixth are not looked at. */
  function ParseColor(field: string): (r: Result<PlanStep>)
    ensures r.Ok? <==>
      Bracketed(field) && |field| >= 9 && field[7] in "0123" && ParseHex(field[2..7]).Some?
    ensures r.Ok? ==> r.value == PlanStep(ParseHexDir(field[7]).value, ParseHex(field[2..7]).value)
  {
    StripColor(field);
    var inner :- OkOr(StripPrefix(field, "("), "missing '(' before color");
    var hex :- OkOr(StripPrefix(inner, "#"), "missing '#' before color");
    var color :- OkOr(StripSuffix(hex, ")"), "missing ')' after color");
    if |color| < 6 then Err("no sixth character in color")
    else
      var dir :- ParseHexDir(color[5]);
      var steps :- OkOr(ParseHex(color[..5]), "invalid hex number");
      Ok(PlanStep(dir, steps))
  }

  /** What the three strips of `ParseColor` leave. */
  lemma StripColor(field: string)
    ensures StripPrefix(field, "(").Some? <==> |field| >= 1 && field[0] == '('
    ensures StripPrefix(field, "(").Some? ==>
      StripPrefix(field, "(").value == field[1..]
      && (StripPrefix(field[1..], "#").Some? <==> |field| >= 2 && field[1] == '#')
    ensures |field| >= 2 && field[..2] == "(#" ==>
      StripPrefix(field[1..], "#") == Some(field[2..])
      && (StripSuffix(field[2..], ")").Some? <==> Bracketed(field))
    ensures Bracketed(field) ==> StripSuffix(field[2..], ")") == Some(field[2..|field| - 1])
    ensures Bracketed(field) && |field| >= 9 ==>
      field[2..|field| - 1][5] == field[7] && field[2..|field| - 1][..5] == field[2..7]
  {
    if |field| >= 1 && field[0] == '(' {
      assert field[..1] == "(";
    }
    if |field| >= 2 && field[..2] == "(#" {
      assert field[1..][..1] == "#";
      assert field[1..][1..] == field[2..];
    }
    if Bracketed(field) {
      assert field[2..][|field[2..]| - 1..] == ")";
      assert field[2..][..|field[2..]| - 1] == field[2..|field| - 1];
    }
  }

  /** `PlanStep::from_line`: exactly three space-separated fields. Plain
      mode reads the letter and the decimal distance; colour mode reads the
      third field only. */
  function FromLine(line: string, useColor: bool): (r: Result<PlanStep>)
    ensures |Split(line, ' ')| != 3 ==> r.Err?
    ensures |Split(line, ' ')| == 3 && useColor ==> r == ParseColor(Split(line, ' ')[2])
    ensures |Split(line, ' ')| == 3 && !useColor ==>
      (r.Ok? <==> ParseLetter(Split(line, ' ')[0]).Ok? && ParseNat(Split(line, ' ')[1]).Some?)
    ensures |Split(line, ' ')| == 3 && !useColor && r.Ok? ==>
      r.value == PlanStep(ParseLetter(Split(line, ' ')[0]).value, ParseNat(Split(line, ' ')[1]).value)
  {
    var fields := Split(line, ' ');
    if |fields| != 3 then Err("wrong number of spaces")
    else if useColor then ParseColor(fields[2])
    else
      var dir :- ParseLetter(fields[0]);
      var steps :- OkOr(ParseNat(fields[1]), "failed to parse steps as int");
      Ok(PlanStep(dir, steps))
  }

  /** A plan line in plain notation, with any colour field. */
  function ShowPlain(s: PlanStep, color: string): string {
    Join([[Letter(s.dir)], ShowNat(s.steps), color], ' ')
  }

  /** Plain mode reads back the step a plain line was written from. */
  lemma PlainRoundTrip(s: PlanStep, color: string)
    requires ' ' !in color
    ensures FromLine(ShowPlain(s, color), false) == Ok(s)
  {
    var digits := ShowNat(s.steps);
    DigitsNoSpace(digits);
    SplitJoin([[Letter(s.dir)], digits, color], ' ');
    assert Split(ShowPlain(s, color), ' ') == [[Letter(s.dir)], digits, color];
    LetterRoundTrip(s.dir);
    ParseShowNat(s.steps);
  }

  lemma LetterRoundTrip(d: Dir)
    ensures ParseLetter([Letter(d)]) == Ok(d)
  {
  }

  function Pow16(k: nat): nat {
    if k == 0 then 1 else 16 * Pow16(k - 1)
  }

  function HexChar(v: nat): (c: char)
    requires v < 16
    ensures IsHexDigit(c) && HexVal(c) == v
  {
    if v < 10 then DigitChar(v) else ('a' as int + v - 10) as char
  }

  /** The low `k` hexadecimal digits of `n`, most significant first. */
  function ShowHex(n: nat, k: nat): (s: string)
    ensures |s| == k && forall i :: 0 <= i < |s| ==> IsHexDigit(s[i])
  {
    if k == 0 then [] else ShowHex(n / 16, k - 1) + [HexChar(n % 16)]
  }

  lemma {:induction false} ShowHexValue(n: nat, k: nat)
    requires n < Pow16(k)
    ensures HexValue(ShowHex(n, k)) == n
  {
    if k > 0 {
      var s := ShowHex(n, k);
      assert s[..|s| - 1] == ShowHex(n / 16, k - 1);
      ShowHexValue(n / 16, k - 1);
    }
  }

  /** The colour field of a step: "(#", five hex digits of the distance,
      the direction digit, ")". */
  function ColorField(s: PlanStep): (f: string)
    requires s.steps < Pow16(5)
    ensures |f| == 9 && Bracketed(f)
    ensures f[2..7] == ShowHex(s.steps, 5) && f[7] == HexDirChar(s.dir)
  {
    "(#" + ShowHex(s.steps, 5) + [HexDirChar(s.dir)] + ")"
  }

  lemma ParseColorField(s: PlanStep)
    requires s.steps < Pow16(5)
    ensures ' ' !in ColorField(s)
    ensures ParseColor(ColorField(s)) == Ok(s)
  {
    ColorFieldNoSpace(s);
    var hex := ShowHex(s.steps, 5);
    ShowHexValue(s.steps, 5);
    assert hex[0] != '+';
    assert ParseHex(hex) == Some(s.steps);
  }

  lemma ColorFieldNoSpace(s: PlanStep)
    requires s.steps < Pow16(5)
    ensures ' ' !in ColorField(s)
  {
    var f := ColorField(s);
    var hex := ShowHex(s.steps, 5);
    assert forall i :: 2 <= i < 7 ==> f[i] == hex[i - 2];
    assert forall i :: 0 <= i < 9 ==> f[i] != ' ';
  }

  /** A plan line in colour notation, with any first two fields. */
  function ShowColor(s: PlanStep, a: string, b: string): string
    requires s.steps < Pow16(5)
  {
    Join([a, b, ColorField(s)], ' ')
  }

  /** Colour mode reads back the step a colour line was written from. */
  lemma ColorRoundTrip(s: PlanStep, a: string, b: string)
    requires s.steps < Pow16(5) && ' ' !in a && ' ' !in b
    ensures FromLine(ShowColor(s, a, b), true) == Ok(s)
  {
    ParseColorField(s);
    SplitJoin([a, b, ColorField(s)], ' ');
  }

  // ------------------------------------------------------------- digging

  /** `Coloring`: a dug cell, or an undug cell seen beside the trench. */
  datatype Coloring = LeftOf | RightOf | Mid

  type Colors = map<Pos, Coloring>

  /** `entry(p).or_insert(k)`: a side marker never replaces an entry. */
  function Mark(c: Colors, p: Pos, k: Coloring): Colors {
    if p in c then c else c[p := k]
  }

  /** The markers on either side of `p` when heading `d`. */
  function MarkSides(c: Colors, d: Dir, p: Pos): Colors {
    Mark(Mark(c, Forward(TurnLeft(d), p), LeftOf), Forward(TurnRight(d), p), RightOf)
  }

  /** The inner loop of `execute_plan`: `n` steps in direction `d`, each
      cell entered dug, with side markers only when `sides` (the source
      marks them on vertical runs only). */
  function Advance(c: Colors, p: Pos, d: Dir, n: nat, sides: bool): (r: (Colors, Pos))
    ensures r.1 == Go(p, d, n)
    decreases n
  {
    if n == 0 then (c, p)
    else
      var q := Forward(d, p);
      var c' := c[q := Mid];
      Advance(if sides then MarkSides(c', d, q) else c', q, d, n - 1, sides)
  }

  /** One step of the plan: the current cell is dug, its sides marked, and
      the run follows. */
  function DigStep(c: Colors, p: Pos, s: PlanStep): (r: (Colors, Pos))
    ensures r.1 == Go(p, s.dir, s.steps)
  {
    Advance(MarkSides(c[p := Mid], s.dir, p), p, s.dir, s.steps, s.dir == Up || s.dir == Down)
  }

  /** The whole digging loop of `execute_plan`. */
  function DigPlan(plan: seq<PlanStep>, c: Colors, p: Pos): (Colors, Pos)
    decreases |plan|
  {
    if |plan| == 0 then (c, p)
    else
      var (c', p') := DigStep(c, p, plan[0]);
      DigPlan(plan[1..], c', p')
  }

  /** `b` extends `a`, and an entry only ever changes by being dug: a dug
      cell stays dug and a side marker is never replaced by the other. */
  predicate Keeps(a: Colors, b: Colors) {
    forall p :: p in a ==> p in b && (b[p] == a[p] || b[p] == Mid)
  }

  lemma KeepsTrans(a: Colors, b: Colors, c: Colors)
    requires Keeps(a, b) && Keeps(b, c)
    ensures Keeps(a, c)
  {
  }

  lemma MarkSidesKeeps(c: Colors, d: Dir, p: Pos)
    ensures Keeps(c, MarkSides(c, d, p))
    ensures MidCells(MarkSides(c, d, p)) == MidCells(c)
  {
  }

  /** The dug cells. */
  function MidCells(c: Colors): set<Pos> {
    set p | p in c && c[p] == Mid
  }

  /** The cells entered by `n` steps from `p` in direction `d`. */
  function Segment(p: Pos, d: Dir, n: nat): set<Pos>
    decreases n
  {
    if n == 0 then {} else {Forward(d, p)} + Segment(Forward(d, p), d, n - 1)
  }

  lemma DigMid(c: Colors, q: Pos)
    ensures Keeps(c, c[q := Mid])
    ensures MidCells(c[q := Mid]) == MidCells(c) + {q}
  {
  }

  lemma {:induction false} AdvanceDigs(c: Colors, p: Pos, d: Dir, n: nat, sides: bool)
    ensures Keeps(c, Advance(c, p, d, n, sides).0)
    ensures MidCells(Advance(c, p, d, n, sides).0) == MidCells(c) + Segment(p, d, n)
    decreases n
  {
    if n > 0 {
      var q := Forward(d, p);
      var c' := c[q := Mid];
      DigMid(c, q);
      var c'' := if sides then MarkSides(c', d, q) else c';
      MarkSidesKeeps(c', d, q);
      KeepsTrans(c, c', c'');
      AdvanceDigs(c'', q, d, n - 1, sides);
      KeepsTrans(c, c'', Advance(c'', q, d, n - 1, sides).0);
    }
  }

  /** The cells a plan digs from `p`: each step's start and the cells of
      its run. */
  function Dug(plan: seq<PlanStep>, p: Pos): set<Pos>
    decreases |plan|
  {
    if |plan| == 0 then {}
    else
      var s := plan[0];
      {p} + Segment(p, s.dir, s.steps) + Dug(plan[1..], Go(p, s.dir, s.steps))
  }

  /** Digging only ever adds dug cells and never changes a side marker into
      the other one; the dug cells at the end are those dug before and
      exactly the cells on the plan's trench. */
  lemma {:induction false} DigPlanDigs(plan: seq<PlanStep>, c: Colors, p: Pos)
    ensures Keeps(c, DigPlan(plan, c, p).0)
    ensures MidCells(DigPlan(plan, c, p).0) == MidCells(c) + Dug(plan, p)
    decreases |plan|
  {
    if |plan| > 0 {
      var s := plan[0];
      var c1 := c[p := Mid];
      DigMid(c, p);
      var c2 := MarkSides(c1, s.dir, p);
      MarkSidesKeeps(c1, s.dir, p);
      KeepsTrans(c, c1, c2);
      AdvanceDigs(c2, p, s.dir, s.steps, s.dir == Up || s.dir == Down);
      var (c3, p3) := DigStep(c, p, s);
      KeepsTrans(c, c2, c3);
      DigPlanDigs(plan[1..], c3, p3);
      KeepsTrans(c, c3, DigPlan(plan[1..], c3, p3).0);
    }
  }

  // -------------------------------------------------------- bounding box

  /** A rectangle of cells: columns `x0..x1`, rows `y0..y1`. */
  datatype Box = Box(x0: int, x1: int, y0: int, y1: int)

  predicate InBox(b: Box, p: Pos) {
    b.x0 <= p.0 <= b.x1 && b.y0 <= p.1 <= b.y1
  }

  function Min(a: int, b: int): int { if a <= b then a else b }

  function Max(a: int, b: int): int { if a <= b then b else a }

  /** The smallest box holding two boxes. */
  function Hull(a: Box, b: Box): (r: Box)
    ensures forall p :: InBox(a, p) || InBox(b, p) ==> InBox(r, p)
  {
    Box(Min(a.x0, b.x0), Max(a.x1, b.x1), Min(a.y0, b.y0), Max(a.y1, b.y1))
  }

  /** The box spanned by two cells. */
  function Span(p: Pos, q: Pos): (r: Box)
    ensures InBox(r, p) && InBox(r, q)
  {
    Box(Min(p.0, q.0), Max(p.0, q.0), Min(p.1, q.1), Max(p.1, q.1))
  }

  lemma {:induction false} SegmentInSpan(p: Pos, d: Dir, n: nat)
    ensures forall q :: q in Segment(p, d, n) ==> InBox(Span(p, Go(p, d, n)), q)
    decreases n
  {
    if n > 0 {
      SegmentInSpan(Forward(d, p), d, n - 1);
    }
  }

  /** A box holding every cell a plan digs from `p`, built from the ends
      of its runs (the source needs no box: it groups the dug cells by
      row). */
  function PlanBox(plan: seq<PlanStep>, p: Pos): (r: Box)
    ensures InBox(r, p)
    ensures forall q :: q in Dug(plan, p) ==> InBox(r, q)
    decreases |plan|
  {
    if |plan| == 0 then Box(p.0, p.0, p.1, p.1)
    else
      var s := plan[0];
      var e := Go(p, s.dir, s.steps);
      SegmentInSpan(p, s.dir, s.steps);
      Hull(Span(p, e), PlanBox(plan[1..], e))
  }

  // ----------------------------------------------------------------- area

  predicate Ascending(xs: seq<int>) {
    forall i, j :: 0 <= i < j < |xs| ==> xs[i] < xs[j]
  }

  /** The dug columns of row `y` between `x0` and `x1`, left to right:
      one row of the source's `rows` map. */
  function RowHoles(c: Colors, y: int, x0: int, x1: int): (xs: seq<int>)
    ensures Ascending(xs)
    ensures forall x :: x in xs <==> x0 <= x <= x1 && (x, y) in c && c[(x, y)] == Mid
    ensures |xs| <= if x0 <= x1 then x1 - x0 + 1 else 0
    decreases x1 - x0 + 1
  {
    if x0 > x1 then []
    else
      var rest := RowHoles(c, y, x0 + 1, x1);
      assert forall i :: 0 <= i < |rest| ==> rest[i] in rest;
      if (x0, y) in c && c[(x0, y)] == Mid then [x0] + rest else rest
  }

  function Other(k: Coloring): Coloring {
    match k
    case LeftOf => RightOf
    case RightOf => LeftOf
    case Mid => Mid
  }

  /** The gaps of a row from the `k`-th dug cell on: a gap of `d - 1`
      undug cells counts when the cell left of its right end has the
      inside colouring. A gap whose left cell has no entry is an error
      (the source unwraps it). */
  function Gaps(c: Colors, y: int, xs: seq<int>, k: nat, inside: Coloring): (r: Result<nat>)
    requires 1 <= k <= |xs| && Ascending(xs)
    ensures r.Ok? ==> r.value <= xs[|xs| - 1] - xs[k - 1] - (|xs| - k)
    ensures r.Err? <==> exists j :: k <= j < |xs| && xs[j] - xs[j - 1] > 1 && (xs[j] - 1, y) !in c
    decreases |xs| - k
  {
    if k == |xs| then Ok(0)
    else
      var d := xs[k] - xs[k - 1];
      var here :- if d <= 1 then Ok(0)
                  else if (xs[k] - 1, y) !in c then Err("missing colouring in a gap")
                  else Ok(if c[(xs[k] - 1, y)] == inside then d - 1 else 0);
      var rest :- Gaps(c, y, xs, k + 1, inside);
      Ok(here + rest)
  }

  /** One row's area: its dug cells, plus its inside gaps. The inside
      colouring is the other one from the colouring left of the first dug
      cell. The first cell's right neighbour is looked up as well, and
      must exist, though its value is then replaced. */
  function ScanRow(c: Colors, y: int, xs: seq<int>): (r: Result<nat>)
    requires Ascending(xs)
    ensures r.Ok? ==> |xs| <= r.value
    ensures r.Ok? && |xs| > 0 ==> r.value <= xs[|xs| - 1] - xs[0] + 1
  {
    if |xs| == 0 then Ok(0)
    else
      var x := xs[0];
      if (x + 1, y) !in c || (x - 1, y) !in c then Err("missing colouring beside a row")
      else if c[(x - 1, y)] == Mid then Err("unreachable")
      else
        var gaps :- Gaps(c, y, xs, 1, Other(c[(x - 1, y)]));
        Ok(|xs| + gaps)
  }

  /** Cell `x` of row `y` counts for the scan from the `k`-th dug cell on:
      it is one of those dug cells, or it lies strictly between two
      neighbouring dug cells where the cell just left of the right one has
      the inside colouring. */
  ghost predicate Counted(c: Colors, y: int, xs: seq<int>, k: nat, inside: Coloring, x: int)
    requires 1 <= k <= |xs|
  {
    (exists j :: k - 1 <= j < |xs| && xs[j] == x)
    || exists j :: k <= j < |xs| && xs[j - 1] < x < xs[j]
                   && (xs[j] - 1, y) in c && c[(xs[j] - 1, y)] == inside
  }

  /** The cells of row `y` the scan counts, from the `k`-th dug cell to
      the last. */
  ghost function CountedCells(c: Colors, y: int, xs: seq<int>, k: nat, inside: Coloring): set<int>
    requires 1 <= k <= |xs|
  {
    set x | xs[k - 1] <= x <= xs[|xs| - 1] && Counted(c, y, xs, k, inside, x)
  }

  /** The cells strictly between `a` and `b`. */
  function Between(a: int, b: int): (r: set<int>)
    ensures forall x :: x in r <==> a < x < b
    ensures a < b ==> |r| == b - a - 1
    decreases b - a
  {
    if b - a <= 1 then {} else Between(a, b - 1) + {b - 1}
  }

  /** Whether the gap after the `k`-th dug cell (counting from 1) is
      filled. */
  ghost predicate Fills(c: Colors, y: int, xs: seq<int>, k: nat, inside: Coloring)
    requires 1 <= k < |xs|
  {
    xs[k] - xs[k - 1] > 1 && (xs[k] - 1, y) in c && c[(xs[k] - 1, y)] == inside
  }

  /** A counted cell past the `k`-th dug cell lies in the gap after it,
      which is then filled, or counts from the next dug cell on. */
  lemma CountedNext(c: Colors, y: int, xs: seq<int>, k: nat, inside: Coloring, x: int)
    requires 1 <= k < |xs| && Ascending(xs)
    requires xs[k - 1] < x <= xs[|xs| - 1] && Counted(c, y, xs, k, inside, x)
    ensures (Fills(c, y, xs, k, inside) && x in Between(xs[k - 1], xs[k]))
            || x in CountedCells(c, y, xs, k + 1, inside)
  {
    if j :| k - 1 <= j < |xs| && xs[j] == x {
      DugNext(c, y, xs, k, inside, x, j);
    } else {
      var j :| k <= j < |xs| && xs[j - 1] < x < xs[j]
               && (xs[j] - 1, y) in c && c[(xs[j] - 1, y)] == inside;
      if j > k {
        GapNext(c, y, xs, k, inside, x, j);
      }
    }
  }

  /** A dug cell past the `k`-th counts from the next one on. */
  lemma DugNext(c: Colors, y: int, xs: seq<int>, k: nat, inside: Coloring, x: int, j: nat)
    requires 1 <= k < |xs| && Ascending(xs)
    requires xs[k - 1] < x && k - 1 <= j < |xs| && xs[j] == x
    ensures x in CountedCells(c, y, xs, k + 1, inside)
  {
    assert Counted(c, y, xs, k + 1, inside, x);
  }

  /** A cell in a filled gap past the `k`-th dug cell's counts from the
      next dug cell on. */
  lemma GapNext(c: Colors, y: int, xs: seq<int>, k: nat, inside: Coloring, x: int, j: nat)
    requires 1 <= k < j < |xs| && Ascending(xs)
    requires xs[j - 1] < x < xs[j] && (xs[j] - 1, y) in c && c[(xs[j] - 1, y)] == inside
    ensures x in CountedCells(c, y, xs, k + 1, inside)
  {
    assert xs[k] <= xs[j - 1];
    assert Counted(c, y, xs, k + 1, inside, x);
  }

  /** A cell that counts from the next dug cell on counts from this one. */
  lemma CountedPrev(c: Colors, y: int, xs: seq<int>, k: nat, inside: Coloring, x: int)
    requires 1 <= k < |xs| && Ascending(xs)
    requires x in CountedCells(c, y, xs, k + 1, inside)
    ensures x in CountedCells(c, y, xs, k, inside)
  {
    assert Counted(c, y, xs, k + 1, inside, x);
    if j :| k <= j < |xs| && xs[j] == x {
      assert Counted(c, y, xs, k, inside, x);
    } else {
      var j :| k + 1 <= j < |xs| && xs[j - 1] < x < xs[j]
               && (xs[j] - 1, y) in c && c[(xs[j] - 1, y)] == inside;
      assert Counted(c, y, xs, k, inside, x);
    }
  }

  /** The cells from the `k`-th dug cell on split into that cell, the gap
      after it if that gap is filled, and the cells from the next dug cell
      on. */
  lemma CountedSplit(c: Colors, y: int, xs: seq<int>, k: nat, inside: Coloring)
    requires 1 <= k < |xs| && Ascending(xs)
    ensures CountedCells(c, y, xs, k, inside)
            == {xs[k - 1]}
               + (if Fills(c, y, xs, k, inside) then Between(xs[k - 1], xs[k]) else {})
               + CountedCells(c, y, xs, k + 1, inside)
  {
    var a, b := xs[k - 1], xs[k];
    var S, T := CountedCells(c, y, xs, k, inside), CountedCells(c, y, xs, k + 1, inside);
    var G := if Fills(c, y, xs, k, inside) then Between(a, b) else {};
    forall x | x in S ensures x in {a} + G + T {
      if x != a {
        CountedNext(c, y, xs, k, inside, x);
      }
    }
    forall x | x in {a} + G + T ensures x in S {
      if x == a {
        assert Counted(c, y, xs, k, inside, x);
      } else if x in G {
        assert Counted(c, y, xs, k, inside, x);
      } else {
        CountedPrev(c, y, xs, k, inside, x);
      }
    }
  }

  /** From the last dug cell on, only that cell counts. */
  lemma CountedLast(c: Colors, y: int, xs: seq<int>, inside: Coloring)
    requires |xs| >= 1
    ensures CountedCells(c, y, xs, |xs|, inside) == {xs[|xs| - 1]}
  {
    assert Counted(c, y, xs, |xs|, inside, xs[|xs| - 1]);
  }

  /** One more gap: it adds its undug cells exactly when it is filled. */
  lemma GapsStep(c: Colors, y: int, xs: seq<int>, k: nat, inside: Coloring)
    requires 1 <= k < |xs| && Ascending(xs) && Gaps(c, y, xs, k, inside).Ok?
    ensures Gaps(c, y, xs, k + 1, inside).Ok?
    ensures Gaps(c, y, xs, k, inside).value
            == (if Fills(c, y, xs, k, inside) then xs[k] - xs[k - 1] - 1 else 0)
               + Gaps(c, y, xs, k + 1, inside).value
  {
  }

  /** The three parts of a split are disjoint, so their sizes add up. */
  lemma SplitCard(a: int, g: set<int>, t: set<int>, b: int)
    requires forall x :: x in g ==> a < x < b
    requires forall x :: x in t ==> b <= x
    requires a < b
    ensures |{a} + g + t| == 1 + |g| + |t|
  {
    assert forall x :: x in g ==> x !in t;
    assert g * t == {};
    assert {a} * (g + t) == {};
    assert {a} + g + t == {a} + (g + t);
  }

  /** The scan rule: from the `k`-th dug cell on, those dug cells plus the
      filled gaps are exactly the counted cells. */
  lemma {:induction false} GapsCount(c: Colors, y: int, xs: seq<int>, k: nat, inside: Coloring)
    requires 1 <= k <= |xs| && Ascending(xs) && Gaps(c, y, xs, k, inside).Ok?
    ensures |xs| - k + 1 + Gaps(c, y, xs, k, inside).value == |CountedCells(c, y, xs, k, inside)|
    decreases |xs| - k
  {
    if k == |xs| {
      CountedLast(c, y, xs, inside);
    } else {
      var a, b := xs[k - 1], xs[k];
      var gk, gk1 := Gaps(c, y, xs, k, inside), Gaps(c, y, xs, k + 1, inside);
      var S, T := CountedCells(c, y, xs, k, inside), CountedCells(c, y, xs, k + 1, inside);
      var G := if Fills(c, y, xs, k, inside) then Between(a, b) else {};
      GapsStep(c, y, xs, k, inside);
      GapsCount(c, y, xs, k + 1, inside);
      CountedSplit(c, y, xs, k, inside);
      CountedFrom(c, y, xs, k + 1, inside);
      CountStep(|xs| - k, gk.value, gk1.value, S, G, T, a, b);
    }
  }

  /** The counted cells lie at or after the dug cell they start from. */
  lemma CountedFrom(c: Colors, y: int, xs: seq<int>, k: nat, inside: Coloring)
    requires 1 <= k <= |xs|
    ensures forall x :: x in CountedCells(c, y, xs, k, inside) ==> xs[k - 1] <= x
  {
  }

  /** The inductive step of GapsCount, on the sizes alone. */
  lemma CountStep(m: nat, g: nat, g1: nat, S: set<int>, G: set<int>, T: set<int>, a: int, b: int)
    requires a < b && (forall x :: x in G ==> a < x < b) && (forall x :: x in T ==> b <= x)
    requires S == {a} + G + T && g == |G| + g1 && m + g1 == |T|
    ensures m + 1 + g == |S|
  {
    SplitCard(a, G, T, b);
  }

  /** A row's area is the number of its counted cells, the inside
      colouring being the other one from the colouring left of its first
      dug cell. */
  lemma ScanRowCount(c: Colors, y: int, xs: seq<int>)
    requires Ascending(xs) && ScanRow(c, y, xs).Ok?
    ensures |xs| == 0 ==> ScanRow(c, y, xs).value == 0
    ensures |xs| > 0 ==>
      && (xs[0] - 1, y) in c && c[(xs[0] - 1, y)] != Mid
      && ScanRow(c, y, xs).value == |CountedCells(c, y, xs, 1, Other(c[(xs[0] - 1, y)]))|
  {
    if |xs| > 0 {
      GapsCount(c, y, xs, 1, Other(c[(xs[0] - 1, y)]));
    }
  }

  /** The dug cells of rows `y0..y1` of the box. */
  function HoleCount(c: Colors, b: Box, y0: int): nat
    decreases b.y1 - y0 + 1
  {
    if y0 > b.y1 then 0 else |RowHoles(c, y0, b.x0, b.x1)| + HoleCount(c, b, y0 + 1)
  }

  /** The area of rows `y0..y1` of the box, row by row. Every dug cell
      counts once, and no row counts more cells than the box is wide. */
  function Area(c: Colors, b: Box, y0: int): (r: Result<nat>)
    ensures r.Ok? ==> HoleCount(c, b, y0) <= r.value
    ensures r.Ok? ==> r.value <= BoxCells(b, y0)
    decreases b.y1 - y0 + 1
  {
    if y0 > b.y1 then Ok(0)
    else
      var row :- ScanRow(c, y0, RowHoles(c, y0, b.x0, b.x1));
      var rest :- Area(c, b, y0 + 1);
      RowWithinBox(c, b, y0);
      Ok(row + rest)
  }

  /** The area scan fails exactly when the scan of some row of the box
      does. */
  lemma {:induction false} AreaOk(c: Colors, b: Box, y0: int)
    ensures Area(c, b, y0).Ok? ==>
            forall y :: y0 <= y <= b.y1 ==> ScanRow(c, y, RowHoles(c, y, b.x0, b.x1)).Ok?
    ensures (forall y :: y0 <= y <= b.y1 ==> ScanRow(c, y, RowHoles(c, y, b.x0, b.x1)).Ok?)
            ==> Area(c, b, y0).Ok?
    decreases b.y1 - y0 + 1
  {
    if y0 <= b.y1 {
      AreaOk(c, b, y0 + 1);
      var xs := RowHoles(c, y0, b.x0, b.x1);
      if !ScanRow(c, y0, xs).Ok? {
        assert !Area(c, b, y0).Ok?;
        assert !(forall y :: y0 <= y <= b.y1 ==> ScanRow(c, y, RowHoles(c, y, b.x0, b.x1)).Ok?);
      } else if !Area(c, b, y0 + 1).Ok? {
        assert !Area(c, b, y0).Ok?;
        var y :| y0 + 1 <= y <= b.y1 && !ScanRow(c, y, RowHoles(c, y, b.x0, b.x1)).Ok?;
      } else {
        assert Area(c, b, y0).Ok?;
        assert forall y :: y0 <= y <= b.y1 ==> ScanRow(c, y, RowHoles(c, y, b.x0, b.x1)).Ok?;
      }
    }
  }

  /** The counted cells of a row whose dug cells are `xs`. */
  ghost function RowCounted(c: Colors, y: int, xs: seq<int>): nat {
    if |xs| == 0 || (xs[0] - 1, y) !in c then 0
    else |CountedCells(c, y, xs, 1, Other(c[(xs[0] - 1, y)]))|
  }

  /** The counted cells of rows `y0..y1` of the box, row by row. */
  ghost function CountedTotal(c: Colors, b: Box, y0: int): nat
    decreases b.y1 - y0 + 1
  {
    if y0 > b.y1 then 0
    else RowCounted(c, y0, RowHoles(c, y0, b.x0, b.x1)) + CountedTotal(c, b, y0 + 1)
  }

  /** The area is the number of counted cells over all rows of the box. */
  lemma {:induction false} AreaCounts(c: Colors, b: Box, y0: int)
    requires Area(c, b, y0).Ok?
    ensures Area(c, b, y0).value == CountedTotal(c, b, y0)
    decreases b.y1 - y0 + 1
  {
    if y0 <= b.y1 {
      var xs := RowHoles(c, y0, b.x0, b.x1);
      ScanRowCount(c, y0, xs);
      AreaCounts(c, b, y0 + 1);
    }
  }

  /** A row counts its dug cells and no more cells than the box is wide. */
  lemma RowWithinBox(c: Colors, b: Box, y: int)
    ensures var r := ScanRow(c, y, RowHoles(c, y, b.x0, b.x1));
            r.Ok? ==> |RowHoles(c, y, b.x0, b.x1)| <= r.value <= Width(b)
  {
    var xs := RowHoles(c, y, b.x0, b.x1);
    if |xs| > 0 {
      assert xs[0] in xs && xs[|xs| - 1] in xs;
    }
  }

  function Width(b: Box): nat {
    if b.x0 <= b.x1 then b.x1 - b.x0 + 1 else 0
  }

  /** The cells of rows `y0..y1` of the box. */
  function BoxCells(b: Box, y0: int): (n: nat)
    ensures n == Rows(b, y0) * Width(b)
    decreases b.y1 - y0 + 1
  {
    if y0 > b.y1 then 0
    else
      var rest := BoxCells(b, y0 + 1);
      MulDist(Width(b), Rows(b, y0 + 1), 1);
      Width(b) + rest
  }

  function Rows(b: Box, y0: int): nat {
    if y0 <= b.y1 then b.y1 - y0 + 1 else 0
  }

  /** `execute_plan`: dig from the origin, then count the area row by row
      over the rows that hold dug cells. */
  function ExecutePlan(plan: seq<PlanStep>): (r: Result<nat>)
    ensures var c := DigPlan(plan, map[], (0, 0)).0;
            var b := PlanBox(plan, (0, 0));
            r.Ok? ==> HoleCount(c, b, b.y0) <= r.value <= Rows(b, b.y0) * Width(b)
    ensures var c := DigPlan(plan, map[], (0, 0)).0;
            var b := PlanBox(plan, (0, 0));
            r.Ok? ==> r.value == CountedTotal(c, b, b.y0)
  {
    var c := DigPlan(plan, map[], (0, 0)).0;
    var b := PlanBox(plan, (0, 0));
    var r := Area(c, b, b.y0);
    if r.Ok? then AreaCounts(c, b, b.y0); r else r
  }

  /** Every dug cell lies in the plan's box, so the rows of the box hold
      all of them: they are exactly the cells of the trench. */
  lemma DugInBox(plan: seq<PlanStep>)
    ensures var c := DigPlan(plan, map[], (0, 0)).0;
            MidCells(c) == Dug(plan, (0, 0))
            && forall q :: q in MidCells(c) ==> InBox(PlanBox(plan, (0, 0)), q)
  {
    DigPlanDigs(plan, map[], (0, 0));
    assert MidCells(map[]) == {};
  }

  /** `run`: every line must parse (the source unwraps each), part 1 in
      plain mode and part 2 in colour mode. */
  function Run(lines: seq<string>, part1: bool): (r: Result<nat>)
    ensures r.Ok? <==> MapAllOk(lines, (l: string) => FromLine(l, !part1)).Ok?
                       && ExecutePlan(MapAllOk(lines, (l: string) => FromLine(l, !part1)).value).Ok?
  {
    var plan :- MapAllOk(lines, (l: string) => FromLine(l, !part1));
    ExecutePlan(plan)
  }
}
