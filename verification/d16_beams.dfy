/** Day 16: a beam of light bouncing through mirrors and splitters
    (src/d16.rs).

    A beam state is a cell and the direction the beam travels in. The
    simulation follows every beam from a start state until no new state
    appears; the cells any beam passed through are energized. */
module Beams {
  import opened Wrappers
  import opened Collections

  datatype Direction = Up | Left | Down | Right

  datatype Tile = Empty | BackMirror | ForwardMirror | VerticalSplitter | HorizontalSplitter

  datatype TileEffect = Just(d: Direction) | Both(d1: Direction, d2: Direction)

  function Opposite(d: Direction): Direction {
    match d
    case Up => Down
    case Down => Up
    case Left => Right
    case Right => Left
  }

  predicate Vertical(d: Direction) {
    d == Up || d == Down
  }

  /** `Tile::apply`: the direction(s) a beam leaves a tile in. Empty cells
      pass it on, mirrors turn it by a right angle, and a splitter passes
      a beam parallel to it and splits a perpendicular one in both of its
      own directions. */
  function Apply(t: Tile, d: Direction): (e: TileEffect)
    ensures t == Empty ==> e == Just(d)
    ensures t == VerticalSplitter ==> e == if Vertical(d) then Just(d) else Both(Up, Down)
    ensures t == HorizontalSplitter ==> e == if Vertical(d) then Both(Left, Right) else Just(d)
    ensures (t == BackMirror || t == ForwardMirror) ==> e.Just? && Vertical(e.d) != Vertical(d)
  {
    match t
    case Empty => Just(d)
    case BackMirror => Just(match d
        case Up => Left
        case Left => Up
        case Down => Right
        case Right => Down)
    case ForwardMirror => Just(match d
        case Up => Right
        case Right => Up
        case Down => Left
        case Left => Down)
    case VerticalSplitter => if Vertical(d) then Just(d) else Both(Up, Down)
    case HorizontalSplitter => if Vertical(d) then Both(Left, Right) else Just(d)
  }

  /** Each mirror undoes itself, and a beam sent back along its way out
      retraces its way in. */
  lemma MirrorsReversible(t: Tile, d: Direction)
    requires t == BackMirror || t == ForwardMirror
    ensures Apply(t, Apply(t, d).d) == Just(d)
    ensures Apply(t, Opposite(Apply(t, d).d)) == Just(Opposite(d))
  {
  }

  // ------------------------------------------------------------------ grid

  type Grid = seq<seq<Tile>>

  /** A non-empty first row and no row shorter than it. The beam only moves
      within the first row's width (`coords_in_front_of` compares with
      `rows[0].len()`), so the cells of a longer row past that width are
      never visited; an empty grid or first row panics in the source. */
  predicate Wide(g: Grid) {
    |g| > 0 && |g[0]| > 0 && forall y :: 0 <= y < |g| ==> |g[y]| >= |g[0]|
  }

  predicate InGrid(g: Grid, x: int, y: int)
    requires Wide(g)
  {
    0 <= y < |g| && 0 <= x < |g[0]|
  }

  function Dx(d: Direction): int {
    match d
    case Left => -1
    case Right => 1
    case _ => 0
  }

  function Dy(d: Direction): int {
    match d
    case Up => -1
    case Down => 1
    case _ => 0
  }

  /** `Grid::coords_in_front_of`: the next cell in direction `d`, or None
      at the edge of the grid. */
  function CoordsInFront(g: Grid, x: nat, y: nat, d: Direction): (r: Option<(nat, nat)>)
    requires Wide(g) && InGrid(g, x, y)
    ensures r.Some? <==> InGrid(g, x + Dx(d), y + Dy(d))
    ensures r.Some? ==> r.value.0 == x + Dx(d) && r.value.1 == y + Dy(d)
  {
    match d
    case Up => if y != 0 then Some((x, y - 1)) else None
    case Left => if x != 0 then Some((x - 1, y)) else None
    case Down => if y < |g| - 1 then Some((x, y + 1)) else None
    case Right => if x < |g[0]| - 1 then Some((x + 1, y)) else None
  }

  // ------------------------------------------------------------ beam states

  type State = (nat, nat, Direction)

  predicate InBounds(g: Grid, s: State)
    requires Wide(g)
  {
    InGrid(g, s.0, s.1)
  }

  /** The beam leaving cell (`x`, `y`) in direction `d`, if it stays on the
      grid. */
  function Forward(g: Grid, x: nat, y: nat, d: Direction): (r: seq<State>)
    requires Wide(g) && InGrid(g, x, y)
    ensures |r| <= 1 && forall i :: 0 <= i < |r| ==> InBounds(g, r[i]) && r[i].2 == d
  {
    match CoordsInFront(g, x, y, d)
    case Some((nx, ny)) => [(nx, ny, d)]
    case None => []
  }

  /** The states that follow `s`: the tile at its cell sends the beam on in
      one or two directions, and every beam that stays on the grid moves
      one cell. */
  function Next(g: Grid, s: State): (r: seq<State>)
    requires Wide(g) && InBounds(g, s)
    ensures forall i :: 0 <= i < |r| ==> InBounds(g, r[i])
  {
    var (x, y, d) := s;
    match Apply(g[y][x], d)
    case Just(d1) => Forward(g, x, y, d1)
    case Both(d1, d2) => Forward(g, x, y, d1) + Forward(g, x, y, d2)
  }

  /** A set of states that contains the successor of each of its states. */
  predicate Closed(g: Grid, states: set<State>)
    requires Wide(g)
  {
    forall s :: s in states && InBounds(g, s) ==> forall n :: n in Next(g, s) ==> n in states
  }

  /** `s` lies in every closed set that contains `start`: it is reached from
      `start`. */
  ghost predicate Reached(g: Grid, start: State, s: State)
    requires Wide(g)
  {
    forall states: set<State> :: start in states && Closed(g, states) ==> s in states
  }

  lemma ReachedStep(g: Grid, start: State, s: State, n: State)
    requires Wide(g) && InBounds(g, s) && Reached(g, start, s) && n in Next(g, s)
    ensures Reached(g, start, n)
  {
  }

  function DirOf(k: nat): Direction {
    if k == 0 then Up else if k == 1 then Left else if k == 2 then Down else Right
  }

  /** Every state of the grid. */
  ghost function AllStates(g: Grid): set<State>
    requires Wide(g)
  {
    set x: nat, y: nat, k: nat | x < |g[0]| && y < |g| && k < 4 :: (x, y, DirOf(k))
  }

  lemma AllStatesHas(g: Grid, s: State)
    requires Wide(g) && InBounds(g, s)
    ensures s in AllStates(g)
  {
    var k := match s.2 case Up => 0 case Left => 1 case Down => 2 case Right => 3;
    assert s == (s.0, s.1, DirOf(k));
  }

  /** The states reached from `start`: the least closed set holding it. */
  ghost function Reach(g: Grid, start: State): set<State>
    requires Wide(g)
  {
    set s | s in AllStates(g) && Reached(g, start, s)
  }

  /** The cells of a set of states. */
  function Cells(states: set<State>): set<(nat, nat)> {
    set s | s in states :: (s.0, s.1)
  }

  /** The number of energized cells for a beam entering at `start`. */
  ghost function Energized(g: Grid, start: State): nat
    requires Wide(g)
  {
    |Cells(Reach(g, start))|
  }

  // ------------------------------------------------------------- simulation

  /** Every seen state is on the grid and reached from `start`. */
  ghost predicate AllReached(g: Grid, start: State, states: set<State>)
    requires Wide(g)
  {
    forall s :: s in states ==> InBounds(g, s) && Reached(g, start, s)
  }

  /** Every queued state is on the grid and reached from `start`. */
  ghost predicate QueueReached(g: Grid, start: State, q: seq<State>)
    requires Wide(g)
  {
    forall i :: 0 <= i < |q| ==> InBounds(g, q[i]) && Reached(g, start, q[i])
  }

  /** Every successor of a seen state is seen or queued. */
  predicate Covered(g: Grid, q: seq<State>, visited: set<State>)
    requires Wide(g) && forall s :: s in visited ==> InBounds(g, s)
  {
    forall s :: s in visited ==> forall n :: n in Next(g, s) ==> n in visited || n in q
  }

  /** The facts the simulation keeps: everything seen or queued is on the
      grid and reached from `start`, `start` is seen or queued, and every
      successor of a seen state is seen or queued. */
  ghost predicate BeamInv(g: Grid, start: State, q: seq<State>, visited: set<State>)
    requires Wide(g)
  {
    AllReached(g, start, visited)
    && QueueReached(g, start, q)
    && (start in visited || start in q)
    && Covered(g, q, visited)
  }

  lemma QueueTail(g: Grid, start: State, q: seq<State>)
    requires Wide(g) && |q| > 0 && QueueReached(g, start, q)
    ensures QueueReached(g, start, q[1..])
    ensures forall n :: n in q ==> n == q[0] || n in q[1..]
  {
    assert forall i :: 1 <= i < |q| ==> q[1..][i - 1] == q[i];
  }

  lemma QueueAppend(g: Grid, start: State, q: seq<State>, more: seq<State>)
    requires Wide(g) && QueueReached(g, start, q) && QueueReached(g, start, more)
    ensures QueueReached(g, start, q + more)
  {
    assert forall i :: 0 <= i < |q + more| ==> (q + more)[i] in q || (q + more)[i] in more;
  }

  /** The successors of a reached state are reached. */
  lemma NextReached(g: Grid, start: State, s: State)
    requires Wide(g) && InBounds(g, s) && Reached(g, start, s)
    ensures QueueReached(g, start, Next(g, s))
  {
    var r := Next(g, s);
    forall i | 0 <= i < |r| ensures Reached(g, start, r[i]) {
      ReachedStep(g, start, s, r[i]);
    }
  }

  /** A state already seen is dropped from the queue. */
  lemma BeamSeen(g: Grid, start: State, q: seq<State>, visited: set<State>)
    requires Wide(g) && |q| > 0 && BeamInv(g, start, q, visited) && q[0] in visited
    ensures BeamInv(g, start, q[1..], visited)
  {
    QueueTail(g, start, q);
  }

  /** A new state is marked seen and its successors are queued; fewer states
      of the grid remain unseen. */
  lemma BeamNew(g: Grid, start: State, q: seq<State>, visited: set<State>)
    requires Wide(g) && |q| > 0 && BeamInv(g, start, q, visited) && q[0] !in visited
    requires visited <= AllStates(g)
    ensures BeamInv(g, start, q[1..] + Next(g, q[0]), visited + {q[0]})
    ensures visited + {q[0]} <= AllStates(g)
    ensures AllStates(g) - (visited + {q[0]}) < AllStates(g) - visited
  {
    var s := q[0];
    QueueTail(g, start, q);
    NextReached(g, start, s);
    QueueAppend(g, start, q[1..], Next(g, s));
    CoveredNew(g, q, visited);
    AllStatesHas(g, s);
  }

  lemma CoveredNew(g: Grid, q: seq<State>, visited: set<State>)
    requires Wide(g) && |q| > 0 && InBounds(g, q[0])
    requires (forall s :: s in visited ==> InBounds(g, s)) && Covered(g, q, visited)
    ensures Covered(g, q[1..] + Next(g, q[0]), visited + {q[0]})
  {
    var q' := q[1..] + Next(g, q[0]);
    assert forall n :: n in q ==> n == q[0] || n in q';
    assert forall n :: n in Next(g, q[0]) ==> n in q';
  }

  /** The cells of the first `h` rows of a grid `w` cells wide. */
  function GridCells(w: nat, h: nat): (r: set<(nat, nat)>)
    ensures forall p :: p in r <==> p.0 < w && p.1 < h
    ensures |r| == w * h
  {
    if h == 0 then {}
    else
      var top, row := GridCells(w, h - 1), RowCells(w, h - 1);
      assert top * row == {};
      top + row
  }

  /** The first `w` cells of row `y`. */
  function RowCells(w: nat, y: nat): (r: set<(nat, nat)>)
    ensures forall p :: p in r <==> p.0 < w && p.1 == y
    ensures |r| == w
  {
    if w == 0 then {} else RowCells(w - 1, y) + {(w - 1, y)}
  }

  /** States on the grid, one of them `start`, cover between one and all cells. */
  lemma EnergizedBounds(g: Grid, start: State, visited: set<State>)
    requires Wide(g) && start in visited && forall s :: s in visited ==> InBounds(g, s)
    ensures 1 <= |Cells(visited)| <= |g[0]| * |g|
  {
    var cells := Cells(visited);
    assert (start.0, start.1) in cells;
    var grid := GridCells(|g[0]|, |g|);
    assert cells <= grid;
    SubsetCard(cells, grid);
  }

  /** Between one cell and every cell of the grid is energized. */
  lemma EnergizedRange(g: Grid, start: State)
    requires Wide(g) && InBounds(g, start)
    ensures 1 <= Energized(g, start) <= |g[0]| * |g|
  {
    var reach := Reach(g, start);
    AllStatesHas(g, start);
    assert start in reach;
    EnergizedBounds(g, start, reach);
  }

  /** Once the queue is empty, the visited states are the reached ones. */
  lemma BeamDone(g: Grid, start: State, visited: set<State>)
    requires Wide(g) && BeamInv(g, start, [], visited)
    ensures visited == Reach(g, start)
  {
    assert Closed(g, visited);
    forall s | s in visited ensures s in Reach(g, start) {
      AllStatesHas(g, s);
    }
  }

  /** `Grid::simulate_beam`: a queue of beam states and the set of states
      seen; each state is expanded once. The visited states are exactly the
      states reached from `start`, and the count is their number of cells. */
  method SimulateBeam(g: Grid, start: State) returns (count: nat, visited: set<State>)
    requires Wide(g) && InBounds(g, start)
    ensures visited == Reach(g, start)
    ensures count == |Cells(visited)| == Energized(g, start)
  {
    var q := [start];
    visited := {};
    while |q| > 0
      invariant BeamInv(g, start, q, visited)
      invariant visited <= AllStates(g)
      decreases |AllStates(g) - visited|, |q|
    {
      var s := q[0];
      if s in visited {
        BeamSeen(g, start, q, visited);
        q := q[1..];
      } else {
        BeamNew(g, start, q, visited);
        q := q[1..] + Next(g, s);
        visited := visited + {s};
      }
    }
    BeamDone(g, start, visited);
    count := |Cells(visited)|;
  }

  // ---------------------------------------------------------------- parsing

  function ParseTile(c: char): (r: Result<Tile>)
    ensures r.Ok? <==> c in ".\\/|-"
    ensures r.Ok? ==> TileChar(r.value) == c
  {
    match c
    case '.' => Ok(Empty)
    case '\\' => Ok(BackMirror)
    case '/' => Ok(ForwardMirror)
    case '|' => Ok(VerticalSplitter)
    case '-' => Ok(HorizontalSplitter)
    case _ => Err("invalid tile")
  }

  function TileChar(t: Tile): char {
    match t
    case Empty => '.'
    case BackMirror => '\\'
    case ForwardMirror => '/'
    case VerticalSplitter => '|'
    case HorizontalSplitter => '-'
  }

  lemma TileCharRoundTrip(t: Tile)
    ensures ParseTile(TileChar(t)) == Ok(t)
  {
  }

  /** `parse_grid`: one tile per character. */
  function ParseGrid(lines: seq<string>): (r: Result<Grid>)
    ensures r.Ok? <==> forall y, x :: 0 <= y < |lines| && 0 <= x < |lines[y]| ==> lines[y][x] in ".\\/|-"
    ensures r.Ok? ==> |r.value| == |lines| && forall y :: 0 <= y < |lines| ==>
      |r.value[y]| == |lines[y]| && forall x :: 0 <= x < |lines[y]| ==> TileChar(r.value[y][x]) == lines[y][x]
  {
    var r := MapAllOk(lines, (line: string) => MapAllOk(line, ParseTile));
    assert r.Ok? ==> forall y :: 0 <= y < |lines| ==> MapAllOk(lines[y], ParseTile).Ok?;
    r
  }

  // -------------------------------------------------------------------- run

  /** The starts of part 2 in the order of the source's loops: down from
      the top and up from the bottom of each column, then right from the
      left and left from the right of each row. */
  function EdgeStarts(g: Grid): (r: seq<State>)
    requires Wide(g)
    ensures forall i :: 0 <= i < |r| ==> InBounds(g, r[i])
    ensures |r| == 2 * |g[0]| + 2 * |g|
  {
    ColumnStarts(g, 0) + RowStarts(g, 0)
  }

  function ColumnStarts(g: Grid, x: nat): (r: seq<State>)
    requires Wide(g) && x <= |g[0]|
    ensures forall i :: 0 <= i < |r| ==> InBounds(g, r[i])
    ensures |r| == 2 * (|g[0]| - x)
    decreases |g[0]| - x
  {
    if x == |g[0]| then [] else [(x, 0, Down), (x, |g| - 1, Up)] + ColumnStarts(g, x + 1)
  }

  function RowStarts(g: Grid, y: nat): (r: seq<State>)
    requires Wide(g) && y <= |g|
    ensures forall i :: 0 <= i < |r| ==> InBounds(g, r[i])
    ensures |r| == 2 * (|g| - y)
    decreases |g| - y
  {
    if y == |g| then [] else [(0, y, Right), (|g[0]| - 1, y, Left)] + RowStarts(g, y + 1)
  }

  /** Part 2: the most cells any edge start energizes. */
  method BestStart(g: Grid) returns (best: nat)
    requires Wide(g)
    ensures forall i :: 0 <= i < |EdgeStarts(g)| ==> Energized(g, EdgeStarts(g)[i]) <= best
    ensures exists i :: 0 <= i < |EdgeStarts(g)| && Energized(g, EdgeStarts(g)[i]) == best
  {
    var starts := EdgeStarts(g);
    best := 0;
    ghost var arg := 0;
    var i := 0;
    while i < |starts|
      invariant 0 <= i <= |starts|
      invariant forall j :: 0 <= j < i ==> Energized(g, starts[j]) <= best
      invariant i == 0 ==> best == 0
      invariant i > 0 ==> arg < i && Energized(g, starts[arg]) == best
    {
      var res, _ := SimulateBeam(g, starts[i]);
      if i == 0 || res > best {
        best := res;
        arg := i;
      }
      i := i + 1;
    }
  }

  /** `run`: part 1 sends the beam in at the top-left corner heading right;
      part 2 takes the best edge start. An empty grid, an empty first row or
      a row shorter than the first is an error: the source indexes the first
      row and the cells the beam reaches directly. */
  method Run(lines: seq<string>, part1: bool) returns (r: Result<nat>)
    ensures r.Ok? <==> ParseGrid(lines).Ok? && Wide(ParseGrid(lines).value)
    ensures r.Ok? && part1 ==> r.value == Energized(ParseGrid(lines).value, (0, 0, Right))
    ensures r.Ok? && !part1 ==>
      var g := ParseGrid(lines).value;
      (forall i :: 0 <= i < |EdgeStarts(g)| ==> Energized(g, EdgeStarts(g)[i]) <= r.value)
      && exists i :: 0 <= i < |EdgeStarts(g)| && Energized(g, EdgeStarts(g)[i]) == r.value
  {
    var parsed := ParseGrid(lines);
    if parsed.Err? || !Wide(parsed.value) {
      return Err("invalid grid");
    }
    var g := parsed.value;
    if part1 {
      var count, _ := SimulateBeam(g, (0, 0, Right));
      return Ok(count);
    }
    var best := BestStart(g);
    return Ok(best);
  }
}
