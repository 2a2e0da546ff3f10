/** Day 10: the pipe maze (src/d10.rs).

    A grid of pipe tiles; the start tile's pipe is inferred from the pipes
    around it, and a flood fill spreads the Inside/Outside marks left beside
    the loop into every unmarked tile they can reach. Coordinates are
    `(x, y)` with `y` the row, counted downwards. */
module PipeMaze {
  import opened Wrappers
  import opened Collections

  // ------------------------------------------------------------ directions

  datatype Dir = Up | Down | Left | Right

  /** Quarter turns clockwise from `Up`: the reference the rotations are
      stated against. */
  function Quarter(d: Dir): (q: nat)
    ensures q < 4
  {
    match d
    case Up => 0
    case Right => 1
    case Down => 2
    case Left => 3
  }

  lemma QuarterInjective(a: Dir, b: Dir)
    requires Quarter(a) == Quarter(b)
    ensures a == b
  {
  }

  /** `Dir::opposite`: half a turn. */
  function Opposite(d: Dir): (r: Dir)
    ensures Quarter(r) == (Quarter(d) + 2) % 4
  {
    match d
    case Up => Down
    case Down => Up
    case Left => Right
    case Right => Left
  }

  /** `Dir::rotated_cw`: a quarter turn clockwise. */
  function RotatedCw(d: Dir): (r: Dir)
    ensures Quarter(r) == (Quarter(d) + 1) % 4
  {
    match d
    case Up => Right
    case Down => Left
    case Left => Up
    case Right => Down
  }

  /** `Dir::rotated_ccw`, the opposite of the clockwise turn: three quarter
      turns clockwise. */
  function RotatedCcw(d: Dir): (r: Dir)
    ensures Quarter(r) == (Quarter(d) + 3) % 4
  {
    Opposite(RotatedCw(d))
  }

  /** The opposite is an involution without fixed points, four clockwise
      turns are the identity, and the counter-clockwise turn undoes the
      clockwise one. */
  lemma DirTurns(d: Dir)
    ensures Opposite(Opposite(d)) == d && Opposite(d) != d
    ensures RotatedCw(RotatedCw(RotatedCw(RotatedCw(d)))) == d
    ensures RotatedCcw(RotatedCw(d)) == d && RotatedCw(RotatedCcw(d)) == d
    ensures RotatedCw(RotatedCw(d)) == Opposite(d)
  {
    QuarterInjective(Opposite(Opposite(d)), d);
    QuarterInjective(RotatedCw(RotatedCw(RotatedCw(RotatedCw(d)))), d);
    QuarterInjective(RotatedCcw(RotatedCw(d)), d);
    QuarterInjective(RotatedCw(RotatedCcw(d)), d);
    QuarterInjective(RotatedCw(RotatedCw(d)), Opposite(d));
  }

  /** The step a direction makes on each axis; `Up` decreases the row. */
  function Dx(d: Dir): int {
    match d
    case Left => -1
    case Right => 1
    case _ => 0
  }

  function Dy(d: Dir): int {
    match d
    case Up => -1
    case Down => 1
    case _ => 0
  }

  // ----------------------------------------------------------------- pipes

  datatype Pipe = Vertical | Horizontal | UpLeft | UpRight | DownLeft | DownRight

  /** `Pipe::dirs`: the two ends of a pipe. */
  function Dirs(p: Pipe): (r: (Dir, Dir))
    ensures r.0 != r.1
  {
    match p
    case Vertical => (Up, Down)
    case Horizontal => (Left, Right)
    case UpLeft => (Up, Left)
    case UpRight => (Up, Right)
    case DownLeft => (Down, Left)
    case DownRight => (Down, Right)
  }

  /** `Pipe::connects_to`: `d` is one of the pipe's two ends. */
  predicate ConnectsTo(p: Pipe, d: Dir) {
    Dirs(p).0 == d || Dirs(p).1 == d
  }

  /** How many of the four directions a pipe connects to. */
  function Ends(p: Pipe): nat {
    Ind(ConnectsTo(p, Up)) + Ind(ConnectsTo(p, Down)) + Ind(ConnectsTo(p, Left)) + Ind(ConnectsTo(p, Right))
  }

  /** Every pipe connects exactly two directions, and its ends determine
      it. */
  lemma PipeEnds(p: Pipe, q: Pipe)
    requires forall d :: ConnectsTo(p, d) == ConnectsTo(q, d)
    ensures Ends(p) == 2
    ensures p == q
  {
    assert ConnectsTo(q, Dirs(p).0) && ConnectsTo(q, Dirs(p).1);
  }

  /** `From<Pipe> for char`. */
  function PipeChar(p: Pipe): char {
    match p
    case Vertical => '|'
    case Horizontal => '-'
    case UpLeft => 'J'
    case UpRight => 'L'
    case DownLeft => '7'
    case DownRight => 'F'
  }

  /** `TryFrom<char> for Pipe`: the inverse of `PipeChar`; every other
      character is an error. */
  function ParsePipe(c: char): (r: Result<Pipe>)
    ensures r.Ok? ==> PipeChar(r.value) == c
    ensures r.Err? ==> forall p :: PipeChar(p) != c
  {
    match c
    case '|' => Ok(Vertical)
    case '-' => Ok(Horizontal)
    case 'J' => Ok(UpLeft)
    case 'L' => Ok(UpRight)
    case '7' => Ok(DownLeft)
    case 'F' => Ok(DownRight)
    case _ => Err("invalid pipe character")
  }

  /** Printing a pipe and reading it back gives the pipe. */
  lemma PipeCharRoundTrip(p: Pipe)
    ensures ParsePipe(PipeChar(p)) == Ok(p)
  {
    assert ParsePipe(PipeChar(p)).Ok?;
  }

  /** `TryFrom<(Dir, Dir)> for Pipe`: the pipe with exactly these two ends,
      in either order; two equal directions are an error. */
  function PipeOfDirs(a: Dir, b: Dir): (r: Result<Pipe>)
    ensures r.Ok? <==> a != b
    ensures r.Ok? ==> forall d :: ConnectsTo(r.value, d) <==> d == a || d == b
  {
    match (a, b)
    case (Up, Down) => Ok(Vertical)
    case (Down, Up) => Ok(Vertical)
    case (Left, Right) => Ok(Horizontal)
    case (Right, Left) => Ok(Horizontal)
    case (Up, Left) => Ok(UpLeft)
    case (Left, Up) => Ok(UpLeft)
    case (Up, Right) => Ok(UpRight)
    case (Right, Up) => Ok(UpRight)
    case (Down, Left) => Ok(DownLeft)
    case (Left, Down) => Ok(DownLeft)
    case (Down, Right) => Ok(DownRight)
    case (Right, Down) => Ok(DownRight)
    case _ => Err("invalid pipe directions")
  }

  /** The conversion is symmetric and inverts `Dirs`. */
  lemma PipeOfDirsInverts(p: Pipe, a: Dir, b: Dir)
    ensures PipeOfDirs(Dirs(p).0, Dirs(p).1) == Ok(p)
    ensures PipeOfDirs(Dirs(p).1, Dirs(p).0) == Ok(p)
    ensures a != b ==> PipeOfDirs(a, b) == PipeOfDirs(b, a)
  {
    PipeEnds(p, PipeOfDirs(Dirs(p).0, Dirs(p).1).value);
    PipeEnds(p, PipeOfDirs(Dirs(p).1, Dirs(p).0).value);
    if a != b {
      PipeEnds(PipeOfDirs(a, b).value, PipeOfDirs(b, a).value);
    }
  }

  // ------------------------------------------------------------------ grid

  datatype Coloring = Path | Inside | Outside

  datatype Spot = Spot(pipe: Option<Pipe>, coloring: Option<Coloring>)

  /** `Grid::spots`, row by row. */
  type Grid = seq<seq<Spot>>

  /** Every row at least as long as the first. The grid's methods take
      `spots[0].len()` as the width and index every row up to it, so a
      shorter row panics, while the cells of a longer row past that width
      are never read or written. */
  predicate Wide(g: Grid) {
    |g| > 0 && forall y :: 0 <= y < |g| ==> |g[y]| >= |g[0]|
  }

  predicate InGrid(g: Grid, x: int, y: int) {
    |g| > 0 && 0 <= y < |g| && 0 <= x < |g[0]|
  }

  /** `Grid::neighbor_coords` for a tile of the grid: the next tile in
      direction `d`, or `None` exactly when that step leaves the grid. */
  function NeighborCoords(g: Grid, x: nat, y: nat, d: Dir): (r: Option<(nat, nat)>)
    requires InGrid(g, x, y)
    ensures r.Some? <==> InGrid(g, x + Dx(d), y + Dy(d))
    ensures r.Some? ==> r.value.0 == x + Dx(d) && r.value.1 == y + Dy(d)
  {
    match d
    case Up => if y > 0 then Some((x, y - 1)) else None
    case Down => if y < |g| - 1 then Some((x, y + 1)) else None
    case Left => if x > 0 then Some((x - 1, y)) else None
    case Right => if x < |g[0]| - 1 then Some((x + 1, y)) else None
  }

  /** `Grid::neighbor_pipe`. */
  function NeighborPipe(g: Grid, x: nat, y: nat, d: Dir): Option<Pipe>
    requires Wide(g) && InGrid(g, x, y)
  {
    match NeighborCoords(g, x, y, d)
    case None => None
    case Some(n) => g[n.1][n.0].pipe
  }

  /** The neighbour in direction `d` is a pipe with an end pointing back. */
  predicate Connecting(g: Grid, x: nat, y: nat, d: Dir)
    requires Wide(g) && InGrid(g, x, y)
  {
    var p := NeighborPipe(g, x, y, d);
    p.Some? && ConnectsTo(p.value, Opposite(d))
  }

  function NumConnecting(g: Grid, x: nat, y: nat): nat
    requires Wide(g) && InGrid(g, x, y)
  {
    Ind(Connecting(g, x, y, Left)) + Ind(Connecting(g, x, y, Right))
    + Ind(Connecting(g, x, y, Up)) + Ind(Connecting(g, x, y, Down))
  }

  /** The `dirs` vector of `infer_pipe`: the connecting directions, checked
      in the order left, right, up, down. */
  function ConnectingDirs(g: Grid, x: nat, y: nat): (r: seq<Dir>)
    requires Wide(g) && InGrid(g, x, y)
    ensures |r| == NumConnecting(g, x, y)
    ensures forall d :: d in r <==> Connecting(g, x, y, d)
    ensures |r| == 2 ==> r[0] != r[1]
  {
    (if Connecting(g, x, y, Left) then [Left] else [])
    + (if Connecting(g, x, y, Right) then [Right] else [])
    + (if Connecting(g, x, y, Up) then [Up] else [])
    + (if Connecting(g, x, y, Down) then [Down] else [])
  }

  /** `b` is `a` with at most the pipe of tile `(x, y)` changed. */
  predicate SameButPipeAt(a: Grid, b: Grid, x: nat, y: nat) {
    |b| == |a|
    && (forall j :: 0 <= j < |a| ==> |b[j]| == |a[j]|)
    && (forall j, i :: 0 <= j < |a| && 0 <= i < |a[j]| && (i != x || j != y) ==> b[j][i] == a[j][i])
    && (y < |a| && x < |a[y]| ==> b[y][x].coloring == a[y][x].coloring)
  }

  /** `Grid::infer_pipe`: succeeds exactly when two neighbours connect back
      to the start tile, and then gives the start tile the pipe joining
      exactly those two directions; nothing else changes. */
  function InferPipe(g: Grid, sx: nat, sy: nat): (r: Result<Grid>)
    requires Wide(g) && InGrid(g, sx, sy)
    ensures r.Ok? <==> NumConnecting(g, sx, sy) == 2
    ensures r.Ok? ==> SameButPipeAt(g, r.value, sx, sy) && r.value[sy][sx].pipe.Some?
    ensures r.Ok? ==> forall d :: ConnectsTo(r.value[sy][sx].pipe.value, d) <==> Connecting(g, sx, sy, d)
  {
    var dirs := ConnectingDirs(g, sx, sy);
    if |dirs| != 2 then Err("wrong number of pipes connecting")
    else
      var p := PipeOfDirs(dirs[0], dirs[1]).value;
      Ok(g[sy := g[sy][sx := Spot(Some(p), g[sy][sx].coloring)]])
  }

  // ------------------------------------------------------------- colouring

  function Swapped(c: Option<Coloring>): Option<Coloring> {
    match c
    case Some(Inside) => Some(Outside)
    case Some(Outside) => Some(Inside)
    case _ => c
  }

  /** `Grid::swap_coloring`: within the first row's width, Inside and
      Outside trade places; Path tiles, unmarked tiles, every pipe and the
      tiles past the width stay as they are. An empty grid is left alone. */
  function SwapColoring(g: Grid): (r: Grid)
    requires |g| == 0 || Wide(g)
    ensures |r| == |g| && forall y :: 0 <= y < |g| ==> |r[y]| == |g[y]|
    ensures forall y, x :: 0 <= y < |g| && 0 <= x < |g[0]| ==>
      r[y][x].pipe == g[y][x].pipe
      && (r[y][x].coloring == Some(Inside) <==> g[y][x].coloring == Some(Outside))
      && (r[y][x].coloring == Some(Outside) <==> g[y][x].coloring == Some(Inside))
      && (r[y][x].coloring == Some(Path) <==> g[y][x].coloring == Some(Path))
      && (r[y][x].coloring.None? <==> g[y][x].coloring.None?)
    ensures forall y, x :: 0 <= y < |g| && |g[0]| <= x < |g[y]| ==> r[y][x] == g[y][x]
  {
    if |g| == 0 then []
    else
      seq(|g|, y requires 0 <= y < |g| =>
        seq(|g[y]|, x requires 0 <= x < |g[y]| =>
          if x < |g[0]| then Spot(g[y][x].pipe, Swapped(g[y][x].coloring)) else g[y][x]))
  }

  /** Swapping twice restores the grid. */
  lemma SwapTwice(g: Grid)
    requires |g| == 0 || Wide(g)
    ensures SwapColoring(SwapColoring(g)) == g
  {
    var s := SwapColoring(g);
    var t := SwapColoring(s);
    assert |t| == |g|;
    forall y | 0 <= y < |g| ensures t[y] == g[y] {
      assert |t[y]| == |g[y]|;
      forall x | 0 <= x < |g[y]| ensures t[y][x] == g[y][x] {
        if x < |g[0]| {
          SwapRow(g, y);
          SwapRow(s, y);
          SpotSwapTwice(g[y][x], s[y][x], t[y][x]);
        }
      }
    }
  }

  lemma SpotSwapTwice(a: Spot, b: Spot, c: Spot)
    requires b.pipe == a.pipe && c.pipe == b.pipe
    requires b.coloring == Swapped(a.coloring) && c.coloring == Swapped(b.coloring)
    ensures c == a
  {
  }

  // ------------------------------------------------------------ flood fill

  predicate ColouredNonPath(s: Spot) {
    s.coloring.Some? && s.coloring.value != Path
  }

  /** The neighbour in direction `d` is off the grid or already marked. */
  predicate NbColoured(g: Grid, x: nat, y: nat, d: Dir)
    requires Wide(g) && InGrid(g, x, y)
  {
    var n := NeighborCoords(g, x, y, d);
    n.None? || g[n.value.1][n.value.0].coloring.Some?
  }

  /** A tile the flood has finished with: all four neighbours are marked. */
  predicate Settled(g: Grid, x: nat, y: nat)
    requires Wide(g) && InGrid(g, x, y)
  {
    NbColoured(g, x, y, Up) && NbColoured(g, x, y, Down)
    && NbColoured(g, x, y, Left) && NbColoured(g, x, y, Right)
  }

  /** A marked non-Path tile the flood could still grow from. */
  predicate Open(g: Grid, x: nat, y: nat)
    requires Wide(g) && InGrid(g, x, y)
  {
    ColouredNonPath(g[y][x]) && !Settled(g, x, y)
  }

  /** `b` is `a` after a flood: same shape and pipes, every marked tile
      keeps its mark, newly marked tiles are Inside or Outside, and tiles
      past the first row's width are untouched. */
  predicate Extends(a: Grid, b: Grid) {
    Wide(a) && |b| == |a|
    && (forall y :: 0 <= y < |b| ==> |b[y]| == |a[y]|)
    && (forall y, x :: 0 <= y < |a| && 0 <= x < |a[0]| ==>
      b[y][x].pipe == a[y][x].pipe
      && (a[y][x].coloring.Some? ==> b[y][x].coloring == a[y][x].coloring)
      && (b[y][x].coloring.Some? && a[y][x].coloring.None? ==> b[y][x].coloring.value != Path))
    && forall y, x :: 0 <= y < |a| && |a[0]| <= x < |a[y]| ==> b[y][x] == a[y][x]
  }

  lemma ExtendsRefl(a: Grid)
    requires Wide(a)
    ensures Extends(a, a)
  {
  }

  lemma ExtendsTrans(a: Grid, b: Grid, c: Grid)
    requires Extends(a, b) && Extends(b, c)
    ensures Extends(a, c)
  {
  }

  /** Marks only accumulate, so a settled tile stays settled. */
  lemma SettledGrows(a: Grid, b: Grid, x: nat, y: nat)
    requires Extends(a, b) && InGrid(a, x, y) && Settled(a, x, y)
    ensures Settled(b, x, y)
  {
    assert NeighborCoords(a, x, y, Up) == NeighborCoords(b, x, y, Up);
    assert NeighborCoords(a, x, y, Down) == NeighborCoords(b, x, y, Down);
    assert NeighborCoords(a, x, y, Left) == NeighborCoords(b, x, y, Left);
    assert NeighborCoords(a, x, y, Right) == NeighborCoords(b, x, y, Right);
  }

  function SetColour(g: Grid, x: nat, y: nat, c: Coloring): (r: Grid)
    requires Wide(g) && InGrid(g, x, y)
  {
    g[y := g[y][x := Spot(g[y][x].pipe, Some(c))]]
  }

  /** The unmarked tiles, which bound the flood's work. */
  ghost function Unmarked(g: Grid): set<(nat, nat)>
    requires Wide(g)
  {
    set y: nat, x: nat | y < |g| && x < |g[0]| && g[y][x].coloring.None? :: (x, y)
  }

  /** `added` lists exactly the tiles that were unmarked in `a` and are
      marked in `b`. */
  ghost predicate NewlyMarked(a: Grid, b: Grid, added: seq<(nat, nat)>)
    requires Extends(a, b)
  {
    forall p :: p in added <==> InGrid(a, p.0, p.1) && a[p.1][p.0].coloring.None? && b[p.1][p.0].coloring.Some?
  }

  /** The tiles newly marked over two floods are those of each. */
  lemma NewlyMarkedTrans(a: Grid, b: Grid, c: Grid, ab: seq<(nat, nat)>, bc: seq<(nat, nat)>)
    requires Extends(a, b) && Extends(b, c)
    requires NewlyMarked(a, b, ab) && NewlyMarked(b, c, bc)
    ensures Extends(a, c) && NewlyMarked(a, c, ab + bc)
  {
    ExtendsTrans(a, b, c);
  }

  lemma UnmarkedShrinks(a: Grid, b: Grid, added: seq<(nat, nat)>)
    requires Extends(a, b)
    requires NewlyMarked(a, b, added)
    ensures Unmarked(b) <= Unmarked(a)
    ensures |added| > 0 ==> Unmarked(b) < Unmarked(a)
  {
    if |added| > 0 {
      var (x, y) := added[0];
      assert (x, y) in Unmarked(a);
      assert b[y][x].coloring.Some?;
    }
  }

  /** One direction of the inner loop of `fill_coloring`: an unmarked
      neighbour gets colour `c` and joins the queue. */
  function Spread(g: Grid, x: nat, y: nat, d: Dir, c: Coloring): (r: (Grid, seq<(nat, nat)>))
    requires Wide(g) && InGrid(g, x, y) && c != Path
    ensures Extends(g, r.0) && NbColoured(r.0, x, y, d)
    ensures NewlyMarked(g, r.0, r.1)
  {
    match NeighborCoords(g, x, y, d)
    case None => (g, [])
    case Some(n) =>
      if g[n.1][n.0].coloring.None? then (SetColour(g, n.0, n.1, c), [n]) else (g, [])
  }

  /** The four directions, in the order `fill_coloring` tries them. */
  function Visit(g: Grid, x: nat, y: nat, c: Coloring): (r: (Grid, seq<(nat, nat)>))
    requires Wide(g) && InGrid(g, x, y) && c != Path
    ensures Extends(g, r.0) && Settled(r.0, x, y)
    ensures NewlyMarked(g, r.0, r.1)
  {
    var (g1, a1) := Spread(g, x, y, Up, c);
    var (g2, a2) := Spread(g1, x, y, Down, c);
    var (g3, a3) := Spread(g2, x, y, Left, c);
    var (g4, a4) := Spread(g3, x, y, Right, c);
    VisitChain(g, g1, g2, g3, g4, x, y);
    NewlyMarkedTrans(g, g1, g2, a1, a2);
    NewlyMarkedTrans(g, g2, g3, a1 + a2, a3);
    NewlyMarkedTrans(g, g3, g4, a1 + a2 + a3, a4);
    (g4, a1 + a2 + a3 + a4)
  }

  lemma VisitChain(g: Grid, g1: Grid, g2: Grid, g3: Grid, g4: Grid, x: nat, y: nat)
    requires Extends(g, g1) && Extends(g1, g2) && Extends(g2, g3) && Extends(g3, g4)
    requires InGrid(g, x, y)
    requires NbColoured(g1, x, y, Up) && NbColoured(g2, x, y, Down)
    requires NbColoured(g3, x, y, Left) && NbColoured(g4, x, y, Right)
    ensures Extends(g, g4) && Settled(g4, x, y)
  {
    ExtendsTrans(g, g1, g2);
    ExtendsTrans(g, g2, g3);
    ExtendsTrans(g, g3, g4);
    NbColouredGrows(g1, g4, x, y, Up);
    NbColouredGrows(g2, g4, x, y, Down);
    NbColouredGrows(g3, g4, x, y, Left);
  }

  lemma NbColouredGrows(a: Grid, b: Grid, x: nat, y: nat, d: Dir)
    requires Extends(a, b) && InGrid(a, x, y) && NbColoured(a, x, y, d)
    ensures NbColoured(b, x, y, d)
  {
    assert NeighborCoords(a, x, y, d) == NeighborCoords(b, x, y, d);
  }

  /** What the flood's loop keeps: the grid only grew, the queue holds
      tiles of the grid, and every open tile is queued or was open before
      the flood (and is not where it started). */
  ghost predicate FloodInv(g: Grid, r: Grid, q: seq<(nat, nat)>, x0: nat, y0: nat) {
    Extends(g, r)
    && (forall p :: p in q ==> InGrid(g, p.0, p.1))
    && forall y: nat, x: nat :: InGrid(r, x, y) && Open(r, x, y) ==>
      (x, y) in q || (Open(g, x, y) && (x, y) != (x0, y0))
  }

  /** The breadth-first flood `fill_coloring` starts from a marked non-Path
      tile: afterwards that tile is settled, and every open tile was
      already open before. */
  method Flood(g: Grid, x0: nat, y0: nat) returns (r: Grid)
    requires Wide(g) && InGrid(g, x0, y0) && ColouredNonPath(g[y0][x0])
    ensures Extends(g, r)
    ensures forall y: nat, x: nat :: InGrid(r, x, y) && Open(r, x, y) ==> Open(g, x, y) && (x, y) != (x0, y0)
  {
    var c := g[y0][x0].coloring.value;
    r := g;
    var q := [(x0, y0)];
    ExtendsRefl(g);
    while |q| > 0
      invariant FloodInv(g, r, q, x0, y0)
      decreases Unmarked(r), |q|
    {
      var p := q[0];
      var (r', added) := Visit(r, p.0, p.1, c);
      FloodStep(g, r, r', q, added, x0, y0);
      r, q := r', q[1..] + added;
    }
  }

  lemma FloodStep(g: Grid, r: Grid, r': Grid, q: seq<(nat, nat)>, added: seq<(nat, nat)>, x0: nat, y0: nat)
    requires FloodInv(g, r, q, x0, y0) && |q| > 0
    requires Extends(r, r') && Settled(r', q[0].0, q[0].1)
    requires NewlyMarked(r, r', added)
    ensures FloodInv(g, r', q[1..] + added, x0, y0)
    ensures Unmarked(r') <= Unmarked(r)
    ensures |added| > 0 ==> Unmarked(r') < Unmarked(r)
  {
    UnmarkedShrinks(r, r', added);
    ExtendsTrans(g, r, r');
    forall y: nat, x: nat | InGrid(r', x, y) && Open(r', x, y)
      ensures (x, y) in q[1..] + added || (Open(g, x, y) && (x, y) != (x0, y0))
    {
      if (x, y) !in added && (x, y) != q[0] {
        assert r[y][x].coloring == r'[y][x].coloring;
        if Settled(r, x, y) {
          SettledGrows(r, r', x, y);
        }
        assert Open(r, x, y);
        if (x, y) in q {
          assert (x, y) in q[1..];
        }
      }
    }
  }

  /** Row-major order: tile `(x, y)` comes before the cursor `(cx, cy)`. */
  predicate Before(x: nat, y: nat, cx: nat, cy: nat) {
    y < cy || (y == cy && x < cx)
  }

  /** `Grid::fill_coloring`: floods from every marked non-Path tile, in
      row-major order. Only unmarked tiles are written, only with Inside or
      Outside, and afterwards no unmarked tile borders an Inside or Outside
      tile. */
  method FillColoring(g: Grid) returns (r: Grid)
    requires Wide(g)
    ensures Extends(g, r)
    ensures forall y: nat, x: nat :: InGrid(r, x, y) && ColouredNonPath(r[y][x]) ==> Settled(r, x, y)
  {
    r := g;
    ExtendsRefl(g);
    var y := 0;
    while y < |g|
      invariant y <= |g| && Extends(g, r) && SettledBefore(r, 0, y)
    {
      var x := 0;
      while x < |g[0]|
        invariant x <= |g[0]| && Extends(g, r) && SettledBefore(r, x, y)
      {
        var r' := r;
        if ColouredNonPath(r[y][x]) {
          r' := Flood(r, x, y);
        }
        FillStep(r, r', x, y);
        ExtendsTrans(g, r, r');
        r := r';
        x := x + 1;
      }
      y := y + 1;
    }
  }

  /** Every marked non-Path tile before the cursor `(x, y)` is settled. */
  ghost predicate SettledBefore(r: Grid, x: nat, y: nat)
    requires Wide(r)
  {
    forall j: nat, i: nat :: InGrid(r, i, j) && Before(i, j, x, y) && ColouredNonPath(r[j][i]) ==> Settled(r, i, j)
  }

  lemma FillStep(r: Grid, r': Grid, x: nat, y: nat)
    requires InGrid(r, x, y) && Extends(r, r') && SettledBefore(r, x, y)
    requires forall j: nat, i: nat :: InGrid(r', i, j) && Open(r', i, j) ==> Open(r, i, j) && (i, j) != (x, y)
    ensures SettledBefore(r', x + 1, y) && SettledBefore(r', 0, if x + 1 == |r[0]| then y + 1 else y)
  {
    forall j: nat, i: nat | InGrid(r', i, j) && Before(i, j, x + 1, y) && ColouredNonPath(r'[j][i])
      ensures Settled(r', i, j)
    {
      if !Settled(r', i, j) {
        assert Open(r', i, j);
      }
    }
  }

  // ------------------------------------------------------------ path marks

  /** `Grid::mark_path_spot`: the tile becomes Path; the unmarked neighbour
      a clockwise turn from `d` (to the right of travel) becomes Outside and
      the one a counter-clockwise turn away becomes Inside. Marked tiles
      other than this one and every pipe stay as they are. */
  function MarkPathSpot(g: Grid, x: nat, y: nat, d: Dir): (r: Grid)
    requires Wide(g) && InGrid(g, x, y)
    ensures |r| == |g| && forall j :: 0 <= j < |g| ==> |r[j]| == |g[j]|
    ensures r[y][x].coloring == Some(Path)
    ensures forall j, i :: 0 <= j < |g| && 0 <= i < |g[j]| ==>
      r[j][i].pipe == g[j][i].pipe
      && ((i != x || j != y) && g[j][i].coloring.Some? ==> r[j][i].coloring == g[j][i].coloring)
      && (i >= |g[0]| ==> r[j][i] == g[j][i])
    ensures forall e :: e == RotatedCw(d) || e == RotatedCcw(d) ==>
      var n := NeighborCoords(g, x, y, e);
      n.Some? && (n.value.0 != x || n.value.1 != y) && g[n.value.1][n.value.0].coloring.None? ==>
        r[n.value.1][n.value.0].coloring == Some(if e == RotatedCw(d) then Outside else Inside)
  {
    var g1 := g[y := g[y][x := Spot(g[y][x].pipe, Some(Path))]];
    var g2 := MarkSide(g1, x, y, RotatedCw(d), Outside);
    MarkSide(g2, x, y, RotatedCcw(d), Inside)
  }

  /** Marks the neighbour in direction `e` with `c` if it is unmarked. */
  function MarkSide(g: Grid, x: nat, y: nat, e: Dir, c: Coloring): (r: Grid)
    requires Wide(g) && InGrid(g, x, y)
    ensures |r| == |g| && forall j :: 0 <= j < |g| ==> |r[j]| == |g[j]|
    ensures forall j, i :: 0 <= j < |g| && 0 <= i < |g[j]| ==>
      r[j][i].pipe == g[j][i].pipe
      && (g[j][i].coloring.Some? ==> r[j][i].coloring == g[j][i].coloring)
      && (i >= |g[0]| ==> r[j][i] == g[j][i])
    ensures var n := NeighborCoords(g, x, y, e);
      n.Some? && g[n.value.1][n.value.0].coloring.None? ==> r[n.value.1][n.value.0].coloring == Some(c)
  {
    match NeighborCoords(g, x, y, e)
    case None => g
    case Some(n) =>
      if g[n.1][n.0].coloring.None? then SetColour(g, n.0, n.1, c) else g
  }

  // --------------------------------------------------------------- parsing

  /** One character of `parse_grid`: 'S' and '.' are empty tiles, anything
      else must be a pipe character. No tile is marked yet. */
  function ParseSpot(c: char): (r: Result<Spot>)
    ensures r.Ok? <==> c == 'S' || c == '.' || ParsePipe(c).Ok?
    ensures r.Ok? ==> r.value.coloring.None?
    ensures r.Ok? ==> (r.value.pipe.Some? <==> c != 'S' && c != '.')
    ensures r.Ok? && r.value.pipe.Some? ==> PipeChar(r.value.pipe.value) == c
  {
    if c == 'S' || c == '.' then Ok(Spot(None, None))
    else
      var p :- ParsePipe(c);
      Ok(Spot(Some(p), None))
  }

  predicate IsStart(lines: seq<string>, x: int, y: int) {
    0 <= y < |lines| && 0 <= x < |lines[y]| && lines[y][x] == 'S'
  }

  /** The last 'S' of a line. */
  function LastStart(line: string): (r: Option<nat>)
    ensures r.Some? ==> r.value < |line| && line[r.value] == 'S'
    ensures r.Some? ==> forall j :: r.value < j < |line| ==> line[j] != 'S'
    ensures r.None? ==> forall j :: 0 <= j < |line| ==> line[j] != 'S'
  {
    if |line| == 0 then None
    else if line[|line| - 1] == 'S' then Some(|line| - 1)
    else LastStart(line[..|line| - 1])
  }

  /** The start `parse_grid` reports: each 'S' overwrites the previous one,
      so it is the last 'S' in row-major order, or `(0, 0)` without one. */
  function StartOf(lines: seq<string>): (r: (nat, nat))
    ensures IsStart(lines, r.0, r.1) || (r == (0, 0) && forall y, x :: !IsStart(lines, x, y))
    ensures forall y, x :: IsStart(lines, x, y) ==> !Before(r.0, r.1, x, y)
  {
    if |lines| == 0 then (0, 0)
    else
      var n := |lines| - 1;
      match LastStart(lines[n])
      case Some(x) => (x, n)
      case None =>
        var r := StartOf(lines[..n]);
        assert forall y, x :: IsStart(lines, x, y) && y < n ==> IsStart(lines[..n], x, y);
        r
  }

  /** `parse_grid`: one tile per character, failing on a character that is
      neither 'S', '.' nor a pipe; also the start position. */
  function ParseGrid(lines: seq<string>): (r: Result<(Grid, (nat, nat))>)
    ensures r.Ok? <==> forall y :: 0 <= y < |lines| ==> forall x :: 0 <= x < |lines[y]| ==> ParseSpot(lines[y][x]).Ok?
    ensures r.Ok? ==> |r.value.0| == |lines| && forall y :: 0 <= y < |lines| ==>
      |r.value.0[y]| == |lines[y]| && forall x :: 0 <= x < |lines[y]| ==> r.value.0[y][x] == ParseSpot(lines[y][x]).value
    ensures r.Ok? ==> r.value.1 == StartOf(lines)
  {
    var rows :- MapAllOk(lines, (line: string) => MapAllOk(line, ParseSpot));
    Ok((rows, StartOf(lines)))
  }

  /** The tiles marked `c`; with `c` = Inside, the count `enclosed_area`
      returns after the loop walk. */
  function MarkCount(g: Grid, c: Coloring): (n: nat)
    ensures n <= Tiles(g)
  {
    if |g| == 0 then 0 else MarkCount(g[..|g| - 1], c) + RowMarks(g[|g| - 1], c)
  }

  function RowMarks(row: seq<Spot>, c: Coloring): (n: nat)
    ensures n <= |row|
  {
    if |row| == 0 then 0 else RowMarks(row[..|row| - 1], c) + Ind(row[|row| - 1].coloring == Some(c))
  }

  function Tiles(g: Grid): nat {
    if |g| == 0 then 0 else Tiles(g[..|g| - 1]) + |g[|g| - 1]|
  }

  /** No tile past the first row's width carries a mark, as after parsing:
      the grid's methods never mark one. */
  predicate NoMarksPast(g: Grid)
    requires Wide(g)
  {
    forall y, x :: 0 <= y < |g| && |g[0]| <= x < |g[y]| ==> g[y][x].coloring.None?
  }

  /** After `swap_coloring` the Inside tiles are the former Outside ones,
      which is why `calc_cycle` swaps when the loop turned clockwise. */
  lemma {:induction false} SwapCounts(g: Grid)
    requires |g| == 0 || (Wide(g) && NoMarksPast(g))
    ensures MarkCount(SwapColoring(g), Inside) == MarkCount(g, Outside)
    ensures MarkCount(SwapColoring(g), Outside) == MarkCount(g, Inside)
    decreases |g|
  {
    if |g| > 0 {
      var n := |g| - 1;
      var s: Grid := SwapColoring(g);
      if n > 0 {
        SwapPrefix(g, n);
        SwapCounts(g[..n]);
      } else {
        assert s[..n] == [] && g[..n] == [];
      }
      SwapLastRow(g, s);
      CountsStep(g, s);
    }
  }

  /** The counts of a grid are those of its rows but the last, plus the
      last row's. */
  lemma CountsStep(g: Grid, s: Grid)
    requires |g| > 0 && |s| == |g|
    requires MarkCount(s[..|s| - 1], Inside) == MarkCount(g[..|g| - 1], Outside)
    requires MarkCount(s[..|s| - 1], Outside) == MarkCount(g[..|g| - 1], Inside)
    requires RowMarks(s[|s| - 1], Inside) == RowMarks(g[|g| - 1], Outside)
    requires RowMarks(s[|s| - 1], Outside) == RowMarks(g[|g| - 1], Inside)
    ensures MarkCount(s, Inside) == MarkCount(g, Outside)
    ensures MarkCount(s, Outside) == MarkCount(g, Inside)
  {
  }

  lemma SwapLastRow(g: Grid, s: Grid)
    requires Wide(g) && NoMarksPast(g) && s == SwapColoring(g)
    ensures RowMarks(s[|g| - 1], Inside) == RowMarks(g[|g| - 1], Outside)
    ensures RowMarks(s[|g| - 1], Outside) == RowMarks(g[|g| - 1], Inside)
  {
    var n := |g| - 1;
    SwapRow(g, n);
    assert forall x: int :: 0 <= x < |g[n]| ==> s[n][x].coloring == Swapped(g[n][x].coloring);
    RowSwapCounts(g[n], s[n]);
  }

  lemma SwapPrefix(g: Grid, n: nat)
    requires Wide(g) && 0 < n <= |g|
    ensures Wide(g[..n]) && SwapColoring(g)[..n] == SwapColoring(g[..n])
  {
    assert forall y :: 0 <= y < n ==> SwapColoring(g)[..n][y] == SwapColoring(g[..n])[y];
  }

  lemma SwapRow(g: Grid, y: nat)
    requires Wide(g) && y < |g|
    ensures |SwapColoring(g)[y]| == |g[y]|
    ensures forall x :: 0 <= x < |g[y]| ==>
      SwapColoring(g)[y][x].coloring == (if x < |g[0]| then Swapped(g[y][x].coloring) else g[y][x].coloring)
  {
  }

  lemma {:induction false} RowSwapCounts(a: seq<Spot>, b: seq<Spot>)
    requires |b| == |a|
    requires forall x :: 0 <= x < |a| ==> b[x].coloring == Swapped(a[x].coloring)
    ensures RowMarks(b, Inside) == RowMarks(a, Outside)
    ensures RowMarks(b, Outside) == RowMarks(a, Inside)
    decreases |a|
  {
    if |a| > 0 {
      RowSwapCounts(a[..|a| - 1], b[..|b| - 1]);
    }
  }
}
