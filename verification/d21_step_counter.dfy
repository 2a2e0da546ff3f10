/** Day 21: the garden plots an elf can stand on after exactly `steps`
    steps (src/d21.rs).

    The walk is a breadth-first search from the start. A plot first
    reached at distance `d` can be reached again after any further even
    number of steps, by stepping back and forth, so it counts when
    `steps - d` is even. With `repeat` the map tiles the plane. */
module StepCounter {
  import opened Wrappers
  import Wasteland

  /** A position `(x, y)`; `y` grows downwards. */
  type Point = (int, int)

  datatype Garden = Garden(width: nat, height: nat, rows: seq<string>)

  // ------------------------------------------------------------ from_lines

  /** The line with the start marker replaced by a plot. */
  function Plain(line: string): (r: string)
    ensures |r| == |line|
    ensures forall x :: 0 <= x < |line| ==> r[x] == if line[x] == 'S' then '.' else line[x]
  {
    if |line| == 0 then [] else [if line[0] == 'S' then '.' else line[0]] + Plain(line[1..])
  }

  /** The last position of `c` in `line`. */
  function LastIn(line: string, c: char): (r: Option<nat>)
    ensures r.Some? ==> r.value < |line| && line[r.value] == c
    ensures r.Some? ==> forall x :: r.value < x < |line| ==> line[x] != c
    ensures r.None? ==> c !in line
  {
    if |line| == 0 then None
    else if line[|line| - 1] == c then Some(|line| - 1)
    else LastIn(line[..|line| - 1], c)
  }

  /** `(x, y)` comes after `(x', y')` in reading order. */
  predicate After(x: int, y: int, x': int, y': int) {
    y > y' || (y == y' && x > x')
  }

  /** The start marker the loop in `from_lines` settles on: it overwrites
      the position at every 'S', so the last one in reading order wins. */
  function StartIn(lines: seq<string>): (r: Option<Point>)
    ensures r.Some? ==> 0 <= r.value.1 < |lines| && 0 <= r.value.0 < |lines[r.value.1]|
                        && lines[r.value.1][r.value.0] == 'S'
    ensures r.Some? ==> forall y, x :: 0 <= y < |lines| && 0 <= x < |lines[y]| && After(x, y, r.value.0, r.value.1)
                          ==> lines[y][x] != 'S'
    ensures r.None? ==> forall y :: 0 <= y < |lines| ==> 'S' !in lines[y]
  {
    if |lines| == 0 then None
    else
      match LastIn(lines[|lines| - 1], 'S')
      case Some(x) => Some((x, |lines| - 1))
      case None => StartIn(lines[..|lines| - 1])
  }

  /** `Map::from_lines`: the width is that of the first line, the start
      marker becomes a plot, and the start is the last marker, or (0, 0)
      without one. An empty input has no first line. */
  function FromLines(lines: seq<string>): (r: Result<(Garden, Point)>)
    ensures r.Ok? <==> |lines| > 0
    ensures r.Ok? ==> r.value.0.width == |lines[0]| && r.value.0.height == |lines|
    ensures r.Ok? ==> |r.value.0.rows| == |lines|
                      && forall y :: 0 <= y < |lines| ==> r.value.0.rows[y] == Plain(lines[y])
    ensures r.Ok? ==> r.value.1 == if StartIn(lines).Some? then StartIn(lines).value else (0, 0)
  {
    if |lines| == 0 then Err("no first line")
    else
      var rows := seq(|lines|, y requires 0 <= y < |lines| => Plain(lines[y]));
      Ok((Garden(|lines[0]|, |lines|, rows), match StartIn(lines) case Some(p) => p case None => (0, 0)))
  }

  // ----------------------------------------------------------------- moves

  /** The `k`-th of the four moves: up, left, right, down. */
  function Move(k: nat): (d: Point)
    requires k < 4
  {
    if k == 0 then (0, -1) else if k == 1 then (-1, 0) else if k == 2 then (1, 0) else (0, 1)
  }

  /** The loop derives the moves from `i = 2k + 1` as `dx = i % 3 - 1`
      and `dy = i / 3 - 1`. */
  lemma MoveFromIndex(k: nat)
    requires k < 4
    ensures var i := 2 * k + 1; Move(k) == (i % 3 - 1, i / 3 - 1)
  {
  }

  function Step(p: Point, k: nat): Point
    requires k < 4
  {
    (p.0 + Move(k).0, p.1 + Move(k).1)
  }

  // -------------------------------------------------------------- wrapping

  lemma MulAtLeast(k: int, m: int)
    requires k >= 1 && m > 0
    ensures k * m >= m
  {
  }

  lemma MulAtMost(k: int, m: int)
    requires k <= -1 && m > 0
    ensures k * m <= -m
  {
  }

  /** Quotient and remainder are unique. */
  lemma ModUnique(a: int, m: int, q: int, r: int)
    requires m > 0 && a == q * m + r && 0 <= r < m
    ensures a % m == r
  {
    var k := q - a / m;
    assert k * m == a % m - r;
    if k >= 1 {
      MulAtLeast(k, m);
    } else if k <= -1 {
      MulAtMost(k, m);
    }
  }

  lemma DivIsZero(a: nat, b: nat)
    requires b > 0
    ensures (a / b == 0) <==> a < b
  {
    var q := a / b;
    if q >= 1 {
      MulAtLeast(q, b);
    } else if a < b {
      ModUnique(a, b, 0, a);
    }
  }

  /** Rust's `%` on `i32`: the remainder takes the sign of the dividend. */
  function TruncRem(a: int, m: int): (r: int)
    requires m > 0
    ensures -m < r < m && (a >= 0 ==> r >= 0) && (a < 0 ==> r <= 0)
  {
    if a >= 0 then a % m else -((-a) % m)
  }

  /** `(a % m + m) % m` with Rust's remainder: the Euclidean remainder. */
  function Wrap(a: int, m: int): (r: int)
    requires m > 0
    ensures r == a % m
  {
    var t := TruncRem(a, m) + m;
    if a >= 0 then
      ModUnique(t, m, 1, a % m);
      t % m
    else
      var q, rest := (-a) / m, (-a) % m;
      if rest == 0 then
        ModUnique(t, m, 1, 0);
        ModUnique(a, m, -q, 0);
        t % m
      else
        ModUnique(t, m, 0, m - rest);
        ModUnique(a, m, -q - 1, m - rest);
        t % m
  }

  /** Shifting by a whole map leaves the wrapped coordinate alone. */
  lemma WrapPeriodic(a: int, m: int)
    requires m > 0
    ensures Wrap(a + m, m) == Wrap(a, m) && Wrap(a - m, m) == Wrap(a, m)
  {
    ModUnique(a + m, m, a / m + 1, a % m);
    ModUnique(a - m, m, a / m - 1, a % m);
  }

  lemma WrapInside(a: int, m: int)
    requires 0 <= a < m
    ensures Wrap(a, m) == a
  {
    ModUnique(a, m, 0, a);
  }

  // ------------------------------------------------------------ open plots

  /** The character at `(x, y)`, if the row has one. */
  function CellAt(g: Garden, x: int, y: int): (r: Option<char>)
    ensures r.Some? <==> 0 <= y < |g.rows| && 0 <= x < |g.rows[y]|
    ensures r.Some? ==> r.value == g.rows[y][x]
  {
    if 0 <= y < |g.rows| && 0 <= x < |g.rows[y]| then Some(g.rows[y][x]) else None
  }

  /** A step onto `p` is taken: `p` is a plot, found by wrapping with
      `repeat` and only inside the map without it. */
  predicate Open(g: Garden, repeat: bool, p: Point) {
    if repeat then
      g.width > 0 && g.height > 0 && CellAt(g, Wrap(p.0, g.width), Wrap(p.1, g.height)) == Some('.')
    else
      0 <= p.1 < g.height && 0 <= p.0 < g.width && CellAt(g, p.0, p.1) == Some('.')
  }

  /** On the tiled plane, a copy of a plot is a plot. */
  lemma OpenRepeats(g: Garden, p: Point)
    requires g.width > 0 && g.height > 0
    ensures Open(g, true, (p.0 + g.width, p.1)) == Open(g, true, p)
    ensures Open(g, true, (p.0, p.1 + g.height)) == Open(g, true, p)
  {
    WrapPeriodic(p.0, g.width);
    WrapPeriodic(p.1, g.height);
  }

  /** Inside the map the two modes see the same plots. */
  lemma OpenInside(g: Garden, p: Point)
    requires 0 <= p.0 < g.width && 0 <= p.1 < g.height
    ensures Open(g, true, p) == Open(g, false, p)
  {
    WrapInside(p.0, g.width);
    WrapInside(p.1, g.height);
  }

  /** Looking up the cell a step onto `p` tries indexes past the end of a
      row that is shorter than the first: the source panics there. Without
      `repeat` only positions inside the first row's width and the row
      count are looked up. */
  predicate Missing(g: Garden, repeat: bool, p: Point) {
    if repeat then
      g.width > 0 && g.height > 0 && CellAt(g, Wrap(p.0, g.width), Wrap(p.1, g.height)).None?
    else
      0 <= p.1 < g.height && 0 <= p.0 < g.width && CellAt(g, p.0, p.1).None?
  }

  /** Rows at least as long as the first are never missing a looked-up
      cell. */
  lemma NotMissing(g: Garden, repeat: bool, p: Point)
    requires g.height == |g.rows| && forall y :: 0 <= y < |g.rows| ==> |g.rows[y]| >= g.width
    ensures !Missing(g, repeat, p)
  {
  }

  /** The plots of the garden as a predicate on the plane. */
  function OpenIn(g: Garden, repeat: bool): Point -> bool {
    p => Open(g, repeat, p)
  }

  /** The positions pushed after visiting `p`, moves `k` and on, in order. */
  function NeighboursFrom(plot: Point -> bool, p: Point, k: nat): (r: seq<Point>)
    requires k <= 4
    ensures |r| <= 4 - k
    ensures forall q :: q in r <==> exists j :: k <= j < 4 && q == Step(p, j) && plot(q)
    decreases 4 - k
  {
    if k == 4 then []
    else (if plot(Step(p, k)) then [Step(p, k)] else []) + NeighboursFrom(plot, p, k + 1)
  }

  function Neighbours(plot: Point -> bool, p: Point): seq<Point> {
    NeighboursFrom(plot, p, 0)
  }

  // -------------------------------------------------- reference: the rings

  /** Every open neighbour of a point of `s`. */
  function Next(plot: Point -> bool, s: set<Point>): set<Point> {
    set p, k | p in s && 0 <= k < 4 && plot(Step(p, k)) :: Step(p, k)
  }

  /** The points within `d` steps of `start`. */
  function Reached(plot: Point -> bool, start: Point, d: nat): set<Point> {
    if d == 0 then {start}
    else
      var prev := Reached(plot, start, d - 1);
      prev + Next(plot, prev)
  }

  /** The points within fewer than `d` steps. */
  function Below(plot: Point -> bool, start: Point, d: nat): set<Point> {
    if d == 0 then {} else Reached(plot, start, d - 1)
  }

  /** The points at distance exactly `d`. */
  function Ring(plot: Point -> bool, start: Point, d: nat): set<Point> {
    Reached(plot, start, d) - Below(plot, start, d)
  }

  /** The plots reachable in exactly `steps` steps among the rings before
      `d`: a ring counts when `steps` minus its distance is even. */
  function Plots(plot: Point -> bool, start: Point, steps: nat, d: nat): nat
    requires d <= steps + 1
  {
    if d == 0 then 0
    else Plots(plot, start, steps, d - 1)
         + (if (steps - (d - 1)) % 2 == 0 then |Ring(plot, start, d - 1)| else 0)
  }

  lemma {:induction false} ReachedGrows(plot: Point -> bool, start: Point, i: nat, j: nat)
    requires i <= j
    ensures Reached(plot, start, i) <= Reached(plot, start, j)
    decreases j
  {
    if i < j {
      ReachedGrows(plot, start, i, j - 1);
    }
  }

  /** A point of ring `d` is at distance `d`: reached in `d` steps and in
      no fewer. */
  lemma RingIsDistance(plot: Point -> bool, start: Point, d: nat, p: Point)
    requires p in Ring(plot, start, d)
    ensures p in Reached(plot, start, d)
    ensures forall i: nat :: i < d ==> p !in Reached(plot, start, i)
  {
    if d > 0 {
      var prev := Reached(plot, start, d - 1);
      assert p !in prev;
      forall i: nat | i < d ensures p !in Reached(plot, start, i) {
        ReachedGrows(plot, start, i, d - 1);
      }
    }
  }

  /** A point at distance `d` is in ring `d`. */
  lemma DistanceIsRing(plot: Point -> bool, start: Point, d: nat, p: Point)
    requires p in Reached(plot, start, d)
    requires forall i: nat :: i < d ==> p !in Reached(plot, start, i)
    ensures p in Ring(plot, start, d)
  {
    if d > 0 {
      assert p !in Reached(plot, start, d - 1);
    }
  }

  /** Every point `d` steps away is within Manhattan distance `d`. */
  lemma {:induction false} ReachedNear(plot: Point -> bool, start: Point, d: nat, p: Point)
    requires p in Reached(plot, start, d)
    ensures Manhattan(p, start) <= d
  {
    if d > 0 {
      var prev := Reached(plot, start, d - 1);
      if p in prev {
        ReachedNear(plot, start, d - 1, p);
      } else {
        var q, k :| q in prev && 0 <= k < 4 && plot(Step(q, k)) && p == Step(q, k);
        ReachedNear(plot, start, d - 1, q);
        StepManhattan(q, k, start);
      }
    }
  }

  function Abs(a: int): nat {
    if a < 0 then -a else a
  }

  function Manhattan(p: Point, q: Point): nat {
    Abs(p.0 - q.0) + Abs(p.1 - q.1)
  }

  lemma StepManhattan(q: Point, k: nat, start: Point)
    requires k < 4
    ensures Manhattan(Step(q, k), start) <= Manhattan(q, start) + 1
    ensures Colour(Step(q, k)) != Colour(q)
  {
  }

  /** The colour of a point on the checkerboard. */
  function Colour(p: Point): (c: nat)
    ensures c < 2
  {
    (p.0 + p.1) % 2
  }

  /** Without `repeat`, every point after the start is an open plot of the
      map. */
  lemma {:induction false} ReachedInside(g: Garden, start: Point, d: nat, p: Point)
    requires p in Reached(OpenIn(g, false), start, d) && p != start
    ensures 0 <= p.0 < g.width && 0 <= p.1 < g.height && CellAt(g, p.0, p.1) == Some('.')
  {
    if d > 0 {
      var prev := Reached(OpenIn(g, false), start, d - 1);
      if p in prev {
        ReachedInside(g, start, d - 1, p);
      } else {
        var q, k :| q in prev && 0 <= k < 4 && OpenIn(g, false)(Step(q, k)) && p == Step(q, k);
      }
    }
  }

  /** The points of ring `d + 1` are exactly the new neighbours of ring
      `d`. */
  lemma RingNext(plot: Point -> bool, start: Point, d: nat)
    ensures Next(plot, Ring(plot, start, d)) <= Reached(plot, start, d + 1)
    ensures Next(plot, Ring(plot, start, d)) - Reached(plot, start, d) == Ring(plot, start, d + 1)
  {
    var ring := Ring(plot, start, d);
    var now := Reached(plot, start, d);
    NextMono(plot, ring, now);
    NextBelow(plot, start, d);
    forall p | p in Ring(plot, start, d + 1)
      ensures p in Next(plot, ring)
    {
      var q, k :| q in now && 0 <= k < 4 && plot(Step(q, k)) && p == Step(q, k);
      assert q in ring;
    }
  }

  /** The neighbours of the points closer than `d` are within `d`. */
  lemma NextBelow(plot: Point -> bool, start: Point, d: nat)
    ensures Next(plot, Below(plot, start, d)) <= Reached(plot, start, d)
  {
    if d == 0 {
      assert Next(plot, {}) == {};
    }
  }

  lemma NextMono(plot: Point -> bool, a: set<Point>, b: set<Point>)
    requires a <= b
    ensures Next(plot, a) <= Next(plot, b)
  {
  }

  /** Every point of ring `d` differs in the parity of `x + y` from the
      start exactly when `d` is odd, so the counted plots all share one
      colour of the checkerboard. */
  lemma {:induction false} RingParity(plot: Point -> bool, start: Point, d: nat, p: Point)
    requires p in Ring(plot, start, d)
    ensures (Colour(p) == Colour(start)) <==> d % 2 == 0
  {
    if d == 0 {
      assert p == start by {
        assert p in Reached(plot, start, 0);
      }
    } else {
      var q, k := RingStep(plot, start, d, p);
      RingParity(plot, start, d - 1, q);
      StepManhattan(q, k, start);
      ColourFlip(Colour(p), Colour(q), Colour(start), d);
    }
  }

  lemma ColourFlip(cp: nat, cq: nat, cs: nat, d: nat)
    requires cp < 2 && cq < 2 && cs < 2 && cp != cq && d > 0
    requires (cq == cs) <==> (d - 1) % 2 == 0
    ensures (cp == cs) <==> d % 2 == 0
  {
  }

  /** Every point of ring `d + 1` is one step from a point of ring `d`. */
  lemma RingStep(plot: Point -> bool, start: Point, d: nat, p: Point) returns (q: Point, k: nat)
    requires d > 0 && p in Ring(plot, start, d)
    ensures q in Ring(plot, start, d - 1) && k < 4 && p == Step(q, k) && plot(p)
  {
    var prev := Reached(plot, start, d - 1);
    assert p in Next(plot, prev);
    q, k :| q in prev && 0 <= k < 4 && plot(Step(q, k)) && p == Step(q, k);
    NextBelow(plot, start, d - 1);
    assert q !in Below(plot, start, d - 1);
  }

  // ------------------------------------------------------------------- bfs

  function Elems(s: seq<Point>): set<Point> {
    set p | p in s
  }

  lemma ElemsAppend(a: seq<Point>, b: seq<Point>)
    ensures Elems(a + b) == Elems(a) + Elems(b)
  {
  }

  /** Visiting one more point adds its open neighbours. */
  lemma NextAdd(plot: Point -> bool, a: set<Point>, p: Point)
    ensures Next(plot, a + {p}) == Next(plot, a) + Elems(Neighbours(plot, p))
  {
    forall q | q in Elems(Neighbours(plot, p)) ensures q in Next(plot, a + {p}) {
      var j :| 0 <= j < 4 && q == Step(p, j) && plot(q);
    }
  }

  /** The queue of one layer holds all of ring `d`, and nothing from
      further away. */
  ghost predicate Layer(plot: Point -> bool, start: Point, d: nat, cur: seq<Point>) {
    Elems(cur) <= Reached(plot, start, d)
    && Elems(cur) - Below(plot, start, d) == Ring(plot, start, d)
  }

  /** Visiting a new point: it joins the visited points and its open
      neighbours join the queue. */
  lemma VisitOne(plot: Point -> bool, visited0: set<Point>, visited: set<Point>, next: seq<Point>, p: Point)
    requires visited0 <= visited && p !in visited
    requires Elems(next) == Next(plot, visited - visited0)
    ensures Elems(next + Neighbours(plot, p)) == Next(plot, (visited + {p}) - visited0)
    ensures |(visited + {p}) - visited0| == |visited - visited0| + 1
  {
    NextAdd(plot, visited - visited0, p);
    ElemsAppend(next, Neighbours(plot, p));
    assert (visited + {p}) - visited0 == (visited - visited0) + {p};
  }

  /** The breadth-first search of `run`. A FIFO queue hands out every entry
      at distance `d` before any at `d + 1`, so the queue is taken here one
      layer at a time: `cur` holds the entries at distance `d` in queue
      order, and `VisitLayer` collects those they push. */
  method Bfs(plot: Point -> bool, start: Point, steps: nat) returns (visited: set<Point>, count: nat)
    ensures visited == Reached(plot, start, steps)
    ensures count == Plots(plot, start, steps, steps + 1)
  {
    visited := {};
    count := 0;
    var cur: seq<Point> := [start];
    var d := 0;
    while d <= steps
      invariant d <= steps + 1
      invariant visited == Below(plot, start, d)
      invariant d <= steps ==> Layer(plot, start, d, cur)
      invariant count == Plots(plot, start, steps, d)
    {
      var below := visited;
      var next;
      visited, count, next := VisitLayer(plot, (steps - d) % 2 == 0, cur, visited, count);
      LayerDone(plot, start, d, cur, visited, next);
      cur := next;
      d := d + 1;
    }
  }

  /** The entries of one layer taken from the queue in order. An entry
      already visited is skipped; a new one is visited, counted when
      `counted` (the remaining steps are even), and pushes its open
      neighbours. */
  method VisitLayer(plot: Point -> bool, counted: bool, cur: seq<Point>, visited0: set<Point>, count0: nat)
    returns (visited: set<Point>, count: nat, next: seq<Point>)
    ensures visited == visited0 + Elems(cur)
    ensures Elems(next) == Next(plot, visited - visited0)
    ensures count == count0 + (if counted then |visited - visited0| else 0)
  {
    visited, count, next := visited0, count0, [];
    var i := 0;
    assert Visiting(plot, counted, cur[..0], visited0, count0, visited, count, next);
    while i < |cur|
      invariant i <= |cur|
      invariant Visiting(plot, counted, cur[..i], visited0, count0, visited, count, next)
    {
      var p := cur[i];
      assert cur[..i + 1] == cur[..i] + [p];
      VisitStep(plot, counted, cur[..i], visited0, count0, visited, count, next, p);
      if p !in visited {
        visited := visited + {p};
        if counted {
          count := count + 1;
        }
        next := next + Neighbours(plot, p);
      }
      i := i + 1;
    }
    assert cur[..|cur|] == cur;
  }

  /** The state after taking the entries `done` of a layer. */
  ghost predicate Visiting(plot: Point -> bool, counted: bool, done: seq<Point>, visited0: set<Point>, count0: nat,
                           visited: set<Point>, count: nat, next: seq<Point>) {
    && visited == visited0 + Elems(done)
    && Elems(next) == Next(plot, visited - visited0)
    && count == count0 + (if counted then |visited - visited0| else 0)
  }

  lemma VisitStep(plot: Point -> bool, counted: bool, done: seq<Point>, visited0: set<Point>, count0: nat,
                  visited: set<Point>, count: nat, next: seq<Point>, p: Point)
    requires Visiting(plot, counted, done, visited0, count0, visited, count, next)
    ensures p in visited ==> Visiting(plot, counted, done + [p], visited0, count0, visited, count, next)
    ensures p !in visited ==>
              Visiting(plot, counted, done + [p], visited0, count0, visited + {p},
                       if counted then count + 1 else count, next + Neighbours(plot, p))
  {
    ElemsAppend(done, [p]);
    assert Elems([p]) == {p};
    if p !in visited {
      VisitOne(plot, visited0, visited, next, p);
    }
  }

  /** A finished layer: everything within `d` steps is visited and the
      pushed entries form the next layer. */
  lemma LayerDone(plot: Point -> bool, start: Point, d: nat, cur: seq<Point>, visited: set<Point>, next: seq<Point>)
    requires Layer(plot, start, d, cur)
    requires visited == Below(plot, start, d) + Elems(cur)
    requires Elems(next) == Next(plot, visited - Below(plot, start, d))
    ensures visited == Reached(plot, start, d)
    ensures visited - Below(plot, start, d) == Ring(plot, start, d)
    ensures Layer(plot, start, d + 1, next)
  {
    var below, ring, now := Below(plot, start, d), Ring(plot, start, d), Reached(plot, start, d);
    if d > 0 {
      ReachedGrows(plot, start, d - 1, d);
    }
    assert below <= now;
    assert ring == now - below;
    assert visited - below == Elems(cur) - below == ring;
    assert now == below + ring;
    assert ring <= Elems(cur) <= now;
    assert visited == now;
    assert Below(plot, start, d + 1) == now;
    RingNext(plot, start, d);
  }

  // ------------------------------------------------------------------- run

  /** `2 * lcm(width, height)`, the size of a shell. */
  function ShellSize(w: nat, h: nat): (n: nat)
    requires w > 0 && h > 0
    ensures n > 0
  {
    Wasteland.Lcm(w, h);
    2 * Wasteland.Quot(w * h, Wasteland.Gcd(w, h))
  }

  /** Some plot within `steps` of the start has a neighbour whose lookup
      runs past the end of its row. */
  predicate Panics(g: Garden, repeat: bool, visited: set<Point>) {
    exists p, k :: p in visited && 0 <= k < 4 && Missing(g, repeat, Step(p, k))
  }

  /** `run` when `steps` is below one shell: the shell counter is zero, the
      shell bookkeeping never fires (no entry is further than `steps`), and
      the answer is the count of the search. An empty input or an empty
      first line makes the source panic (no first line, or a division by a
      zero shell size), and so does a search that looks up a cell past the
      end of a row shorter than the first: every plot within `steps` of the
      start has its four neighbours looked up. Up to the first such lookup
      the search sees the same plots as one that takes a missing cell for
      a rock, so it panics exactly when that search reaches a plot with a
      missing neighbour. */
  method Run(lines: seq<string>, steps: nat, repeat: bool) returns (r: Result<nat>)
    ensures r.Ok? <==> |lines| > 0 && |lines[0]| > 0 && steps < ShellSize(|lines[0]|, |lines|)
                       && var (g, start) := FromLines(lines).value;
                          !Panics(g, repeat, Reached(OpenIn(g, repeat), start, steps))
    ensures r.Ok? ==> var (g, start) := FromLines(lines).value;
                      r.value == Plots(OpenIn(g, repeat), start, steps, steps + 1)
  {
    var parsed :- FromLines(lines);
    var g, start := parsed.0, parsed.1;
    assert g.width == |lines[0]| && g.height == |lines|;
    if g.width == 0 {
      return Err("zero shell size");
    }
    var shellSize := ShellSize(g.width, g.height);
    var shells := steps / shellSize;
    if shells > 0 {
      assert steps >= ShellSize(|lines[0]|, |lines|) by {
        DivIsZero(steps, shellSize);
      }
      return Err("shell extrapolation");
    }
    assert steps < ShellSize(|lines[0]|, |lines|) by {
      DivIsZero(steps, shellSize);
    }
    var visited, count := Bfs(OpenIn(g, repeat), start, steps);
    if exists p, k | p in visited && 0 <= k < 4 :: Missing(g, repeat, Step(p, k)) {
      return Err("index out of bounds");
    }
    return Ok(count);
  }

  /** A garden whose rows are all at least as long as the first never
      panics on a lookup. */
  lemma WideNeverPanics(lines: seq<string>, repeat: bool, visited: set<Point>)
    requires |lines| > 0 && forall y :: 0 <= y < |lines| ==> |lines[y]| >= |lines[0]|
    ensures !Panics(FromLines(lines).value.0, repeat, visited)
  {
    var g := FromLines(lines).value.0;
    forall p, k | p in visited && 0 <= k < 4 ensures !Missing(g, repeat, Step(p, k)) {
      NotMissing(g, repeat, Step(p, k));
    }
  }

  /** A row shorter than the first is reached: from the start, one step
      down reaches the second row, whose cell to the right does not exist. */
  lemma ShortRowPanics()
    ensures FromLines(["S..", "."]).Ok?
    ensures var (g, start) := FromLines(["S..", "."]).value;
            Panics(g, false, Reached(OpenIn(g, false), start, 2))
  {
    var lines := ["S..", "."];
    var (g, start) := FromLines(lines).value;
    assert StartIn(lines) == Some((0, 0)) by {
      assert 'S' !in lines[1];
    }
    var plot := OpenIn(g, false);
    assert g.rows[1] == ".";
    assert plot((0, 1));
    assert Step((0, 0), 3) == (0, 1);
    assert (0, 1) in Next(plot, {start});
    assert (0, 1) in Reached(plot, start, 1);
    ReachedGrows(plot, start, 1, 2);
    assert Missing(g, false, Step((0, 1), 2));
  }
}
