/** Day 24, "Never Tell Me The Odds": hailstones flying along straight
    lines in integer 3-D space, and the search for a rock that hits every
    one of them.

    The integer core is modelled: vector arithmetic, rays, truncating
    exact division, the Cramer's-rule collision of two rays at integer
    times, the chain of collision times seen from a rock moving with a
    fixed velocity, the final consistency check, and parsing. */
module Hailstones {
  import opened Wrappers
  import opened Text

  datatype Vec3 = Vec3(x: int, y: int, z: int)

  /** A hailstone: position at time 0 and velocity per time step. */
  datatype Ray = Ray(start: Vec3, dir: Vec3)

  function Add(a: Vec3, b: Vec3): Vec3 {
    Vec3(a.x + b.x, a.y + b.y, a.z + b.z)
  }

  function Scale(a: Vec3, t: int): Vec3 {
    Vec3(a.x * t, a.y * t, a.z * t)
  }

  /** Componentwise difference (`impl Sub for Vec3`). */
  function Sub(a: Vec3, b: Vec3): (r: Vec3)
    ensures Add(r, b) == a
    ensures r == Vec3(0, 0, 0) <==> a == b
  {
    Vec3(a.x - b.x, a.y - b.y, a.z - b.z)
  }

  /** Where the ray is at time `t` (`evaulate`). */
  function Eval(r: Ray, t: int): Vec3 {
    Vec3(r.start.x + r.dir.x * t, r.start.y + r.dir.y * t, r.start.z + r.dir.z * t)
  }

  /** At time 0 the ray is at its start, and every time step moves it by
      its velocity. */
  lemma EvalStep(r: Ray, t: int)
    ensures Eval(r, 0) == r.start
    ensures Eval(r, t + 1) == Add(Eval(r, t), r.dir)
  {
    assert r.dir.x * (t + 1) == r.dir.x * t + r.dir.x;
    assert r.dir.y * (t + 1) == r.dir.y * t + r.dir.y;
    assert r.dir.z * (t + 1) == r.dir.z * t + r.dir.z;
  }

  /** The ray as seen by an observer that starts at the origin and moves
      with velocity `v` (`in_moving_frame`). */
  function InMovingFrame(r: Ray, v: Vec3): (m: Ray)
    ensures m.start == r.start
  {
    Ray(r.start, Sub(r.dir, v))
  }

  /** The moving observer sees the ray displaced by its own travel. */
  lemma MovingFrameEval(r: Ray, v: Vec3, t: int)
    ensures Eval(InMovingFrame(r, v), t) == Sub(Eval(r, t), Scale(v, t))
  {
    MovingComponent(r.dir.x, v.x, t);
    MovingComponent(r.dir.y, v.y, t);
    MovingComponent(r.dir.z, v.z, t);
  }

  lemma MovingComponent(d: int, v: int, t: int)
    ensures (d - v) * t == d * t - v * t
  {
  }

  // ----------------------------------------------------- exact division

  function Abs(a: int): nat {
    if a < 0 then -a else a
  }

  /** Division rounding toward zero together with its remainder, as
      `Integer::div_rem` on `i64` computes them. */
  function DivRem(a: int, b: int): (r: (int, int))
    requires b != 0
    ensures a == b * r.0 + r.1
    ensures Abs(r.1) < Abs(b)
    ensures r.1 == 0 || (r.1 > 0 <==> a > 0)
  {
    var q0 := Abs(a) / Abs(b);
    var m := Abs(a) % Abs(b);
    NatDivMod(Abs(a), Abs(b));
    NegMul(b, q0);
    if a >= 0 && b > 0 then
      (q0, m)
    else if a >= 0 then
      (-q0, m)
    else if b > 0 then
      (-q0, -m)
    else
      (q0, -m)
  }

  lemma NatDivMod(n: nat, d: nat)
    requires d > 0
    ensures n == d * (n / d) + n % d && 0 <= n % d < d
    ensures n == 0 ==> n % d == 0
  {
  }

  lemma NegMul(x: int, y: int)
    ensures (-x) * y == -(x * y) && x * (-y) == -(x * y)
  {
  }

  /** `a == b * q + r` with `|r| < |b|` pins down `q`. */
  lemma {:induction false} QuotientUnique(a: int, b: int, q: int, r: int, q': int)
    requires b != 0 && a == b * q + r && Abs(r) < Abs(b) && a == b * q'
    ensures q == q' && r == 0
  {
    var k := q' - q;
    assert b * k == r;
    if k >= 1 {
      MulAbsAtLeast(b, k);
    } else if k <= -1 {
      NegMul(b, k);
      MulAbsAtLeast(b, -k);
    }
  }

  lemma MulAbsAtLeast(b: int, k: int)
    requires k >= 1
    ensures Abs(b * k) >= Abs(b)
  {
    if b >= 0 {
      assert b * k == b + b * (k - 1);
    } else {
      assert b * k == b + b * (k - 1);
    }
  }

  /** The quotient when `down` divides `up` exactly (`try_div_int`). */
  function TryDivInt(up: int, down: int): (r: Option<int>)
    requires down != 0
    ensures r.Some? ==> r.value * down == up
  {
    var (d, m) := DivRem(up, down);
    if m != 0 then None else Some(d)
  }

  /** Exactly the multiples of `down` are divided, to their one quotient. */
  lemma TryDivIntExact(up: int, down: int, q: int)
    requires down != 0
    ensures TryDivInt(up, down) == Some(q) <==> q * down == up
  {
    if q * down == up {
      var (d, m) := DivRem(up, down);
      QuotientUnique(up, down, d, m, q);
    }
  }

  // ------------------------------------------------------- two rays meet

  /** The three coordinate planes the solver tries, in its order. */
  datatype Plane = XY | YZ | ZX

  /** The first coordinate of `v` in plane `p`. */
  function Fst(v: Vec3, p: Plane): int {
    match p
    case XY => v.x
    case YZ => v.y
    case ZX => v.z
  }

  /** The second coordinate of `v` in plane `p`. */
  function Snd(v: Vec3, p: Plane): int {
    match p
    case XY => v.y
    case YZ => v.z
    case ZX => v.x
  }

  /** The determinant of the 2x2 system `w1 t1 - w2 t2 = ds` in plane `p`. */
  function Det(w1: Vec3, w2: Vec3, p: Plane): int {
    Fst(w2, p) * Snd(w1, p) - Fst(w1, p) * Snd(w2, p)
  }

  /** Some plane's system has a unique solution. */
  predicate Determined(r1: Ray, r2: Ray) {
    Det(r1.dir, r2.dir, XY) != 0 || Det(r1.dir, r2.dir, YZ) != 0 || Det(r1.dir, r2.dir, ZX) != 0
  }

  /** Ray `r1` at time `t1` is where ray `r2` is at time `t2`. */
  predicate Meet(r1: Ray, r2: Ray, t1: int, t2: int) {
    Eval(r1, t1) == Eval(r2, t2)
  }

  /** Cramer's rule in one plane, kept only when both times are integers
      and the rays really meet there in all three coordinates. */
  function SolveIn(r1: Ray, r2: Ray, p: Plane): (r: Option<(int, int)>)
    requires Det(r1.dir, r2.dir, p) != 0
    ensures r.Some? ==> Meet(r1, r2, r.value.0, r.value.1)
  {
    var w1 := r1.dir;
    var w2 := r2.dir;
    var ds := Sub(r2.start, r1.start);
    var down := Det(w1, w2, p);
    var t1 :- TryDivInt(Fst(w2, p) * Snd(ds, p) - Fst(ds, p) * Snd(w2, p), down);
    var t2 :- TryDivInt(Fst(w1, p) * Snd(ds, p) - Fst(ds, p) * Snd(w1, p), down);
    if Eval(r1, t1) != Eval(r2, t2) then None else Some((t1, t2))
  }

  /** The times at which two rays cross at one integer point
      (`future_collision_on_grid`): the xy, yz and zx systems are tried in
      this order, the first with a nonzero determinant decides. */
  function Collide(r1: Ray, r2: Ray): (r: Option<(int, int)>)
    ensures r.Some? ==> Meet(r1, r2, r.value.0, r.value.1)
    ensures !Determined(r1, r2) ==> r.None?
  {
    if Det(r1.dir, r2.dir, XY) != 0 then SolveIn(r1, r2, XY)
    else if Det(r1.dir, r2.dir, YZ) != 0 then SolveIn(r1, r2, YZ)
    else if Det(r1.dir, r2.dir, ZX) != 0 then SolveIn(r1, r2, ZX)
    else None
  }

  /** Solving `w1 a - w2 b = ds` by Cramer's rule. */
  lemma Cramer(w1a: int, w1b: int, w2a: int, w2b: int, dsa: int, dsb: int, a: int, b: int)
    requires w1a * a - w2a * b == dsa && w1b * a - w2b * b == dsb
    ensures w2a * dsb - dsa * w2b == a * (w2a * w1b - w1a * w2b)
    ensures w1a * dsb - dsa * w1b == b * (w2a * w1b - w1a * w2b)
  {
    assert w2a * dsb == w2a * w1b * a - w2a * w2b * b;
    assert dsa * w2b == w1a * w2b * a - w2a * w2b * b;
    assert w1a * dsb == w1a * w1b * a - w1a * w2b * b;
    assert dsa * w1b == w1a * w1b * a - w2a * w1b * b;
  }

  /** Meeting coordinates give the plane's equations. */
  lemma MeetEquations(r1: Ray, r2: Ray, a: int, b: int, p: Plane)
    requires Meet(r1, r2, a, b)
    ensures Fst(r1.dir, p) * a - Fst(r2.dir, p) * b == Fst(Sub(r2.start, r1.start), p)
    ensures Snd(r1.dir, p) * a - Snd(r2.dir, p) * b == Snd(Sub(r2.start, r1.start), p)
  {
    assert Eval(r1, a).x == Eval(r2, b).x;
    assert Eval(r1, a).y == Eval(r2, b).y;
    assert Eval(r1, a).z == Eval(r2, b).z;
  }

  /** When the plane's determinant is nonzero and the rays meet at
      integer times, Cramer's rule finds exactly those times. */
  lemma SolveInFinds(r1: Ray, r2: Ray, p: Plane, a: int, b: int)
    requires Det(r1.dir, r2.dir, p) != 0 && Meet(r1, r2, a, b)
    ensures SolveIn(r1, r2, p) == Some((a, b))
  {
    var w1 := r1.dir;
    var w2 := r2.dir;
    var ds := Sub(r2.start, r1.start);
    var down := Det(w1, w2, p);
    MeetEquations(r1, r2, a, b, p);
    Cramer(Fst(w1, p), Snd(w1, p), Fst(w2, p), Snd(w2, p), Fst(ds, p), Snd(ds, p), a, b);
    TryDivIntExact(Fst(w2, p) * Snd(ds, p) - Fst(ds, p) * Snd(w2, p), down, a);
    TryDivIntExact(Fst(w1, p) * Snd(ds, p) - Fst(ds, p) * Snd(w1, p), down, b);
  }

  /** The collision is found exactly when some plane determines it and the
      rays do meet at those integer times. */
  lemma CollideExactly(r1: Ray, r2: Ray, a: int, b: int)
    ensures Collide(r1, r2) == Some((a, b)) <==> Determined(r1, r2) && Meet(r1, r2, a, b)
  {
    if Determined(r1, r2) && Meet(r1, r2, a, b) {
      if Det(r1.dir, r2.dir, XY) != 0 {
        SolveInFinds(r1, r2, XY, a, b);
      } else if Det(r1.dir, r2.dir, YZ) != 0 {
        SolveInFinds(r1, r2, YZ, a, b);
      } else {
        SolveInFinds(r1, r2, ZX, a, b);
      }
    }
  }

  // ------------------------------------------------- the rock's viewpoint

  /** Seen from the rock, neighbouring hailstones among the first `|ts|`
      pass through the same point at their times in `ts`, every time
      lying in the future. */
  predicate ChainedPrefix(rays: seq<Ray>, v: Vec3, ts: seq<int>) {
    && |ts| <= |rays|
    && (forall i :: 0 <= i < |ts| ==> ts[i] >= 0)
    && (forall i :: 0 <= i < |ts| - 1 ==>
          Meet(InMovingFrame(rays[i], v), InMovingFrame(rays[i + 1], v), ts[i], ts[i + 1]))
  }

  /** The same for all hailstones. */
  predicate Chained(rays: seq<Ray>, v: Vec3, ts: seq<int>) {
    |ts| == |rays| && ChainedPrefix(rays, v, ts)
  }

  /** A chain in which each neighbouring pair is determined by some plane. */
  predicate Converging(rays: seq<Ray>, v: Vec3, ts: seq<int>) {
    && Chained(rays, v, ts)
    && forall i :: 0 <= i < |rays| - 1 ==> Determined(InMovingFrame(rays[i], v), InMovingFrame(rays[i + 1], v))
  }

  /** Every converging chain starts with `ts`. */
  ghost predicate Agrees(rays: seq<Ray>, v: Vec3, ts: seq<int>) {
    forall c :: Converging(rays, v, c) ==> |ts| <= |c| && c[..|ts|] == ts
  }

  lemma ConvergingStep(rays: seq<Ray>, v: Vec3, ts: seq<int>, i: nat)
    requires Converging(rays, v, ts) && i < |rays| - 1
    ensures Collide(InMovingFrame(rays[i], v), InMovingFrame(rays[i + 1], v)) == Some((ts[i], ts[i + 1]))
  {
    CollideExactly(InMovingFrame(rays[i], v), InMovingFrame(rays[i + 1], v), ts[i], ts[i + 1]);
  }

  /** Each converging chain meets hailstones `i` and `i + 1` where the
      solver finds them meeting. */
  lemma ConvergingSteps(rays: seq<Ray>, v: Vec3, i: nat)
    requires i < |rays| - 1
    ensures forall c :: Converging(rays, v, c) ==>
              Collide(InMovingFrame(rays[i], v), InMovingFrame(rays[i + 1], v)) == Some((c[i], c[i + 1]))
  {
    forall c | Converging(rays, v, c)
      ensures Collide(InMovingFrame(rays[i], v), InMovingFrame(rays[i + 1], v)) == Some((c[i], c[i + 1]))
    {
      ConvergingStep(rays, v, c, i);
    }
  }

  /** A further time found by the solver extends the chain and its
      agreement with every converging chain. */
  lemma Extend(rays: seq<Ray>, v: Vec3, ts: seq<int>, b: int)
    requires 1 <= |ts| < |rays| && ChainedPrefix(rays, v, ts) && Agrees(rays, v, ts) && b >= 0
    requires Collide(InMovingFrame(rays[|ts| - 1], v), InMovingFrame(rays[|ts|], v)) == Some((ts[|ts| - 1], b))
    ensures ChainedPrefix(rays, v, ts + [b]) && Agrees(rays, v, ts + [b])
  {
    forall c | Converging(rays, v, c) ensures |ts| + 1 <= |c| && c[..|ts| + 1] == ts + [b] {
      ExtendOne(rays, v, ts, b, c);
    }
  }

  /** The step of `Extend` for one converging chain. */
  lemma ExtendOne(rays: seq<Ray>, v: Vec3, ts: seq<int>, b: int, c: seq<int>)
    requires 1 <= |ts| < |rays| && Converging(rays, v, c) && |ts| <= |c| && c[..|ts|] == ts
    requires Collide(InMovingFrame(rays[|ts| - 1], v), InMovingFrame(rays[|ts|], v)) == Some((ts[|ts| - 1], b))
    ensures |ts| + 1 <= |c| && c[..|ts| + 1] == ts + [b]
  {
    ConvergingStep(rays, v, c, |ts| - 1);
    assert c[|ts| - 1] == ts[|ts| - 1];
    assert c[..|ts| + 1] == c[..|ts|] + [c[|ts|]];
  }

  /** The times at which the rock moving with velocity `v` meets each
      hailstone (`calculate_collision_times`). Fewer than two rays give
      no times: the first two are indexed unconditionally, which panics. */
  method CollisionTimes(rays: seq<Ray>, v: Vec3) returns (r: Option<seq<int>>)
    ensures |rays| < 2 ==> r.None?
    ensures r.Some? ==> Chained(rays, v, r.value)
    ensures |rays| >= 2 ==> forall ts :: Converging(rays, v, ts) ==> r == Some(ts)
  {
    if |rays| < 2 {
      return None;
    }
    ConvergingSteps(rays, v, 0);
    var first := Collide(InMovingFrame(rays[0], v), InMovingFrame(rays[1], v));
    if first.None? {
      return None;
    }
    var (t0, t1) := first.value;
    if t0 < 0 || t1 < 0 {
      return None;
    }
    assert Agrees(rays, v, [t0]);
    Extend(rays, v, [t0], t1);
    var ts := [t0, t1];
    var prev := t1;
    var i := 1;
    while i < |rays| - 1
      invariant 1 <= i <= |rays| - 1
      invariant |ts| == i + 1 && ts[i] == prev
      invariant ChainedPrefix(rays, v, ts) && Agrees(rays, v, ts)
    {
      ConvergingSteps(rays, v, i);
      var next := Collide(InMovingFrame(rays[i], v), InMovingFrame(rays[i + 1], v));
      if next.None? {
        return None;
      }
      var (a, b) := next.value;
      if a != prev {
        return None;
      }
      if b < 0 {
        return None;
      }
      Extend(rays, v, ts, b);
      prev := b;
      ts := ts + [b];
      i := i + 1;
    }
    AgreesFully(rays, v, ts);
    return Some(ts);
  }

  lemma AgreesFully(rays: seq<Ray>, v: Vec3, ts: seq<int>)
    requires |ts| == |rays| && Agrees(rays, v, ts)
    ensures forall c :: Converging(rays, v, c) ==> c == ts
  {
    forall c | Converging(rays, v, c) ensures c == ts {
      assert c[..|ts|] == c;
    }
  }

  /** Where the rock starts: the first hailstone's position at its hit
      time, taken back along `v` to time 0. */
  function RockStart(rays: seq<Ray>, v: Vec3, ts: seq<int>): Vec3
    requires |rays| >= 1 && |ts| >= 1
  {
    Eval(Ray(Eval(rays[0], ts[0]), v), -ts[0])
  }

  /** The rock at time `ts[i]` is where hailstone `i` is then
      (`verify_rays_converge` finds nothing to complain about). */
  predicate HitsAll(rays: seq<Ray>, rock: Ray, ts: seq<int>)
    requires |ts| >= |rays|
  {
    forall i :: 0 <= i < |rays| ==> Eval(rock, ts[i]) == Eval(rays[i], ts[i])
  }

  /** In the rock's frame all hailstones pass one point. */
  lemma {:induction false} ChainedCommonPoint(rays: seq<Ray>, v: Vec3, ts: seq<int>, i: nat)
    requires Chained(rays, v, ts) && i < |rays|
    ensures Eval(InMovingFrame(rays[i], v), ts[i]) == Eval(InMovingFrame(rays[0], v), ts[0])
    decreases i
  {
    if i > 0 {
      ChainedCommonPoint(rays, v, ts, i - 1);
    }
  }

  /** A chain of collision times yields a rock that hits every hailstone
      at its time: the consistency check never panics. */
  lemma ChainedHitsAll(rays: seq<Ray>, v: Vec3, ts: seq<int>)
    requires |rays| >= 1 && Chained(rays, v, ts)
    ensures HitsAll(rays, Ray(RockStart(rays, v, ts), v), ts)
  {
    var rock := Ray(RockStart(rays, v, ts), v);
    var p := Eval(InMovingFrame(rays[0], v), ts[0]);
    assert rock.start == p by {
      MovingComponent(0, v.x, ts[0]);
      MovingComponent(0, v.y, ts[0]);
      MovingComponent(0, v.z, ts[0]);
    }
    forall i | 0 <= i < |rays| ensures Eval(rock, ts[i]) == Eval(rays[i], ts[i]) {
      ChainedCommonPoint(rays, v, ts, i);
      MovingFrameEval(rays[i], v, ts[i]);
      MovingFrameEval(rays[0], v, ts[0]);
    }
  }

  // -------------------------------------------------------------- parsing

  /** `parse_vec3`: the text split at commas, of which only the first three
      pieces are read (trimmed, as signed integers); any further pieces
      are never looked at. A piece that is not an integer panics, and so
      does a missing piece, through the caller's `unwrap`. */
  function ParseVec3(s: string): (r: Result<Vec3>)
    ensures r.Ok? <==> var ps := Split(s, ',');
                       |ps| >= 3 && Number(ps[0]).Some? && Number(ps[1]).Some? && Number(ps[2]).Some?
    ensures r.Ok? ==> var ps := Split(s, ',');
                      r.value == Vec3(Number(ps[0]).value, Number(ps[1]).value, Number(ps[2]).value)
  {
    var parts := Split(s, ',');
    if |parts| < 3 then Err("expected three coordinates")
    else
      var x :- OkOr(Number(parts[0]), "invalid integer");
      var y :- OkOr(Number(parts[1]), "invalid integer");
      var z :- OkOr(Number(parts[2]), "invalid integer");
      Ok(Vec3(x, y, z))
  }

  /** One comma-separated piece: trimmed, then read as a signed integer. */
  function Number(piece: string): Option<int> {
    ParseInt(Trim(piece))
  }

  /** One line "px, py, pz @ vx, vy, vz". */
  function ParseRay(line: string): (r: Result<Ray>)
    ensures r.Ok? <==> '@' in line
                       && ParseVec3(Trim(SplitOnce(line, '@').value.0)).Ok?
                       && ParseVec3(Trim(SplitOnce(line, '@').value.1)).Ok?
    ensures r.Ok? ==> r.value == Ray(ParseVec3(Trim(SplitOnce(line, '@').value.0)).value,
                                     ParseVec3(Trim(SplitOnce(line, '@').value.1)).value)
  {
    var (pos, vel) :- OkOr(SplitOnce(line, '@'), "missing '@'");
    var start :- ParseVec3(Trim(pos));
    var dir :- ParseVec3(Trim(vel));
    Ok(Ray(start, dir))
  }

  /** Every line as a hailstone (`parse_input`). */
  function ParseInput(lines: seq<string>): (r: Result<seq<Ray>>)
    ensures r.Ok? <==> forall i :: 0 <= i < |lines| ==> ParseRay(lines[i]).Ok?
    ensures r.Ok? ==> |r.value| == |lines| && forall i :: 0 <= i < |lines| ==> r.value[i] == ParseRay(lines[i]).value
  {
    MapAllOk(lines, ParseRay)
  }

  /** The pieces of a vector the way the puzzle input writes one. */
  function VecParts(v: Vec3): seq<string> {
    [ShowInt(v.x), " " + ShowInt(v.y), " " + ShowInt(v.z)]
  }

  /** A vector the way the puzzle input writes one: "px, py, pz". */
  function ShowVec(v: Vec3): string {
    Join(VecParts(v), ',')
  }

  /** A hailstone the way the puzzle input writes one: "px, py, pz @ vx, vy, vz". */
  function ShowRay(r: Ray): string {
    (ShowVec(r.start) + " ") + ['@'] + (" " + ShowVec(r.dir))
  }

  /** Printed integers hold neither separator. */
  lemma ShowIntChars(i: int)
    ensures ',' !in ShowInt(i) && '@' !in ShowInt(i)
    ensures ',' !in " " + ShowInt(i) && '@' !in " " + ShowInt(i)
  {
    var s := ShowInt(i);
    assert forall k :: 0 <= k < |s| ==> s[k] != ',' && s[k] != '@';
    assert forall k :: 0 <= k < |" " + s| ==> (" " + s)[k] != ',' && (" " + s)[k] != '@';
  }

  lemma ShowIntTrimmed(i: int)
    ensures !IsSpace(ShowInt(i)[0]) && !IsSpace(ShowInt(i)[|ShowInt(i)| - 1])
    ensures Trim(ShowInt(i)) == ShowInt(i)
  {
    var s := ShowInt(i);
    assert forall k :: 0 <= k < |s| ==> !IsSpace(s[k]);
    TrimNoSpace(s);
  }

  lemma TrimPadded(i: int)
    ensures Trim(" " + ShowInt(i)) == ShowInt(i)
  {
    ShowIntTrimmed(i);
    TrimLeadingSpace(ShowInt(i));
  }

  lemma ShowVecParts(v: Vec3)
    ensures Split(ShowVec(v), ',') == VecParts(v)
  {
    var x, y, z := ShowInt(v.x), " " + ShowInt(v.y), " " + ShowInt(v.z);
    ShowIntChars(v.x);
    ShowIntChars(v.y);
    ShowIntChars(v.z);
    var ps := [x, y, z];
    SplitJoin(ps, ',');
  }

  /** The printed vector holds no '@' and is already trimmed. */
  lemma ShowVecPlain(v: Vec3)
    ensures '@' !in ShowVec(v)
    ensures Trim(ShowVec(v)) == ShowVec(v)
  {
    var ps := VecParts(v);
    ShowIntChars(v.x);
    ShowIntChars(v.y);
    ShowIntChars(v.z);
    assert Join(ps[1..], ',') == ps[1] + [','] + ps[2];
    assert '@' !in Join(ps[1..], ',');
    VecEnds(v);
  }

  /** The ends of three non-empty texts joined by commas. */
  lemma ThreeEnds(a: string, b: string, c: string)
    requires |a| > 0 && |b| > 0 && |c| > 0
    ensures |Join([a, b, c], ',')| > 0
    ensures Join([a, b, c], ',')[0] == a[0]
    ensures Join([a, b, c], ',')[|Join([a, b, c], ',')| - 1] == c[|c| - 1]
  {
    JoinEnds([a, b, c], ',');
  }

  lemma VecEnds(v: Vec3)
    ensures Trim(ShowVec(v)) == ShowVec(v)
  {
    var x, z := ShowInt(v.x), ShowInt(v.z);
    ShowIntTrimmed(v.x);
    ShowIntTrimmed(v.z);
    var y := " " + ShowInt(v.y);
    var z' := " " + z;
    assert z'[|z'| - 1] == z[|z| - 1];
    ThreeEnds(x, y, z');
    var s := ShowVec(v);
    assert !IsSpace(s[0]) && !IsSpace(s[|s| - 1]);
    TrimNoSpace(s);
  }

  /** Printing then parsing a vector gives it back. */
  lemma ParseShowVec(v: Vec3)
    ensures ParseVec3(ShowVec(v)) == Ok(v)
  {
    ShowVecParts(v);
    var ps := VecParts(v);
    assert Number(ps[0]) == Some(v.x) by {
      ShowIntTrimmed(v.x);
      ParseShowInt(v.x);
    }
    assert Number(ps[1]) == Some(v.y) by {
      TrimPadded(v.y);
      ParseShowInt(v.y);
    }
    assert Number(ps[2]) == Some(v.z) by {
      TrimPadded(v.z);
      ParseShowInt(v.z);
    }
    VecOfParts(ShowVec(v), ps, v);
  }

  /** Three pieces that read as the coordinates of `v` parse to `v`. */
  lemma VecOfParts(s: string, ps: seq<string>, v: Vec3)
    requires Split(s, ',') == ps && |ps| == 3
    requires Number(ps[0]) == Some(v.x) && Number(ps[1]) == Some(v.y) && Number(ps[2]) == Some(v.z)
    ensures ParseVec3(s) == Ok(v)
  {
  }

  /** Printing then parsing a hailstone gives it back. */
  lemma ParseShowRay(r: Ray)
    ensures ParseRay(ShowRay(r)) == Ok(r)
  {
    var a := ShowVec(r.start);
    var b := ShowVec(r.dir);
    RaySplit(r);
    assert Trim(a + " ") == a by {
      ShowVecPlain(r.start);
      TrimTrailingSpace(a);
    }
    assert Trim(" " + b) == b by {
      ShowVecPlain(r.dir);
      TrimLeadingSpace(b);
    }
    ParseShowVec(r.start);
    ParseShowVec(r.dir);
    RayOfParts(ShowRay(r), a + " ", " " + b, r);
  }

  /** A line that splits at '@' into pieces reading as the start and the
      direction of `r` parses to `r`. */
  lemma RayOfParts(line: string, pos: string, vel: string, r: Ray)
    requires SplitOnce(line, '@') == Some((pos, vel))
    requires ParseVec3(Trim(pos)) == Ok(r.start) && ParseVec3(Trim(vel)) == Ok(r.dir)
    ensures ParseRay(line) == Ok(r)
  {
  }

  lemma RaySplit(r: Ray)
    ensures SplitOnce(ShowRay(r), '@') == Some((ShowVec(r.start) + " ", " " + ShowVec(r.dir)))
  {
    var a := ShowVec(r.start);
    ShowVecPlain(r.start);
    assert '@' !in a + " ";
    SplitOnceIs(a + " ", '@', " " + ShowVec(r.dir));
  }
}
