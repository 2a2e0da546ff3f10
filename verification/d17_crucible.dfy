/** Day 17: steering a crucible across a heat-loss map (src/d17.rs).

    A crucible state is a cell, a heading and how many more straight steps
    it may take. From a state it may go on straight, or turn left or right
    once it has gone straight long enough; it never reverses. Every cell it
    enters costs that cell's digit. The search expands the cheapest queued
    state first and answers with the cost of the first accepted state that
    reaches the bottom-right corner. */
module Crucible {
  import opened Wrappers

  datatype Direction = Up | Left | Down | Right

  /** `Direction::rotated_cw` */
  function RotatedCw(d: Direction): Direction {
    match d
    case Right => Down
    case Down => Left
    case Left => Up
    case Up => Right
  }

  /** `Direction::rotated_ccw` */
  function RotatedCcw(d: Direction): Direction {
    match d
    case Up => Left
    case Left => Down
    case Down => Right
    case Right => Up
  }

  function Opposite(d: Direction): Direction {
    match d
    case Up => Down
    case Down => Up
    case Left => Right
    case Right => Left
  }

  /** The two rotations undo each other; a turn either way is neither the
      same heading nor the reverse one, and four quarter turns come back. */
  lemma Rotations(d: Direction)
    ensures RotatedCcw(RotatedCw(d)) == d && RotatedCw(RotatedCcw(d)) == d
    ensures RotatedCw(d) != d && RotatedCw(d) != Opposite(d)
    ensures RotatedCcw(d) != d && RotatedCcw(d) != Opposite(d)
    ensures RotatedCw(RotatedCw(d)) == Opposite(d) == RotatedCcw(RotatedCcw(d))
  {
  }

  function Dx(d: Direction): int {
    match d
    case Left => -1
    case Right => 1
    case _ => 0
  }

  function Dy(d: Direction): int {
    match d
    case Up => -1
    case Down => 1
    case _ => 0
  }

  /** `State`: a cell, a heading, and the straight steps still allowed. */
  datatype State = State(x: nat, y: nat, dir: Direction, forwardsLeft: nat)

  /** `State::moved_forward`: one step ahead, if a straight step is still
      allowed and the cell ahead is on a `w` by `h` grid (for a state on
      that grid, which is where the search keeps them). */
  function MovedForward(s: State, w: nat, h: nat): (r: Option<State>)
    requires w >= 1 && h >= 1
    ensures s.x < w && s.y < h ==>
      (r.None? <==> s.forwardsLeft == 0 || !(0 <= s.x + Dx(s.dir) < w && 0 <= s.y + Dy(s.dir) < h))
    ensures r.Some? ==>
      r.value.x == s.x + Dx(s.dir) && r.value.y == s.y + Dy(s.dir)
      && r.value.dir == s.dir && r.value.forwardsLeft == s.forwardsLeft - 1
  {
    var f := s.forwardsLeft;
    if f == 0 then None
    else
      match s.dir
      case Up => if s.y > 0 then Some(State(s.x, s.y - 1, Up, f - 1)) else None
      case Left => if s.x > 0 then Some(State(s.x - 1, s.y, Left, f - 1)) else None
      case Down => if s.y < h - 1 then Some(State(s.x, s.y + 1, Down, f - 1)) else None
      case Right => if s.x < w - 1 then Some(State(s.x + 1, s.y, Right, f - 1)) else None
  }

  // ------------------------------------------------------------- heat map

  /** `Heatmap::rows`: one heat-loss value per cell. */
  type Heatmap = seq<seq<nat>>

  /** At least one cell, and no row shorter than the first. The search
      takes `rows[0].len()` as the width, so cells of a longer row past it
      are never entered, while an empty map or first row panics. */
  predicate Wide(g: Heatmap) {
    |g| >= 1 && |g[0]| >= 1 && forall y :: 0 <= y < |g| ==> |g[y]| >= |g[0]|
  }

  predicate InGrid(g: Heatmap, s: State) {
    s.y < |g| && s.x < |g[s.y]|
  }

  /** The heat lost entering the cell of `s`. */
  function Cell(g: Heatmap, s: State): nat {
    if InGrid(g, s) then g[s.y][s.x] else 0
  }

  /** How far the crucible has gone straight: `max_forward - forwards_left`. */
  function RunLength(s: State, maxForward: nat): int {
    maxForward - s.forwardsLeft
  }

  /** The states the search starts from: the top-left corner facing right
      and facing down, with a full allowance of straight steps. */
  function StartStates(maxForward: nat): (r: seq<State>)
    ensures forall i :: 0 <= i < |r| ==> r[i].x == 0 && r[i].y == 0 && r[i].forwardsLeft == maxForward
  {
    [State(0, 0, Right, maxForward), State(0, 0, Down, maxForward)]
  }

  /** The destination is the bottom-right corner, reached after going
      straight at least `minForward` steps. */
  predicate Accepting(g: Heatmap, minForward: nat, maxForward: nat, s: State)
    requires Wide(g)
  {
    s.x == |g[0]| - 1 && s.y == |g| - 1 && RunLength(s, maxForward) >= minForward
  }

  /** A single move of the crucible, stated directly: it goes one cell
      ahead, either keeping its heading and using up one straight step, or
      (after a long enough run) turning a quarter either way and starting a
      new run, of which that step is the first. */
  predicate Move(g: Heatmap, minForward: nat, maxForward: nat, a: State, b: State)
    requires Wide(g)
  {
    && b.x as int == a.x + Dx(b.dir) && b.y as int == a.y + Dy(b.dir)
    && b.x < |g[0]| && b.y < |g|
    && ((b.dir == a.dir && a.forwardsLeft >= 1 && b.forwardsLeft == a.forwardsLeft - 1)
        || ((b.dir == RotatedCw(a.dir) || b.dir == RotatedCcw(a.dir))
            && RunLength(a, maxForward) >= minForward
            && maxForward >= 1 && b.forwardsLeft == maxForward - 1))
  }

  /** The queue entry for a tried move, if its step stays on the grid. */
  function Entry(g: Heatmap, c: State, heat: nat): (r: seq<(State, nat)>)
    requires Wide(g) && c.x < |g[0]| && c.y < |g|
  {
    match MovedForward(c, |g[0]|, |g|)
    case None => []
    case Some(n) => [(n, heat + g[n.y][n.x])]
  }

  /** The queue entries the search pushes after expanding `s` at cost
      `heat`, in the order of the source: straight on, then turned
      clockwise, then counter-clockwise, where a turn is skipped while the
      run is too short and restarts the allowance of straight steps. Each
      entry is a move, with the heat of the cell entered added, and every
      move has its entry; none goes back the way it came. */
  function Successors(g: Heatmap, minForward: nat, maxForward: nat, s: State, heat: nat)
    : (r: seq<(State, nat)>)
    requires Wide(g)
    requires s.x < |g[0]| && s.y < |g| && s.forwardsLeft <= maxForward
    ensures forall e :: e in r ==>
      Move(g, minForward, maxForward, s, e.0) && e.1 == heat + Cell(g, e.0)
    ensures forall b :: Move(g, minForward, maxForward, s, b) ==> (b, heat + Cell(g, b)) in r
    ensures forall e :: e in r ==> e.0.dir != Opposite(s.dir) && e.0.forwardsLeft < maxForward
  {
    var turns := RunLength(s, maxForward) >= minForward;
    var straight := Entry(g, s, heat);
    var cw := if turns then Entry(g, State(s.x, s.y, RotatedCw(s.dir), maxForward), heat) else [];
    var ccw := if turns then Entry(g, State(s.x, s.y, RotatedCcw(s.dir), maxForward), heat) else [];
    Rotations(s.dir);
    SuccessorsComplete(g, minForward, maxForward, s, heat);
    straight + cw + ccw
  }

  /** Every move is one of the tried ones. */
  lemma SuccessorsComplete(g: Heatmap, minForward: nat, maxForward: nat, s: State, heat: nat)
    requires Wide(g) && s.x < |g[0]| && s.y < |g| && s.forwardsLeft <= maxForward
    ensures forall b :: Move(g, minForward, maxForward, s, b) ==>
      var turns := RunLength(s, maxForward) >= minForward;
      (b, heat + Cell(g, b)) in Entry(g, s, heat)
      || (turns && (b, heat + Cell(g, b)) in Entry(g, State(s.x, s.y, RotatedCw(s.dir), maxForward), heat))
      || (turns && (b, heat + Cell(g, b)) in Entry(g, State(s.x, s.y, RotatedCcw(s.dir), maxForward), heat))
  {
    Rotations(s.dir);
  }

  // ---------------------------------------------------------------- walks

  predicate StepAt(g: Heatmap, minForward: nat, maxForward: nat, p: seq<State>, i: nat)
    requires Wide(g) && i + 1 < |p|
  {
    Move(g, minForward, maxForward, p[i], p[i + 1])
  }

  /** A walk of the crucible from one of the start states, move by move. */
  predicate Walk(g: Heatmap, minForward: nat, maxForward: nat, p: seq<State>)
    requires Wide(g)
  {
    |p| >= 1 && p[0] in StartStates(maxForward)
    && forall i: nat :: i + 1 < |p| ==> StepAt(g, minForward, maxForward, p, i)
  }

  /** The heat lost along a walk: every cell entered, not the one it
      starts on. */
  function WalkHeat(g: Heatmap, p: seq<State>): nat {
    if |p| <= 1 then 0 else WalkHeat(g, p[..|p| - 1]) + Cell(g, p[|p| - 1])
  }

  /** One more move extends a walk, and adds the heat of the cell entered. */
  lemma WalkExtend(g: Heatmap, minForward: nat, maxForward: nat, p: seq<State>, b: State)
    requires Wide(g) && Walk(g, minForward, maxForward, p)
    requires Move(g, minForward, maxForward, p[|p| - 1], b)
    ensures Walk(g, minForward, maxForward, p + [b])
    ensures WalkHeat(g, p + [b]) == WalkHeat(g, p) + Cell(g, b)
  {
    var q := p + [b];
    assert q[..|q| - 1] == p;
    forall i: nat | i + 1 < |q| ensures StepAt(g, minForward, maxForward, q, i) {
      if i + 1 < |p| {
        assert StepAt(g, minForward, maxForward, p, i);
      }
    }
  }

  // --------------------------------------------------------------- search

  function DirOf(k: nat): Direction {
    if k == 0 then Up else if k == 1 then Left else if k == 2 then Down else Right
  }

  /** Every state the search can meet on the grid. */
  ghost function AllStates(w: nat, h: nat, maxForward: nat): set<State> {
    set x: nat, y: nat, k: nat, f: nat | x < w && y < h && k < 4 && f <= maxForward
      :: State(x, y, DirOf(k), f)
  }

  lemma AllStatesHas(w: nat, h: nat, maxForward: nat, s: State)
    requires s.x < w && s.y < h && s.forwardsLeft <= maxForward
    ensures s in AllStates(w, h, maxForward)
  {
    var k := match s.dir case Up => 0 case Left => 1 case Down => 2 case Right => 3;
    assert s == State(s.x, s.y, DirOf(k), s.forwardsLeft);
  }

  /** Seeing a new state on the grid leaves fewer states unseen. */
  lemma SeenShrinks(w: nat, h: nat, maxForward: nat, seen: set<State>, s: State)
    requires s.x < w && s.y < h && s.forwardsLeft <= maxForward && s !in seen
    requires seen <= AllStates(w, h, maxForward)
    ensures seen + {s} <= AllStates(w, h, maxForward)
    ensures |AllStates(w, h, maxForward) - (seen + {s})| < |AllStates(w, h, maxForward) - seen|
  {
    AllStatesHas(w, h, maxForward, s);
    var all := AllStates(w, h, maxForward);
    assert all - seen == (all - (seen + {s})) + {s};
  }

  /** Each queue entry carries a walk that ends in its state and loses
      exactly its heat. */
  ghost predicate Witnessed(g: Heatmap, minForward: nat, maxForward: nat,
                            pq: seq<(State, nat)>, walks: seq<seq<State>>)
    requires Wide(g)
  {
    |walks| == |pq|
    && forall i :: 0 <= i < |pq| ==>
      Walk(g, minForward, maxForward, walks[i])
      && walks[i][|walks[i]| - 1] == pq[i].0
      && WalkHeat(g, walks[i]) == pq[i].1
  }

  /** What the search keeps about its queue: each entry is witnessed by a
      walk, and lies on the grid. */
  ghost predicate Frontier(g: Heatmap, minForward: nat, maxForward: nat,
                           pq: seq<(State, nat)>, walks: seq<seq<State>>)
    requires Wide(g)
  {
    Witnessed(g, minForward, maxForward, pq, walks) && Bounded(g, maxForward, pq)
  }

  /** Every queued state is on the grid with no more than a full allowance. */
  predicate Bounded(g: Heatmap, maxForward: nat, pq: seq<(State, nat)>)
    requires Wide(g)
  {
    forall i :: 0 <= i < |pq| ==>
      pq[i].0.x < |g[0]| && pq[i].0.y < |g| && pq[i].0.forwardsLeft <= maxForward
  }

  /** The position of a cheapest queue entry (the first, among equals). */
  function Cheapest(pq: seq<(State, nat)>): (i: nat)
    requires |pq| > 0
    ensures i < |pq| && forall j :: 0 <= j < |pq| ==> pq[i].1 <= pq[j].1
  {
    if |pq| == 1 then 0
    else
      var k := Cheapest(pq[1..]) + 1;
      assert forall j :: 1 <= j < |pq| ==> pq[1..][j - 1] == pq[j];
      if pq[0].1 <= pq[k].1 then 0 else k
  }

  function RemoveAt<T>(s: seq<T>, i: nat): (r: seq<T>)
    requires i < |s|
    ensures |r| == |s| - 1
    ensures forall j :: 0 <= j < |r| ==> r[j] == if j < i then s[j] else s[j + 1]
  {
    s[..i] + s[i + 1..]
  }

  lemma StartsWitnessed(g: Heatmap, minForward: nat, maxForward: nat)
    requires Wide(g)
    ensures Frontier(g, minForward, maxForward,
                     [(StartStates(maxForward)[0], 0), (StartStates(maxForward)[1], 0)],
                     [[StartStates(maxForward)[0]], [StartStates(maxForward)[1]]])
  {
  }

  lemma PopWitnessed(g: Heatmap, minForward: nat, maxForward: nat,
                     pq: seq<(State, nat)>, walks: seq<seq<State>>, i: nat)
    requires Wide(g) && Frontier(g, minForward, maxForward, pq, walks) && i < |pq|
    ensures Frontier(g, minForward, maxForward, RemoveAt(pq, i), RemoveAt(walks, i))
    ensures |walks[i]| >= 1 && walks[i][|walks[i]| - 1] == pq[i].0
    ensures Walk(g, minForward, maxForward, walks[i]) && WalkHeat(g, walks[i]) == pq[i].1
    ensures pq[i].0.x < |g[0]| && pq[i].0.y < |g| && pq[i].0.forwardsLeft <= maxForward
  {
  }

  lemma AppendWitnessed(g: Heatmap, minForward: nat, maxForward: nat,
                        pq: seq<(State, nat)>, walks: seq<seq<State>>,
                        more: seq<(State, nat)>, moreWalks: seq<seq<State>>)
    requires Wide(g)
    requires Witnessed(g, minForward, maxForward, pq, walks)
    requires Witnessed(g, minForward, maxForward, more, moreWalks)
    requires Bounded(g, maxForward, pq) && Bounded(g, maxForward, more)
    ensures Witnessed(g, minForward, maxForward, pq + more, walks + moreWalks)
    ensures Bounded(g, maxForward, pq + more)
  {
  }

  /** The entries pushed after expanding the end of a walk are witnessed by
      that walk extended by one move. */
  lemma SuccessorsWitnessed(g: Heatmap, minForward: nat, maxForward: nat,
                            p: seq<State>, s: State, heat: nat)
    requires Wide(g)
    requires Walk(g, minForward, maxForward, p) && p[|p| - 1] == s && WalkHeat(g, p) == heat
    requires s.x < |g[0]| && s.y < |g| && s.forwardsLeft <= maxForward
    ensures
      var succ := Successors(g, minForward, maxForward, s, heat);
      Witnessed(g, minForward, maxForward, succ, Extended(p, succ))
      && Bounded(g, maxForward, succ)
  {
    var succ := Successors(g, minForward, maxForward, s, heat);
    var more := Extended(p, succ);
    forall k | 0 <= k < |succ|
      ensures Walk(g, minForward, maxForward, more[k])
      ensures WalkHeat(g, more[k]) == succ[k].1
      ensures more[k][|more[k]| - 1] == succ[k].0
    {
      assert succ[k] in succ;
      WalkExtend(g, minForward, maxForward, p, succ[k].0);
    }
    assert forall k :: 0 <= k < |succ| ==> succ[k] in succ;
  }

  /** Pushing the successors of a popped entry keeps the frontier. */
  lemma PushWitnessed(g: Heatmap, minForward: nat, maxForward: nat,
                      pq: seq<(State, nat)>, walks: seq<seq<State>>,
                      p: seq<State>, s: State, heat: nat)
    requires Wide(g) && Frontier(g, minForward, maxForward, pq, walks)
    requires Walk(g, minForward, maxForward, p) && p[|p| - 1] == s && WalkHeat(g, p) == heat
    requires s.x < |g[0]| && s.y < |g| && s.forwardsLeft <= maxForward
    ensures
      var succ := Successors(g, minForward, maxForward, s, heat);
      Frontier(g, minForward, maxForward, pq + succ, walks + Extended(p, succ))
  {
    var succ := Successors(g, minForward, maxForward, s, heat);
    SuccessorsWitnessed(g, minForward, maxForward, p, s, heat);
    AppendWitnessed(g, minForward, maxForward, pq, walks, succ, Extended(p, succ));
  }

  /** The walk `p` extended by each pushed state. */
  ghost function Extended(p: seq<State>, succ: seq<(State, nat)>): (r: seq<seq<State>>)
    ensures |r| == |succ| && forall k :: 0 <= k < |succ| ==> r[k] == p + [succ[k].0]
  {
    seq(|succ|, k requires 0 <= k < |succ| => p + [succ[k].0])
  }

  lemma CheapestLeast(pq: seq<(State, nat)>)
    requires |pq| > 0
    ensures forall e :: e in pq ==> pq[Cheapest(pq)].1 <= e.1
  {
    forall e | e in pq ensures pq[Cheapest(pq)].1 <= e.1 {
      var j :| 0 <= j < |pq| && pq[j] == e;
    }
  }

  /** Removing one entry keeps every entry for another state. */
  lemma RemoveKeeps(pq: seq<(State, nat)>, i: nat)
    requires i < |pq|
    ensures forall e :: e in pq && e.0 != pq[i].0 ==> e in RemoveAt(pq, i)
  {
    var rest := RemoveAt(pq, i);
    forall e | e in pq && e.0 != pq[i].0 ensures e in rest {
      var j :| 0 <= j < |pq| && pq[j] == e;
      if j < i {
        assert rest[j] == e;
      } else {
        assert rest[j - 1] == e;
      }
    }
  }

  /** `PriorityQueue::pop`: takes out a cheapest entry, with its walk. */
  method PopCheapest(g: Heatmap, minForward: nat, maxForward: nat,
                     pq: seq<(State, nat)>, ghost walks: seq<seq<State>>)
    returns (s: State, heat: nat, rest: seq<(State, nat)>, ghost p: seq<State>,
             ghost restWalks: seq<seq<State>>)
    requires Wide(g) && |pq| > 0 && Frontier(g, minForward, maxForward, pq, walks)
    ensures (s, heat) in pq && forall j :: 0 <= j < |pq| ==> heat <= pq[j].1
    ensures |rest| == |pq| - 1 && Frontier(g, minForward, maxForward, rest, restWalks)
    ensures Walk(g, minForward, maxForward, p) && p[|p| - 1] == s && WalkHeat(g, p) == heat
    ensures s.x < |g[0]| && s.y < |g| && s.forwardsLeft <= maxForward
    ensures forall e :: e in pq ==> heat <= e.1
    ensures forall e :: e in pq && e.0 != s ==> e in rest
  {
    var i := Cheapest(pq);
    s, heat := pq[i].0, pq[i].1;
    p := walks[i];
    PopWitnessed(g, minForward, maxForward, pq, walks, i);
    rest, restWalks := RemoveAt(pq, i), RemoveAt(walks, i);
    CheapestLeast(pq);
    RemoveKeeps(pq, i);
  }

  /** `PriorityQueue::push` of every successor of the popped entry. */
  method Push(g: Heatmap, minForward: nat, maxForward: nat,
              pq: seq<(State, nat)>, ghost walks: seq<seq<State>>,
              ghost p: seq<State>, s: State, heat: nat)
    returns (pq': seq<(State, nat)>, ghost walks': seq<seq<State>>)
    requires Wide(g) && Frontier(g, minForward, maxForward, pq, walks)
    requires Walk(g, minForward, maxForward, p) && p[|p| - 1] == s && WalkHeat(g, p) == heat
    requires s.x < |g[0]| && s.y < |g| && s.forwardsLeft <= maxForward
    ensures pq' == pq + Successors(g, minForward, maxForward, s, heat)
    ensures Frontier(g, minForward, maxForward, pq', walks')
  {
    var succ := Successors(g, minForward, maxForward, s, heat);
    PushWitnessed(g, minForward, maxForward, pq, walks, p, s, heat);
    pq' := pq + succ;
    walks' := walks + Extended(p, succ);
  }

  predicate Distinct<T(==)>(xs: seq<T>) {
    forall i, j :: 0 <= i < j < |xs| ==> xs[i] != xs[j]
  }

  /** The expanded states, in order, are the seen ones, none twice. */
  predicate Listed(expanded: seq<State>, seen: set<State>) {
    Distinct(expanded) && seen == set t | t in expanded
  }

  lemma ListedAdd(expanded: seq<State>, seen: set<State>, s: State)
    requires Listed(expanded, seen) && s !in seen
    ensures Listed(expanded + [s], seen + {s})
  {
  }

  // ------------------------------------------------------------ optimality

  /** One move less is still a walk, and the last cell's heat comes off. */
  lemma WalkPrefix(g: Heatmap, minForward: nat, maxForward: nat, p: seq<State>)
    requires Wide(g) && Walk(g, minForward, maxForward, p) && |p| >= 2
    ensures Walk(g, minForward, maxForward, p[..|p| - 1])
    ensures Move(g, minForward, maxForward, p[|p| - 2], p[|p| - 1])
    ensures WalkHeat(g, p) == WalkHeat(g, p[..|p| - 1]) + Cell(g, p[|p| - 1])
  {
    var q := p[..|p| - 1];
    forall i: nat | i + 1 < |q| ensures StepAt(g, minForward, maxForward, q, i) {
      assert StepAt(g, minForward, maxForward, p, i);
    }
    assert StepAt(g, minForward, maxForward, p, |p| - 2);
  }

  /** A walk ends on the grid within its allowance, and it can only be in
      the bottom-right corner heading right or down. */
  lemma {:induction false} WalkEnd(g: Heatmap, minForward: nat, maxForward: nat, p: seq<State>)
    requires Wide(g) && Walk(g, minForward, maxForward, p)
    ensures p[|p| - 1].x < |g[0]| && p[|p| - 1].y < |g| && p[|p| - 1].forwardsLeft <= maxForward
    ensures p[|p| - 1].x == |g[0]| - 1 && p[|p| - 1].y == |g| - 1 ==>
              p[|p| - 1].dir == Right || p[|p| - 1].dir == Down
    decreases |p|
  {
    if |p| >= 2 {
      WalkPrefix(g, minForward, maxForward, p);
      WalkEnd(g, minForward, maxForward, p[..|p| - 1]);
    }
  }

  /** In the corner before its run is long enough, the crucible is stuck:
      straight on leaves the grid and it may not turn yet. The search marks
      such a state seen without pushing anything, and loses nothing. */
  lemma CornerStuck(g: Heatmap, minForward: nat, maxForward: nat, p: seq<State>, b: State)
    requires Wide(g) && Walk(g, minForward, maxForward, p)
    requires p[|p| - 1].x == |g[0]| - 1 && p[|p| - 1].y == |g| - 1
    requires RunLength(p[|p| - 1], maxForward) < minForward
    ensures !Move(g, minForward, maxForward, p[|p| - 1], b)
  {
    WalkEnd(g, minForward, maxForward, p);
  }

  /** Every settled state's cost is at most the heat of any walk to it. */
  ghost predicate Settled(g: Heatmap, minForward: nat, maxForward: nat, dist: map<State, nat>)
    requires Wide(g)
  {
    forall p :: Walk(g, minForward, maxForward, p) && p[|p| - 1] in dist ==>
      dist[p[|p| - 1]] <= WalkHeat(g, p)
  }

  /** Every move from a settled state to an unsettled one is queued, at
      the settled cost plus the cell entered. */
  ghost predicate Relaxed(g: Heatmap, minForward: nat, maxForward: nat,
                          dist: map<State, nat>, pq: seq<(State, nat)>)
    requires Wide(g)
  {
    forall a, b :: a in dist && b !in dist && Move(g, minForward, maxForward, a, b) ==>
      (b, dist[a] + Cell(g, b)) in pq
  }

  /** Each unsettled start state is still queued at no cost. */
  ghost predicate StartsQueued(maxForward: nat, dist: map<State, nat>, pq: seq<(State, nat)>) {
    forall i :: 0 <= i < |StartStates(maxForward)| && StartStates(maxForward)[i] !in dist ==>
      (StartStates(maxForward)[i], 0) in pq
  }

  /** What makes the first accepted state the cheapest: settled costs are
      least, the queue holds the edges out of the settled states and the
      unsettled starts, and no settled state is accepting. */
  ghost predicate Optimality(g: Heatmap, minForward: nat, maxForward: nat,
                             dist: map<State, nat>, pq: seq<(State, nat)>)
    requires Wide(g)
  {
    && Settled(g, minForward, maxForward, dist)
    && Relaxed(g, minForward, maxForward, dist, pq)
    && StartsQueued(maxForward, dist, pq)
    && forall a :: a in dist ==> !Accepting(g, minForward, maxForward, a)
  }

  /** A walk that ends outside the settled states is matched by a queue
      entry costing no more: the move on which it leaves the settled states
      for good was queued at the walk's own heat up to there. */
  lemma {:induction false} QueueCovers(g: Heatmap, minForward: nat, maxForward: nat,
                                       dist: map<State, nat>, pq: seq<(State, nat)>, p: seq<State>)
    returns (e: (State, nat))
    requires Wide(g) && Optimality(g, minForward, maxForward, dist, pq)
    requires Walk(g, minForward, maxForward, p) && p[|p| - 1] !in dist
    ensures e in pq && e.1 <= WalkHeat(g, p)
    decreases |p|
  {
    var n := |p|;
    if n == 1 {
      var st := StartStates(maxForward);
      if p[0] == st[0] {
        e := (st[0], 0);
      } else {
        e := (st[1], 0);
      }
    } else {
      var q := p[..n - 1];
      WalkPrefix(g, minForward, maxForward, p);
      if q[n - 2] !in dist {
        e := QueueCovers(g, minForward, maxForward, dist, pq, q);
      } else {
        e := (p[n - 1], dist[q[n - 2]] + Cell(g, p[n - 1]));
      }
    }
  }

  /** The search starts with nothing settled and both starts queued. */
  lemma StartsOptimal(g: Heatmap, minForward: nat, maxForward: nat)
    requires Wide(g)
    ensures Optimality(g, minForward, maxForward, map[],
                       [(StartStates(maxForward)[0], 0), (StartStates(maxForward)[1], 0)])
  {
  }

  /** Popping an entry whose state is already settled keeps the rest. */
  lemma SkipKeeps(g: Heatmap, minForward: nat, maxForward: nat, dist: map<State, nat>,
                  pq: seq<(State, nat)>, rest: seq<(State, nat)>, s: State)
    requires Wide(g) && Optimality(g, minForward, maxForward, dist, pq) && s in dist
    requires forall e :: e in pq && e.0 != s ==> e in rest
    ensures Optimality(g, minForward, maxForward, dist, rest)
  {
  }

  /** Settling a popped cheapest state at its popped cost, and queueing its
      moves, keeps what makes the search optimal. */
  lemma SettleKeeps(g: Heatmap, minForward: nat, maxForward: nat, dist: map<State, nat>,
                    pq: seq<(State, nat)>, rest: seq<(State, nat)>, more: seq<(State, nat)>,
                    s: State, heat: nat)
    requires Wide(g) && Optimality(g, minForward, maxForward, dist, pq) && s !in dist
    requires forall e :: e in pq ==> heat <= e.1
    requires forall e :: e in pq && e.0 != s ==> e in rest
    requires !Accepting(g, minForward, maxForward, s)
    requires forall b :: Move(g, minForward, maxForward, s, b) ==> (b, heat + Cell(g, b)) in more
    ensures Optimality(g, minForward, maxForward, dist[s := heat], rest + more)
  {
    var d := dist[s := heat];
    forall p | Walk(g, minForward, maxForward, p) && p[|p| - 1] in d
      ensures d[p[|p| - 1]] <= WalkHeat(g, p)
    {
      if p[|p| - 1] == s {
        var e := QueueCovers(g, minForward, maxForward, dist, pq, p);
      }
    }
    forall a, b | a in d && b !in d && Move(g, minForward, maxForward, a, b)
      ensures (b, d[a] + Cell(g, b)) in rest + more
    {
      if a != s {
        assert (b, dist[a] + Cell(g, b)) in pq;
      }
    }
  }

  /** Settling a state stuck in the corner queues nothing and keeps what
      makes the search optimal. */
  lemma StuckKeeps(g: Heatmap, minForward: nat, maxForward: nat, dist: map<State, nat>,
                   pq: seq<(State, nat)>, rest: seq<(State, nat)>, p: seq<State>, heat: nat)
    requires Wide(g) && Optimality(g, minForward, maxForward, dist, pq)
    requires Walk(g, minForward, maxForward, p) && p[|p| - 1] !in dist
    requires p[|p| - 1].x == |g[0]| - 1 && p[|p| - 1].y == |g| - 1
    requires RunLength(p[|p| - 1], maxForward) < minForward
    requires forall e :: e in pq ==> heat <= e.1
    requires forall e :: e in pq && e.0 != p[|p| - 1] ==> e in rest
    ensures Optimality(g, minForward, maxForward, dist[p[|p| - 1] := heat], rest)
  {
    var s := p[|p| - 1];
    forall b ensures !Move(g, minForward, maxForward, s, b) {
      CornerStuck(g, minForward, maxForward, p, b);
    }
    SettleKeeps(g, minForward, maxForward, dist, pq, rest, [], s, heat);
    assert rest + [] == rest;
  }

  /** The first accepted state costs no more than any accepting walk. */
  lemma AcceptedCheapest(g: Heatmap, minForward: nat, maxForward: nat, dist: map<State, nat>,
                         pq: seq<(State, nat)>, heat: nat)
    requires Wide(g) && Optimality(g, minForward, maxForward, dist, pq)
    requires forall e :: e in pq ==> heat <= e.1
    ensures forall p :: Walk(g, minForward, maxForward, p)
                        && Accepting(g, minForward, maxForward, p[|p| - 1])
                        ==> heat <= WalkHeat(g, p)
  {
    forall p | Walk(g, minForward, maxForward, p) && Accepting(g, minForward, maxForward, p[|p| - 1])
      ensures heat <= WalkHeat(g, p)
    {
      var e := QueueCovers(g, minForward, maxForward, dist, pq, p);
    }
  }

  /** Once the queue is empty, no walk is accepting. */
  lemma ExhaustedNoWalk(g: Heatmap, minForward: nat, maxForward: nat, dist: map<State, nat>)
    requires Wide(g) && Optimality(g, minForward, maxForward, dist, [])
    ensures forall p :: Walk(g, minForward, maxForward, p) ==>
                        !Accepting(g, minForward, maxForward, p[|p| - 1])
  {
    forall p | Walk(g, minForward, maxForward, p)
      ensures !Accepting(g, minForward, maxForward, p[|p| - 1])
    {
      if p[|p| - 1] !in dist {
        var e := QueueCovers(g, minForward, maxForward, dist, [], p);
      }
    }
  }

  /** What the search keeps from one pop to the next: the expanded states
      are the seen ones, the queue is backed by walks, and the seen states
      are settled at their least cost. */
  ghost predicate Searching(g: Heatmap, minForward: nat, maxForward: nat,
                            pq: seq<(State, nat)>, walks: seq<seq<State>>,
                            seen: set<State>, dist: map<State, nat>, expanded: seq<State>)
    requires Wide(g)
  {
    && Listed(expanded, seen)
    && Frontier(g, minForward, maxForward, pq, walks)
    && seen <= AllStates(|g[0]|, |g|, maxForward)
    && seen == dist.Keys
    && Optimality(g, minForward, maxForward, dist, pq)
  }

  /** Settling a new state keeps the loop's bookkeeping, given the queue
      that follows. */
  lemma SettleSearching(g: Heatmap, minForward: nat, maxForward: nat,
                        pq: seq<(State, nat)>, walks: seq<seq<State>>,
                        seen: set<State>, dist: map<State, nat>, expanded: seq<State>,
                        s: State, heat: nat)
    requires Wide(g) && Listed(expanded, seen) && seen == dist.Keys && s !in seen
    requires seen + {s} <= AllStates(|g[0]|, |g|, maxForward)
    requires Frontier(g, minForward, maxForward, pq, walks)
    requires Optimality(g, minForward, maxForward, dist[s := heat], pq)
    ensures Searching(g, minForward, maxForward, pq, walks, seen + {s}, dist[s := heat], expanded + [s])
  {
    ListedAdd(expanded, seen, s);
  }

  /** One turn of the search loop: pop a cheapest entry; skip it if its
      state was seen; otherwise mark it seen and either answer (the corner
      after a long enough run), stop there (the corner too early), or push
      its moves. Without an answer the search goes on with fewer unseen
      states or, skipping, a shorter queue; an answer is the heat of an
      accepting walk and no accepting walk loses less. */
  method SearchStep(g: Heatmap, minForward: nat, maxForward: nat,
                    pq: seq<(State, nat)>, ghost walks: seq<seq<State>>,
                    seen: set<State>, ghost dist: map<State, nat>, expanded: seq<State>)
    returns (answer: Option<nat>, pq': seq<(State, nat)>, ghost walks': seq<seq<State>>,
             seen': set<State>, ghost dist': map<State, nat>, expanded': seq<State>)
    requires Wide(g) && |pq| > 0
    requires Searching(g, minForward, maxForward, pq, walks, seen, dist, expanded)
    ensures Distinct(expanded')
    ensures answer.None? ==> Searching(g, minForward, maxForward, pq', walks', seen', dist', expanded')
    ensures answer.None? ==>
      |AllStates(|g[0]|, |g|, maxForward) - seen'| < |AllStates(|g[0]|, |g|, maxForward) - seen|
      || (seen' == seen && |pq'| < |pq|)
    ensures answer.Some? ==> exists p :: Walk(g, minForward, maxForward, p)
                                        && Accepting(g, minForward, maxForward, p[|p| - 1])
                                        && WalkHeat(g, p) == answer.value
    ensures answer.Some? ==> forall p :: Walk(g, minForward, maxForward, p)
                                        && Accepting(g, minForward, maxForward, p[|p| - 1])
                                        ==> answer.value <= WalkHeat(g, p)
  {
    var w, h := |g[0]|, |g|;
    var s, heat, rest;
    ghost var p, restWalks;
    s, heat, rest, p, restWalks := PopCheapest(g, minForward, maxForward, pq, walks);
    if s in seen {
      SkipKeeps(g, minForward, maxForward, dist, pq, rest, s);
      return None, rest, restWalks, seen, dist, expanded;
    }
    SeenShrinks(w, h, maxForward, seen, s);
    ListedAdd(expanded, seen, s);
    seen', expanded' := seen + {s}, expanded + [s];
    if s.x == w - 1 && s.y == h - 1 {
      if RunLength(s, maxForward) < minForward {
        StuckKeeps(g, minForward, maxForward, dist, pq, rest, p, heat);
        SettleSearching(g, minForward, maxForward, rest, restWalks, seen, dist, expanded, s, heat);
        return None, rest, restWalks, seen', dist[s := heat], expanded';
      }
      assert Walk(g, minForward, maxForward, p) && WalkHeat(g, p) == heat
        && Accepting(g, minForward, maxForward, p[|p| - 1]);
      AcceptedCheapest(g, minForward, maxForward, dist, pq, heat);
      return Some(heat), rest, restWalks, seen', dist, expanded';
    }
    var succ := Successors(g, minForward, maxForward, s, heat);
    SettleKeeps(g, minForward, maxForward, dist, pq, rest, succ, s, heat);
    dist' := dist[s := heat];
    answer := None;
    pq', walks' := Push(g, minForward, maxForward, rest, restWalks, p, s, heat);
    SettleSearching(g, minForward, maxForward, pq', walks', seen, dist, expanded, s, heat);
  }

  /** `Heatmap::find_best_path`: Dijkstra's search over crucible states.
      The queue holds states with the heat lost reaching them; a state is
      expanded at most once; the corner is accepted only after a long
      enough run. An answer is the heat lost along some walk from a start
      state to an accepting state, and no accepting walk loses less; there
      is no answer exactly when no walk is accepting. `expanded` lists the
      states in the order they were expanded, none twice. */
  method FindBestPath(g: Heatmap, minForward: nat, maxForward: nat)
    returns (r: Option<nat>, expanded: seq<State>)
    requires Wide(g)
    ensures Distinct(expanded)
    ensures r.Some? ==> exists p :: Walk(g, minForward, maxForward, p)
                                   && Accepting(g, minForward, maxForward, p[|p| - 1])
                                   && WalkHeat(g, p) == r.value
    ensures r.Some? ==> forall p :: Walk(g, minForward, maxForward, p)
                                   && Accepting(g, minForward, maxForward, p[|p| - 1])
                                   ==> r.value <= WalkHeat(g, p)
    ensures r.None? <==> forall p :: Walk(g, minForward, maxForward, p)
                                    ==> !Accepting(g, minForward, maxForward, p[|p| - 1])
  {
    var starts := StartStates(maxForward);
    var pq := [(starts[0], 0), (starts[1], 0)];
    ghost var walks := [[starts[0]], [starts[1]]];
    StartsWitnessed(g, minForward, maxForward);
    StartsOptimal(g, minForward, maxForward);
    var seen: set<State> := {};
    ghost var dist: map<State, nat> := map[];
    expanded := [];
    while |pq| > 0
      invariant Searching(g, minForward, maxForward, pq, walks, seen, dist, expanded)
      decreases |AllStates(|g[0]|, |g|, maxForward) - seen|, |pq|
    {
      var answer;
      answer, pq, walks, seen, dist, expanded :=
        SearchStep(g, minForward, maxForward, pq, walks, seen, dist, expanded);
      if answer.Some? {
        return answer, expanded;
      }
    }
    ExhaustedNoWalk(g, minForward, maxForward, dist);
    return None, expanded;
  }

  // ---------------------------------------------------------------- parsing

  /** `ch as u8 - b'0'`: the character is cut to a byte, and a byte below
      the digit zero underflows. */
  function ParseHeat(c: char): (r: Result<nat>)
    ensures r.Ok? <==> (c as int) % 256 >= '0' as int
    ensures '0' <= c <= '9' ==> r == Ok((c as int) - ('0' as int))
  {
    var b := (c as int) % 256;
    if b < '0' as int then Err("digit underflow") else Ok(b - '0' as int)
  }

  function HeatChar(d: nat): char
    requires d < 10
  {
    ('0' as int + d) as char
  }

  lemma HeatCharRoundTrip(d: nat)
    requires d < 10
    ensures ParseHeat(HeatChar(d)) == Ok(d)
  {
  }

  /** `parse_heatmap`: one row of heat values per line. */
  function ParseHeatmap(lines: seq<string>): (r: Result<Heatmap>)
    ensures r.Ok? <==> forall y, x :: 0 <= y < |lines| && 0 <= x < |lines[y]| ==>
      ParseHeat(lines[y][x]).Ok?
    ensures r.Ok? ==> |r.value| == |lines|
    ensures r.Ok? ==> forall y :: 0 <= y < |lines| ==>
                        |r.value[y]| == |lines[y]|
                        && forall x :: 0 <= x < |lines[y]| ==> r.value[y][x] == ParseHeat(lines[y][x]).value
  {
    MapAllOk(lines, (line: string) => MapAllOk(line, ParseHeat))
  }

  /** `run`: part 1 moves one to three cells before turning, part 2 four to
      ten. A map with no cell, an empty first row or a row shorter than the
      first is an error (the source indexes the first row and the cells it
      enters), and so is a search that never
      accepts (the source panics). */
  method Run(lines: seq<string>, part1: bool) returns (r: Result<nat>)
    ensures r.Ok? ==> ParseHeatmap(lines).Ok? && Wide(ParseHeatmap(lines).value)
    ensures ParseHeatmap(lines).Err? ==> r.Err?
    ensures r.Ok? ==>
      var g := ParseHeatmap(lines).value;
      var (lo, hi) := if part1 then (1, 3) else (4, 10);
      exists p :: Walk(g, lo, hi, p) && Accepting(g, lo, hi, p[|p| - 1]) && WalkHeat(g, p) == r.value
    ensures r.Ok? ==>
      var g := ParseHeatmap(lines).value;
      var (lo, hi) := if part1 then (1, 3) else (4, 10);
      forall p :: Walk(g, lo, hi, p) && Accepting(g, lo, hi, p[|p| - 1]) ==> r.value <= WalkHeat(g, p)
    ensures r.Err? && ParseHeatmap(lines).Ok? && Wide(ParseHeatmap(lines).value) ==>
      var g := ParseHeatmap(lines).value;
      var (lo, hi) := if part1 then (1, 3) else (4, 10);
      forall p :: Walk(g, lo, hi, p) ==> !Accepting(g, lo, hi, p[|p| - 1])
  {
    var g :- ParseHeatmap(lines);
    if !Wide(g) {
      return Err("empty heat map or a row shorter than the first");
    }
    var lo, hi := if part1 then 1 else 4, if part1 then 3 else 10;
    var best, _ := FindBestPath(g, lo, hi);
    if best.None? {
      return Err("destination was not found");
    }
    return Ok(best.value);
  }
}
