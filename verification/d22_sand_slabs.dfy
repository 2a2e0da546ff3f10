/** Day 22: falling bricks of sand (src/d22.rs).

    Every brick is a straight line of unit cubes. The bricks fall until
    each one rests on the ground (z = 1) or on another brick. Afterwards,
    for every brick, the model counts how many other bricks would fall in
    a chain reaction if that brick were taken away. Part 1 counts the
    bricks whose removal makes nothing fall; part 2 sums the counts. */
module SandSlabs {
  import opened Wrappers
  import opened Text
  import Collections

  datatype P3 = P3(x: int, y: int, z: int)

  datatype Axis = X | Y | Z

  /** A brick of `dist + 1` cubes starting at `start` and running along
      `axis` in the positive direction. */
  datatype Brick = Brick(start: P3, axis: Axis, dist: nat)

  /** `p` moved by `d` along `a` (`add_x`, `add_y`, `add_z`). */
  function Shift(p: P3, a: Axis, d: int): P3 {
    match a
    case X => P3(p.x + d, p.y, p.z)
    case Y => P3(p.x, p.y + d, p.z)
    case Z => P3(p.x, p.y, p.z + d)
  }

  function Below(p: P3): P3 {
    P3(p.x, p.y, p.z - 1)
  }

  function Up(p: P3): P3 {
    P3(p.x, p.y, p.z + 1)
  }

  function Coord(p: P3, a: Axis): int {
    match a
    case X => p.x
    case Y => p.y
    case Z => p.z
  }

  /** `p` is one of the cubes of `b`, described coordinate by coordinate. */
  predicate OnBrick(b: Brick, p: P3) {
    match b.axis
    case X => p.y == b.start.y && p.z == b.start.z && b.start.x <= p.x <= b.start.x + b.dist
    case Y => p.x == b.start.x && p.z == b.start.z && b.start.y <= p.y <= b.start.y + b.dist
    case Z => p.x == b.start.x && p.y == b.start.y && b.start.z <= p.z <= b.start.z + b.dist
  }

  /** The cubes of a brick (`points`). */
  function Cells(b: Brick): (r: set<P3>)
    ensures forall p :: p in r <==> OnBrick(b, p)
  {
    var r := set d: nat | d <= b.dist :: Shift(b.start, b.axis, d);
    assert forall p | OnBrick(b, p) :: Shift(b.start, b.axis, Coord(p, b.axis) - Coord(b.start, b.axis)) == p;
    r
  }

  /** The highest z a brick occupies. */
  function Top(b: Brick): int {
    if b.axis == Z then b.start.z + b.dist else b.start.z
  }

  // --------------------------------------------------------------- parsing

  /** `Point::parse_str`: comma-separated integers, of which there must be
      at least three; the first three are the coordinates. */
  function ParsePoint(s: string): (r: Result<P3>)
    ensures r.Ok? <==> |Split(s, ',')| >= 3 && forall i :: 0 <= i < |Split(s, ',')| ==> ParseInt(Split(s, ',')[i]).Some?
    ensures r.Ok? ==> r.value == P3(ParseInt(Split(s, ',')[0]).value, ParseInt(Split(s, ',')[1]).value,
                                    ParseInt(Split(s, ',')[2]).value)
  {
    var nums :- OkOr(ParseInts(Split(s, ',')), "invalid integer");
    if |nums| < 3 then Err("expected 3 integers") else Ok(P3(nums[0], nums[1], nums[2]))
  }

  /** A point written the way the puzzle input writes one. */
  function ShowPoint(p: P3): string {
    Join([ShowInt(p.x), ShowInt(p.y), ShowInt(p.z)], ',')
  }

  lemma ShowIntPlain(i: int)
    ensures ',' !in ShowInt(i) && '~' !in ShowInt(i)
  {
    var s := ShowInt(i);
    assert forall k :: 0 <= k < |s| ==> s[k] != ',' && s[k] != '~';
  }

  /** Printing then parsing a point gives it back. */
  lemma ParseShowPoint(p: P3)
    ensures ParsePoint(ShowPoint(p)) == Ok(p)
    ensures '~' !in ShowPoint(p)
  {
    var parts := [ShowInt(p.x), ShowInt(p.y), ShowInt(p.z)];
    SplitShowPoint(p);
    ParseShowInt(p.x);
    ParseShowInt(p.y);
    ParseShowInt(p.z);
    ParsePointOf(ShowPoint(p), parts, p);
    ShowPointPlain(p);
  }

  /** Three pieces that parse to the coordinates of `q` make the point `q`. */
  lemma ParsePointOf(s: string, parts: seq<string>, q: P3)
    requires Split(s, ',') == parts && |parts| == 3
    requires ParseInt(parts[0]) == Some(q.x) && ParseInt(parts[1]) == Some(q.y) && ParseInt(parts[2]) == Some(q.z)
    ensures ParsePoint(s) == Ok(q)
  {
    assert forall i :: 0 <= i < |parts| ==> ParseInt(parts[i]).Some?;
    var nums := ParseInts(parts).value;
    assert nums[0] == q.x && nums[1] == q.y && nums[2] == q.z;
  }

  lemma SplitShowPoint(p: P3)
    ensures Split(ShowPoint(p), ',') == [ShowInt(p.x), ShowInt(p.y), ShowInt(p.z)]
  {
    var parts := [ShowInt(p.x), ShowInt(p.y), ShowInt(p.z)];
    ShowIntPlain(p.x);
    ShowIntPlain(p.y);
    ShowIntPlain(p.z);
    assert forall i :: 0 <= i < |parts| ==> ',' !in parts[i];
    SplitJoin(parts, ',');
  }

  lemma ShowPointPlain(p: P3)
    ensures '~' !in ShowPoint(p)
  {
    ShowIntPlain(p.x);
    ShowIntPlain(p.y);
    ShowIntPlain(p.z);
    var parts := [ShowInt(p.x), ShowInt(p.y), ShowInt(p.z)];
    assert parts[1..] == [ShowInt(p.y), ShowInt(p.z)] && parts[1..][1..] == [ShowInt(p.z)];
    assert Join(parts[1..][1..], ',') == ShowInt(p.z);
    assert Join(parts[1..], ',') == ShowInt(p.y) + [','] + ShowInt(p.z);
    assert ShowPoint(p) == ShowInt(p.x) + [','] + (ShowInt(p.y) + [','] + ShowInt(p.z));
  }

  function Abs(d: int): nat {
    if d < 0 then -d else d
  }

  /** The end of the two with the smaller coordinate along `a`, the first
      on a tie (`min_by`). */
  function MinBy(from: P3, to: P3, a: Axis): P3 {
    if Coord(from, a) <= Coord(to, a) then from else to
  }

  /** How many coordinates the two ends disagree on. */
  function Differing(from: P3, to: P3): nat {
    Collections.Ind(from.x != to.x) + Collections.Ind(from.y != to.y) + Collections.Ind(from.z != to.z)
  }

  predicate Within(v: int, a: int, b: int) {
    (a <= v <= b) || (b <= v <= a)
  }

  /** `p` lies in the box spanned by the two ends. */
  predicate Between(from: P3, to: P3, p: P3) {
    Within(p.x, from.x, to.x) && Within(p.y, from.y, to.y) && Within(p.z, from.z, to.z)
  }

  /** `Brick::from_points`: the brick whose ends are `from` and `to`. The
      ends may differ in one coordinate at most; a single cube lies along X. */
  function FromPoints(from: P3, to: P3): (r: Result<Brick>)
    ensures r.Ok? <==> Differing(from, to) <= 1
    ensures r.Ok? ==> forall p :: OnBrick(r.value, p) <==> Between(from, to, p)
    ensures from == to ==> r == Ok(Brick(from, X, 0))
  {
    var dx := to.x - from.x;
    var dy := to.y - from.y;
    var dz := to.z - from.z;
    if dx == 0 && dy == 0 && dz == 0 then Ok(Brick(from, X, 0))
    else if dy == 0 && dz == 0 then Ok(Brick(MinBy(from, to, X), X, Abs(dx)))
    else if dx == 0 && dz == 0 then Ok(Brick(MinBy(from, to, Y), Y, Abs(dy)))
    else if dx == 0 && dy == 0 then Ok(Brick(MinBy(from, to, Z), Z, Abs(dz)))
    else Err("only one axis may change")
  }

  /** One input line `x,y,z~x,y,z`. */
  function ParseBrick(line: string): (r: Result<Brick>)
    ensures r.Ok? ==> '~' in line
  {
    var (a, b) :- OkOr(SplitOnce(line, '~'), "missing '~'");
    var from :- ParsePoint(a);
    var to :- ParsePoint(b);
    FromPoints(from, to)
  }

  /** Parsing a printed line yields the brick between its two ends. */
  lemma ParseShowBrick(from: P3, to: P3)
    ensures ParseBrick(ShowPoint(from) + "~" + ShowPoint(to)) == FromPoints(from, to)
  {
    ParseShowPoint(from);
    ParseShowPoint(to);
    SplitOnceIs(ShowPoint(from), '~', ShowPoint(to));
  }

  // ------------------------------------------------------ bricks and spots

  /** `b1.is_above(b2)`: some cube of `upper` sits directly on a cube of
      `lower`. */
  predicate IsAbove(upper: Brick, lower: Brick) {
    exists p :: p in Cells(upper) && Below(p) in Cells(lower)
  }

  /** Two bricks that share no cube and where one is above the other touch:
      the bottom of the upper one is one above the top of the lower one. */
  lemma AboveTouches(upper: Brick, lower: Brick)
    requires Cells(upper) !! Cells(lower)
    requires IsAbove(upper, lower)
    ensures upper.start.z == Top(lower) + 1
  {
    var p :| p in Cells(upper) && Below(p) in Cells(lower);
  }

  /** `will_fall`: a brick above the ground with nothing under any of its
      cubes except itself. The set of occupied spots comes back with the
      brick's cubes added. */
  function WillFall(b: Brick, spots: set<P3>): (r: (bool, set<P3>))
    ensures r.1 == spots + Cells(b)
    ensures Cells(b) <= spots ==> r.1 == spots
  {
    var rest := spots - Cells(b);
    (b.start.z > 1 && !(exists p :: p in Cells(b) && Below(p) in rest), rest + Cells(b))
  }

  /** The brick one step lower. */
  function Dropped(b: Brick): (r: Brick)
    ensures forall q :: q in Cells(r) <==> Up(q) in Cells(b)
  {
    Brick(Below(b.start), b.axis, b.dist)
  }

  /** `b'` is `b` at the same place or lower. */
  predicate Lowered(b: Brick, b': Brick) {
    b'.axis == b.axis && b'.dist == b.dist && b'.start.x == b.start.x && b'.start.y == b.start.y
    && b'.start.z <= b.start.z
  }

  /** One brick's turn in a settling pass: it moves down one step exactly
      when `will_fall` says it would fall, and the spots follow it. */
  function Lower(b: Brick, spots: set<P3>): (r: (Brick, set<P3>, bool))
    ensures r.2 <==> WillFall(b, spots).0
    ensures r.2 ==> Lowered(b, r.0) && r.0.start.z == b.start.z - 1
    ensures !r.2 ==> r.0 == b
  {
    if b.start.z <= 1 then (b, spots, false)
    else
      var rest := spots - Cells(b);
      if forall p :: p in Cells(b) ==> Below(p) !in rest then
        var d := Dropped(b);
        (d, rest + Cells(d), true)
      else (b, rest + Cells(b), false)
  }

  /** How far a brick is above the ground. */
  function Lift(b: Brick): nat {
    if b.start.z > 1 then b.start.z - 1 else 0
  }

  /** The total height of the bricks above the ground: every move lowers it. */
  function Height(bs: seq<Brick>): nat {
    if |bs| == 0 then 0 else Lift(bs[0]) + Height(bs[1..])
  }

  lemma {:induction false} HeightUpdate(bs: seq<Brick>, i: nat, b: Brick)
    requires i < |bs|
    ensures Height(bs[i := b]) + Lift(bs[i]) == Height(bs) + Lift(b)
    decreases i
  {
    if i == 0 {
      assert bs[i := b][1..] == bs[1..];
    } else {
      assert bs[i := b][1..] == bs[1..][i - 1 := b];
      HeightUpdate(bs[1..], i - 1, b);
    }
  }

  /** One pass of the settling loop over the bricks from index `i` on. The
      flag says whether some brick moved. */
  function Pass(bs: seq<Brick>, spots: set<P3>, i: nat): (r: (seq<Brick>, set<P3>, bool))
    requires i <= |bs|
    ensures |r.0| == |bs|
    ensures forall j :: 0 <= j < |bs| ==> Lowered(bs[j], r.0[j])
    ensures r.2 ==> Height(r.0) < Height(bs)
    ensures !r.2 ==> r.0 == bs
    decreases |bs| - i
  {
    if i == |bs| then (bs, spots, false)
    else
      var (b, spots1, m) := Lower(bs[i], spots);
      var (bs2, spots2, m2) := Pass(bs[i := b], spots1, i + 1);
      if m then HeightUpdate(bs, i, b); (bs2, spots2, true)
      else assert bs[i := b] == bs; (bs2, spots2, m2)
  }

  /** The settling loop: passes until one moves nothing. */
  function Settle(bs: seq<Brick>, spots: set<P3>): (r: (seq<Brick>, set<P3>))
    ensures |r.0| == |bs|
    ensures forall j :: 0 <= j < |bs| ==> Lowered(bs[j], r.0[j])
    decreases Height(bs)
  {
    var (bs1, spots1, m) := Pass(bs, spots, 0);
    if m then Settle(bs1, spots1) else (bs1, spots1)
  }

  // -------------------------------------------- the spots match the bricks

  /** No two bricks share a cube. */
  predicate Disjoint(bs: seq<Brick>) {
    forall i, j :: 0 <= i < |bs| && 0 <= j < |bs| && i != j ==> Cells(bs[i]) !! Cells(bs[j])
  }

  /** Every cube of every brick. */
  function Union(bs: seq<Brick>): set<P3> {
    set i, p | 0 <= i < |bs| && p in Cells(bs[i]) :: p
  }

  /** The cubes of every brick but the `i`th. */
  function Others(bs: seq<Brick>, i: nat): set<P3> {
    set j, p | 0 <= j < |bs| && j != i && p in Cells(bs[j]) :: p
  }

  /** The state the settling loop keeps: the spots are exactly the cubes of
      the bricks, and the bricks do not overlap. */
  predicate Good(bs: seq<Brick>, spots: set<P3>) {
    Disjoint(bs) && spots == Union(bs)
  }

  lemma OthersRest(bs: seq<Brick>, i: nat)
    requires Disjoint(bs) && i < |bs|
    ensures Union(bs) - Cells(bs[i]) == Others(bs, i)
  {
    forall p | p in Union(bs) - Cells(bs[i]) ensures p in Others(bs, i) {
      var j :| 0 <= j < |bs| && p in Cells(bs[j]);
      assert j != i;
    }
  }

  lemma UnionUpdate(bs: seq<Brick>, i: nat, b: Brick)
    requires i < |bs|
    ensures Union(bs[i := b]) == Others(bs, i) + Cells(b)
  {
    var bs' := bs[i := b];
    forall p | p in Union(bs') ensures p in Others(bs, i) + Cells(b) {
      var j :| 0 <= j < |bs'| && p in Cells(bs'[j]);
      if j != i {
        assert p in Cells(bs[j]);
      }
    }
    forall p | p in Others(bs, i) ensures p in Union(bs') {
      var j :| 0 <= j < |bs| && j != i && p in Cells(bs[j]);
      assert bs'[j] == bs[j];
    }
    assert bs'[i] == b;
  }

  /** A brick that moves down lands on free spots only. */
  lemma DropFree(b: Brick, rest: set<P3>)
    requires forall p :: p in Cells(b) ==> Below(p) !in rest
    ensures Cells(Dropped(b)) !! rest
  {
    forall q | q in Cells(Dropped(b)) ensures q !in rest {
      assert Below(Up(q)) == q;
    }
  }

  lemma DisjointUpdate(bs: seq<Brick>, i: nat, b: Brick)
    requires Disjoint(bs) && i < |bs|
    requires Cells(b) !! Others(bs, i)
    ensures Disjoint(bs[i := b])
  {
    var bs' := bs[i := b];
    forall j, k | 0 <= j < |bs'| && 0 <= k < |bs'| && j != k ensures Cells(bs'[j]) !! Cells(bs'[k]) {
      if j == i {
        assert forall p | p in Cells(bs[k]) :: p in Others(bs, i);
      } else if k == i {
        assert forall p | p in Cells(bs[j]) :: p in Others(bs, i);
      }
    }
  }

  /** One brick's turn keeps the settling state. */
  lemma LowerGood(bs: seq<Brick>, spots: set<P3>, i: nat)
    requires Good(bs, spots) && i < |bs|
    ensures Good(bs[i := Lower(bs[i], spots).0], Lower(bs[i], spots).1)
  {
    var b := bs[i];
    var (b', spots', m) := Lower(b, spots);
    OthersRest(bs, i);
    if m {
      var rest := spots - Cells(b);
      DropFree(b, rest);
      DisjointUpdate(bs, i, b');
      UnionUpdate(bs, i, b');
    } else {
      assert bs[i := b'] == bs;
      assert Cells(b) <= spots;
    }
  }

  lemma {:induction false} PassGood(bs: seq<Brick>, spots: set<P3>, i: nat)
    requires Good(bs, spots) && i <= |bs|
    ensures Good(Pass(bs, spots, i).0, Pass(bs, spots, i).1)
    decreases |bs| - i
  {
    if i < |bs| {
      var (b, spots1, m) := Lower(bs[i], spots);
      LowerGood(bs, spots, i);
      PassGood(bs[i := b], spots1, i + 1);
    }
  }

  /** No brick is left that would fall. */
  predicate Resting(bs: seq<Brick>, spots: set<P3>) {
    forall i :: 0 <= i < |bs| ==> !WillFall(bs[i], spots).0
  }

  /** A pass that moves nothing leaves the spots alone and has checked
      every brick. */
  lemma {:induction false} PassStill(bs: seq<Brick>, spots: set<P3>, i: nat)
    requires Good(bs, spots) && i <= |bs|
    requires !Pass(bs, spots, i).2
    ensures Pass(bs, spots, i).1 == spots
    ensures forall j :: i <= j < |bs| ==> !WillFall(bs[j], spots).0
    decreases |bs| - i
  {
    if i < |bs| {
      LowerStill(bs, spots, i);
      PassStill(bs, spots, i + 1);
    }
  }

  /** A brick that does not move leaves the settling state as it was. */
  lemma LowerStill(bs: seq<Brick>, spots: set<P3>, i: nat)
    requires Good(bs, spots) && i < |bs|
    requires !Lower(bs[i], spots).2
    ensures Lower(bs[i], spots).1 == spots
    ensures bs[i := Lower(bs[i], spots).0] == bs
  {
    assert Cells(bs[i]) <= spots;
  }

  /** Settling keeps the spots in step with the bricks and ends with no
      brick able to fall. */
  lemma {:induction false} SettleRests(bs: seq<Brick>, spots: set<P3>)
    requires Good(bs, spots)
    ensures Good(Settle(bs, spots).0, Settle(bs, spots).1)
    ensures Resting(Settle(bs, spots).0, Settle(bs, spots).1)
    decreases Height(bs)
  {
    var (bs1, spots1, m) := Pass(bs, spots, 0);
    PassGood(bs, spots, 0);
    if m {
      SettleRests(bs1, spots1);
    } else {
      PassStill(bs, spots, 0);
    }
  }

  /** The `find` that looks for a brick that can still fall; `will_fall`
      adds each checked brick's cubes back into the spots. */
  function FirstFalling(bs: seq<Brick>, spots: set<P3>, i: nat): (r: Option<nat>)
    requires i <= |bs|
    ensures r.Some? ==> i <= r.value < |bs|
    decreases |bs| - i
  {
    if i == |bs| then None
    else
      var (f, spots1) := WillFall(bs[i], spots);
      if f then Some(i) else FirstFalling(bs, spots1, i + 1)
  }

  /** In the settling state the search finds a brick exactly when one would
      fall, and the one it finds would. */
  lemma {:induction false} FirstFallingGood(bs: seq<Brick>, spots: set<P3>, i: nat)
    requires Good(bs, spots) && i <= |bs|
    ensures FirstFalling(bs, spots, i).None? <==> forall j :: i <= j < |bs| ==> !WillFall(bs[j], spots).0
    ensures FirstFalling(bs, spots, i).Some? ==> WillFall(bs[FirstFalling(bs, spots, i).value], spots).0
    decreases |bs| - i
  {
    if i < |bs| {
      assert Cells(bs[i]) <= spots;
      FirstFallingGood(bs, spots, i + 1);
    }
  }

  /** A brick that would not fall rests on the ground or on another
      brick. */
  lemma RestingSupported(bs: seq<Brick>, spots: set<P3>, i: nat)
    requires Good(bs, spots) && i < |bs|
    ensures !WillFall(bs[i], spots).0 <==> bs[i].start.z <= 1 || Supports(bs, i) != {}
  {
    if bs[i].start.z > 1 {
      OthersRest(bs, i);
      if !WillFall(bs[i], spots).0 {
        HeldUp(bs, i);
      }
      if Supports(bs, i) != {} {
        Held(bs, i);
      }
    }
  }

  /** A cube of brick `i` on top of another brick's cube means a support. */
  lemma HeldUp(bs: seq<Brick>, i: nat)
    requires i < |bs|
    requires exists p :: p in Cells(bs[i]) && Below(p) in Others(bs, i)
    ensures Supports(bs, i) != {}
  {
    var p :| p in Cells(bs[i]) && Below(p) in Others(bs, i);
    var j :| 0 <= j < |bs| && j != i && Below(p) in Cells(bs[j]);
    assert IsAbove(bs[i], bs[j]);
    assert j in Supports(bs, i);
  }

  /** A support has a cube right under a cube of brick `i`. */
  lemma Held(bs: seq<Brick>, i: nat)
    requires i < |bs| && Supports(bs, i) != {}
    ensures exists p :: p in Cells(bs[i]) && Below(p) in Others(bs, i)
  {
    var j :| j in Supports(bs, i);
    var p :| p in Cells(bs[i]) && Below(p) in Cells(bs[j]);
    assert Below(p) in Others(bs, i);
  }

  // ------------------------------------------------------- chain reaction

  /** The bricks directly under brick `j` (its entries in `dependencies`,
      apart from the ground marker). */
  function Supports(bs: seq<Brick>, j: nat): (r: set<nat>)
    requires j < |bs|
    ensures forall i :: i in r ==> i < |bs| && i != j
  {
    set i: nat | i < |bs| && i != j && IsAbove(bs[j], bs[i])
  }

  /** Brick `i` goes once the bricks in `gone` are gone and `s` has been
      taken away: it is `s` itself, or it is off the ground and all of the
      bricks under it are gone. In the loop this is `dependencies[i]`
      being empty: it starts as the bricks under `i` plus a ground marker,
      and loses every brick that is removed. */
  predicate Removable(bs: seq<Brick>, s: nat, gone: set<nat>, i: nat)
    requires i < |bs|
  {
    i == s || (bs[i].start.z != 1 && Supports(bs, i) <= gone)
  }

  /** Taking `s` away and then every brick left without support stays
      within `gone`. */
  predicate Closed(bs: seq<Brick>, s: nat, gone: set<nat>) {
    forall i: nat :: i < |bs| && Removable(bs, s, gone, i) ==> i in gone
  }

  /** `gone` is within every closed set. */
  ghost predicate Forced(bs: seq<Brick>, s: nat, gone: set<nat>) {
    forall x :: Closed(bs, s, x) ==> gone <= x
  }

  /** The bricks that go when `s` is taken away: the least closed set. */
  ghost predicate Least(bs: seq<Brick>, s: nat, gone: set<nat>) {
    Closed(bs, s, gone) && Forced(bs, s, gone)
  }

  lemma ForcedAdd(bs: seq<Brick>, s: nat, gone: set<nat>, i: nat)
    requires i < |bs| && Forced(bs, s, gone) && Removable(bs, s, gone, i)
    ensures Forced(bs, s, gone + {i})
  {
    forall x | Closed(bs, s, x) ensures gone + {i} <= x {
      assert Removable(bs, s, x, i);
    }
  }

  /** There is only one least closed set. */
  lemma LeastUnique(bs: seq<Brick>, s: nat, a: set<nat>, b: set<nat>)
    requires Least(bs, s, a) && Least(bs, s, b)
    ensures a == b
  {
    assert a <= b && b <= a;
  }

  /** The chain reaction for one brick `s`: rounds over all bricks, removing
      each one whose dependencies are gone, until a round removes none. A
      removed brick that `s` rests on is an error: the loop would look for
      it among the cleared dependencies of `s`. The count leaves out `s`. */
  method ChainReaction(bs: seq<Brick>, s: nat) returns (r: Result<nat>, removed: set<nat>)
    requires s < |bs|
    ensures r.Ok? ==> Least(bs, s, removed) && s in removed && r.value == |removed| - 1
    ensures r.Ok? ==> Supports(bs, s) !! removed
    ensures r.Err? ==> forall x :: Closed(bs, s, x) ==> !(Supports(bs, s) !! x)
  {
    var n := |bs|;
    removed := {};
    var total: nat := 0;
    while true
      invariant removed <= Collections.Indices(n) && |removed| <= n
      invariant Forced(bs, s, removed)
      invariant Supports(bs, s) !! removed
      invariant total == |removed|
      decreases n - |removed|
    {
      var added: nat := 0;
      var i := 0;
      ghost var before := removed;
      while i < n
        invariant i <= n
        invariant before <= removed <= Collections.Indices(n)
        invariant Forced(bs, s, removed)
        invariant Supports(bs, s) !! removed
        invariant |removed| == |before| + added
        invariant added == 0 ==> removed == before
        invariant added == 0 ==> forall k: nat :: k < i && Removable(bs, s, removed, k) ==> k in removed
      {
        if i !in removed && Removable(bs, s, removed, i) {
          ForcedAdd(bs, s, removed, i);
          if i in Supports(bs, s) {
            r := Err("brick not found among the dependencies");
            return;
          }
          removed := removed + {i};
          added := added + 1;
        }
        i := i + 1;
      }
      Collections.SubsetCard(removed, Collections.Indices(n));
      if added == 0 {
        break;
      }
      total := total + added;
    }
    assert Removable(bs, s, removed, s);
    r := Ok(total - 1);
  }

  /** What the chain reactions count: one entry per brick, the number of
      other bricks that go when it is taken away. */
  ghost predicate Counts(bs: seq<Brick>, nums: seq<nat>) {
    |nums| == |bs| && forall s: nat :: s < |bs| ==> HasCount(bs, s, nums[s])
  }

  ghost predicate HasCount(bs: seq<Brick>, s: nat, k: nat) {
    exists gone :: CountFor(bs, s, gone, k)
  }

  /** `k` bricks besides `s` go, `gone` being all that go. */
  ghost predicate CountFor(bs: seq<Brick>, s: nat, gone: set<nat>, k: nat) {
    Least(bs, s, gone) && k == |gone| - 1
  }

  /** A brick can go without effect exactly when every other brick off the
      ground rests on some brick besides it. */
  predicate SafeAlone(bs: seq<Brick>, s: nat) {
    forall j: nat :: j < |bs| && j != s && bs[j].start.z != 1 ==> !(Supports(bs, j) <= {s})
  }

  lemma CountZero(bs: seq<Brick>, nums: seq<nat>, s: nat)
    requires Counts(bs, nums) && s < |bs|
    ensures nums[s] == 0 <==> SafeAlone(bs, s)
  {
    var gone :| CountFor(bs, s, gone, nums[s]);
    assert Removable(bs, s, gone, s);
    if nums[s] == 0 {
      assert gone == {s} by {
        assert |gone - {s}| == 0;
      }
      forall j: nat | j < |bs| && j != s && bs[j].start.z != 1 ensures !(Supports(bs, j) <= {s}) {
        assert j !in gone;
        assert !Removable(bs, s, gone, j);
      }
    }
    if SafeAlone(bs, s) {
      assert Closed(bs, s, {s}) by {
        forall i: nat | i < |bs| && Removable(bs, s, {s}, i) ensures i in {s} {
        }
      }
      assert gone <= {s};
      assert gone == {s};
    }
  }

  /** The chain reaction for every brick in turn. */
  method AllChains(bs: seq<Brick>) returns (r: Result<seq<nat>>)
    ensures r.Ok? ==> Counts(bs, r.value)
    ensures r.Err? ==> ChainFails(bs)
  {
    var nums: seq<nat> := [];
    var s: nat := 0;
    while s < |bs|
      invariant s <= |bs| && |nums| == s
      invariant forall t: nat :: t < s ==> HasCount(bs, t, nums[t])
    {
      var c, removed := ChainReaction(bs, s);
      if c.Err? {
        assert FailsAt(bs, s);
        r := Err(c.msg);
        return;
      }
      var nums' := nums + [c.value];
      assert CountFor(bs, s, removed, c.value);
      assert forall t: nat :: t < s ==> nums'[t] == nums[t];
      nums := nums';
      s := s + 1;
    }
    r := Ok(nums);
  }

  /** Count of the zero entries. */
  function Zeros(nums: seq<nat>): nat {
    if |nums| == 0 then 0 else Collections.Ind(nums[0] == 0) + Zeros(nums[1..])
  }

  /** The bricks after settling, starting from the spots of their cubes. */
  function Settled(bs: seq<Brick>): (r: seq<Brick>)
    ensures |r| == |bs|
  {
    Settle(bs, Union(bs)).0
  }

  /** Bricks that do not overlap settle so that none can fall any more. */
  lemma SettledRest(bs: seq<Brick>)
    requires Disjoint(bs)
    ensures FirstFalling(Settle(bs, Union(bs)).0, Settle(bs, Union(bs)).1, 0).None?
  {
    var (bs', spots') := Settle(bs, Union(bs));
    SettleRests(bs, Union(bs));
    FirstFallingGood(bs', spots', 0);
  }

  /** Some brick's chain reaction reaches a brick that it rests on. */
  ghost predicate ChainFails(bs: seq<Brick>) {
    exists s: nat :: FailsAt(bs, s)
  }

  /** The chain reaction of `s` reaches a brick that `s` rests on. */
  ghost predicate FailsAt(bs: seq<Brick>, s: nat) {
    s < |bs| && forall x :: Closed(bs, s, x) ==> !(Supports(bs, s) !! x)
  }

  /** `run`: parse, settle, check that nothing can fall any more, then the
      chain reactions. Part 1 counts the bricks whose removal makes
      nothing fall, part 2 sums how many fall. */
  method Run(lines: seq<string>, chainReaction: bool) returns (r: Result<nat>)
    ensures r.Ok? ==> MapAllOk(lines, ParseBrick).Ok?
    ensures r.Ok? ==> exists nums :: Counts(Settled(MapAllOk(lines, ParseBrick).value), nums)
                                     && r.value == if chainReaction then Collections.Sum(nums) else Zeros(nums)
    ensures r.Err? && MapAllOk(lines, ParseBrick).Ok? && Disjoint(MapAllOk(lines, ParseBrick).value)
            ==> ChainFails(Settled(MapAllOk(lines, ParseBrick).value))
  {
    var bricks :- MapAllOk(lines, ParseBrick);
    var spots := Union(bricks);
    var settled := Settle(bricks, spots);
    if FirstFalling(settled.0, settled.1, 0).Some? {
      if Disjoint(bricks) {
        SettledRest(bricks);
      }
      return Err("brick can still fall");
    }
    var nums :- AllChains(settled.0);
    r := Ok(if chainReaction then Collections.Sum(nums) else Zeros(nums));
  }
}
