/** Day 8: walking the desert network (src/d8.rs).

    Each node names a left and a right successor; the instruction string is
    followed cyclically, 'R' choosing the right successor and anything else
    the left one. */
module Wasteland {
  import opened Wrappers
  import opened Text
  import opened Collections

  type Network = map<string, (string, string)>

  /** The successor of `node` at step `i`; a node missing from the network
      has none. */
  function Next(net: Network, steps: string, node: string, i: nat): (r: Option<string>)
    requires |steps| > 0
    ensures r.Some? <==> node in net
    ensures r.Some? && steps[Phase(i, |steps|)] == 'R' ==> r.value == net[node].1
    ensures r.Some? && steps[Phase(i, |steps|)] != 'R' ==> r.value == net[node].0
  {
    if node in net then
      Some(if steps[Phase(i, |steps|)] == 'R' then net[node].1 else net[node].0)
    else None
  }

  /** The node reached after `n` steps from `start`, if every node on the
      way is in the network. */
  function Walk(net: Network, steps: string, start: string, n: nat): Option<string>
    requires |steps| > 0
  {
    if n == 0 then Some(start)
    else match Walk(net, steps, start, n - 1)
      case None => None
      case Some(v) => Next(net, steps, v, n - 1)
  }

  /** Every node on a walk is the start or a successor named in the network. */
  function Nodes(net: Network, start: string): set<string> {
    {start} + (set k | k in net :: net[k].0) + (set k | k in net :: net[k].1)
  }

  lemma WalkInNodes(net: Network, steps: string, start: string, n: nat)
    requires |steps| > 0 && Walk(net, steps, start, n).Some?
    ensures Walk(net, steps, start, n).value in Nodes(net, start)
  {
    if n > 0 {
      var v := Walk(net, steps, start, n - 1).value;
      assert v in net;
    }
  }

  /** Walks that meet in the same node at the same point of the
      instructions continue identically: the network is deterministic. */
  lemma {:induction false} WalkPeriodic(net: Network, steps: string, start: string, a: nat, b: nat, k: nat)
    requires |steps| > 0 && Phase(a, |steps|) == Phase(b, |steps|)
    requires Walk(net, steps, start, a) == Walk(net, steps, start, b)
    ensures Walk(net, steps, start, a + k) == Walk(net, steps, start, b + k)
    decreases k
  {
    if k > 0 {
      WalkPeriodic(net, steps, start, a, b, k - 1);
      PhaseShift(a, b, k - 1, |steps|);
    }
  }

  lemma PhaseSucc(i: nat, len: nat)
    requires len > 0
    ensures Phase(i + 1, len) == if Phase(i, len) + 1 == len then 0 else Phase(i, len) + 1
  {
    if i >= len { PhaseSucc(i - len, len); }
  }

  lemma PhaseShift(a: nat, b: nat, k: nat, len: nat)
    requires len > 0 && Phase(a, len) == Phase(b, len)
    ensures Phase(a + k, len) == Phase(b + k, len)
  {
    if k > 0 {
      PhaseShift(a, b, k - 1, len);
      PhaseSucc(a + k - 1, len);
      PhaseSucc(b + k - 1, len);
    }
  }

  predicate EndsWithZ(o: Option<string>) {
    o.Some? && |o.value| > 0 && o.value[|o.value| - 1] == 'Z'
  }

  /** The step counts below `n` at which the walk stands on a node whose
      name ends in 'Z', in increasing order. */
  function ZOffsets(net: Network, steps: string, start: string, n: nat): (r: seq<nat>)
    requires |steps| > 0
    ensures Increasing(r)
    ensures forall i :: 0 <= i < |r| ==> r[i] < n && EndsWithZ(Walk(net, steps, start, r[i]))
    ensures forall k :: 0 <= k < n && EndsWithZ(Walk(net, steps, start, k)) ==> k in r
  {
    if n == 0 then []
    else if EndsWithZ(Walk(net, steps, start, n - 1)) then ZOffsets(net, steps, start, n - 1) + [n - 1]
    else ZOffsets(net, steps, start, n - 1)
  }

  /** The position in the instructions and the node after `k` steps: what
      `find_cycle` caches. */
  function StateAt(net: Network, steps: string, start: string, k: nat): (nat, Option<string>)
    requires |steps| > 0
  {
    (Phase(k, |steps|), Walk(net, steps, start, k))
  }

  /** No state repeats among the first `n` steps. */
  predicate NoRepeat(net: Network, steps: string, start: string, n: nat)
    requires |steps| > 0
  {
    forall j, k :: 0 <= j < k < n ==> StateAt(net, steps, start, j) != StateAt(net, steps, start, k)
  }

  datatype Cycle = Cycle(offsets: seq<nat>, length: nat)

  /** What `find_cycle` reports for a walk whose first repeated state is at
      step `n`, first seen at `n - length`. */
  predicate IsCycleAt(net: Network, steps: string, start: string, c: Cycle, n: nat)
    requires |steps| > 0
  {
    1 <= c.length <= n
    && StateAt(net, steps, start, n) == StateAt(net, steps, start, n - c.length)
    && Walk(net, steps, start, n).Some?
    && NoRepeat(net, steps, start, n)
    && c.offsets == ZOffsets(net, steps, start, n)
  }

  function States(net: Network, steps: string, start: string): set<(nat, string)> {
    set s: nat, v: string | s < |steps| && v in Nodes(net, start) :: (s, v)
  }

  /** The cache of `find_cycle` after `n` steps: exactly the states seen so
      far, each mapped to the step at which it was seen. */
  predicate CacheOk(net: Network, steps: string, start: string, cache: map<(nat, string), nat>, n: nat)
    requires |steps| > 0
  {
    (forall k :: 0 <= k < n ==> Seen(net, steps, start, cache, k))
    && (forall key :: key in cache ==> cache[key] < n && StateAt(net, steps, start, cache[key]) == (key.0, Some(key.1)))
  }

  predicate Seen(net: Network, steps: string, start: string, cache: map<(nat, string), nat>, k: nat)
    requires |steps| > 0
  {
    var w := Walk(net, steps, start, k);
    w.Some? && (Phase(k, |steps|), w.value) in cache && cache[(Phase(k, |steps|), w.value)] == k
  }

  lemma CacheExtend(net: Network, steps: string, start: string, cache: map<(nat, string), nat>, n: nat, current: string)
    requires |steps| > 0 && CacheOk(net, steps, start, cache, n)
    requires Walk(net, steps, start, n) == Some(current)
    requires (Phase(n, |steps|), current) !in cache
    ensures CacheOk(net, steps, start, cache[(Phase(n, |steps|), current) := n], n + 1)
  {
    var c2 := cache[(Phase(n, |steps|), current) := n];
    forall k | 0 <= k < n + 1 ensures Seen(net, steps, start, c2, k) {
      if k < n {
        assert Seen(net, steps, start, cache, k);
      }
    }
  }

  lemma CacheHit(net: Network, steps: string, start: string, cache: map<(nat, string), nat>, n: nat, current: string)
    requires |steps| > 0 && CacheOk(net, steps, start, cache, n)
    requires Walk(net, steps, start, n) == Some(current)
    requires (Phase(n, |steps|), current) in cache
    ensures NoRepeat(net, steps, start, n)
    ensures StateAt(net, steps, start, n) == StateAt(net, steps, start, cache[(Phase(n, |steps|), current)])
  {
    forall j, k | 0 <= j < k < n
      ensures StateAt(net, steps, start, j) != StateAt(net, steps, start, k)
    {
      assert Seen(net, steps, start, cache, j) && Seen(net, steps, start, cache, k);
    }
  }

  /** From the first visit of the repeated state on, the walk repeats with
      the cycle's length. */
  lemma CycleRepeats(net: Network, steps: string, start: string, c: Cycle, n: nat, k: nat)
    requires |steps| > 0 && IsCycleAt(net, steps, start, c, n)
    requires k >= n - c.length
    ensures Walk(net, steps, start, k + c.length) == Walk(net, steps, start, k)
  {
    WalkPeriodic(net, steps, start, n - c.length, n, k - (n - c.length));
  }

  /** `find_cycle`: walks until a (position, node) state repeats, caching
      the step at which each state was first seen, and records the steps
      that stand on a node ending in 'Z'. It terminates because there are
      finitely many states. Empty instructions or a missing node fail. */
  method FindCycle(net: Network, steps: string, start: string) returns (r: Result<Cycle>)
    ensures |steps| > 0 && r.Ok? ==> exists n :: IsCycleAt(net, steps, start, r.value, n)
    ensures r.Err? ==> |steps| == 0 || Stuck(net, steps, start)
  {
    if |steps| == 0 {
      return Err("no instructions");
    }
    var n: nat := 0;
    var cache: map<(nat, string), nat> := map[];
    var offsets: seq<nat> := [];
    var current := start;
    ghost var states := States(net, steps, start);
    while true
      invariant Walk(net, steps, start, n) == Some(current)
      invariant CacheOk(net, steps, start, cache, n)
      invariant cache.Keys <= states
      invariant offsets == ZOffsets(net, steps, start, n)
      decreases |states - cache.Keys|
    {
      var s := Phase(n, |steps|);
      if (s, current) in cache {
        var first := cache[(s, current)];
        CacheHit(net, steps, start, cache, n, current);
        assert IsCycleAt(net, steps, start, Cycle(offsets, n - first), n);
        return Ok(Cycle(offsets, n - first));
      }
      CacheExtend(net, steps, start, cache, n, current);
      assert (s, current) in states by {
        WalkInNodes(net, steps, start, n);
      }
      ghost var before := states - cache.Keys;
      cache := cache[(s, current) := n];
      assert states - cache.Keys == before - {(s, current)};
      WalkStep(net, steps, start, n, current);
      if |current| > 0 && current[|current| - 1] == 'Z' {
        offsets := offsets + [n];
      }
      if current !in net {
        return Err("node missing from the network");
      }
      current := if steps[s] == 'R' then net[current].1 else net[current].0;
      n := n + 1;
    }
  }

  /** One step of the loop of `find_cycle`: the next node, and the 'Z'
      offsets with the current step added when its node ends in 'Z'. */
  lemma WalkStep(net: Network, steps: string, start: string, n: nat, current: string)
    requires |steps| > 0 && Walk(net, steps, start, n) == Some(current)
    ensures current !in net ==> Walk(net, steps, start, n + 1).None?
    ensures current in net ==>
              Walk(net, steps, start, n + 1) == Some(if steps[Phase(n, |steps|)] == 'R' then net[current].1 else net[current].0)
    ensures ZOffsets(net, steps, start, n + 1)
      == if |current| > 0 && current[|current| - 1] == 'Z' then ZOffsets(net, steps, start, n) + [n]
         else ZOffsets(net, steps, start, n)
  {
  }

  /** Every walk whose state repeats is periodic from then on, so each node
      it ever reaches is reached within the first `n` steps. */
  lemma {:induction false} EventuallyPeriodic(net: Network, steps: string, start: string, first: nat, n: nat, k: nat)
    requires |steps| > 0 && first < n
    requires StateAt(net, steps, start, first) == StateAt(net, steps, start, n)
    ensures exists j :: 0 <= j < n && Walk(net, steps, start, j) == Walk(net, steps, start, k)
    decreases k
  {
    if k < n {
      assert Walk(net, steps, start, k) == Walk(net, steps, start, k);
    } else {
      WalkPeriodic(net, steps, start, first, n, k - n);
      assert first + (k - n) == k - (n - first);
      EventuallyPeriodic(net, steps, start, first, n, k - (n - first));
    }
  }

  // ------------------------------------------------------------ arithmetic

  /** `x` is a multiple of `d`: Rust's `is_multiple_of`, under which only 0
      is a multiple of 0. */
  predicate MultipleOf(x: nat, d: nat)
    decreases x
  {
    x == 0 || (d > 0 && x >= d && MultipleOf(x - d, d))
  }

  /** The exact quotient of a multiple. */
  function Quot(x: nat, d: nat): (q: nat)
    requires MultipleOf(x, d)
    ensures x == d * q
    decreases x
  {
    if x == 0 then 0 else Quot(x - d, d) + 1
  }

  lemma MultipleOfProduct(d: nat, q: nat)
    ensures MultipleOf(d * q, d)
    decreases q
  {
    if q > 0 && d > 0 {
      assert d * q - d == d * (q - 1);
      MultipleOfProduct(d, q - 1);
    }
  }

  lemma {:induction false} MultipleDiff(a: nat, b: nat, d: nat)
    requires MultipleOf(a, d) && MultipleOf(b, d) && b <= a
    ensures MultipleOf(a - b, d)
  {
    var qa, qb := Quot(a, d), Quot(b, d);
    assert a - b == d * (qa - qb);
    MultipleOfProduct(d, qa - qb);
  }

  lemma {:induction false} MultipleSum(a: nat, b: nat, d: nat)
    requires MultipleOf(a, d) && MultipleOf(b, d)
    ensures MultipleOf(a + b, d)
  {
    var qa, qb := Quot(a, d), Quot(b, d);
    MulDist(d, qa, qb);
    MultipleOfProduct(d, qa + qb);
  }

  /** The greatest common divisor (`gcd_binary` of the gcd crate, computed
      here by repeated subtraction: the same number). */
  function Gcd(a: nat, b: nat): (g: nat)
    ensures MultipleOf(a, g) && MultipleOf(b, g)
    ensures a + b > 0 ==> g > 0
    decreases a + b
  {
    if a == 0 then b
    else if b == 0 then a
    else if a >= b then (var g := Gcd(a - b, b); MultipleSum(a - b, b, g); g)
    else (var g := Gcd(a, b - a); MultipleSum(b - a, a, g); g)
  }

  /** Every common divisor divides the gcd. */
  lemma {:induction false} GcdGreatest(a: nat, b: nat, d: nat)
    requires MultipleOf(a, d) && MultipleOf(b, d)
    ensures MultipleOf(Gcd(a, b), d)
    decreases a + b
  {
    if a != 0 && b != 0 {
      if a >= b {
        MultipleDiff(a, b, d);
        GcdGreatest(a - b, b, d);
      } else {
        MultipleDiff(b, a, d);
        GcdGreatest(a, b - a, d);
      }
    }
  }

  lemma MulCancel(g: nat, x: nat, y: nat)
    requires g > 0 && g * x == g * y
    ensures x == y
  {
  }

  lemma MulAssoc(a: nat, b: nat, c: nat)
    ensures (a * b) * c == a * (b * c)
  {
  }

  lemma MulRotate(p: nat, g: nat, q: nat)
    ensures p * (g * q) == (g * p) * q
  {
  }

  /** `a * b / gcd(a, b)` is exact and a common multiple of `a` and `b`. */
  lemma Lcm(a: nat, b: nat)
    ensures MultipleOf(a * b, Gcd(a, b))
    ensures a > 0 && b > 0 ==>
      Quot(a * b, Gcd(a, b)) > 0 && MultipleOf(Quot(a * b, Gcd(a, b)), a) && MultipleOf(Quot(a * b, Gcd(a, b)), b)
  {
    if a == 0 || b == 0 {
      MultipleOfProduct(a, b);
      assert a * b == 0;
      return;
    }
    var g := Gcd(a, b);
    var p, q := Quot(a, g), Quot(b, g);
    assert a * b == g * (p * b);
    MultipleOfProduct(g, p * b);
    MulCancel(g, Quot(a * b, g), p * b);
    assert p * b == a * q by { MulRotate(p, g, q); }
    MultipleOfProduct(b, p);
    assert b * p == p * b;
    MultipleOfProduct(a, q);
  }

  // ------------------------------------------------------------- intersect

  /** `x` and `y` leave the same remainder modulo `m`. */
  predicate Congruent(x: nat, y: nat, m: nat) {
    if x >= y then MultipleOf(x - y, m) else MultipleOf(y - x, m)
  }

  /** The `n`-th candidate of the left cycle, `la + n * ll`. */
  function Candidate(la: nat, ll: nat, n: nat): nat {
    la + n * ll
  }

  /** The inner loop of `intersect`: the least `n` in `[k, rl)` whose
      candidate is congruent to `ra` modulo `rl`, if any. */
  function FirstMatch(la: nat, ll: nat, ra: nat, rl: nat, k: nat): (r: Option<nat>)
    ensures r.Some? ==> k <= r.value < rl && Congruent(Candidate(la, ll, r.value), ra, rl)
    ensures r.Some? ==> forall j :: k <= j < r.value ==> !Congruent(Candidate(la, ll, j), ra, rl)
    ensures r.None? ==> forall j :: k <= j < rl ==> !Congruent(Candidate(la, ll, j), ra, rl)
    decreases rl - k
  {
    if k >= rl then None
    else if Congruent(Candidate(la, ll, k), ra, rl) then Some(k)
    else FirstMatch(la, ll, ra, rl, k + 1)
  }

  /** `x` is a candidate of the left offset `la` below `rl` congruent to
      one of the right offsets `ras`. */
  predicate MatchedBy(x: nat, la: nat, ll: nat, ras: seq<nat>, rl: nat) {
    exists j, n :: 0 <= j < |ras| && 0 <= n < rl && x == Candidate(la, ll, n) && Congruent(x, ras[j], rl)
  }

  /** The middle loop: one offset per right offset that has a match. */
  function MatchRight(la: nat, ll: nat, ras: seq<nat>, rl: nat): (r: seq<nat>)
    ensures |r| <= |ras|
    ensures forall i :: 0 <= i < |r| ==> MatchedBy(r[i], la, ll, ras, rl)
  {
    if |ras| == 0 then []
    else
      var rest := MatchRight(la, ll, ras[1..], rl);
      assert forall i :: 0 <= i < |rest| ==> MatchedBy(rest[i], la, ll, ras, rl) by {
        forall i | 0 <= i < |rest| ensures MatchedBy(rest[i], la, ll, ras, rl) {
          assert MatchedBy(rest[i], la, ll, ras[1..], rl);
          var j, n :| 0 <= j < |ras| - 1 && 0 <= n < rl && rest[i] == Candidate(la, ll, n) && Congruent(rest[i], ras[1..][j], rl);
          assert ras[1..][j] == ras[j + 1];
        }
      }
      match FirstMatch(la, ll, ras[0], rl, 0)
      case Some(n) => [Candidate(la, ll, n)] + rest
      case None => rest
  }

  /** The outer loop: the right matches of every left offset, in order. */
  function MatchAll(las: seq<nat>, ll: nat, ras: seq<nat>, rl: nat): (r: seq<nat>)
    ensures forall i :: 0 <= i < |r| ==> exists a :: 0 <= a < |las| && MatchedBy(r[i], las[a], ll, ras, rl)
  {
    if |las| == 0 then []
    else
      var first := MatchRight(las[0], ll, ras, rl);
      var rest := MatchAll(las[1..], ll, ras, rl);
      var r := first + rest;
      assert forall i :: 0 <= i < |r| ==> exists a :: 0 <= a < |las| && MatchedBy(r[i], las[a], ll, ras, rl) by {
        forall i | 0 <= i < |r| ensures exists a :: 0 <= a < |las| && MatchedBy(r[i], las[a], ll, ras, rl) {
          if i < |first| {
            assert r[i] == first[i] && MatchedBy(r[i], las[0], ll, ras, rl);
          } else {
            var a :| 0 <= a < |las| - 1 && MatchedBy(rest[i - |first|], las[1..][a], ll, ras, rl);
            assert las[1..][a] == las[a + 1];
            assert r[i] == rest[i - |first|];
          }
        }
      }
      r
  }

  /** A pair offset that has a match contributes the least matching
      candidate. */
  lemma {:induction false} MatchRightComplete(la: nat, ll: nat, ras: seq<nat>, rl: nat, j: nat, n: nat)
    requires j < |ras| && n < rl && Congruent(Candidate(la, ll, n), ras[j], rl)
    ensures FirstMatch(la, ll, ras[j], rl, 0).Some?
    ensures Candidate(la, ll, FirstMatch(la, ll, ras[j], rl, 0).value) in MatchRight(la, ll, ras, rl)
    decreases j
  {
    if j > 0 {
      assert ras[1..][j - 1] == ras[j];
      MatchRightComplete(la, ll, ras[1..], rl, j - 1, n);
    }
  }

  /** Every left and right offset that have a matching candidate
      contribute the least one. */
  lemma {:induction false} MatchAllComplete(las: seq<nat>, ll: nat, ras: seq<nat>, rl: nat, a: nat, j: nat, n: nat)
    requires a < |las| && j < |ras| && n < rl && Congruent(Candidate(las[a], ll, n), ras[j], rl)
    ensures FirstMatch(las[a], ll, ras[j], rl, 0).Some?
    ensures Candidate(las[a], ll, FirstMatch(las[a], ll, ras[j], rl, 0).value) in MatchAll(las, ll, ras, rl)
    decreases a
  {
    if a == 0 {
      MatchRightComplete(las[0], ll, ras, rl, j, n);
    } else {
      assert las[1..][a - 1] == las[a];
      MatchAllComplete(las[1..], ll, ras, rl, a - 1, j, n);
    }
  }

  /** `intersect`: combines two cycles into one whose offsets are the
      candidates `la + n * l.length` (n < r.length) congruent to some
      right offset, and whose length is `l.length * r.length / gcd`. Two
      zero lengths divide by zero. */
  function Intersect(l: Cycle, r: Cycle): (c: Result<Cycle>)
    ensures c.Err? <==> l.length == 0 && r.length == 0
    ensures c.Ok? ==> c.value.offsets == MatchAll(l.offsets, l.length, r.offsets, r.length)
    ensures c.Ok? && l.length > 0 && r.length > 0 ==>
      c.value.length > 0 && MultipleOf(c.value.length, l.length) && MultipleOf(c.value.length, r.length)
  {
    var g := Gcd(l.length, r.length);
    if g == 0 then Err("division by zero")
    else
      Lcm(l.length, r.length);
      Ok(Cycle(MatchAll(l.offsets, l.length, r.offsets, r.length), Quot(l.length * r.length, g)))
  }

  /** The divisibility test of `intersect` exactly as written,
      `(x + rl - ra).is_multiple_of(rl)` on unsigned integers: `None` when
      the subtraction underflows, which panics in a debug build. */
  function MatchTestAsWritten(x: nat, ra: nat, rl: nat): (r: Option<bool>)
    ensures r.None? <==> x + rl < ra
    ensures r.Some? ==> (r.value <==> Congruent(x, ra, rl))
  {
    if x + rl < ra then None
    else
      CongruentShift(x, ra, rl);
      Some(MultipleOf(x + rl - ra, rl))
  }

  /** Where the written test does not underflow it is the congruence. */
  lemma CongruentShift(x: nat, ra: nat, rl: nat)
    requires x + rl >= ra
    ensures MultipleOf(x + rl - ra, rl) <==> Congruent(x, ra, rl)
  {
    if x < ra && rl > 0 {
      var d := ra - x;
      assert 0 < d <= rl;
      if d < rl {
        assert !MultipleOf(d, rl);
        assert !MultipleOf(rl - d, rl);
      }
    }
  }

  /** The first left candidate tested against a right offset already
      underflows for cycles that `find_cycle` can produce: a left cycle of
      length 1 with offset 1 (a node ending in 'Z' that leads to itself)
      against a right cycle of length 2 whose offset 6 lies on the loop. */
  lemma IntersectUnderflows()
    ensures MatchTestAsWritten(Candidate(1, 1, 0), 6, 2).None?
    ensures FirstMatch(1, 1, 6, 2, 0) == Some(1)
  {
    assert Congruent(Candidate(1, 1, 1), 6, 2) by {
      assert MultipleOf(4, 2) by { assert MultipleOf(2, 2) by { assert MultipleOf(0, 2); } }
    }
    assert !Congruent(Candidate(1, 1, 0), 6, 2) by {
      assert !MultipleOf(1, 2);
      assert !MultipleOf(3, 2);
      assert !MultipleOf(5, 2);
    }
  }

  // -------------------------------------------------------------- parsing

  /** One network line, `name = (left, right)`, each name trimmed. */
  function ParseNode(line: string): (r: Option<(string, (string, string))>)
    ensures r.Some? ==> '=' in line
  {
    var halves :- SplitOnce(line, '=');
    var targets :- ParseTargets(halves.1);
    Some((Trim(halves.0), targets))
  }

  /** The part after '=': `(left, right)` inside optional whitespace. */
  function ParseTargets(to: string): (r: Option<(string, string)>)
    ensures r.Some? ==> ',' in to
  {
    var open :- StripPrefix(Trim(to), "(");
    var inner :- StripSuffix(open, ")");
    var (left, right) :- SplitOnce(inner, ',');
    assert ',' in Trim(to) by {
      assert inner[|left|] == ',';
      assert open[|left|] == ',';
      assert Trim(to)[|left| + 1] == ',';
    }
    InTrim(to, ',');
    Some((Trim(left), Trim(right)))
  }

  /** A node name as the puzzle writes it: no surrounding whitespace and no
      separator inside. */
  predicate PlainName(s: string) {
    (s == [] || (!IsSpace(s[0]) && !IsSpace(s[|s| - 1]))) && '=' !in s && ',' !in s
  }

  function ShowNode(name: string, left: string, right: string): string {
    name + [' ', '=', ' ', '('] + left + [',', ' '] + right + [')']
  }

  lemma ParseShowNode(name: string, left: string, right: string)
    requires PlainName(name) && PlainName(left) && PlainName(right)
    ensures ParseNode(ShowNode(name, left, right)) == Some((name, (left, right)))
  {
    SplitShowNode(name, left, right);
    ParseShowTargets(left, right);
    TrimTrailingSpace(name);
  }

  lemma SplitShowNode(name: string, left: string, right: string)
    requires '=' !in name
    ensures SplitOnce(ShowNode(name, left, right), '=') == Some((name + [' '], [' ', '('] + left + [',', ' '] + right + [')']))
  {
    var to := [' ', '('] + left + [',', ' '] + right + [')'];
    assert ShowNode(name, left, right) == (name + [' ']) + ['='] + to;
    SplitOnceIs(name + [' '], '=', to);
  }

  /** A space before a parenthesised text is trimmed away. */
  lemma TrimParenthesised(open: string)
    requires |open| > 0 && open[|open| - 1] == ')'
    ensures Trim([' '] + (['('] + open)) == ['('] + open
  {
    var body := ['('] + open;
    assert body[0] == '(' && body[|body| - 1] == ')';
    TrimSpaced(body);
  }

  lemma ParseShowTargets(left: string, right: string)
    requires PlainName(left) && PlainName(right)
    ensures ParseTargets([' ', '('] + left + [',', ' '] + right + [')']) == Some((left, right))
  {
    var inner := left + [','] + ([' '] + right);
    var open := inner + [')'];
    var body := ['('] + open;
    var to := [' '] + body;
    assert to == [' ', '('] + left + [',', ' '] + right + [')'];
    assert StripPrefix(Trim(to), "(") == Some(open) by {
      TrimParenthesised(open);
      StripPrefixIs(['('], open);
    }
    assert StripSuffix(open, ")") == Some(inner) by {
      StripSuffixIs(inner, [')']);
    }
    assert SplitOnce(inner, ',') == Some((left, [' '] + right)) by {
      SplitOnceIs(left, ',', [' '] + right);
    }
    assert Trim([' '] + right) == right by {
      TrimLeadingSpace(right);
      TrimNoSpace(right);
    }
    assert Trim(left) == left by {
      TrimNoSpace(left);
    }
  }

  function ParseNodes(lines: seq<string>): (r: Option<seq<(string, (string, string))>>)
    ensures r.Some? <==> forall i :: 0 <= i < |lines| ==> ParseNode(lines[i]).Some?
    ensures r.Some? ==> |r.value| == |lines| && forall i :: 0 <= i < |lines| ==> r.value[i] == ParseNode(lines[i]).value
  {
    MapAll(lines, ParseNode)
  }

  /** The network built by inserting the definitions in order. */
  function Build(nodes: seq<(string, (string, string))>): Network {
    if |nodes| == 0 then map[]
    else Build(nodes[..|nodes| - 1])[nodes[|nodes| - 1].0 := nodes[|nodes| - 1].1]
  }

  /** The network of the lines from the third on; a malformed line fails. */
  function ParseNetwork(lines: seq<string>): Option<Network> {
    var nodes :- ParseNodes(lines);
    Some(Build(nodes))
  }

  /** Definition `i` is the last one of `name`. */
  predicate LastDefinition(nodes: seq<(string, (string, string))>, name: string, i: int) {
    0 <= i < |nodes| && nodes[i].0 == name && forall j :: i < j < |nodes| ==> nodes[j].0 != name
  }

  /** Only defined names are present. */
  lemma {:induction false} BuildDefines(nodes: seq<(string, (string, string))>, name: string)
    ensures name in Build(nodes) <==> exists i :: 0 <= i < |nodes| && nodes[i].0 == name
    decreases |nodes|
  {
    if |nodes| > 0 {
      var init := nodes[..|nodes| - 1];
      assert forall i :: 0 <= i < |init| ==> init[i] == nodes[i];
      BuildDefines(init, name);
    }
  }

  /** A name defined twice keeps its last definition. */
  lemma {:induction false} BuildLastWins(nodes: seq<(string, (string, string))>, name: string)
    requires name in Build(nodes)
    ensures exists i :: LastDefinition(nodes, name, i) && Build(nodes)[name] == nodes[i].1
    decreases |nodes|
  {
    var init := nodes[..|nodes| - 1];
    var last := |nodes| - 1;
    if nodes[last].0 == name {
      assert LastDefinition(nodes, name, last);
    } else {
      assert name in Build(init);
      BuildLastWins(init, name);
      var i :| LastDefinition(init, name, i) && Build(init)[name] == init[i].1;
      assert init[i] == nodes[i];
      assert LastDefinition(nodes, name, i);
    }
  }

  // ---------------------------------------------------------------- parts

  /** After `n` steps from `start` the walk stands on `goal` for the first
      time. */
  predicate Arrives(net: Network, steps: string, start: string, goal: string, n: nat)
    requires |steps| > 0
  {
    Walk(net, steps, start, n) == Some(goal) && forall k :: 0 <= k < n ==> Walk(net, steps, start, k) != Some(goal)
  }

  /** The loop of part 1: the number of steps from `start` to the first
      visit of `goal`. Where `run`'s part-1 loop would spin forever (the walk repeats
      a state without reaching `goal`) the model reports it; a missing node
      or empty instructions fail where `run` panics. */
  method StepsTo(net: Network, steps: string, start: string, goal: string) returns (r: Result<nat>)
    ensures |steps| == 0 ==> r.Err?
    ensures |steps| > 0 && r.Ok? ==> Arrives(net, steps, start, goal, r.value)
    ensures |steps| > 0 && r.Err? ==> Stuck(net, steps, start) || Never(net, steps, start, goal)
  {
    if |steps| == 0 {
      return Err("no instructions");
    }
    var n: nat := 0;
    var cache: map<(nat, string), nat> := map[];
    var current := start;
    ghost var states := States(net, steps, start);
    while current != goal
      invariant Walk(net, steps, start, n) == Some(current)
      invariant CacheOk(net, steps, start, cache, n)
      invariant cache.Keys <= states
      invariant NotBefore(net, steps, start, goal, n)
      decreases |states - cache.Keys|
    {
      var s := Phase(n, |steps|);
      if (s, current) in cache {
        var first := cache[(s, current)];
        CacheHit(net, steps, start, cache, n, current);
        NeverArrives(net, steps, start, first, n, goal);
        return Err("never arrives");
      }
      CacheExtend(net, steps, start, cache, n, current);
      assert (s, current) in states by {
        WalkInNodes(net, steps, start, n);
      }
      ghost var before := states - cache.Keys;
      cache := cache[(s, current) := n];
      assert states - cache.Keys == before - {(s, current)};
      if current !in net {
        assert Walk(net, steps, start, n + 1).None?;
        return Err("node missing from the network");
      }
      NotBeforeStep(net, steps, start, goal, n);
      current := if steps[s] == 'R' then net[current].1 else net[current].0;
      n := n + 1;
    }
    return Ok(n);
  }

  predicate NotBefore(net: Network, steps: string, start: string, goal: string, n: nat)
    requires |steps| > 0
  {
    forall k :: 0 <= k < n ==> Walk(net, steps, start, k) != Some(goal)
  }

  ghost predicate Never(net: Network, steps: string, start: string, goal: string)
    requires |steps| > 0
  {
    forall k :: Walk(net, steps, start, k) != Some(goal)
  }

  /** The walk leaves the network at some step. */
  ghost predicate Stuck(net: Network, steps: string, start: string)
    requires |steps| > 0
  {
    exists k :: Walk(net, steps, start, k).None?
  }

  lemma NotBeforeStep(net: Network, steps: string, start: string, goal: string, n: nat)
    requires |steps| > 0 && NotBefore(net, steps, start, goal, n)
    requires Walk(net, steps, start, n) != Some(goal)
    ensures NotBefore(net, steps, start, goal, n + 1)
  {
  }

  /** A walk that repeats a state before reaching `goal` never reaches it. */
  lemma NeverArrives(net: Network, steps: string, start: string, first: nat, n: nat, goal: string)
    requires |steps| > 0 && first < n
    requires StateAt(net, steps, start, first) == StateAt(net, steps, start, n)
    requires NotBefore(net, steps, start, goal, n)
    ensures Never(net, steps, start, goal)
  {
    forall k ensures Walk(net, steps, start, k) != Some(goal) {
      EventuallyPeriodic(net, steps, start, first, n, k);
    }
  }

  predicate IsMin(v: nat, xs: seq<nat>) {
    v in xs && forall i :: 0 <= i < |xs| ==> v <= xs[i]
  }

  function Least(xs: seq<nat>): (v: nat)
    requires |xs| > 0
    ensures IsMin(v, xs)
  {
    if |xs| == 1 then xs[0]
    else
      var m := Least(xs[1..]);
      assert forall i :: 1 <= i < |xs| ==> xs[i] == xs[1..][i - 1];
      if xs[0] <= m then xs[0] else m
  }

  ghost predicate CycleOf(net: Network, steps: string, start: string, c: Cycle)
    requires |steps| > 0
  {
    exists n :: IsCycleAt(net, steps, start, c, n)
  }

  /** The cycle of every start node, in order. */
  method Cycles(net: Network, steps: string, starts: seq<string>) returns (r: Result<seq<Cycle>>)
    ensures r.Ok? ==> |steps| > 0 && |r.value| == |starts|
    ensures r.Ok? ==> forall i :: 0 <= i < |starts| ==> CycleOf(net, steps, starts[i], r.value[i])
    ensures r.Err? ==> |steps| == 0 || exists i :: 0 <= i < |starts| && Stuck(net, steps, starts[i])
  {
    if |steps| == 0 {
      return Err("no instructions");
    }
    var cs: seq<Cycle> := [];
    for i := 0 to |starts|
      invariant |cs| == i
      invariant forall j :: 0 <= j < i ==> CycleOf(net, steps, starts[j], cs[j])
    {
      var c := FindCycle(net, steps, starts[i]);
      if c.Err? {
        return Err(c.msg);
      }
      cs := cs + [c.value];
    }
    return Ok(cs);
  }

  /** `reduce(intersect)`: the cycles combined pairwise from the left. */
  function Combine(cs: seq<Cycle>): (r: Result<Cycle>)
    requires |cs| > 0
    ensures r.Ok? && (forall i :: 0 <= i < |cs| ==> cs[i].length > 0) ==>
      r.value.length > 0 && forall i :: 0 <= i < |cs| ==> MultipleOf(r.value.length, cs[i].length)
  {
    if |cs| == 1 then Ok(cs[0])
    else
      var acc :- Combine(cs[..|cs| - 1]);
      var c := Intersect(acc, cs[|cs| - 1]);
      if c.Ok? && (forall i :: 0 <= i < |cs| ==> cs[i].length > 0) then
        assert forall i :: 0 <= i < |cs| ==> MultipleOf(c.value.length, cs[i].length) by {
          forall i | 0 <= i < |cs| ensures MultipleOf(c.value.length, cs[i].length) {
            if i < |cs| - 1 {
              assert cs[..|cs| - 1][i] == cs[i];
              MultipleTrans(c.value.length, acc.length, cs[i].length);
            }
          }
        }
        c
      else c
  }

  lemma MultipleTrans(x: nat, y: nat, d: nat)
    requires MultipleOf(x, y) && MultipleOf(y, d)
    ensures MultipleOf(x, d)
  {
    var q1, q2 := Quot(x, y), Quot(y, d);
    assert x == (d * q2) * q1;
    MulAssoc(d, q2, q1);
    MultipleOfProduct(d, q2 * q1);
  }

  /** Part 2 after the cycles are found: the least offset of the combined
      cycle. No start, a failing combination or no offset is an error. */
  function Part2(cs: seq<Cycle>): (r: Result<nat>)
    ensures r.Ok? <==> |cs| > 0 && Combine(cs).Ok? && |Combine(cs).value.offsets| > 0
    ensures r.Ok? ==> IsMin(r.value, Combine(cs).value.offsets)
  {
    if |cs| == 0 then Err("no start node")
    else
      var c :- Combine(cs);
      if |c.offsets| == 0 then Err("no common offset") else Ok(Least(c.offsets))
  }

  predicate EndsWithA(s: string) {
    |s| > 0 && s[|s| - 1] == 'A'
  }

  /** `order` lists every key of `keys` exactly once, as iterating the keys
      of a hash map does. */
  ghost predicate ListsOnce(order: seq<string>, keys: set<string>) {
    (forall k :: k in keys <==> k in order) && Distinct(order)
  }

  predicate Distinct(xs: seq<string>) {
    forall i, j :: 0 <= i < j < |xs| ==> xs[i] != xs[j]
  }

  /** `cs` are the cycles of the start nodes `starts`, one each, in order. */
  ghost predicate CyclesOf(net: Network, steps: string, starts: seq<string>, cs: seq<Cycle>) {
    && |steps| > 0 && |cs| == |starts|
    && forall i :: 0 <= i < |starts| ==> CycleOf(net, steps, starts[i], cs[i])
  }

  /** `run`: the instructions on the first line, the network from the third
      line on. `order` is the order in which `run`'s `HashMap` yields
      its keys; any order that lists each key once will do. Part 2 is the
      least common offset of the cycles of the start nodes, taken in that
      order. */
  method Run(lines: seq<string>, part1: bool, order: seq<string>) returns (r: Result<nat>)
    requires |lines| >= 2 && ParseNetwork(lines[2..]).Some? ==> ListsOnce(order, ParseNetwork(lines[2..]).value.Keys)
    ensures |lines| < 2 ==> r.Err?
    ensures r.Ok? ==> ParseNetwork(lines[2..]).Some?
    ensures r.Ok? && part1 ==> |lines[0]| > 0 && Arrives(ParseNetwork(lines[2..]).value, lines[0], "AAA", "ZZZ", r.value)
    ensures !part1 && |lines| >= 2 && ParseNetwork(lines[2..]).Some? ==>
              GhostsAnswer(ParseNetwork(lines[2..]).value, lines[0], Filter(order, ParseNetwork(lines[2..]).value), r)
  {
    if |lines| < 2 {
      return Err("missing lines");
    }
    var net :- OkOr(ParseNetwork(lines[2..]), "malformed node");
    if part1 {
      r := StepsTo(net, lines[0], "AAA", "ZZZ");
    } else {
      r := Ghosts(net, lines[0], Filter(order, net));
    }
  }

  /** What part 2 answers for the start nodes `starts`: the least common
      offset of their cycles; it fails only without instructions, when a
      start node gets stuck, or when the cycles have no common offset. */
  ghost predicate GhostsAnswer(net: Network, steps: string, starts: seq<string>, r: Result<nat>) {
    && (r.Ok? ==> exists cs :: CyclesOf(net, steps, starts, cs) && Part2(cs) == r)
    && (r.Err? ==>
          || |steps| == 0
          || (exists i :: 0 <= i < |starts| && Stuck(net, steps, starts[i]))
          || exists cs :: CyclesOf(net, steps, starts, cs) && Part2(cs).Err?)
  }

  /** Part 2 from the start nodes on: their cycles, then the least common
      offset. */
  method Ghosts(net: Network, steps: string, starts: seq<string>) returns (r: Result<nat>)
    ensures GhostsAnswer(net, steps, starts, r)
  {
    var found := Cycles(net, steps, starts);
    if found.Err? {
      return Err(found.msg);
    }
    var cs := found.value;
    assert CyclesOf(net, steps, starts, cs);
    r := Part2(cs);
  }

  /** The keys of `order` that name nodes ending in 'A', in order: each such
      node once when `order` lists each key once. */
  function Filter(order: seq<string>, net: Network): (r: seq<string>)
    ensures forall i :: 0 <= i < |r| ==> r[i] in net && EndsWithA(r[i]) && r[i] in order
    ensures forall i :: 0 <= i < |order| && order[i] in net && EndsWithA(order[i]) ==> order[i] in r
    ensures Distinct(order) ==> Distinct(r)
  {
    if |order| == 0 then []
    else
      var rest := Filter(order[1..], net);
      if order[0] in net && EndsWithA(order[0]) then
        if Distinct(order) then
          assert order[0] !in order[1..];
          [order[0]] + rest
        else [order[0]] + rest
      else rest
  }
}
