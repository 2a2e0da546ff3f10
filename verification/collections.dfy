/** Helpers for the collections the solutions iterate over: the sorted keys
    of a hash map, sums over sequences. */
module Collections {

  /** 1 when `b` holds, else 0: one term of a count. */
  function Ind(b: bool): nat {
    if b then 1 else 0
  }

  /** Multiplication distributes over addition (a hint for the solver). */
  lemma MulDist(d: nat, x: nat, y: nat)
    ensures d * (x + y) == d * x + d * y
  {
  }

  /** `i` modulo `len`, by repeated subtraction. */
  function Phase(i: nat, len: nat): (p: nat)
    requires len > 0
    ensures p < len
  {
    if i < len then i else Phase(i - len, len)
  }

  /** Strictly increasing. */
  predicate Increasing(s: seq<nat>) {
    forall i, j :: 0 <= i < j < |s| ==> s[i] < s[j]
  }

  predicate IsLeast(m: nat, s: set<nat>) {
    m in s && forall x :: x in s ==> m <= x
  }

  /** Every finite set of naturals has a least element. */
  lemma {:induction false} HasMin(s: set<nat>)
    requires s != {}
    ensures exists m :: IsLeast(m, s)
    decreases |s|
  {
    var x :| x in s;
    if s == {x} {
      assert IsLeast(x, s);
    } else {
      var rest := s - {x};
      assert |rest| < |s| by { assert s == rest + {x}; }
      HasMin(rest);
      var m' :| IsLeast(m', rest);
      var m := if x < m' then x else m';
      assert IsLeast(m, s) by {
        forall y | y in s ensures m <= y {
          if y != x { assert y in rest; }
        }
      }
    }
  }

  /** The elements of `s` in ascending order, as `collect` followed by
      `sort` produces them. */
  function Sorted(s: set<nat>): (r: seq<nat>)
    ensures |r| == |s|
    ensures forall x :: x in s <==> x in r
    ensures Increasing(r)
    decreases |s|
  {
    if s == {} then []
    else
      var m := MinOf(s);
      var rest := Sorted(s - {m});
      ConsIncreasing(m, rest, s - {m});
      assert s == (s - {m}) + {m};
      [m] + rest
  }

  lemma ConsIncreasing(m: nat, rest: seq<nat>, t: set<nat>)
    requires Increasing(rest) && forall x :: x in t <==> x in rest
    requires forall x :: x in t ==> m < x
    ensures Increasing([m] + rest)
  {
    var r := [m] + rest;
    forall i, j | 0 <= i < j < |r|
      ensures r[i] < r[j]
    {
      assert r[j] == rest[j - 1];
      if i > 0 {
        assert r[i] == rest[i - 1];
      } else {
        assert rest[j - 1] in t;
      }
    }
  }

  function MinOf(s: set<nat>): (m: nat)
    requires s != {}
    ensures m in s && forall x :: x in s ==> m <= x
  {
    HasMin(s);
    var m :| IsLeast(m, s);
    m
  }

  /** A non-empty sequence is its head in front of its tail. */
  lemma ConsSplit<T>(s: seq<T>)
    requires |s| > 0
    ensures [s[0]] + s[1..] == s
  {
  }

  /** A property holds everywhere in a non-empty sequence exactly when it holds on all but the last element and on the last. */
  lemma AllSnoc<T>(s: seq<T>, init: seq<T>, p: T -> bool)
    requires |s| > 0 && init == s[..|s| - 1]
    ensures (forall i :: 0 <= i < |s| ==> p(s[i]))
        <==> (forall i :: 0 <= i < |init| ==> p(init[i])) && p(s[|s| - 1])
  {
  }

  /** Two pieces of which one is empty can be put in front in either order. */
  lemma SwapEmpty<T>(a: seq<T>, b: seq<T>, t: seq<T>)
    requires a == [] || b == []
    ensures a + (b + t) == b + (a + t)
  {
  }

  /** A subset is no larger than its superset. */
  lemma SubsetCard<T>(a: set<T>, b: set<T>)
    requires a <= b
    ensures |a| <= |b|
  {
    assert b == a + (b - a);
    assert a * (b - a) == {};
  }

  /** The indices below `n`, and there are `n` of them. */
  function Indices(n: nat): (r: set<nat>)
    ensures forall i :: i in r <==> 0 <= i < n
    ensures |r| == n
  {
    if n == 0 then {} else Indices(n - 1) + {n - 1}
  }

  /** The sum of a sequence of naturals. */
  function Sum(s: seq<nat>): nat {
    if |s| == 0 then 0 else s[0] + Sum(s[1..])
  }

  lemma {:induction false} SumAppend(a: seq<nat>, b: seq<nat>)
    ensures Sum(a + b) == Sum(a) + Sum(b)
    decreases |a|
  {
    if |a| > 0 {
      assert (a + b)[0] == a[0];
      assert (a + b)[1..] == a[1..] + b;
      SumAppend(a[1..], b);
    } else {
      assert a + b == b;
    }
  }

  /** A sum of terms that are each at most `k` is at most `k` times the
      count. */
  lemma {:induction false} SumAtMost(s: seq<nat>, k: nat)
    requires forall i :: 0 <= i < |s| ==> s[i] <= k
    ensures Sum(s) <= k * |s|
    decreases |s|
  {
    if |s| > 0 {
      SumAtMost(s[1..], k);
      assert k * |s| == k + k * (|s| - 1);
    }
  }

  /** A sum of terms that are each at least 1 is at least the count. */
  lemma {:induction false} SumAtLeastLength(s: seq<nat>)
    requires forall i :: 0 <= i < |s| ==> s[i] >= 1
    ensures Sum(s) >= |s|
    decreases |s|
  {
    if |s| > 0 {
      SumAtLeastLength(s[1..]);
    }
  }

  /** Replacing one term changes the sum by the difference. */
  lemma SumUpdate(s: seq<nat>, i: nat, v: nat)
    requires i < |s|
    ensures Sum(s[i := v]) + s[i] == Sum(s) + v
  {
    var u := s[i := v];
    assert s == s[..i] + [s[i]] + s[i + 1..];
    assert u == s[..i] + [v] + s[i + 1..];
    SumAppend(s[..i] + [s[i]], s[i + 1..]);
    SumAppend(s[..i], [s[i]]);
    SumAppend(s[..i] + [v], s[i + 1..]);
    SumAppend(s[..i], [v]);
  }

  /** No term exceeds the sum. */
  lemma SumElem(s: seq<nat>, i: nat)
    requires i < |s|
    ensures s[i] <= Sum(s)
  {
    SumUpdate(s, i, 0);
  }
}
