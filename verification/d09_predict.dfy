/** Day 9: extrapolating a history by repeated differences (src/d9.rs). */
module Predict {
  import opened Wrappers
  import opened Text

  predicate AllZero(s: seq<int>) {
    forall i :: 0 <= i < |s| ==> s[i] == 0
  }

  /** The differences between neighbours, as the loop of `predict` pushes
      them. */
  function Diffs(s: seq<int>): (d: seq<int>)
    ensures |d| == if |s| == 0 then 0 else |s| - 1
    ensures forall i {:trigger d[i]} :: 0 <= i < |d| ==> d[i] == s[i + 1] - s[i]
  {
    if |s| == 0 then [] else seq(|s| - 1, i requires 0 <= i < |s| - 1 => s[i + 1] - s[i])
  }

  /** `predict`: 0 for an all-zero (or empty) history; otherwise the next
      value (forward) or the previous one (backward) from the prediction
      for the differences. Each call shortens the history by one. */
  function Predict(s: seq<int>, forward: bool): (r: int)
    ensures |s| > 0 && (forall i :: 0 <= i < |s| ==> s[i] == s[0]) ==> r == s[0]
    ensures |s| >= 2 && (forall i :: 0 <= i < |s| - 1 ==> s[i + 1] - s[i] == s[1] - s[0]) ==>
              r == if forward then s[|s| - 1] + (s[1] - s[0]) else s[0] - (s[1] - s[0])
    decreases |s|
  {
    if AllZero(s) then 0
    else
      var p := Predict(Diffs(s), forward);
      if forward then s[|s| - 1] + p else s[0] - p
  }

  // ------------------------------------------------- what a prediction is

  /** Appending the forward prediction extends the differences by their own
      forward prediction: the next value is the one that keeps every
      difference level consistent. */
  lemma ForwardExtends(s: seq<int>)
    requires !AllZero(s)
    ensures Diffs(s + [Predict(s, true)]) == Diffs(s) + [Predict(Diffs(s), true)]
  {
    var e := s + [Predict(s, true)];
    var d := Diffs(s) + [Predict(Diffs(s), true)];
    assert Predict(s, true) == s[|s| - 1] + Predict(Diffs(s), true);
    assert |Diffs(e)| == |d|;
    forall i | 0 <= i < |d| ensures Diffs(e)[i] == d[i] {
      if i < |d| - 1 {
        assert e[i + 1] == s[i + 1] && e[i] == s[i];
      } else {
        assert e[i] == s[|s| - 1];
      }
    }
  }

  /** Prepending the backward prediction extends the differences at the
      front by their own backward prediction. */
  lemma BackwardExtends(s: seq<int>)
    requires !AllZero(s)
    ensures Diffs([Predict(s, false)] + s) == [Predict(Diffs(s), false)] + Diffs(s)
  {
    var e := [Predict(s, false)] + s;
    var d := [Predict(Diffs(s), false)] + Diffs(s);
    assert Predict(s, false) == s[0] - Predict(Diffs(s), false);
    assert |Diffs(e)| == |d|;
    forall i | 0 <= i < |d| ensures Diffs(e)[i] == d[i] {
      if i > 0 {
        assert e[i + 1] == s[i] && e[i] == s[i - 1];
      } else {
        assert e[1] == s[0];
      }
    }
  }

  // ------------------------------------------------- backward is reversed

  function Reverse(s: seq<int>): (r: seq<int>)
    ensures |r| == |s|
    ensures forall i {:trigger r[i]} :: 0 <= i < |s| ==> r[i] == s[|s| - 1 - i]
  {
    seq(|s|, i requires 0 <= i < |s| => s[|s| - 1 - i])
  }

  function Negate(s: seq<int>): (r: seq<int>)
    ensures |r| == |s|
    ensures forall i {:trigger r[i]} :: 0 <= i < |s| ==> r[i] == -s[i]
  {
    seq(|s|, i requires 0 <= i < |s| => -s[i])
  }

  /** Prediction is linear: negating the history negates the prediction. */
  lemma {:induction false} PredictNegate(s: seq<int>, forward: bool)
    ensures Predict(Negate(s), forward) == -Predict(s, forward)
    decreases |s|
  {
    var n := Negate(s);
    if !AllZero(s) {
      assert !AllZero(n) by {
        var i :| 0 <= i < |s| && s[i] != 0;
        assert n[i] != 0;
      }
      DiffsNegate(s);
      PredictNegate(Diffs(s), forward);
    } else {
      assert AllZero(n);
    }
  }

  lemma DiffsNegate(s: seq<int>)
    ensures Diffs(Negate(s)) == Negate(Diffs(s))
  {
    var a := Diffs(Negate(s));
    var b := Negate(Diffs(s));
    forall i | 0 <= i < |a| ensures a[i] == b[i] {
      assert a[i] == Negate(s)[i + 1] - Negate(s)[i];
    }
  }

  lemma DiffsReverse(s: seq<int>)
    ensures Diffs(Reverse(s)) == Negate(Reverse(Diffs(s)))
  {
    var a := Diffs(Reverse(s));
    var b := Negate(Reverse(Diffs(s)));
    assert |a| == |b|;
    forall i | 0 <= i < |a| ensures a[i] == b[i] {
      DiffsReverseAt(s, i);
    }
  }

  lemma DiffsReverseAt(s: seq<int>, i: nat)
    requires i < |s| - 1
    ensures Diffs(Reverse(s))[i] == Negate(Reverse(Diffs(s)))[i]
  {
    var r := Reverse(s);
    var d := Diffs(s);
    var j := |s| - 2 - i;
    calc {
      Diffs(r)[i];
      r[i + 1] - r[i];
      s[j] - s[j + 1];
      -d[j];
      -Reverse(d)[i];
      Negate(Reverse(d))[i];
    }
  }

  /** Predicting backwards is predicting forwards on the reversed history. */
  lemma {:induction false} BackwardIsReversedForward(s: seq<int>)
    ensures Predict(s, false) == Predict(Reverse(s), true)
    decreases |s|
  {
    var r := Reverse(s);
    if !AllZero(s) {
      assert !AllZero(r) by {
        var i :| 0 <= i < |s| && s[i] != 0;
        assert r[|s| - 1 - i] != 0;
      }
      var ds := Diffs(s);
      DiffsReverse(s);
      BackwardIsReversedForward(ds);
      PredictNegate(Reverse(ds), true);
    } else {
      assert AllZero(r);
    }
  }

  // ------------------------------------------------------------------- run

  /** The numbers of one line, split at single spaces. */
  function ParseHistory(line: string): Option<seq<int>> {
    ParseInts(Split(line, ' '))
  }

  function ParseHistories(lines: seq<string>): (r: Option<seq<seq<int>>>)
    ensures r.Some? <==> forall i :: 0 <= i < |lines| ==> ParseHistory(lines[i]).Some?
    ensures r.Some? ==> |r.value| == |lines|
    ensures r.Some? ==> forall i :: 0 <= i < |lines| ==> r.value[i] == ParseHistory(lines[i]).value
  {
    MapAll(lines, ParseHistory)
  }

  /** The running total of the loop in `run`. */
  function Total(hs: seq<seq<int>>, forward: bool): int {
    if |hs| == 0 then 0 else Total(hs[..|hs| - 1], forward) + Predict(hs[|hs| - 1], forward)
  }

  /** `run`: the sum over the lines of the forward (part 1) or backward
      (part 2) prediction; a piece that is not a number fails. */
  function Run(lines: seq<string>, part1: bool): (r: Result<int>)
    ensures r.Ok? <==> forall i :: 0 <= i < |lines| ==> ParseHistory(lines[i]).Some?
    ensures r.Ok? ==> r.value == Total(ParseHistories(lines).value, part1)
  {
    var hs :- OkOr(ParseHistories(lines), "not a number");
    Ok(Total(hs, part1))
  }

  /** The total over consecutive blocks of histories is the sum of the
      blocks' totals. */
  lemma {:induction false} TotalAppend(a: seq<seq<int>>, b: seq<seq<int>>, forward: bool)
    ensures Total(a + b, forward) == Total(a, forward) + Total(b, forward)
    decreases |b|
  {
    if |b| == 0 {
      assert a + b == a;
    } else {
      var ab := a + b;
      assert ab[..|ab| - 1] == a + b[..|b| - 1];
      TotalAppend(a, b[..|b| - 1], forward);
    }
  }

  /** Part 2 on the lines is part 1 on every history reversed. */
  lemma {:induction false} TotalBackward(hs: seq<seq<int>>)
    ensures Total(hs, false) == Total(ReverseAll(hs), true)
    decreases |hs|
  {
    if |hs| > 0 {
      var n := |hs|;
      assert ReverseAll(hs)[..n - 1] == ReverseAll(hs[..n - 1]);
      TotalBackward(hs[..n - 1]);
      BackwardIsReversedForward(hs[n - 1]);
    }
  }

  function ReverseAll(hs: seq<seq<int>>): (r: seq<seq<int>>)
    ensures |r| == |hs|
    ensures forall i :: 0 <= i < |hs| ==> r[i] == Reverse(hs[i])
  {
    if |hs| == 0 then [] else [Reverse(hs[0])] + ReverseAll(hs[1..])
  }
}
