/** Day 1: calibration values (src/d1.rs, and the identical copy in
    src/bin/d1/main.rs).

    Digit mode takes the first and the last decimal digit of a line. Word
    mode also accepts the spelled-out words "one" … "nine": it scans the 19
    candidates in a fixed order, keeping the one found earliest (strictly
    smaller `find` index) for the tens digit and the one found latest
    (strictly larger `rfind` index) for the units digit. */
module Calibration {
  import opened Wrappers
  import opened Text
  import opened Collections

  /** The candidates in scan order: the words for 1..9, then the digits 0..9. */
  const Candidates: seq<(nat, string)> := [
    (1, "one"), (2, "two"), (3, "three"), (4, "four"), (5, "five"),
    (6, "six"), (7, "seven"), (8, "eight"), (9, "nine"),
    (0, "0"), (1, "1"), (2, "2"), (3, "3"), (4, "4"),
    (5, "5"), (6, "6"), (7, "7"), (8, "8"), (9, "9")
  ]

  lemma CandidatesShape()
    ensures |Candidates| == 19
    ensures forall c :: 0 <= c < 19 ==> Candidates[c].0 <= 9 && |Candidates[c].1| >= 1
  {
  }

  // ------------------------------------------------------------ digit mode

  /** Index of the first decimal digit of `s`. */
  function FirstDigit(s: string): (r: Option<nat>)
    ensures r.None? <==> forall i :: 0 <= i < |s| ==> !IsDigit(s[i])
    ensures r.Some? ==> (r.value < |s| && IsDigit(s[r.value])
                         && forall i :: 0 <= i < r.value ==> !IsDigit(s[i]))
  {
    if |s| == 0 then None
    else if IsDigit(s[0]) then Some(0)
    else match FirstDigit(s[1..])
      case None => None
      case Some(i) => Some(i + 1)
  }

  /** Index of the last decimal digit of `s`. */
  function LastDigit(s: string): (r: Option<nat>)
    ensures r.None? <==> forall i :: 0 <= i < |s| ==> !IsDigit(s[i])
    ensures r.Some? ==> (r.value < |s| && IsDigit(s[r.value])
                         && forall i :: r.value < i < |s| ==> !IsDigit(s[i]))
  {
    if |s| == 0 then None
    else if IsDigit(s[|s| - 1]) then Some(|s| - 1)
    else LastDigit(s[..|s| - 1])
  }

  /** Digit mode: ten times the first digit plus the last digit. A line
      without digits is an error (the source unwraps `None`). */
  function DigitValue(s: string): (r: Option<nat>)
    ensures r.None? <==> forall i :: 0 <= i < |s| ==> !IsDigit(s[i])
    ensures r.Some? ==> r.value <= 99
  {
    match FirstDigit(s)
    case None => None
    case Some(i) =>
      var j := LastDigit(s).value;
      Some(10 * DigitVal(s[i]) + DigitVal(s[j]))
  }

  /** The value is built from the first digit `i` and the last digit `j`. */
  lemma DigitValueSpec(s: string, i: nat, j: nat)
    requires i <= j < |s| && IsDigit(s[i]) && IsDigit(s[j])
    requires forall k :: 0 <= k < i ==> !IsDigit(s[k])
    requires forall k :: j < k < |s| ==> !IsDigit(s[k])
    ensures DigitValue(s) == Some(10 * DigitVal(s[i]) + DigitVal(s[j]))
  {
    assert FirstDigit(s) == Some(i);
    assert LastDigit(s) == Some(j);
  }

  /** A line holding a single digit d has value 11·d. */
  lemma SingleDigit(s: string, i: nat)
    requires i < |s| && IsDigit(s[i])
    requires forall k :: 0 <= k < |s| && k != i ==> !IsDigit(s[k])
    ensures DigitValue(s) == Some(11 * DigitVal(s[i]))
  {
    assert FirstDigit(s) == Some(i);
    assert LastDigit(s) == Some(i);
  }

  // ------------------------------------------------------------- word mode

  /** The first candidate, in scan order among the first `k`, occurring at index `i`. */
  function LeastAt(s: string, i: int, k: nat): (r: Option<nat>)
    requires k <= 19
    ensures r.None? <==> forall c :: 0 <= c < k ==> !OccursAt(s, Candidates[c].1, i)
    ensures r.Some? ==> (r.value < k && OccursAt(s, Candidates[r.value].1, i)
                         && forall c :: 0 <= c < r.value ==> !OccursAt(s, Candidates[c].1, i))
  {
    if k == 0 then None
    else match LeastAt(s, i, k - 1)
      case Some(c) => Some(c)
      case None => if OccursAt(s, Candidates[k - 1].1, i) then Some(k - 1) else None
  }

  /** Some candidate occurs at index `i`. */
  predicate MatchAt(s: string, i: int) {
    LeastAt(s, i, 19).Some?
  }

  /** The state (lo_idx, lo) after the first `k` iterations of the scan. */
  function ScanLo(s: string, k: nat): (nat, nat)
    requires k <= 19
  {
    if k == 0 then (|s|, 0)
    else
      var (idx, lo) := ScanLo(s, k - 1);
      match Find(s, Candidates[k - 1].1)
      case Some(j) => if j < idx then (j, Candidates[k - 1].0) else (idx, lo)
      case None => (idx, lo)
  }

  /** The state (hi_idx, hi) after the first `k` iterations of the scan. */
  function ScanHi(s: string, k: nat): (int, nat)
    requires k <= 19
  {
    if k == 0 then (-1, 0)
    else
      var (idx, hi) := ScanHi(s, k - 1);
      match RFind(s, Candidates[k - 1].1)
      case Some(j) => if j > idx then (j, Candidates[k - 1].0) else (idx, hi)
      case None => (idx, hi)
  }

  /** None of the first `k` candidates occurs before index `idx`. */
  ghost predicate NoneBefore(s: string, k: nat, idx: int)
    requires k <= 19
  {
    forall c, j :: 0 <= c < k && 0 <= j < idx ==> !OccursAt(s, Candidates[c].1, j)
  }

  /** None of the first `k` candidates occurs after index `idx`. */
  ghost predicate NoneAfter(s: string, k: nat, idx: int)
    requires k <= 19
  {
    forall c, j :: 0 <= c < k && idx < j ==> !OccursAt(s, Candidates[c].1, j)
  }

  lemma NoneBeforeStep(s: string, k: nat, idx: int, idx': int, w: string)
    requires 0 < k <= 19 && NoneBefore(s, k - 1, idx) && idx' <= idx
    requires w == Candidates[k - 1].1 && forall j :: 0 <= j < idx' ==> !OccursAt(s, w, j)
    ensures NoneBefore(s, k, idx')
  {
  }

  lemma NoneAfterStep(s: string, k: nat, idx: int, idx': int, w: string)
    requires 0 < k <= 19 && NoneAfter(s, k - 1, idx) && idx' >= idx
    requires w == Candidates[k - 1].1 && forall j :: idx' < j ==> !OccursAt(s, w, j)
    ensures NoneAfter(s, k, idx')
  {
  }

  /** Loop invariant of the tens scan: lo_idx is the earliest index at which
      one of the first k candidates occurs (or |s|), and lo belongs to the
      first of them, in scan order, occurring there. */
  lemma {:induction false} ScanLoSpec(s: string, k: nat)
    requires k <= 19
    ensures ScanLo(s, k).0 <= |s|
    ensures NoneBefore(s, k, ScanLo(s, k).0)
    ensures ScanLo(s, k).0 < |s| ==> (LeastAt(s, ScanLo(s, k).0, k).Some?
                                      && ScanLo(s, k).1 == Candidates[LeastAt(s, ScanLo(s, k).0, k).value].0)
    ensures ScanLo(s, k).0 == |s| ==> ScanLo(s, k).1 == 0
  {
    CandidatesShape();
    if k > 0 {
      ScanLoSpec(s, k - 1);
      var (idx, lo) := ScanLo(s, k - 1);
      var w := Candidates[k - 1].1;
      match Find(s, w)
      case Some(j) =>
        if j < idx {
          assert LeastAt(s, j, k - 1).None?;
          NoneBeforeStep(s, k, idx, j, w);
        } else {
          NoneBeforeStep(s, k, idx, idx, w);
        }
      case None =>
        NoneBeforeStep(s, k, idx, idx, w);
    }
  }

  /** Loop invariant of the units scan, mirror image of `ScanLoSpec`. */
  lemma {:induction false} ScanHiSpec(s: string, k: nat)
    requires k <= 19
    ensures -1 <= ScanHi(s, k).0 < |s|
    ensures NoneAfter(s, k, ScanHi(s, k).0)
    ensures ScanHi(s, k).0 >= 0 ==> (LeastAt(s, ScanHi(s, k).0, k).Some?
                                     && ScanHi(s, k).1 == Candidates[LeastAt(s, ScanHi(s, k).0, k).value].0)
    ensures ScanHi(s, k).0 == -1 ==> ScanHi(s, k).1 == 0
  {
    CandidatesShape();
    if k > 0 {
      ScanHiSpec(s, k - 1);
      var (idx, hi) := ScanHi(s, k - 1);
      var w := Candidates[k - 1].1;
      match RFind(s, w)
      case Some(j) =>
        if j > idx {
          assert LeastAt(s, j, k - 1).None?;
          NoneAfterStep(s, k, idx, j, w);
        } else {
          NoneAfterStep(s, k, idx, idx, w);
        }
      case None =>
        NoneAfterStep(s, k, idx, idx, w);
    }
  }

  /** Word mode: `10 · lo + hi` after scanning all candidates. */
  function WordValue(s: string): (r: nat)
    ensures r <= 99
  {
    CandidatesShape();
    ScanLoSpec(s, 19);
    ScanHiSpec(s, 19);
    10 * ScanLo(s, 19).1 + ScanHi(s, 19).1
  }

  /** The tens digit comes from the earliest index at which any candidate
      occurs; the units digit from the latest such index; at either index
      the first candidate in scan order wins. */
  lemma WordValueSpec(s: string, first: nat, last: nat)
    requires first < |s| && MatchAt(s, first) && forall j :: 0 <= j < first ==> !MatchAt(s, j)
    requires last < |s| && MatchAt(s, last) && forall j :: last < j < |s| ==> !MatchAt(s, j)
    ensures WordValue(s) == 10 * Candidates[LeastAt(s, first, 19).value].0
                               + Candidates[LeastAt(s, last, 19).value].0
  {
    ScanLoSpec(s, 19);
    ScanHiSpec(s, 19);
    var c := LeastAt(s, first, 19).value;
    var d := LeastAt(s, last, 19).value;
    assert ScanLo(s, 19).0 == first by {
      assert OccursAt(s, Candidates[c].1, first);
      if ScanLo(s, 19).0 < first {
        assert MatchAt(s, ScanLo(s, 19).0);
      }
    }
    assert ScanHi(s, 19).0 == last by {
      assert OccursAt(s, Candidates[d].1, last);
      if ScanHi(s, 19).0 > last {
        assert MatchAt(s, ScanHi(s, 19).0);
      }
    }
  }

  /** Word mode gives 0 when no candidate occurs anywhere. */
  lemma WordValueNoMatch(s: string)
    requires forall j :: 0 <= j < |s| ==> !MatchAt(s, j)
    ensures WordValue(s) == 0
  {
    ScanLoSpec(s, 19);
    ScanHiSpec(s, 19);
    if ScanLo(s, 19).0 < |s| {
      assert MatchAt(s, ScanLo(s, 19).0);
    }
  }

  /** `extract_value`: word mode cannot fail; digit mode fails on a line without digits. */
  function ExtractValue(s: string, allowWords: bool): (r: Option<nat>)
    ensures allowWords ==> r == Some(WordValue(s))
    ensures !allowWords ==> r == DigitValue(s)
    ensures r.Some? ==> r.value <= 99
  {
    if allowWords then Some(WordValue(s)) else DigitValue(s)
  }

  /** The value of every line, failing if any line fails. */
  function Values(lines: seq<string>, allowWords: bool): Option<seq<nat>> {
    MapAll(lines, line => ExtractValue(line, allowWords))
  }

  /** `run`: the sum of the per-line values. It fails exactly when some line
      fails, so in word mode it never fails. */
  function Run(lines: seq<string>, allowWords: bool): (r: Option<nat>)
    ensures r.Some? <==> forall i :: 0 <= i < |lines| ==> ExtractValue(lines[i], allowWords).Some?
    ensures allowWords ==> r.Some?
    ensures r.Some? ==> r.value <= 99 * |lines|
  {
    var vs :- Values(lines, allowWords);
    SumAtMost(vs, 99);
    Some(Sum(vs))
  }

  /** The run over a concatenation of line lists is the sum of the runs. */
  lemma RunAppend(a: seq<string>, b: seq<string>, allowWords: bool)
    requires Run(a, allowWords).Some? && Run(b, allowWords).Some?
    ensures Run(a + b, allowWords) == Some(Run(a, allowWords).value + Run(b, allowWords).value)
  {
    var f := line => ExtractValue(line, allowWords);
    assert Values(a, allowWords) == MapAll(a, f) && Values(b, allowWords) == MapAll(b, f);
    MapAllAppend(a, b, f);
    assert Values(a + b, allowWords) == MapAll(a + b, f);
    SumAppend(Values(a, allowWords).value, Values(b, allowWords).value);
  }

  /** Overlapping words: "twone" reads as 2 then 1, giving 21. */
  lemma TwoneExample(s: string)
    requires |s| == 5 && s[..3] == "two" && s[2..] == "one"
    ensures WordValue(s) == 21
  {
    TwoneAt(s);
    TwoneTail(s);
    WordValueSpec(s, 0, 2);
    assert Candidates[1].0 == 2 && Candidates[0].0 == 1 by {
      CandidatesShape();
    }
  }

  lemma TwoneTail(s: string)
    requires |s| == 5 && s[2..] == "one"
    ensures forall j :: 2 < j < |s| ==> !MatchAt(s, j)
  {
    assert s[3] == s[2..][1] && s[4] == s[2..][2];
    NothingAfter(s, 3);
    NothingAfter(s, 4);
  }

  lemma TwoneAt(s: string)
    requires |s| == 5 && s[..3] == "two" && s[2..] == "one"
    ensures LeastAt(s, 0, 19) == Some(1) && LeastAt(s, 2, 19) == Some(0)
  {
    CandidateWords();
    assert OccursAt(s, "two", 0) by { assert s[0..3] == s[..3]; }
    assert OccursAt(s, "one", 2) by { assert s[2..5] == s[2..]; }
    assert s[0] == 't' by { assert s[..3][0] == s[0]; }
    assert forall b :: 0 <= b < 1 ==> !OccursAt(s, Candidates[b].1, 0) by {
      assert Candidates[0].1[0] == 'o';
    }
    LeastAtFirst(s, 0, 1, "two");
    LeastAtFirst(s, 2, 0, "one");
  }

  lemma CandidateWords()
    ensures Candidates[0].1 == "one" && Candidates[1].1 == "two"
  {
  }

  /** The candidate `c` occurring at `i` is the one chosen there when no
      candidate before it in scan order occurs at `i`. */
  lemma LeastAtFirst(s: string, i: int, c: nat, w: string)
    requires c < 19 && w == Candidates[c].1 && OccursAt(s, w, i)
    requires forall b :: 0 <= b < c ==> !OccursAt(s, Candidates[b].1, i)
    ensures LeastAt(s, i, 19) == Some(c)
  {
  }

  lemma NothingAfter(s: string, i: nat)
    requires |s| == 5 && 3 <= i < 5 && !IsDigit(s[i])
    ensures LeastAt(s, i, 19).None?
  {
    CandidatesShape();
    forall c | 0 <= c < 19 ensures !OccursAt(s, Candidates[c].1, i) {
      if c < 9 {
        assert |Candidates[c].1| >= 3;
      } else {
        assert IsDigit(Candidates[c].1[0]);
      }
    }
  }
}
