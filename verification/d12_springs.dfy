/** Day 12: counting the arrangements of damaged springs (src/d12.rs).

    A pattern over '#' (damaged), '.' (working) and '?' (unknown), and the
    lengths of the runs of damaged springs. `count_matches` counts the ways
    to replace every '?' so that the runs come out as listed. */
module Springs {
  import opened Wrappers
  import opened Text
  import opened Collections

  predicate Known(ch: char) {
    ch == '#' || ch == '.'
  }

  predicate ValidFrom(s: string, p: nat) {
    forall k :: p <= k < |s| ==> Known(s[k]) || s[k] == '?'
  }

  function Unknowns(s: string): nat {
    multiset(s)['?']
  }

  lemma FillOne(s: string, i: nat, ch: char)
    requires i < |s| && s[i] == '?' && ch != '?'
    ensures Unknowns(s[i := ch]) < Unknowns(s)
  {
    assert s == s[..i] + [s[i]] + s[i + 1..];
    assert s[i := ch] == s[..i] + [ch] + s[i + 1..];
  }

  // ------------------------------------------------------- the reference

  /** The run lengths a scan reports from an open run of length `run`:
      every maximal run of '#' in order (any other character ends a run). */
  function RunsFrom(t: string, run: nat): seq<nat>
    decreases |t|
  {
    if |t| == 0 then (if run > 0 then [run] else [])
    else if t[0] == '#' then RunsFrom(t[1..], run + 1)
    else (if run > 0 then [run] else []) + RunsFrom(t[1..], 0)
  }

  function Runs(t: string): seq<nat> {
    RunsFrom(t, 0)
  }

  /** The brute force: every way to complete `w` after the already fixed
      prefix `done`, one leaf per completion, counting the completions
      whose runs are exactly `c`. */
  function Arrangements(w: string, done: string, c: seq<nat>): nat
    decreases |w|
  {
    if |w| == 0 then Ind(Runs(done) == c)
    else if w[0] == '?' then
      Arrangements(w[1..], done + ['#'], c) + Arrangements(w[1..], done + ['.'], c)
    else Arrangements(w[1..], done + [w[0]], c)
  }

  // ---------------------------------------------- Matcher::count_matches

  /** `Matcher::count_matches(p_idx, c)`. The pattern is a value here: the
      source writes '#' or '.' into the '?' it branches on and restores the
      '?' before returning, which is exactly passing the updated pattern
      down. A character other than '#', '.', '?' that the scan reaches is an
      error, so a pattern of '#', '.' and '?' alone always gets a count;
      CountMatchesCorrect says which. The memo cache is left out. */
  function CountMatches(s: string, p: nat, c: seq<nat>): (r: Result<nat>)
    requires p <= |s|
    ensures ValidFrom(s, p) ==> r.Ok?
    decreases Unknowns(s), |c|, |s| - p + 1
  {
    Scan(s, p, p, 0, c)
  }

  /** The loop of `count_matches` at index `i`, with `count` damaged springs
      seen so far. */
  function Scan(s: string, p: nat, i: nat, count: nat, c: seq<nat>): (r: Result<nat>)
    requires p <= i <= |s|
    ensures ValidFrom(s, p) ==> r.Ok?
    decreases Unknowns(s), |c|, |s| - i
  {
    if i == |s| then
      Ok(if (|c| == 0 && count == 0) || (|c| == 1 && count == c[0]) then 1 else 0)
    else if s[i] == '?' then
      FillOne(s, i, '#');
      FillOne(s, i, '.');
      var damaged :- if |c| > 0 then CountMatches(s[i := '#'], p, c) else Ok(0);
      var working :- CountMatches(s[i := '.'], p, c);
      Ok(damaged + working)
    else if s[i] == '#' then Scan(s, p, i + 1, count + 1, c)
    else if s[i] == '.' then
      if count != 0 then
        if |c| == 0 || count != c[0] then Ok(0) else CountMatches(s, i, c[1..])
      else Scan(s, p, i + 1, count, c)
    else Err("unknown character")
  }

  // ---------------------------------------------------------- correctness

  /** Every group is at least 1, as in every puzzle input. */
  predicate Positive(c: seq<nat>) {
    forall k :: 0 <= k < |c| ==> c[k] > 0
  }

  /** `t` is some '.'s followed by `count` '#'s: what the scan has passed
      over without returning. */
  predicate DotsThenHashes(t: string, count: nat) {
    count <= |t|
    && (forall k :: 0 <= k < |t| - count ==> t[k] == '.')
    && (forall k :: |t| - count <= k < |t| ==> t[k] == '#')
  }

  /** `count_matches` counts exactly the completions of the pattern from
      `p` on whose runs of damaged springs are `c`. */
  lemma CountMatchesCorrect(s: string, p: nat, c: seq<nat>)
    requires p <= |s| && ValidFrom(s, p) && Positive(c)
    ensures CountMatches(s, p, c) == Ok(Arrangements(s[p..], [], c))
    decreases Unknowns(s), |c|, |s| - p + 1
  {
    ScanCorrect(s, p, p, 0, c);
  }

  lemma {:induction false} ScanCorrect(s: string, p: nat, i: nat, count: nat, c: seq<nat>)
    requires p <= i <= |s| && ValidFrom(s, p) && Positive(c)
    requires DotsThenHashes(s[p..i], count)
    ensures Scan(s, p, i, count, c) == Ok(Arrangements(s[p..], [], c))
    decreases Unknowns(s), |c|, |s| - i, 2
  {
    var done := s[p..i];
    if i < |s| && s[i] == '#' {
      KnownStep(s, p, i, count, '#');
      ScanCorrect(s, p, i + 1, count + 1, c);
    } else if i < |s| && s[i] == '.' && count == 0 {
      KnownStep(s, p, i, count, '.');
      ScanCorrect(s, p, i + 1, count, c);
    } else {
      MoveKnown(s, p, i, c);
      if i == |s| {
        assert s[i..] == [];
        assert Arrangements(s[i..], done, c) == Ind(Runs(done) == c);
        EndCase(done, count, c);
      } else if s[i] == '?' {
        QuestionCase(s, p, i, count, c);
      } else {
        DotCase(s, p, i, count, c);
      }
    }
  }

  /** A known spring extends what the scan has passed over: a '#' lengthens
      the open run, a '.' with no open run adds to the leading dots. */
  lemma KnownStep(s: string, p: nat, i: nat, count: nat, ch: char)
    requires p <= i < |s| && s[i] == ch && DotsThenHashes(s[p..i], count)
    requires ch == '#' || (ch == '.' && count == 0)
    ensures DotsThenHashes(s[p..i + 1], if ch == '#' then count + 1 else count)
  {
    assert s[p..i + 1] == s[p..i] + [ch];
  }

  /** At the end of the pattern the single open run must be the one group
      left, or no run and no group. */
  lemma EndCase(done: string, count: nat, c: seq<nat>)
    requires DotsThenHashes(done, count) && Positive(c)
    ensures Ind(Runs(done) == c) == if (|c| == 0 && count == 0) || (|c| == 1 && count == c[0]) then 1 else 0
  {
    RunsPrefix(done, count, []);
    assert done + [] == done;
    assert RunsFrom([], count) == if count > 0 then [count] else [];
    if count > 0 && |c| == 1 && count == c[0] {
      assert c == [count];
    }
  }

  lemma {:induction false} QuestionCase(s: string, p: nat, i: nat, count: nat, c: seq<nat>)
    requires p <= i < |s| && ValidFrom(s, p) && s[i] == '?' && Positive(c)
    requires DotsThenHashes(s[p..i], count)
    ensures Scan(s, p, i, count, c) == Ok(Arrangements(s[i..], s[p..i], c))
    decreases Unknowns(s), |c|, |s| - i, 1
  {
    var done := s[p..i];
    assert s[i..][1..] == s[i + 1..];
    Branch(s, p, i, c, '.');
    if |c| > 0 {
      Branch(s, p, i, c, '#');
    } else {
      NoRunsAfterHash(s[i + 1..], done, count);
    }
  }

  /** The '?' at `i` set to `ch`: the recursive call counts the
      completions of the rest after the prefix ending in `ch`. */
  lemma {:induction false} Branch(s: string, p: nat, i: nat, c: seq<nat>, ch: char)
    requires p <= i < |s| && ValidFrom(s, p) && s[i] == '?' && Known(ch) && Positive(c)
    requires forall k :: p <= k < i ==> Known(s[k])
    ensures CountMatches(s[i := ch], p, c) == Ok(Arrangements(s[i + 1..], s[p..i] + [ch], c))
    decreases Unknowns(s), |c|, |s| - i, 0
  {
    var s' := s[i := ch];
    FillOne(s, i, ch);
    assert s'[p..i] == s[p..i];
    assert s'[i + 1..] == s[i + 1..];
    assert s'[p..i + 1] == s[p..i] + [ch];
    CountMatchesCorrect(s', p, c);
    MoveKnown(s', p, i + 1, c);
  }

  lemma {:induction false} DotCase(s: string, p: nat, i: nat, count: nat, c: seq<nat>)
    requires p <= i < |s| && ValidFrom(s, p) && s[i] == '.' && count != 0 && Positive(c)
    requires DotsThenHashes(s[p..i], count)
    ensures Scan(s, p, i, count, c) == Ok(Arrangements(s[i..], s[p..i], c))
    decreases Unknowns(s), |c|, |s| - i, 1
  {
    var done := s[p..i];
    var w := s[i + 1..];
    assert s[i..][1..] == w;
    assert Arrangements(s[i..], done, c) == Arrangements(w, done + ['.'], c);
    forall t ensures Runs(done + ['.'] + t) == [count] + Runs(t) {
      RunsPrefix(done, count, ['.'] + t);
      assert done + ['.'] + t == done + (['.'] + t);
    }
    if |c| == 0 || count != c[0] {
      ArrangementsNone(w, done + ['.'], c);
    } else {
      forall t ensures (Runs(done + ['.'] + t) == c) == (Runs([] + t) == c[1..]) {
        assert [] + t == t;
        assert c == [count] + c[1..];
      }
      CountMatchesCorrect(s, i, c[1..]);
      ArrangementsSame(w, done + ['.'], c, [], c[1..]);
      LeadingDot(s[i..], c[1..]);
    }
  }

  /** A leading '.' changes no run. */
  lemma LeadingDot(w: string, c: seq<nat>)
    requires |w| > 0 && w[0] == '.'
    ensures Arrangements(w, [], c) == Arrangements(w[1..], [], c)
  {
    assert [] + [w[0]] == ['.'];
    assert Arrangements(w, [], c) == Arrangements(w[1..], ['.'], c);
    forall t ensures (Runs(['.'] + t) == c) == (Runs([] + t) == c) {
      assert (['.'] + t)[1..] == t;
      assert [] + t == t;
    }
    ArrangementsSame(w[1..], ['.'], c, [], c);
  }

  /** Known characters of the pattern move into the fixed prefix. */
  lemma {:induction false} MoveKnown(s: string, p: nat, i: nat, c: seq<nat>)
    requires p <= i <= |s|
    requires forall k :: p <= k < i ==> Known(s[k])
    ensures Arrangements(s[p..], [], c) == Arrangements(s[i..], s[p..i], c)
    decreases i - p
  {
    if i > p {
      MoveKnown(s, p, i - 1, c);
      assert s[i - 1..][1..] == s[i..];
      assert s[p..i - 1] + [s[i - 1]] == s[p..i];
    } else {
      assert s[p..i] == [];
    }
  }

  /** The count depends on the prefix only through the runs it forces. */
  lemma {:induction false} ArrangementsSame(w: string, d1: string, c1: seq<nat>, d2: string, c2: seq<nat>)
    requires forall t :: (Runs(d1 + t) == c1) == (Runs(d2 + t) == c2)
    ensures Arrangements(w, d1, c1) == Arrangements(w, d2, c2)
    decreases |w|
  {
    if |w| == 0 {
      assert d1 + [] == d1 && d2 + [] == d2;
    } else {
      forall x: char | true ensures forall t :: (Runs(d1 + [x] + t) == c1) == (Runs(d2 + [x] + t) == c2) {
        forall t ensures (Runs(d1 + [x] + t) == c1) == (Runs(d2 + [x] + t) == c2) {
          assert d1 + [x] + t == d1 + ([x] + t);
          assert d2 + [x] + t == d2 + ([x] + t);
        }
      }
      if w[0] == '?' {
        ArrangementsSame(w[1..], d1 + ['#'], c1, d2 + ['#'], c2);
        ArrangementsSame(w[1..], d1 + ['.'], c1, d2 + ['.'], c2);
      } else {
        ArrangementsSame(w[1..], d1 + [w[0]], c1, d2 + [w[0]], c2);
      }
    }
  }

  /** No completion matches when no string after the prefix can. */
  lemma {:induction false} ArrangementsNone(w: string, d: string, c: seq<nat>)
    requires forall t :: Runs(d + t) != c
    ensures Arrangements(w, d, c) == 0
    decreases |w|
  {
    if |w| == 0 {
      assert d + [] == d;
    } else {
      forall x: char | true ensures forall t :: Runs(d + [x] + t) != c {
        forall t ensures Runs(d + [x] + t) != c {
          assert d + [x] + t == d + ([x] + t);
        }
      }
      if w[0] == '?' {
        ArrangementsNone(w[1..], d + ['#'], c);
        ArrangementsNone(w[1..], d + ['.'], c);
      } else {
        ArrangementsNone(w[1..], d + [w[0]], c);
      }
    }
  }

  /** With no runs left, a '?' set to '#' matches nothing: the run it
      opens is reported. */
  lemma NoRunsAfterHash(w: string, done: string, count: nat)
    requires DotsThenHashes(done, count)
    ensures Arrangements(w, done + ['#'], []) == 0
  {
    forall t ensures Runs(done + ['#'] + t) != [] {
      RunsPrefix(done, count, ['#'] + t);
      assert done + ['#'] + t == done + (['#'] + t);
      RunsOpen(t, count + 1);
    }
    ArrangementsNone(w, done + ['#'], []);
  }

  lemma {:induction false} RunsOpen(t: string, run: nat)
    requires run > 0
    ensures RunsFrom(t, run) != []
    decreases |t|
  {
    if |t| > 0 && t[0] == '#' {
      RunsOpen(t[1..], run + 1);
    }
  }

  /** What the scan passed over leaves a run of `count` open. */
  lemma {:induction false} RunsPrefix(done: string, count: nat, t: string)
    requires DotsThenHashes(done, count)
    ensures Runs(done + t) == RunsFrom(t, count)
    ensures count > 0 && |t| > 0 && t[0] == '.' ==> Runs(done + t) == [count] + Runs(t[1..])
    decreases |done|
  {
    if |done| > count {
      assert done[0] == '.';
      assert (done + t)[1..] == done[1..] + t;
      RunsPrefix(done[1..], count, t);
    } else {
      HashesThen(done, 0, t);
    }
  }

  lemma {:induction false} HashesThen(h: string, run: nat, t: string)
    requires forall k :: 0 <= k < |h| ==> h[k] == '#'
    ensures RunsFrom(h + t, run) == RunsFrom(t, run + |h|)
    decreases |h|
  {
    if |h| > 0 {
      assert (h + t)[1..] == h[1..] + t;
      HashesThen(h[1..], run + 1, t);
    } else {
      assert h + t == t;
    }
  }

  // ------------------------------------------------------------ examples

  /** A single '?' before a '#' must be '#' for a run of two. */
  lemma CountExamples()
    ensures CountMatches("?#", 0, [2]) == Ok(1)
  {
    CountMatchesCorrect("?#", 0, [2]);
    assert "?#"[0..] == "?#";
    assert Arrangements("?#", [], [2]) == Arrangements("#", "#", [2]) + Arrangements("#", ".", [2]);
    assert Arrangements("#", "#", [2]) == Arrangements("", "##", [2]);
    assert Runs("##") == [2];
    assert Arrangements("#", ".", [2]) == Arrangements("", ".#", [2]);
    assert Runs(".#") == [1];
  }

  /** A run of one fits into "??" in two ways. */
  lemma TwoUnknowns()
    ensures CountMatches("??", 0, [1]) == Ok(2)
  {
    CountMatchesCorrect("??", 0, [1]);
    assert "??"[0..] == "??";
    TwoUnknownsBrute();
  }

  lemma TwoUnknownsBrute()
    ensures Arrangements("??", "", [1]) == 2
  {
    assert "??"[1..] == "?" && "?"[1..] == "";
    assert "" + ['#'] == "#" && "" + ['.'] == ".";
    assert "#" + ['#'] == "##" && "#" + ['.'] == "#." && "." + ['#'] == ".#" && "." + ['.'] == "..";
    assert Arrangements("??", "", [1]) == Arrangements("?", "#", [1]) + Arrangements("?", ".", [1]);
    assert Arrangements("?", "#", [1]) == Arrangements("", "##", [1]) + Arrangements("", "#.", [1]);
    assert Arrangements("?", ".", [1]) == Arrangements("", ".#", [1]) + Arrangements("", "..", [1]);
    TwoCharRuns();
  }

  lemma TwoCharRuns()
    ensures Runs("##") == [2] && Runs("#.") == [1] && Runs(".#") == [1] && Runs("..") == []
  {
  }

  /** A last group of 0 matches an empty open run: `count_matches` counts one
      arrangement where none has a run of length 0, which is why the
      correctness lemma asks for positive groups. */
  lemma ZeroGroup()
    ensures CountMatches(".", 0, [0]) == Ok(1)
    ensures Arrangements(".", [], [0]) == 0
  {
    assert "."[1..] == "" && [] + ['.'] == ".";
    assert Arrangements(".", [], [0]) == Arrangements("", ".", [0]);
    assert Runs(".") == [];
  }

  /** A character outside '?', '#', '.' that the scan reaches fails. */
  lemma UnknownCharacter()
    ensures CountMatches("x", 0, []).Err?
  {
  }

  // --------------------------------------------------------------- parsing

  /** `repeat_n(s, folds).join(sep)`. */
  function Unfold(s: string, folds: nat, sep: char): (r: string)
    ensures folds >= 1 ==> |r| == folds * |s| + folds - 1
  {
    if folds == 0 then []
    else if folds == 1 then s
    else s + [sep] + Unfold(s, folds - 1, sep)
  }

  /** The groups of `folds` copies: the copies' groups one after another. */
  function Repeat(c: seq<nat>, folds: nat): seq<nat> {
    if folds == 0 then [] else c + Repeat(c, folds - 1)
  }

  /** `parse_line`: the pattern before the first space and the groups
      after it, each repeated `folds` times (joined by '?' and ','), the
      groups read as decimal numbers; no space or a piece that is not a
      number is an error. */
  function ParseLine(line: string, folds: nat): (r: Result<(string, seq<nat>)>)
    ensures r.Ok? ==> ' ' in line
    ensures r.Ok? && folds >= 1 ==> r.value.0 == Unfold(SplitOnce(line, ' ').value.0, folds, '?')
  {
    var (s, c) :- OkOr(SplitOnce(line, ' '), "no space");
    var groups :- OkOr(ParseNats(Split(Unfold(c, folds, ','), ',')), "group is not a number");
    Ok((Unfold(s, folds, '?'), groups))
  }

  /** Splitting the unfolded groups gives the pieces of one copy, `folds`
      times over, so the parsed groups are `folds` copies of the groups. */
  lemma {:induction false} UnfoldGroups(c: string, folds: nat)
    requires folds >= 1
    ensures Split(Unfold(c, folds, ','), ',') == RepeatPieces(Split(c, ','), folds)
    decreases folds
  {
    if folds > 1 {
      UnfoldGroups(c, folds - 1);
      SplitAppend(c, Unfold(c, folds - 1, ','), ',');
    }
  }

  function RepeatPieces(ps: seq<string>, folds: nat): seq<string> {
    if folds == 0 then [] else ps + RepeatPieces(ps, folds - 1)
  }

  /** Parsing `folds` copies of the pieces parses one copy, `folds` times. */
  lemma {:induction false} ParseRepeated(ps: seq<string>, folds: nat)
    requires folds >= 1
    ensures ParseNats(RepeatPieces(ps, folds)).Some? <==> ParseNats(ps).Some?
    ensures ParseNats(ps).Some? ==> ParseNats(RepeatPieces(ps, folds)).value == Repeat(ParseNats(ps).value, folds)
    decreases folds
  {
    if folds == 1 {
      assert RepeatPieces(ps, 1) == ps + [];
      assert ps + [] == ps;
      if ParseNats(ps).Some? {
        assert Repeat(ParseNats(ps).value, 1) == ParseNats(ps).value + [];
      }
    } else {
      ParseRepeated(ps, folds - 1);
      ParseNatsAppend(ps, RepeatPieces(ps, folds - 1));
    }
  }

  lemma ParseNatsAppend(a: seq<string>, b: seq<string>)
    ensures ParseNats(a + b).Some? <==> ParseNats(a).Some? && ParseNats(b).Some?
    ensures ParseNats(a + b).Some? ==> ParseNats(a + b).value == ParseNats(a).value + ParseNats(b).value
  {
    var ab := a + b;
    if ParseNats(a).Some? && ParseNats(b).Some? {
      ParseNatsAppendOk(a, b);
    } else if ParseNats(a).None? {
      var i :| 0 <= i < |a| && ParseNat(a[i]).None?;
      assert ab[i] == a[i];
    } else {
      var i :| 0 <= i < |b| && ParseNat(b[i]).None?;
      assert ab[|a| + i] == b[i];
    }
  }

  lemma ParseNatsAppendOk(a: seq<string>, b: seq<string>)
    requires ParseNats(a).Some? && ParseNats(b).Some?
    ensures ParseNats(a + b) == Some(ParseNats(a).value + ParseNats(b).value)
  {
    ParseNatsAll(a);
    ParseNatsAll(b);
    ParseNatsAll(a + b);
    MapAllAppend(a, b, ParseNat);
  }

  /** `ParseNats` is `ParseNat` mapped over the pieces. */
  lemma ParseNatsAll(ws: seq<string>)
    ensures ParseNats(ws) == MapAll(ws, ParseNat)
  {
    if ParseNats(ws).Some? {
      assert ParseNats(ws).value == MapAll(ws, ParseNat).value;
    }
  }

  /** For at least one fold, `parse_line` succeeds exactly when the line has
      a space and every group of one copy is a number, and the groups are
      then `folds` copies of that copy's groups. */
  lemma ParseLineGroups(line: string, folds: nat)
    requires folds >= 1
    ensures ParseLine(line, folds).Ok? <==> SplitOnce(line, ' ').Some? && ParseNats(Split(SplitOnce(line, ' ').value.1, ',')).Some?
    ensures ParseLine(line, folds).Ok? ==>
      ParseLine(line, folds).value.1 == Repeat(ParseNats(Split(SplitOnce(line, ' ').value.1, ',')).value, folds)
  {
    if SplitOnce(line, ' ').Some? {
      var c := SplitOnce(line, ' ').value.1;
      UnfoldGroups(c, folds);
      ParseRepeated(Split(c, ','), folds);
    }
  }

  /** The total of `run` over every line. */
  function Run(lines: seq<string>, part1: bool): (r: Result<nat>)
    ensures r.Ok? ==> forall i :: 0 <= i < |lines| ==> ParseLine(lines[i], if part1 then 1 else 5).Ok?
  {
    if |lines| == 0 then Ok(0)
    else
      var (s, c) :- ParseLine(lines[0], if part1 then 1 else 5);
      var n :- CountMatches(s, 0, c);
      var rest :- Run(lines[1..], part1);
      assert forall i :: 1 <= i < |lines| ==> lines[1..][i - 1] == lines[i];
      Ok(n + rest)
  }
}
