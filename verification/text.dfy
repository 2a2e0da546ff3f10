/** String handling shared by the puzzle parsers: the subset of Rust's `str`
    API the solutions use (`split`, `split_once`, `find`, `rfind`, `trim`,
    `strip_prefix`, `strip_suffix`, `parse`), over ASCII text.

    Strings are `seq<char>`; whitespace is the ASCII part of Rust's
    `char::is_whitespace`: space and the controls tab through carriage
    return. */
module Text {
  import opened Wrappers

  predicate IsDigit(c: char) {
    '0' <= c <= '9'
  }

  function DigitVal(c: char): nat
    requires IsDigit(c)
  {
    (c as int) - ('0' as int)
  }

  function DigitChar(d: nat): (c: char)
    requires d < 10
    ensures IsDigit(c) && DigitVal(c) == d
  {
    ('0' as int + d) as char
  }

  predicate IsSpace(c: char) {
    c == ' ' || '\t' <= c <= '\r'
  }

  predicate AllDigits(s: string) {
    forall i :: 0 <= i < |s| ==> IsDigit(s[i])
  }

  // ---------------------------------------------------------------- search

  /** Index of the first occurrence of `c` in `s` (Rust's `find` on a char). */
  function IndexOf(s: string, c: char): (r: Option<nat>)
    ensures r.None? <==> c !in s
    ensures r.Some? ==> r.value < |s| && s[r.value] == c && c !in s[..r.value]
  {
    if |s| == 0 then None
    else if s[0] == c then Some(0)
    else match IndexOf(s[1..], c)
      case None => None
      case Some(i) =>
        assert s[1..][..i] == s[1..i + 1];
        assert s[..i + 1] == [s[0]] + s[1..][..i];
        Some(i + 1)
  }

  /** `w` occurs in `s` starting at index `i`. */
  predicate OccursAt(s: string, w: string, i: int) {
    0 <= i && i + |w| <= |s| && s[i..i + |w|] == w
  }

  function FindFrom(s: string, w: string, i: nat): (r: Option<nat>)
    requires i <= |s|
    ensures r.Some? ==> (i <= r.value && OccursAt(s, w, r.value)
                         && forall j :: i <= j < r.value ==> !OccursAt(s, w, j))
    ensures r.None? ==> forall j :: i <= j ==> !OccursAt(s, w, j)
    decreases |s| - i
  {
    if OccursAt(s, w, i) then Some(i)
    else if i + |w| >= |s| then None
    else FindFrom(s, w, i + 1)
  }

  /** Rust's `str::find`: the smallest index at which `w` occurs. */
  function Find(s: string, w: string): (r: Option<nat>)
    ensures r.Some? ==> OccursAt(s, w, r.value) && forall j :: 0 <= j < r.value ==> !OccursAt(s, w, j)
    ensures r.None? ==> forall j :: !OccursAt(s, w, j)
  {
    FindFrom(s, w, 0)
  }

  function RFindBelow(s: string, w: string, i: nat): (r: Option<nat>)
    ensures r.Some? ==> (r.value < i && OccursAt(s, w, r.value)
                         && forall j :: r.value < j < i ==> !OccursAt(s, w, j))
    ensures r.None? ==> forall j :: 0 <= j < i ==> !OccursAt(s, w, j)
  {
    if i == 0 then None
    else if OccursAt(s, w, i - 1) then Some(i - 1)
    else RFindBelow(s, w, i - 1)
  }

  /** Rust's `str::rfind`: the largest index at which `w` occurs. */
  function RFind(s: string, w: string): (r: Option<nat>)
    ensures r.Some? ==> OccursAt(s, w, r.value) && forall j :: r.value < j ==> !OccursAt(s, w, j)
    ensures r.None? ==> forall j :: !OccursAt(s, w, j)
  {
    RFindBelow(s, w, |s| + 1)
  }

  // --------------------------------------------------------------- affixes

  function StripPrefix(s: string, p: string): (r: Option<string>)
    ensures r.Some? <==> (|p| <= |s| && s[..|p|] == p)
    ensures r.Some? ==> s == p + r.value
  {
    if |p| <= |s| && s[..|p|] == p then
      assert s == s[..|p|] + s[|p|..];
      Some(s[|p|..])
    else None
  }

  function StripSuffix(s: string, p: string): (r: Option<string>)
    ensures r.Some? <==> (|p| <= |s| && s[|s| - |p|..] == p)
    ensures r.Some? ==> s == r.value + p
  {
    if |p| <= |s| && s[|s| - |p|..] == p then
      assert s == s[..|s| - |p|] + s[|s| - |p|..];
      Some(s[..|s| - |p|])
    else None
  }

  function TrimStart(s: string): (r: string)
    ensures |r| <= |s| && r == s[|s| - |r|..]
    ensures forall i :: 0 <= i < |s| - |r| ==> IsSpace(s[i])
    ensures r == [] || !IsSpace(r[0])
  {
    if |s| > 0 && IsSpace(s[0]) then TrimStart(s[1..]) else s
  }

  function TrimEnd(s: string): (r: string)
    ensures |r| <= |s| && r == s[..|r|]
    ensures forall i :: |r| <= i < |s| ==> IsSpace(s[i])
    ensures r == [] || !IsSpace(r[|r| - 1])
  {
    if |s| > 0 && IsSpace(s[|s| - 1]) then TrimEnd(s[..|s| - 1]) else s
  }

  /** `s[i..j]` is `s` with its leading and trailing whitespace cut off:
      only whitespace lies outside it, and it neither starts nor ends with
      whitespace. */
  predicate TrimmedAt(s: string, i: int, j: int) {
    && 0 <= i <= j <= |s|
    && (forall k :: 0 <= k < i ==> IsSpace(s[k]))
    && (forall k :: j <= k < |s| ==> IsSpace(s[k]))
    && (i == j || (!IsSpace(s[i]) && !IsSpace(s[j - 1])))
  }

  /** Rust's `str::trim` for ASCII whitespace. */
  function Trim(s: string): (r: string)
    ensures |r| <= |s|
    ensures r == [] || (!IsSpace(r[0]) && !IsSpace(r[|r| - 1]))
    ensures exists i, j :: TrimmedAt(s, i, j) && r == s[i..j]
  {
    var t := TrimStart(s);
    var r := TrimEnd(t);
    TrimFrame(s, t, r);
    r
  }

  /** Cutting the leading and then the trailing whitespace frames `s`. */
  lemma TrimFrame(s: string, t: string, r: string)
    requires |t| <= |s| && t == s[|s| - |t|..] && (t == [] || !IsSpace(t[0]))
    requires forall i :: 0 <= i < |s| - |t| ==> IsSpace(s[i])
    requires |r| <= |t| && r == t[..|r|] && (r == [] || !IsSpace(r[|r| - 1]))
    requires forall i :: |r| <= i < |t| ==> IsSpace(t[i])
    ensures TrimmedAt(s, |s| - |t|, |s| - |t| + |r|) && r == s[|s| - |t|..|s| - |t| + |r|]
  {
    var i, j := |s| - |t|, |s| - |t| + |r|;
    assert t == s[i..];
    assert r == s[i..j];
    assert forall k :: 0 <= k < i ==> IsSpace(s[k]);
    assert forall k :: j <= k < |s| ==> IsSpace(s[k]) by {
      forall k | j <= k < |s| ensures IsSpace(s[k]) {
        assert s[k] == t[k - i];
      }
    }
    assert i == j || (!IsSpace(s[i]) && !IsSpace(s[j - 1])) by {
      if i < j {
        assert s[i] == t[0] && s[j - 1] == r[|r| - 1];
      }
    }
  }

  /** Trimming has exactly one result: whatever `TrimmedAt` frames is it. */
  lemma TrimIs(s: string, i: int, j: int)
    requires TrimmedAt(s, i, j)
    ensures Trim(s) == s[i..j]
  {
    var i', j' :| TrimmedAt(s, i', j') && Trim(s) == s[i'..j'];
    TrimmedUnique(s, i, j, i', j');
  }

  lemma TrimmedUnique(s: string, i: int, j: int, i': int, j': int)
    requires TrimmedAt(s, i, j) && TrimmedAt(s, i', j')
    ensures s[i..j] == s[i'..j']
  {
  }

  // ------------------------------------------------------------- splitting

  /** Pieces joined with one separator between neighbours. */
  function Join(parts: seq<string>, sep: char): string {
    if |parts| == 0 then []
    else if |parts| == 1 then parts[0]
    else parts[0] + [sep] + Join(parts[1..], sep)
  }

  /** Rust's `str::split` on a char: always at least one piece, none of
      which contains the separator, and joining them restores `s`. */
  function Split(s: string, sep: char): (r: seq<string>)
    ensures |r| >= 1
    ensures forall i :: 0 <= i < |r| ==> sep !in r[i]
    ensures Join(r, sep) == s
    decreases |s|
  {
    match IndexOf(s, sep)
    case None => [s]
    case Some(i) =>
      var rest := Split(s[i + 1..], sep);
      assert s == s[..i] + [sep] + s[i + 1..];
      [s[..i]] + rest
  }

  /** Splitting undoes joining: `Split` is the inverse of `Join` on pieces
      free of the separator. */
  lemma {:induction false} SplitJoin(parts: seq<string>, sep: char)
    requires |parts| >= 1
    requires forall i :: 0 <= i < |parts| ==> sep !in parts[i]
    ensures Split(Join(parts, sep), sep) == parts
    decreases |parts|
  {
    if |parts| > 1 {
      var s := Join(parts, sep);
      var p := parts[0];
      assert s == p + [sep] + Join(parts[1..], sep);
      assert s[..|p|] == p;
      assert s[|p|] == sep;
      assert IndexOf(s, sep) == Some(|p|);
      assert s[|p| + 1..] == Join(parts[1..], sep);
      SplitJoin(parts[1..], sep);
      assert Split(s, sep) == [p] + parts[1..];
    }
  }

  lemma {:induction false} JoinAppend(a: seq<string>, b: seq<string>, sep: char)
    requires |a| >= 1 && |b| >= 1
    ensures Join(a + b, sep) == Join(a, sep) + [sep] + Join(b, sep)
    decreases |a|
  {
    if |a| == 1 {
      assert (a + b)[1..] == b;
    } else {
      assert (a + b)[1..] == a[1..] + b;
      JoinAppend(a[1..], b, sep);
    }
  }

  /** Splitting a concatenation at a separator splits both halves. */
  lemma SplitAppend(x: string, y: string, sep: char)
    ensures Split(x + [sep] + y, sep) == Split(x, sep) + Split(y, sep)
  {
    var a := Split(x, sep);
    var b := Split(y, sep);
    JoinAppend(a, b, sep);
    forall i | 0 <= i < |a + b| ensures sep !in (a + b)[i] {
      if i < |a| { assert (a + b)[i] == a[i]; } else { assert (a + b)[i] == b[i - |a|]; }
    }
    SplitJoin(a + b, sep);
  }

  /** Rust's `split_once` on a char: the text before and after the first `sep`. */
  function SplitOnce(s: string, sep: char): (r: Option<(string, string)>)
    ensures r.None? <==> sep !in s
    ensures r.Some? ==> s == r.value.0 + [sep] + r.value.1 && sep !in r.value.0
  {
    match IndexOf(s, sep)
    case None => None
    case Some(i) =>
      assert s == s[..i] + [sep] + s[i + 1..];
      Some((s[..i], s[i + 1..]))
  }

  /** Rust's `split_once` on a string pattern. */
  function SplitOnceStr(s: string, pat: string): (r: Option<(string, string)>)
    ensures r.None? <==> forall j :: !OccursAt(s, pat, j)
    ensures r.Some? ==> (s == r.value.0 + pat + r.value.1
                         && forall j :: 0 <= j < |r.value.0| ==> !OccursAt(s, pat, j))
  {
    match Find(s, pat)
    case None => None
    case Some(i) =>
      assert s == s[..i] + pat + s[i + |pat|..];
      Some((s[..i], s[i + |pat|..]))
  }

  /** Pieces joined with a string separator between neighbours. */
  function JoinStr(parts: seq<string>, sep: string): string {
    if |parts| == 0 then []
    else if |parts| == 1 then parts[0]
    else parts[0] + sep + JoinStr(parts[1..], sep)
  }

  /** Rust's `split` on a non-empty string pattern: at least one piece,
      none holding the pattern, and joining them with it restores `s`. */
  function SplitStr(s: string, pat: string): (r: seq<string>)
    requires |pat| >= 1
    ensures |r| >= 1
    ensures forall i :: 0 <= i < |r| ==> forall j :: !OccursAt(r[i], pat, j)
    ensures JoinStr(r, pat) == s
    decreases |s|
  {
    match SplitOnceStr(s, pat)
    case None => [s]
    case Some((a, b)) =>
      forall j ensures !OccursAt(a, pat, j) {
        if OccursAt(a, pat, j) {
          assert s[j..j + |pat|] == a[j..j + |pat|];
          assert OccursAt(s, pat, j);
        }
      }
      var rest := SplitStr(b, pat);
      assert ([a] + rest)[1..] == rest;
      [a] + rest
  }

  /** A text without the pattern's first character holds no occurrence. */
  lemma NoOccurrence(s: string, pat: string)
    requires |pat| >= 1 && pat[0] !in s
    ensures forall j :: !OccursAt(s, pat, j)
  {
    forall j ensures !OccursAt(s, pat, j) {
      if 0 <= j && j + |pat| <= |s| {
        assert s[j] in s;
        assert s[j..j + |pat|][0] != pat[0];
      }
    }
  }

  /** When `a` lacks the pattern's first character, the pattern is first
      found right after `a`. */
  lemma SplitOnceStrIs(a: string, pat: string, b: string)
    requires |pat| >= 1 && pat[0] !in a
    ensures SplitOnceStr(a + pat + b, pat) == Some((a, b))
  {
    var s := a + pat + b;
    assert OccursAt(s, pat, |a|) by { assert s[|a|..|a| + |pat|] == pat; }
    forall j | 0 <= j < |a| ensures !OccursAt(s, pat, j) {
      if j + |pat| <= |s| {
        assert s[j] == a[j] && a[j] in a;
        assert s[j..j + |pat|][0] != pat[0];
      }
    }
    var r := SplitOnceStr(s, pat);
    assert r.Some?;
    var (x, y) := r.value;
    assert OccursAt(s, pat, |x|) by { assert s[|x|..|x| + |pat|] == pat; }
    assert |x| == |a|;
    assert x == s[..|a|] == a;
    assert y == s[|a| + |pat|..] == b;
  }

  /** Splitting on a pattern undoes joining with it, for pieces free of the
      pattern's first character. */
  lemma {:induction false} SplitStrJoin(parts: seq<string>, pat: string)
    requires |parts| >= 1 && |pat| >= 1
    requires forall i :: 0 <= i < |parts| ==> pat[0] !in parts[i]
    ensures SplitStr(JoinStr(parts, pat), pat) == parts
    decreases |parts|
  {
    if |parts| == 1 {
      NoOccurrence(parts[0], pat);
    } else {
      SplitOnceStrIs(parts[0], pat, JoinStr(parts[1..], pat));
      SplitStrJoin(parts[1..], pat);
    }
  }

  /** `split(' ').filter(|s| !s.is_empty())`: the space-separated words,
      which are the non-empty pieces of the split on ' ', in order. */
  function Words(s: string): (r: seq<string>)
    ensures forall i :: 0 <= i < |r| ==> |r[i]| > 0 && ' ' !in r[i]
    ensures exists idx :: Picks(r, Split(s, ' '), idx)
  {
    var ps := Split(s, ' ');
    NonEmptyPicks(ps, ' ');
    NonEmpty(ps, ' ')
  }

  /** `r` holds the pieces of `ps` at the increasing indices `idx`, which
      are exactly the indices of the non-empty pieces. */
  ghost predicate Picks(r: seq<string>, ps: seq<string>, idx: seq<nat>) {
    PickedAt(r, ps, idx) && Ascending(idx) && Covers(ps, idx)
  }

  ghost predicate PickedAt(r: seq<string>, ps: seq<string>, idx: seq<nat>) {
    |idx| == |r| && forall k :: 0 <= k < |idx| ==> idx[k] < |ps| && r[k] == ps[idx[k]]
  }

  predicate Ascending(idx: seq<nat>) {
    forall k, l :: 0 <= k < l < |idx| ==> idx[k] < idx[l]
  }

  ghost predicate Covers(ps: seq<string>, idx: seq<nat>) {
    forall i :: 0 <= i < |ps| ==> (|ps[i]| > 0 <==> i in idx)
  }

  /** Every index one further on. */
  function Shift(idx: seq<nat>): (r: seq<nat>)
    ensures |r| == |idx| && forall k :: 0 <= k < |idx| ==> r[k] == idx[k] + 1
  {
    seq(|idx|, k requires 0 <= k < |idx| => idx[k] + 1)
  }

  /** An index is in the shifted indices exactly when the one before it
      is in the original ones. */
  lemma ShiftHas(idx: seq<nat>, i: nat)
    ensures i + 1 in Shift(idx) <==> i in idx
    ensures 0 !in Shift(idx)
  {
    var sh := Shift(idx);
    if i + 1 in sh {
      var k :| 0 <= k < |sh| && sh[k] == i + 1;
      assert idx[k] == i;
    }
    if i in idx {
      var k :| 0 <= k < |idx| && idx[k] == i;
      assert sh[k] == i + 1;
    }
  }

  /** An empty piece in front is skipped. */
  lemma PicksSkip(p: string, ps: seq<string>, r: seq<string>, idx: seq<nat>)
    requires Picks(r, ps, idx) && |p| == 0
    ensures Picks(r, [p] + ps, Shift(idx))
  {
    var ps', sh := [p] + ps, Shift(idx);
    forall i | 0 <= i < |ps'| ensures |ps'[i]| > 0 <==> i in sh {
      if i > 0 {
        ShiftHas(idx, i - 1);
        assert ps'[i] == ps[i - 1];
      } else {
        ShiftHas(idx, 0);
      }
    }
    forall k | 0 <= k < |sh| ensures sh[k] < |ps'| && r[k] == ps'[sh[k]] {
      assert ps'[sh[k]] == ps[idx[k]];
    }
  }

  /** A non-empty piece in front is picked first. */
  lemma PicksTake(p: string, ps: seq<string>, r: seq<string>, idx: seq<nat>)
    requires Picks(r, ps, idx) && |p| > 0
    ensures Picks([p] + r, [p] + ps, [0] + Shift(idx))
  {
    TakeCovers(p, ps, idx);
    TakePicked(p, ps, r, idx);
    TakeAscending(idx);
  }

  lemma TakeCovers(p: string, ps: seq<string>, idx: seq<nat>)
    requires Covers(ps, idx) && |p| > 0
    ensures Covers([p] + ps, [0] + Shift(idx))
  {
    var ps', sh := [p] + ps, Shift(idx);
    var idx' := [0] + sh;
    forall i | 0 < i < |ps'| ensures |ps'[i]| > 0 <==> i in idx' {
      ShiftHas(idx, i - 1);
      assert ps'[i] == ps[i - 1];
      assert i in idx' <==> i in sh;
    }
  }

  lemma TakePicked(p: string, ps: seq<string>, r: seq<string>, idx: seq<nat>)
    requires PickedAt(r, ps, idx)
    ensures PickedAt([p] + r, [p] + ps, [0] + Shift(idx))
  {
    var ps', sh := [p] + ps, Shift(idx);
    var r', idx' := [p] + r, [0] + sh;
    forall k | 0 < k < |idx'| ensures idx'[k] < |ps'| && r'[k] == ps'[idx'[k]] {
      assert idx'[k] == sh[k - 1] == idx[k - 1] + 1;
      assert r'[k] == r[k - 1];
    }
  }

  lemma TakeAscending(idx: seq<nat>)
    requires Ascending(idx)
    ensures Ascending([0] + Shift(idx))
  {
    var idx' := [0] + Shift(idx);
    forall k, l | 0 <= k < l < |idx'| ensures idx'[k] < idx'[l] {
      assert idx'[l] == idx[l - 1] + 1;
      if k > 0 {
        assert idx'[k] == idx[k - 1] + 1;
      }
    }
  }

  /** Filtering keeps exactly the non-empty pieces, in order. */
  lemma {:induction false} NonEmptyPicks(ps: seq<string>, sep: char)
    requires forall i :: 0 <= i < |ps| ==> sep !in ps[i]
    ensures exists idx :: Picks(NonEmpty(ps, sep), ps, idx)
    decreases |ps|
  {
    if |ps| == 0 {
      var none: seq<nat> := [];
      assert NonEmpty(ps, sep) == [];
      assert Picks(NonEmpty(ps, sep), ps, none);
    } else {
      NonEmptyPicks(ps[1..], sep);
      var rest :| Picks(NonEmpty(ps[1..], sep), ps[1..], rest);
      assert [ps[0]] + ps[1..] == ps;
      PicksStep(ps[0], ps[1..], ps, NonEmpty(ps[1..], sep), NonEmpty(ps, sep), rest);
    }
  }

  /** One more piece in front: an empty one is skipped, any other taken. */
  lemma PicksStep(p: string, tail: seq<string>, ps: seq<string>, r1: seq<string>, r: seq<string>, rest: seq<nat>)
    requires ps == [p] + tail && Picks(r1, tail, rest)
    requires r == if |p| == 0 then r1 else [p] + r1
    ensures exists idx :: Picks(r, ps, idx)
  {
    if |p| == 0 {
      PicksSkip(p, tail, r1, rest);
      assert Picks(r, ps, Shift(rest));
    } else {
      PicksTake(p, tail, r1, rest);
      assert Picks(r, ps, [0] + Shift(rest));
    }
  }

  function NonEmpty(ps: seq<string>, sep: char): (r: seq<string>)
    requires forall i :: 0 <= i < |ps| ==> sep !in ps[i]
    ensures forall i :: 0 <= i < |r| ==> |r[i]| > 0 && sep !in r[i]
    ensures |r| <= |ps|
  {
    if |ps| == 0 then []
    else if |ps[0]| == 0 then NonEmpty(ps[1..], sep)
    else [ps[0]] + NonEmpty(ps[1..], sep)
  }

  lemma {:induction false} NonEmptyAppend(a: seq<string>, b: seq<string>, sep: char)
    requires forall i :: 0 <= i < |a| ==> sep !in a[i]
    requires forall i :: 0 <= i < |b| ==> sep !in b[i]
    ensures NonEmpty(a + b, sep) == NonEmpty(a, sep) + NonEmpty(b, sep)
    decreases |a|
  {
    if |a| == 0 {
      assert a + b == b;
    } else {
      assert (a + b)[0] == a[0];
      assert (a + b)[1..] == a[1..] + b;
      NonEmptyAppend(a[1..], b, sep);
    }
  }

  /** Words are separated by runs of spaces: doubling a space changes nothing. */
  lemma WordsDoubleSpace(x: string, y: string)
    ensures Words(x + [' ', ' '] + y) == Words(x + [' '] + y)
  {
    assert x + [' ', ' '] + y == x + [' '] + ([] + [' '] + y);
    SplitAppend(x, [] + [' '] + y, ' ');
    SplitAppend([], y, ' ');
    assert Split([], ' ') == [[]];
    NonEmptyAppend(Split(x, ' '), Split([] + [' '] + y, ' '), ' ');
    NonEmptyAppend([[]], Split(y, ' '), ' ');
    SplitAppend(x, y, ' ');
    NonEmptyAppend(Split(x, ' '), Split(y, ' '), ' ');
  }

  /** Leading spaces separate no words. */
  lemma WordsLeadingSpace(x: string)
    ensures Words([' '] + x) == Words(x)
  {
    assert [' '] + x == [] + [' '] + x;
    SplitAppend([], x, ' ');
    assert Split([], ' ') == [[]];
    NonEmptyAppend([[]], Split(x, ' '), ' ');
  }

  /** Space-free, non-empty words joined by single spaces split back into
      the same words. */
  lemma WordsJoin(parts: seq<string>)
    requires forall i :: 0 <= i < |parts| ==> |parts[i]| > 0 && ' ' !in parts[i]
    ensures Words(Join(parts, ' ')) == parts
  {
    if |parts| == 0 {
      assert Split([], ' ') == [[]];
    } else {
      SplitJoin(parts, ' ');
      NonEmptyAll(parts, ' ');
    }
  }

  lemma {:induction false} NonEmptyAll(ps: seq<string>, sep: char)
    requires forall i :: 0 <= i < |ps| ==> |ps[i]| > 0 && sep !in ps[i]
    ensures NonEmpty(ps, sep) == ps
    decreases |ps|
  {
    if |ps| > 0 {
      NonEmptyAll(ps[1..], sep);
    }
  }

  /** The first and last characters of a join of non-empty pieces. */
  lemma {:induction false} JoinEnds(parts: seq<string>, sep: char)
    requires |parts| >= 1 && forall i :: 0 <= i < |parts| ==> |parts[i]| > 0
    ensures |Join(parts, sep)| > 0
    ensures Join(parts, sep)[0] == parts[0][0]
    ensures Join(parts, sep)[|Join(parts, sep)| - 1] == parts[|parts| - 1][|parts[|parts| - 1]| - 1]
    decreases |parts|
  {
    if |parts| > 1 {
      JoinEnds(parts[1..], sep);
    }
  }

  // --------------------------------------------------------------- numbers

  /** The value of a string of decimal digits, most significant first. */
  function DigitsValue(s: string): nat
    requires AllDigits(s)
  {
    if |s| == 0 then 0 else 10 * DigitsValue(s[..|s| - 1]) + DigitVal(s[|s| - 1])
  }

  /** The decimal representation of `n` without leading zeros. */
  function ShowNat(n: nat): (s: string)
    ensures |s| >= 1 && AllDigits(s)
  {
    if n < 10 then [DigitChar(n)] else ShowNat(n / 10) + [DigitChar(n % 10)]
  }

  /** The literals Rust's unsigned `parse` accepts: an optional '+'
      followed by at least one decimal digit. */
  predicate IsNatLiteral(s: string) {
    (|s| >= 1 && s[0] != '+' && AllDigits(s)) || (|s| >= 2 && s[0] == '+' && AllDigits(s[1..]))
  }

  /** Rust's `parse::<u32>()`/`parse::<u64>()` (without the width limit). */
  function ParseNat(s: string): (r: Option<nat>)
    ensures r.Some? <==> IsNatLiteral(s)
    ensures r.Some? && s[0] != '+' ==> r.value == DigitsValue(s)
    ensures r.Some? && s[0] == '+' ==> r.value == DigitsValue(s[1..])
  {
    var k := if |s| > 0 && s[0] == '+' then 1 else 0;
    if k < |s| && AllDigits(s[k..]) then
      assert k == 0 ==> s[k..] == s;
      Some(DigitsValue(s[k..]))
    else None
  }

  /** Printing then parsing a natural number gives it back. */
  lemma {:induction false} ParseShowNat(n: nat)
    ensures ParseNat(ShowNat(n)) == Some(n)
  {
    ShowNatValue(n);
    var s := ShowNat(n);
    assert s[0] != '+';
  }

  lemma {:induction false} ShowNatValue(n: nat)
    ensures DigitsValue(ShowNat(n)) == n
    decreases n
  {
    if n >= 10 {
      ShowNatValue(n / 10);
      var s := ShowNat(n);
      assert s[..|s| - 1] == ShowNat(n / 10);
    }
  }

  /** Numbers printed in decimal, one piece each. */
  function ShowNats(ns: seq<nat>): (r: seq<string>)
    ensures |r| == |ns|
    ensures forall i :: 0 <= i < |ns| ==> r[i] == ShowNat(ns[i])
  {
    if |ns| == 0 then [] else [ShowNat(ns[0])] + ShowNats(ns[1..])
  }

  lemma DigitsNoSpace(s: string)
    requires AllDigits(s)
    ensures ' ' !in s && (|s| == 0 || (s[0] != '-' && s[0] != '+' && !IsSpace(s[0]) && !IsSpace(s[|s| - 1])))
  {
  }

  /** Printed numbers joined by single spaces split back into the pieces,
      and the text is already trimmed. */
  lemma WordsShowNats(ns: seq<nat>)
    ensures Words(Join(ShowNats(ns), ' ')) == ShowNats(ns)
    ensures Trim(Join(ShowNats(ns), ' ')) == Join(ShowNats(ns), ' ')
  {
    var parts := ShowNats(ns);
    forall i | 0 <= i < |parts|
      ensures |parts[i]| > 0 && ' ' !in parts[i] && !IsSpace(parts[i][0]) && !IsSpace(parts[i][|parts[i]| - 1])
    {
      DigitsNoSpace(parts[i]);
    }
    var s := Join(parts, ' ');
    if |parts| > 0 {
      JoinEnds(parts, ' ');
    }
    TrimNoSpace(s);
    WordsJoin(parts);
  }

  /** Printed numbers joined by single spaces hold only digits and spaces,
      and start and end with a digit. */
  lemma {:induction false} ShowNatsText(ns: seq<nat>)
    ensures var s := Join(ShowNats(ns), ' ');
            && (forall k :: 0 <= k < |s| ==> IsDigit(s[k]) || s[k] == ' ')
            && (s == [] || (IsDigit(s[0]) && IsDigit(s[|s| - 1])))
    decreases |ns|
  {
    if |ns| > 1 {
      ShowNatsText(ns[1..]);
      assert ShowNats(ns)[1..] == ShowNats(ns[1..]);
      var s, n, rest := Join(ShowNats(ns), ' '), ShowNat(ns[0]), Join(ShowNats(ns[1..]), ' ');
      assert s == n + [' '] + rest;
      forall k | 0 <= k < |s| ensures IsDigit(s[k]) || s[k] == ' ' {
        if k < |n| { assert s[k] == n[k]; }
        else if k > |n| { assert s[k] == rest[k - |n| - 1]; }
      }
      assert |rest| > 0 by { assert |ShowNats(ns[1..])| >= 1; JoinEnds(ShowNats(ns[1..]), ' '); }
      assert s[|s| - 1] == rest[|rest| - 1];
    }
  }

  /** Parsing printed numbers gives them back. */
  lemma {:induction false} ParseNatsShow(ns: seq<nat>)
    ensures ParseNats(ShowNats(ns)) == Some(ns)
    decreases |ns|
  {
    if |ns| > 0 {
      ParseShowNat(ns[0]);
      assert ShowNats(ns)[1..] == ShowNats(ns[1..]);
      ParseNatsShow(ns[1..]);
      assert ns == [ns[0]] + ns[1..];
    }
  }

  lemma {:induction false} ParseIntsShow(ns: seq<nat>)
    ensures ParseInts(ShowNats(ns)).Some? && ParseInts(ShowNats(ns)).value == ns
    decreases |ns|
  {
    if |ns| > 0 {
      ParseShowNat(ns[0]);
      DigitsNoSpace(ShowNat(ns[0]));
      assert ShowNats(ns)[1..] == ShowNats(ns[1..]);
      ParseIntsShow(ns[1..]);
    }
  }

  /** Rust's `parse::<i64>()`: an optional sign followed by at least one digit. */
  function ParseInt(s: string): (r: Option<int>)
    ensures |s| > 0 && s[0] == '-' ==> (r.Some? <==> |s| > 1 && AllDigits(s[1..]))
    ensures |s| > 0 && s[0] == '-' && r.Some? ==> r.value == -(DigitsValue(s[1..]) as int)
    ensures (|s| == 0 || s[0] != '-') ==> r == (match ParseNat(s) case Some(n) => Some(n as int) case None => None)
  {
    if |s| > 0 && s[0] == '-' then
      if |s| > 1 && AllDigits(s[1..]) then Some(-(DigitsValue(s[1..]) as int)) else None
    else
      match ParseNat(s)
      case Some(n) => Some(n as int)
      case None => None
  }

  /** The decimal representation of `i`, with a leading '-' when negative
      (Rust's `Display` for signed integers). */
  function ShowInt(i: int): (s: string)
    ensures |s| >= 1
    ensures forall k :: 0 <= k < |s| ==> s[k] == '-' || IsDigit(s[k])
  {
    if i < 0 then "-" + ShowNat(-i) else ShowNat(i)
  }

  /** Printing then parsing an integer gives it back. */
  lemma ParseShowInt(i: int)
    ensures ParseInt(ShowInt(i)) == Some(i)
  {
    if i < 0 {
      ShowNatValue(-i);
      assert ShowInt(i)[1..] == ShowNat(-i);
    } else {
      ParseShowNat(i);
    }
  }

  /** Parses every piece with `ParseNat`; fails if any piece fails. */
  function ParseNats(ws: seq<string>): (r: Option<seq<nat>>)
    ensures r.Some? <==> forall i :: 0 <= i < |ws| ==> ParseNat(ws[i]).Some?
    ensures r.Some? ==> |r.value| == |ws| && forall i :: 0 <= i < |ws| ==> r.value[i] == ParseNat(ws[i]).value
  {
    if |ws| == 0 then Some([])
    else match ParseNat(ws[0])
      case None => None
      case Some(n) =>
        match ParseNats(ws[1..])
        case None => None
        case Some(rest) => Some([n] + rest)
  }

  /** Parses every piece with `ParseInt`; fails if any piece fails. */
  function ParseInts(ws: seq<string>): (r: Option<seq<int>>)
    ensures r.Some? <==> forall i :: 0 <= i < |ws| ==> ParseInt(ws[i]).Some?
    ensures r.Some? ==> |r.value| == |ws| && forall i :: 0 <= i < |ws| ==> r.value[i] == ParseInt(ws[i]).value
  {
    if |ws| == 0 then Some([])
    else match ParseInt(ws[0])
      case None => None
      case Some(n) =>
        match ParseInts(ws[1..])
        case None => None
        case Some(rest) => Some([n] + rest)
  }

  predicate IsHexDigit(c: char) {
    IsDigit(c) || 'a' <= c <= 'f' || 'A' <= c <= 'F'
  }

  function HexVal(c: char): (v: nat)
    requires IsHexDigit(c)
    ensures v < 16
  {
    if IsDigit(c) then DigitVal(c)
    else if 'a' <= c <= 'f' then (c as int) - ('a' as int) + 10
    else (c as int) - ('A' as int) + 10
  }

  function HexValue(s: string): nat
    requires forall i :: 0 <= i < |s| ==> IsHexDigit(s[i])
  {
    if |s| == 0 then 0 else 16 * HexValue(s[..|s| - 1]) + HexVal(s[|s| - 1])
  }

  /** Rust's `u32::from_str_radix(s, 16)`: an optional '+' and at least one hex digit. */
  function ParseHex(s: string): (r: Option<nat>)
    ensures r.Some? ==> |s| >= 1
    ensures (|s| >= 1 && s[0] != '+') ==> (r.Some? <==> forall i :: 0 <= i < |s| ==> IsHexDigit(s[i]))
    ensures (|s| >= 1 && s[0] != '+' && r.Some?) ==> r.value == HexValue(s)
  {
    var k := if |s| > 0 && s[0] == '+' then 1 else 0;
    if k < |s| && forall i :: k <= i < |s| ==> IsHexDigit(s[i]) then
      assert forall i :: 0 <= i < |s[k..]| ==> IsHexDigit(s[k..][i]);
      assert k == 0 ==> s[k..] == s;
      Some(HexValue(s[k..]))
    else None
  }

  // ------------------------------------------- evaluation aids for examples

  lemma SplitOnceIs(a: string, c: char, b: string)
    requires c !in a
    ensures SplitOnce(a + [c] + b, c) == Some((a, b))
  {
    var s := a + [c] + b;
    assert s[|a|] == c && s[..|a|] == a;
    assert IndexOf(s, c) == Some(|a|);
    assert s[|a| + 1..] == b;
  }

  lemma TrimNoSpace(s: string)
    requires s == [] || (!IsSpace(s[0]) && !IsSpace(s[|s| - 1]))
    ensures Trim(s) == s
  {
  }

  lemma StripPrefixIs(p: string, x: string)
    ensures StripPrefix(p + x, p) == Some(x)
  {
    assert (p + x)[..|p|] == p;
  }

  lemma StripSuffixIs(x: string, p: string)
    ensures StripSuffix(x + p, p) == Some(x)
  {
    assert (x + p)[|x|..] == p;
  }

  lemma TrimTrailingSpace(s: string)
    requires s == [] || (!IsSpace(s[0]) && !IsSpace(s[|s| - 1]))
    ensures Trim(s + [' ']) == s
  {
    var t := s + [' '];
    if s != [] {
      assert TrimStart(t) == t by { assert t[0] == s[0]; }
      assert TrimEnd(t) == TrimEnd(s) by { assert t[..|t| - 1] == s; }
    }
  }

  /** Trimming only drops characters. */
  lemma InTrim(s: string, c: char)
    requires c in Trim(s)
    ensures c in s
  {
    var i, j :| TrimmedAt(s, i, j) && Trim(s) == s[i..j];
    InSlice(s, i, j, c);
  }

  lemma InSlice(s: string, i: int, j: int, c: char)
    requires 0 <= i <= j <= |s| && c in s[i..j]
    ensures c in s
  {
    var k :| 0 <= k < j - i && s[i..j][k] == c;
    assert s[i + k] == c;
  }

  /** A text that neither starts nor ends with white space is what trimming
      it with a space on either side, or in front, gives. */
  lemma TrimSpaced(w: string)
    requires w == [] || (!IsSpace(w[0]) && !IsSpace(w[|w| - 1]))
    ensures Trim(" " + w + " ") == w && Trim(" " + w) == w && Trim(w) == w
  {
    TrimBothEnds(w);
    TrimFront(w);
    TrimNoSpace(w);
  }

  lemma TrimBothEnds(w: string)
    requires w == [] || (!IsSpace(w[0]) && !IsSpace(w[|w| - 1]))
    ensures Trim(" " + w + " ") == w
  {
    var t := " " + w + " ";
    assert TrimmedAt(t, 1, 1 + |w|) by {
      assert forall k :: 1 <= k < 1 + |w| ==> t[k] == w[k - 1];
    }
    TrimIs(t, 1, 1 + |w|);
    assert t[1..1 + |w|] == w;
  }

  lemma TrimFront(w: string)
    requires w == [] || (!IsSpace(w[0]) && !IsSpace(w[|w| - 1]))
    ensures Trim(" " + w) == w
  {
    var u := " " + w;
    assert TrimmedAt(u, 1, 1 + |w|) by {
      assert forall k :: 1 <= k < 1 + |w| ==> u[k] == w[k - 1];
    }
    TrimIs(u, 1, 1 + |w|);
    assert u[1..] == w;
  }

  lemma TrimLeadingSpace(s: string)
    ensures Trim([' '] + s) == Trim(s)
  {
    assert ([' '] + s)[1..] == s;
  }

  lemma ParseDigits(s: string)
    requires |s| >= 1 && AllDigits(s)
    ensures ParseNat(s) == Some(DigitsValue(s))
  {
  }
}
