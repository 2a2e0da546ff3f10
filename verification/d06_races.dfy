/** Day 6: boat races (src/d6.rs).

    Holding the button for `c` ms of a `t` ms race gives speed `c` for the
    remaining `t - c` ms. A choice is good when it beats the record. */
module Races {
  import opened Wrappers
  import opened Text
  import opened Collections

  /** `calc_distance`; the source subtracts in `u64`, so `c` may not
      exceed the race time. */
  function Distance(t: nat, c: nat): nat
    requires c <= t
  {
    (t - c) * c
  }

  /** Charging for `c` or for `t - c` goes equally far, nothing beats
      charging for half the race, and the two extremes go nowhere. */
  lemma DistanceShape(t: nat, c: nat)
    requires c <= t
    ensures Distance(t, c) == Distance(t, t - c)
    ensures 4 * Distance(t, c) <= t * t
    ensures Distance(t, 0) == 0 && Distance(t, t) == 0
  {
    var d := t - 2 * c;
    assert 4 * ((t - c) * c) == t * t - d * d;
  }

  /** A charge time the loop of `calc_good_choices` visits and counts. */
  predicate Good(t: nat, record: nat, c: nat) {
    1 <= c < t && Distance(t, c) > record
  }

  /** The good charge times below `n`. */
  function GoodBelow(t: nat, record: nat, n: nat): set<nat> {
    set c: nat | c < n && Good(t, record, c)
  }

  /** The good charge times of a race. */
  function GoodChoices(t: nat, record: nat): set<nat> {
    GoodBelow(t, record, t)
  }

  /** `calc_good_choices`: counts, for every charge time 1..t-1, whether
      it beats the record. */
  method CountGoodChoices(t: nat, record: nat) returns (count: nat)
    ensures count == |GoodChoices(t, record)|
  {
    count := 0;
    var c := 1;
    assert GoodBelow(t, record, 1) == {};
    while c < t
      invariant 1 <= c && (t >= 1 ==> c <= t)
      invariant count == |GoodBelow(t, record, c)|
    {
      var distance := Distance(t, c);
      if distance > record {
        assert GoodBelow(t, record, c + 1) == GoodBelow(t, record, c) + {c};
        count := count + 1;
      } else {
        assert GoodBelow(t, record, c + 1) == GoodBelow(t, record, c);
      }
      c := c + 1;
    }
    if t >= 1 {
      assert c == t;
    } else {
      assert GoodChoices(t, record) == {};
    }
  }

  /** At most the `t - 1` charge times strictly inside the race are good. */
  lemma {:induction false} GoodBelowBound(t: nat, record: nat, n: nat)
    ensures |GoodBelow(t, record, n)| <= if n == 0 then 0 else n - 1
    decreases n
  {
    if n > 1 {
      GoodBelowBound(t, record, n - 1);
      assert GoodBelow(t, record, n) <= GoodBelow(t, record, n - 1) + {n - 1};
      SubsetCard(GoodBelow(t, record, n), GoodBelow(t, record, n - 1) + {n - 1});
    } else {
      assert GoodBelow(t, record, n) == {};
    }
  }

  lemma GoodChoicesBound(t: nat, record: nat)
    ensures |GoodChoices(t, record)| <= if t == 0 then 0 else t - 1
  {
    GoodBelowBound(t, record, t);
  }

  /** The good charge times are symmetric about half the race. */
  lemma GoodSymmetric(t: nat, record: nat, c: nat)
    requires c <= t
    ensures c in GoodChoices(t, record) <==> t - c in GoodChoices(t, record)
  {
    DistanceShape(t, c);
  }

  /** Good charge times form one contiguous block. */
  lemma GoodContiguous(t: nat, record: nat, lo: nat, c: nat, hi: nat)
    requires lo <= c <= hi
    requires lo in GoodChoices(t, record) && hi in GoodChoices(t, record)
    ensures c in GoodChoices(t, record)
  {
    if c + lo <= t {
      Gain(t, lo, c);
    } else {
      Gain(t, t - hi, t - c);
      DistanceShape(t, c);
      DistanceShape(t, hi);
    }
  }

  /** Moving the charge time towards half the race never loses distance. */
  lemma Gain(t: nat, a: nat, b: nat)
    requires a <= b && a + b <= t
    ensures Distance(t, a) <= Distance(t, b)
  {
    var d := b - a;
    assert (t - b) * b - (t - a) * a == d * (t - a - b);
    assert d * (t - a - b) >= 0;
  }

  /** A higher record never adds good choices. */
  lemma GoodMonotone(t: nat, r1: nat, r2: nat)
    requires r1 <= r2
    ensures GoodChoices(t, r2) <= GoodChoices(t, r1)
    ensures |GoodChoices(t, r2)| <= |GoodChoices(t, r1)|
  {
    assert GoodChoices(t, r2) <= GoodChoices(t, r1);
    SubsetCard(GoodChoices(t, r2), GoodChoices(t, r1));
  }

  // --------------------------------------------------------------- parsing

  /** `chars().filter(|c| !c.is_whitespace())`. */
  function RemoveSpaces(s: string): (r: string)
    ensures |r| <= |s|
    ensures forall i :: 0 <= i < |r| ==> !IsSpace(r[i])
  {
    if |s| == 0 then []
    else if IsSpace(s[0]) then RemoveSpaces(s[1..])
    else [s[0]] + RemoveSpaces(s[1..])
  }

  /** The pieces laid end to end. */
  function Concat(parts: seq<string>): (r: string)
    ensures (forall i :: 0 <= i < |parts| ==> AllDigits(parts[i])) ==> AllDigits(r)
    ensures |parts| > 0 && |parts[0]| > 0 ==> |r| > 0 && r[0] == parts[0][0]
  {
    if |parts| == 0 then [] else parts[0] + Concat(parts[1..])
  }

  /** `parse_line`: the text after `prefix`, read as one number with all
      whitespace removed when kerning, otherwise as the numbers between
      spaces. A missing prefix or a piece that is no number fails. */
  function ParseLine(prefix: string, line: string, kerning: bool): (r: Option<seq<nat>>)
    ensures r.Some? ==> StripPrefix(line, prefix).Some?
    ensures kerning && r.Some? ==>
              |r.value| == 1 && ParseNat(RemoveSpaces(StripPrefix(line, prefix).value)) == Some(r.value[0])
    ensures !kerning && r.Some? ==>
              ParseNats(Words(StripPrefix(line, prefix).value)) == Some(r.value)
  {
    var rest :- StripPrefix(line, prefix);
    if kerning then
      var n :- ParseNat(RemoveSpaces(rest));
      Some([n])
    else
      ParseNats(Words(rest))
  }

  /** Removing the spaces from a space-joined list of space-free pieces
      concatenates them. */
  lemma {:induction false} RemoveSpacesJoin(parts: seq<string>)
    requires forall i :: 0 <= i < |parts| ==> forall j :: 0 <= j < |parts[i]| ==> !IsSpace(parts[i][j])
    ensures RemoveSpaces(Join(parts, ' ')) == Concat(parts)
    decreases |parts|
  {
    if |parts| == 1 {
      RemoveSpacesPlain(parts[0]);
      assert Concat(parts) == parts[0] + [];
    } else if |parts| > 1 {
      RemoveSpacesJoin(parts[1..]);
      RemoveSpacesAppend(parts[0] + [' '], Join(parts[1..], ' '));
      RemoveSpacesAppend(parts[0], [' ']);
      RemoveSpacesPlain(parts[0]);
      assert RemoveSpaces([' ']) == [];
    }
  }

  lemma {:induction false} RemoveSpacesAppend(a: string, b: string)
    ensures RemoveSpaces(a + b) == RemoveSpaces(a) + RemoveSpaces(b)
    decreases |a|
  {
    if |a| == 0 {
      assert a + b == b;
    } else {
      assert (a + b)[1..] == a[1..] + b;
      RemoveSpacesAppend(a[1..], b);
    }
  }

  lemma {:induction false} RemoveSpacesPlain(s: string)
    requires forall j :: 0 <= j < |s| ==> !IsSpace(s[j])
    ensures RemoveSpaces(s) == s
    decreases |s|
  {
    if |s| > 0 {
      RemoveSpacesPlain(s[1..]);
    }
  }

  /** Without kerning, a line of printed numbers after the prefix and a
      space parses back into those numbers. */
  lemma ParseLineSeparate(prefix: string, ns: seq<nat>)
    ensures ParseLine(prefix, prefix + [' '] + Join(ShowNats(ns), ' '), false) == Some(ns)
  {
    var text := Join(ShowNats(ns), ' ');
    var line := prefix + [' '] + text;
    assert line == prefix + ([' '] + text);
    assert StripPrefix(line, prefix) == Some([' '] + text);
    WordsLeadingSpace(text);
    WordsShowNats(ns);
    ParseNatsShow(ns);
  }

  /** With kerning, the same line reads as the one number whose digits are
      all the printed digits in order. */
  lemma ParseLineKerned(prefix: string, ns: seq<nat>)
    requires |ns| >= 1
    ensures ParseLine(prefix, prefix + [' '] + Join(ShowNats(ns), ' '), true)
         == Some([DigitsValue(Concat(ShowNats(ns)))])
  {
    KernedDigits(ns);
    ParseKernedText(prefix, Join(ShowNats(ns), ' '), Concat(ShowNats(ns)));
  }

  lemma ParseKernedText(prefix: string, text: string, digits: string)
    requires RemoveSpaces([' '] + text) == digits && ParseNat(digits).Some?
    ensures ParseLine(prefix, prefix + [' '] + text, true) == Some([ParseNat(digits).value])
  {
    assert prefix + [' '] + text == prefix + ([' '] + text);
    StripPrefixIs(prefix, [' '] + text);
  }

  /** The printed numbers with the spaces removed are their digits in
      order, with no sign in front. */
  lemma KernedDigits(ns: seq<nat>)
    requires |ns| >= 1
    ensures RemoveSpaces([' '] + Join(ShowNats(ns), ' ')) == Concat(ShowNats(ns))
    ensures ParseNat(Concat(ShowNats(ns))) == Some(DigitsValue(Concat(ShowNats(ns))))
  {
    var parts := ShowNats(ns);
    var text := Join(parts, ' ');
    forall i | 0 <= i < |parts|
      ensures forall j :: 0 <= j < |parts[i]| ==> !IsSpace(parts[i][j])
    {
    }
    RemoveSpacesJoin(parts);
    assert ([' '] + text)[1..] == text;
    assert Concat(parts)[0] != '+';
  }

  // ------------------------------------------------------------------- run

  /** The product of the counts, in race order. */
  function Product(s: seq<nat>): nat {
    if |s| == 0 then 1 else Product(s[..|s| - 1]) * s[|s| - 1]
  }

  /** The number of good choices per race. */
  function Counts(times: seq<nat>, records: seq<nat>): (r: seq<nat>)
    requires |times| == |records|
    ensures |r| == |times|
    ensures forall i :: 0 <= i < |r| ==> r[i] == |GoodChoices(times[i], records[i])|
  {
    if |times| == 0 then []
    else [|GoodChoices(times[0], records[0])|] + Counts(times[1..], records[1..])
  }

  /** A race that cannot be won makes the whole product 0. */
  lemma {:induction false} ProductZero(s: seq<nat>, i: nat)
    requires i < |s| && s[i] == 0
    ensures Product(s) == 0
    decreases |s|
  {
    if i < |s| - 1 {
      ProductZero(s[..|s| - 1], i);
    }
  }

  /** `parse_input`: the times from the first line, the records from the
      second. */
  function ParseInput(lines: seq<string>, kerning: bool): (r: Option<(seq<nat>, seq<nat>)>)
    ensures r.Some? <==> (|lines| >= 2 && ParseLine("Time:", lines[0], kerning).Some?
                          && ParseLine("Distance:", lines[1], kerning).Some?)
    ensures r.Some? ==> r.value.0 == ParseLine("Time:", lines[0], kerning).value
    ensures r.Some? ==> r.value.1 == ParseLine("Distance:", lines[1], kerning).value
  {
    if |lines| < 2 then None
    else
      var times :- ParseLine("Time:", lines[0], kerning);
      var records :- ParseLine("Distance:", lines[1], kerning);
      Some((times, records))
  }

  /** `run`: part 1 reads the columns as separate races, part 2 reads each
      line as one kerned number; the answer is the product of the good
      choice counts. Fewer than two lines, a malformed line or differing
      counts of times and records fail. */
  method Run(lines: seq<string>, part1: bool) returns (r: Result<nat>)
    ensures r.Ok? <==> (ParseInput(lines, !part1).Some?
                        && |ParseInput(lines, !part1).value.0| == |ParseInput(lines, !part1).value.1|)
    ensures r.Ok? ==> r.value == Product(Counts(ParseInput(lines, !part1).value.0,
                                                ParseInput(lines, !part1).value.1))
  {
    var input := ParseInput(lines, !part1);
    if input.None? {
      return Err("missing or malformed line");
    }
    var (ts, rs) := input.value;
    if |ts| != |rs| {
      return Err("times and records differ in number");
    }
    var res := ProductOfCounts(ts, rs);
    return Ok(res);
  }

  /** The loop of `run`: the good choice counts multiplied race by race. */
  method ProductOfCounts(ts: seq<nat>, rs: seq<nat>) returns (res: nat)
    requires |ts| == |rs|
    ensures res == Product(Counts(ts, rs))
  {
    ghost var counts := Counts(ts, rs);
    res := 1;
    var i := 0;
    while i < |ts|
      invariant 0 <= i <= |ts|
      invariant res == Product(counts[..i])
    {
      var c := CountGoodChoices(ts[i], rs[i]);
      assert c == counts[i];
      assert Product(counts[..i + 1]) == Product(counts[..i]) * counts[i] by {
        assert counts[..i + 1][..i] == counts[..i];
      }
      res := res * c;
      i := i + 1;
    }
    assert counts[..i] == counts;
  }
}
