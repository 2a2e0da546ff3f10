/** Day 4: scratchcards (src/d4.rs).

    A card line "Card 3:  1 21 | 21  7" holds winning numbers before '|' and
    the numbers one has after it. Part 1 scores each card by doubling per
    match; part 2 hands out copies of later cards. */
module Scratchcards {
  import opened Wrappers
  import opened Text
  import opened Collections

  datatype Card = Card(id: nat, winning: seq<int>, have: seq<int>)

  // --------------------------------------------------------------- parsing

  /** `parse_numbers`: the space-separated integers of the trimmed text;
      runs of spaces separate like one space. */
  function ParseNumbers(s: string): (r: Result<seq<int>>)
    ensures r.Ok? ==> |r.value| == |Words(Trim(s))|
  {
    OkOr(ParseInts(Words(Trim(s))), "not a number")
  }

  /** Numbers written with single spaces read back as themselves. */
  lemma ParseNumbersShow(ns: seq<nat>)
    ensures ParseNumbers(Join(ShowNats(ns), ' ')).Ok?
    ensures ParseNumbers(Join(ShowNats(ns), ' ')).value == ns
  {
    WordsShowNats(ns);
    ParseIntsShow(ns);
  }

  /** `Card::from`: the id follows the first five characters before ':',
      the winning numbers precede '|' and the held numbers follow it. Any
      missing piece or unparsable number is an error. */
  function ParseCard(line: string): (r: Result<Card>)
    ensures r.Ok? ==> ':' in line
    ensures r.Ok? ==> |SplitOnce(line, ':').value.0| >= 5
    ensures r.Ok? ==> '|' in SplitOnce(line, ':').value.1
  {
    var (start, rest) :- OkOr(SplitOnce(line, ':'), "no colon");
    var (left, right) :- OkOr(SplitOnce(rest, '|'), "no bar");
    if |start| < 5 then Err("card prefix too short")
    else
      var id :- OkOr(ParseNat(Trim(start[5..])), "bad card id");
      var winning :- ParseNumbers(left);
      var have :- ParseNumbers(right);
      Ok(Card(id, winning, have))
  }

  /** A card printed the way the puzzle lists it: "Card 3: 1 21 | 21 7". */
  function ShowCard(id: nat, winning: seq<nat>, have: seq<nat>): string {
    "Card " + ShowNat(id) + ": " + Join(ShowNats(winning), ' ') + " | " + Join(ShowNats(have), ' ')
  }

  /** Printed numbers read back with a space around them. */
  lemma PaddedNumbers(ns: seq<nat>)
    ensures ParseNumbers(" " + Join(ShowNats(ns), ' ') + " ") == Ok(ns)
    ensures ParseNumbers(" " + Join(ShowNats(ns), ' ')) == Ok(ns)
    ensures '|' !in " " + Join(ShowNats(ns), ' ') + " "
  {
    var w := Join(ShowNats(ns), ' ');
    PaddedTrim(ns);
    ParseNumbersShow(ns);
    assert ParseNumbers(w) == Ok(ns);
    NoBar(ns);
  }

  lemma PaddedTrim(ns: seq<nat>)
    ensures var w := Join(ShowNats(ns), ' ');
            Trim(" " + w + " ") == w && Trim(" " + w) == w && Trim(w) == w
  {
    var w := Join(ShowNats(ns), ' ');
    assert w == [] || (!IsSpace(w[0]) && !IsSpace(w[|w| - 1])) by {
      ShowNatsText(ns);
    }
    TrimSpaced(w);
  }

  lemma NoBar(ns: seq<nat>)
    ensures '|' !in " " + Join(ShowNats(ns), ' ') + " "
  {
    var w := Join(ShowNats(ns), ' ');
    ShowNatsText(ns);
    var t := " " + w + " ";
    forall k | 0 <= k < |t| ensures t[k] != '|' {
      if 0 < k < |t| - 1 { assert t[k] == w[k - 1]; }
    }
  }

  /** A printed card parses back to its id and its two lists of numbers. */
  lemma CardRoundTrip(id: nat, winning: seq<nat>, have: seq<nat>)
    ensures ParseCard(ShowCard(id, winning, have)) == Ok(Card(id, winning, have))
  {
    var n, w, h := ShowNat(id), Join(ShowNats(winning), ' '), Join(ShowNats(have), ' ');
    var start, left, right := "Card " + n, " " + w + " ", " " + h;
    var line := ShowCard(id, winning, have);
    assert line == start + [':'] + (left + ['|'] + right);
    assert ':' !in start by {
      DigitsNoSpace(n);
      forall k | 0 <= k < |start| ensures start[k] != ':' {
        if k >= 5 { assert start[k] == n[k - 5]; }
      }
    }
    SplitOnceIs(start, ':', left + ['|'] + right);
    PaddedNumbers(winning);
    PaddedNumbers(have);
    SplitOnceIs(left, '|', right);
    assert ParseNat(Trim(start[5..])) == Some(id) by {
      assert start[5..] == n;
      DigitsNoSpace(n);
      TrimNoSpace(n);
      ParseShowNat(id);
    }
  }

  function ParseCards(lines: seq<string>): (r: Result<seq<Card>>)
    ensures r.Ok? ==> |r.value| == |lines|
    ensures r.Ok? ==> forall i :: 0 <= i < |lines| ==> ParseCard(lines[i]) == Ok(r.value[i])
  {
    MapAllOk(lines, ParseCard)
  }

  // ---------------------------------------------------------------- part 1

  /** How many held numbers occur among the winning ones; a held number
      listed twice counts twice. */
  function Matches(have: seq<int>, winning: seq<int>): (m: nat)
    ensures m <= |have|
    ensures m == 0 <==> forall i :: 0 <= i < |have| ==> have[i] !in winning
    ensures m == |have| <==> forall i :: 0 <= i < |have| ==> have[i] in winning
  {
    if |have| == 0 then 0
    else
      var init := have[..|have| - 1];
      assert forall i :: 0 <= i < |have| - 1 ==> init[i] == have[i];
      Matches(init, winning) + (if have[|have| - 1] in winning then 1 else 0)
  }

  function Pow2(n: nat): (r: nat)
    ensures r >= 1
  {
    if n == 0 then 1 else 2 * Pow2(n - 1)
  }

  /** The score of a card with `m` matches: nothing without a match, then
      1 doubled for each further match. */
  function Score(m: nat): nat {
    if m == 0 then 0 else Pow2(m - 1)
  }

  /** Part 1's loop for one card: start at 0, the first match makes 1, each
      later match doubles. */
  method CardScore(card: Card) returns (s: nat)
    ensures s == Score(Matches(card.have, card.winning))
  {
    var have, winning := card.have, card.winning;
    s := 0;
    var i := 0;
    while i < |have|
      invariant i <= |have|
      invariant s == Score(Matches(have[..i], winning))
    {
      MatchesStep(have, winning, i);
      ScoreStep(s, Matches(have[..i], winning), Matches(have[..i + 1], winning), have[i] in winning);
      if have[i] in winning {
        s := if s == 0 then 1 else s * 2;
      }
      i := i + 1;
    }
    assert have[..|have|] == have;
  }

  /** One more match: the first makes 1, each later one doubles. */
  lemma ScoreNext(m: nat)
    ensures Score(m + 1) == if Score(m) == 0 then 1 else 2 * Score(m)
  {
  }

  /** One step of the loop, on the values alone: a hit moves the score to
      that of one more match, a miss keeps it. */
  lemma ScoreStep(s: nat, m: nat, m1: nat, hit: bool)
    requires s == Score(m) && m1 == m + (if hit then 1 else 0)
    ensures (if hit then (if s == 0 then 1 else s * 2) else s) == Score(m1)
  {
    ScoreNext(m);
  }

  /** One more held number adds one match exactly when it is a winning one. */
  lemma MatchesStep(have: seq<int>, winning: seq<int>, i: nat)
    requires i < |have|
    ensures Matches(have[..i + 1], winning) == Matches(have[..i], winning) + if have[i] in winning then 1 else 0
  {
    assert have[..i + 1][..i] == have[..i];
  }

  /** Part 1: the sum of the card scores. It is 0 exactly when no card has a
      match, and no single card scores more than the total. */
  function Part1(cards: seq<Card>): (r: nat)
    ensures r == 0 <==> forall i :: 0 <= i < |cards| ==> Matches(cards[i].have, cards[i].winning) == 0
    ensures forall i :: 0 <= i < |cards| ==> Score(Matches(cards[i].have, cards[i].winning)) <= r
  {
    if |cards| == 0 then 0 else Score(Matches(cards[0].have, cards[0].winning)) + Part1(cards[1..])
  }

  /** The total does not depend on how the cards are split: it adds up. */
  lemma {:induction false} Part1Append(a: seq<Card>, b: seq<Card>)
    ensures Part1(a + b) == Part1(a) + Part1(b)
  {
    if |a| > 0 {
      assert (a + b)[1..] == a[1..] + b;
      Part1Append(a[1..], b);
    } else {
      assert a + b == b;
    }
  }

  // ---------------------------------------------------------------- part 2

  /** Card id to match count; a later line with the same id replaces an
      earlier one, as inserting into the hash map does. */
  function MatchMap(cards: seq<Card>): (mm: map<nat, nat>)
    ensures forall i :: 0 <= i < |cards| ==> cards[i].id in mm
    ensures forall id :: id in mm ==> exists i :: 0 <= i < |cards| && cards[i].id == id
  {
    if |cards| == 0 then map[]
    else
      var last := cards[|cards| - 1];
      var init := cards[..|cards| - 1];
      var prev := MatchMap(init);
      assert forall i :: 0 <= i < |cards| - 1 ==> init[i] == cards[i];
      prev[last.id := Matches(last.have, last.winning)]
  }

  /** Adds `c` copies to each of the cards `id + 1 .. id + m`; a missing card
      is an error. */
  function AddCopies(count: map<nat, nat>, id: nat, m: nat, c: nat): (r: Result<map<nat, nat>>)
    ensures r.Ok? <==> forall k :: id < k <= id + m ==> k in count
    ensures r.Ok? ==> r.value.Keys == count.Keys
    ensures r.Ok? ==> forall k :: k in count ==> r.value[k] == count[k] + (if id < k <= id + m then c else 0)
  {
    if m == 0 then Ok(count)
    else
      var prev :- AddCopies(count, id, m - 1, c);
      if id + m in prev then Ok(prev[id + m := prev[id + m] + c]) else Err("no card with that id")
  }

  /** The loop over the sorted ids from position `i`: each card adds its
      current copy count to the total and to the next `m` cards. */
  function Propagate(ids: seq<nat>, mm: map<nat, nat>, count: map<nat, nat>, i: nat): Result<nat>
    requires i <= |ids|
    requires forall k :: 0 <= k < |ids| ==> ids[k] in mm && ids[k] in count
    decreases |ids| - i
  {
    if i == |ids| then Ok(0)
    else
      var id := ids[i];
      var c := count[id];
      var count' :- AddCopies(count, id, mm[id], c);
      var rest :- Propagate(ids, mm, count', i + 1);
      Ok(c + rest)
  }

  /** One copy of every card. */
  function Ones(ids: set<nat>): (count: map<nat, nat>)
    ensures count.Keys == ids
    ensures forall id :: id in count ==> count[id] == 1
  {
    map id | id in ids :: 1
  }

  /** Part 2: every card starts with one copy, and the cards are processed
      in ascending id. */
  /** Part 2 fails exactly when some card wins copies of an id no card has;
      otherwise it is the sum of the copy counts by definition over the
      distinct ids, so at least the number of distinct cards. */
  function Part2(cards: seq<Card>): (r: Result<nat>)
    ensures r.Ok? <==> Closed(MatchMap(cards))
    ensures r.Ok? ==> r.value == CopiesTotal(MatchMap(cards)) >= |MatchMap(cards).Keys|
  {
    CopyLoop(MatchMap(cards))
  }

  /** The puzzle answer: any unparsable line fails; part 1 never fails
      otherwise, and part 2 fails only on a card map that is not closed. */
  function Run(lines: seq<string>, part1: bool): (r: Result<nat>)
    ensures r.Ok? <==> ParseCards(lines).Ok? && (part1 || Closed(MatchMap(ParseCards(lines).value)))
    ensures r.Ok? && part1 ==> (r.value == 0 <==> forall c :: c in ParseCards(lines).value ==> Matches(c.have, c.winning) == 0)
    ensures r.Ok? && !part1 ==> r.value >= |MatchMap(ParseCards(lines).value).Keys|
  {
    var cards :- ParseCards(lines);
    if part1 then Ok(Part1(cards)) else Part2(cards)
  }

  // ------------------------------------------------ part 2, by definition

  /** The copies card `ids[k]` ends with: the original plus the copies of
      every earlier card whose winning range reaches it. */
  function Copies(ids: seq<nat>, mm: map<nat, nat>, k: nat): nat
    requires k < |ids| && forall t :: 0 <= t < |ids| ==> ids[t] in mm
    decreases k, 1
  {
    1 + Contrib(ids, mm, k, k)
  }

  /** The copies card `ids[k]` receives from the cards `ids[..j]`. */
  function Contrib(ids: seq<nat>, mm: map<nat, nat>, k: nat, j: nat): nat
    requires j <= k < |ids| && forall t :: 0 <= t < |ids| ==> ids[t] in mm
    decreases j, 0
  {
    if j == 0 then 0
    else
      Contrib(ids, mm, k, j - 1)
      + (if ids[j - 1] < ids[k] <= ids[j - 1] + mm[ids[j - 1]] then Copies(ids, mm, j - 1) else 0)
  }

  function SumCopies(ids: seq<nat>, mm: map<nat, nat>, i: nat): nat
    requires i <= |ids| && forall t :: 0 <= t < |ids| ==> ids[t] in mm
    decreases |ids| - i
  {
    if i == |ids| then 0 else Copies(ids, mm, i) + SumCopies(ids, mm, i + 1)
  }

  /** The loop fails exactly when some card's range runs past the known ids. */
  lemma {:induction false} PropagateOk(ids: seq<nat>, mm: map<nat, nat>, count: map<nat, nat>, i: nat)
    requires i <= |ids|
    requires forall k :: 0 <= k < |ids| ==> ids[k] in mm && ids[k] in count
    ensures Propagate(ids, mm, count, i).Ok? <==> RangesKnown(ids, mm, count, i)
    decreases |ids| - i
  {
    if i < |ids| {
      var id := ids[i];
      var r := AddCopies(count, id, mm[id], count[id]);
      if r.Ok? {
        PropagateOk(ids, mm, r.value, i + 1);
      }
    }
  }

  /** With the copy counts the earlier cards have handed out, the loop adds
      up exactly the defined copy counts. */
  lemma {:induction false} PropagateCopies(ids: seq<nat>, mm: map<nat, nat>, count: map<nat, nat>, i: nat)
    requires i <= |ids| && Increasing(ids)
    requires forall k :: 0 <= k < |ids| ==> ids[k] in mm && ids[k] in count
    requires forall k :: i <= k < |ids| ==> count[ids[k]] == 1 + Contrib(ids, mm, k, i)
    ensures Propagate(ids, mm, count, i).Ok? ==> Propagate(ids, mm, count, i).value == SumCopies(ids, mm, i)
    decreases |ids| - i
  {
    if i < |ids| {
      var id := ids[i];
      var c := count[id];
      assert c == Copies(ids, mm, i);
      var r := AddCopies(count, id, mm[id], c);
      if r.Ok? {
        forall k | i + 1 <= k < |ids|
          ensures r.value[ids[k]] == 1 + Contrib(ids, mm, k, i + 1)
        {
          assert id < ids[k];
        }
        PropagateCopies(ids, mm, r.value, i + 1);
      }
    }
  }

  lemma {:induction false} SumCopiesAtLeast(ids: seq<nat>, mm: map<nat, nat>, i: nat)
    requires i <= |ids| && forall t :: 0 <= t < |ids| ==> ids[t] in mm
    ensures SumCopies(ids, mm, i) >= |ids| - i
    decreases |ids| - i
  {
    if i < |ids| {
      SumCopiesAtLeast(ids, mm, i + 1);
    }
  }

  /** Every id the cards `ids[i..]` hand copies to is a key of `count`. */
  predicate RangesKnown(ids: seq<nat>, mm: map<nat, nat>, count: map<nat, nat>, i: nat)
    requires forall k :: 0 <= k < |ids| ==> ids[k] in mm
  {
    forall k, t :: i <= k < |ids| && ids[k] < t <= ids[k] + mm[ids[k]] ==> t in count
  }

  /** No card wins copies of an id that no card has. */
  predicate Closed(mm: map<nat, nat>) {
    forall id, t :: id in mm && id < t <= id + mm[id] ==> t in mm
  }

  lemma PropagateAllOk(mm: map<nat, nat>)
    ensures Propagate(Sorted(mm.Keys), mm, Ones(mm.Keys), 0).Ok? <==> Closed(mm)
  {
    var ids := Sorted(mm.Keys);
    var count := Ones(mm.Keys);
    assert forall k :: 0 <= k < |ids| ==> ids[k] in mm && ids[k] in count;
    PropagateOk(ids, mm, count, 0);
    ReachIff(ids, mm, count);
  }

  lemma ReachIff(ids: seq<nat>, mm: map<nat, nat>, count: map<nat, nat>)
    requires forall x :: x in mm <==> x in ids
    requires count.Keys == mm.Keys
    ensures RangesKnown(ids, mm, count, 0) <==> Closed(mm)
  {
    if RangesKnown(ids, mm, count, 0) {
      forall id, t | id in mm && id < t <= id + mm[id]
        ensures t in mm
      {
        var k :| 0 <= k < |ids| && ids[k] == id;
      }
    }
  }

  /** The part 2 total by definition: the copies of every distinct card. */
  function CopiesTotal(mm: map<nat, nat>): nat {
    SumCopies(Sorted(mm.Keys), mm, 0)
  }

  /** Part 2's loop over a card map: every id starts with one copy and the
      ids are visited in increasing order. It fails exactly when the map is
      not closed, and otherwise adds up to the total by definition, at least
      one per card. */
  function CopyLoop(mm: map<nat, nat>): (r: Result<nat>)
    ensures r.Ok? <==> Closed(mm)
    ensures r.Ok? ==> r.value == CopiesTotal(mm) >= |mm.Keys|
  {
    var ids := Sorted(mm.Keys);
    var count := Ones(mm.Keys);
    assert forall k :: 0 <= k < |ids| ==> ids[k] in mm && ids[k] in count;
    PropagateAllOk(mm);
    SortedTotal(mm);
    Propagate(ids, mm, count, 0)
  }

  lemma SortedTotal(mm: map<nat, nat>)
    ensures var ids := Sorted(mm.Keys);
            && (Propagate(ids, mm, Ones(mm.Keys), 0).Ok? ==> Propagate(ids, mm, Ones(mm.Keys), 0).value == SumCopies(ids, mm, 0))
            && SumCopies(ids, mm, 0) >= |mm.Keys|
  {
    OnesTotal(Sorted(mm.Keys), mm, mm.Keys);
  }

  lemma OnesTotal(ids: seq<nat>, mm: map<nat, nat>, keys: set<nat>)
    requires Increasing(ids)
    requires forall k :: 0 <= k < |ids| ==> ids[k] in mm && ids[k] in keys
    ensures Propagate(ids, mm, Ones(keys), 0).Ok? ==> Propagate(ids, mm, Ones(keys), 0).value == SumCopies(ids, mm, 0)
    ensures SumCopies(ids, mm, 0) >= |ids|
  {
    var count := Ones(keys);
    forall k | 0 <= k < |ids|
      ensures count[ids[k]] == 1 + Contrib(ids, mm, k, 0)
    {
    }
    PropagateCopies(ids, mm, count, 0);
    SumCopiesAtLeast(ids, mm, 0);
  }
}
