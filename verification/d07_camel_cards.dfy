/** Day 7: camel cards (src/d7.rs).

    A hand is five card values; 'J' is 11, or a joker of value 1 in part 2.
    Hands are ordered by their type, then card by card. */
module CamelCards {
  import opened Wrappers
  import opened Text
  import opened Collections

  /** `Cards([u8; 5])`. */
  type Cards = s: seq<nat> | |s| == 5 witness [0, 0, 0, 0, 0]

  /** The thirteen card characters. */
  predicate IsCard(c: char) {
    c == 'A' || c == 'K' || c == 'Q' || c == 'J' || c == 'T' || '2' <= c <= '9'
  }

  /** `parse_card`: A, K, Q, J, T and the digits 2 to 9; anything else is
      an error. */
  function ParseCard(c: char, jokers: bool): (r: Result<nat>)
    ensures r.Ok? <==> IsCard(c)
    ensures r.Ok? && c == 'J' ==> r.value == (if jokers then 1 else 11)
    ensures r.Ok? && c != 'J' ==> 2 <= r.value <= 14 && r.value != 11
  {
    match c
    case 'A' => Ok(14)
    case 'K' => Ok(13)
    case 'Q' => Ok(12)
    case 'J' => Ok(if jokers then 1 else 11)
    case 'T' => Ok(10)
    case _ => if '2' <= c <= '9' then Ok(DigitVal(c)) else Err("invalid card")
  }

  /** The card character for a value 2..14. */
  function ShowCard(v: nat): char
    requires 2 <= v <= 14
  {
    if v == 14 then 'A' else if v == 13 then 'K' else if v == 12 then 'Q'
    else if v == 11 then 'J' else if v == 10 then 'T' else DigitChar(v)
  }

  /** Without jokers, parsing inverts printing: every value 2..14 has a
      card, and the card reads back as that value. */
  lemma ParseShowCard(v: nat)
    requires 2 <= v <= 14
    ensures ParseCard(ShowCard(v), false) == Ok(v)
    ensures v != 11 ==> ParseCard(ShowCard(v), true) == Ok(v)
  {
  }

  // ------------------------------------------------------------ hand types

  /** `HandType`, weakest first. */
  datatype HandType = HighCard | OnePair | TwoPairs | ThreeOfAKind | FullHouse | FourOfAKind | FiveOfAKind

  /** The position in the declaration, which the derived order compares. */
  function Rank(t: HandType): nat {
    match t
    case HighCard => 0
    case OnePair => 1
    case TwoPairs => 2
    case ThreeOfAKind => 3
    case FullHouse => 4
    case FourOfAKind => 5
    case FiveOfAKind => 6
  }

  /** Declaration order is a strict total order on the seven types. */
  lemma RankInjective(a: HandType, b: HandType)
    ensures Rank(a) == Rank(b) <==> a == b
    ensures Rank(a) <= 6
  {
  }

  function MaxType(a: HandType, b: HandType): (r: HandType)
    ensures Rank(r) >= Rank(a) && Rank(r) >= Rank(b)
    ensures r == a || r == b
  {
    if Rank(b) > Rank(a) then b else a
  }

  /** The count `counters` records for value `v`. */
  function Mult(c: Cards, v: nat): nat {
    Ind(c[0] == v) + Ind(c[1] == v) + Ind(c[2] == v) + Ind(c[3] == v) + Ind(c[4] == v)
  }

  /** Some value occurs exactly `k` times: the counters' values contain `k`. */
  predicate HasCount(c: Cards, k: nat) {
    Mult(c, c[0]) == k || Mult(c, c[1]) == k || Mult(c, c[2]) == k || Mult(c, c[3]) == k || Mult(c, c[4]) == k
  }

  /** The positions whose value occurs exactly twice. Each counter equal
      to 2 accounts for two positions, so two such counters means four. */
  function InPairs(c: Cards): nat {
    Ind(Mult(c, c[0]) == 2) + Ind(Mult(c, c[1]) == 2) + Ind(Mult(c, c[2]) == 2)
    + Ind(Mult(c, c[3]) == 2) + Ind(Mult(c, c[4]) == 2)
  }

  /** The classification by value multiplicities of `hand_type` for a hand
      without jokers, tested in the order `hand_type` tests them. */
  function Classify(c: Cards): HandType {
    if HasCount(c, 5) then FiveOfAKind
    else if HasCount(c, 4) then FourOfAKind
    else if HasCount(c, 3) then (if HasCount(c, 2) then FullHouse else ThreeOfAKind)
    else if InPairs(c) == 4 then TwoPairs
    else if HasCount(c, 2) then OnePair
    else HighCard
  }

  /** The number of positions `i < j` holding equal values. */
  function EqualPairs(c: Cards): nat {
    Ind(c[0] == c[1]) + Ind(c[0] == c[2]) + Ind(c[0] == c[3]) + Ind(c[0] == c[4])
    + Ind(c[1] == c[2]) + Ind(c[1] == c[3]) + Ind(c[1] == c[4])
    + Ind(c[2] == c[3]) + Ind(c[2] == c[4])
    + Ind(c[3] == c[4])
  }

  /** Each type has its own number of equal pairs: 0, 1, 2, 3, 4, 6, 10. */
  function TypeOfPairs(p: nat): HandType {
    if p >= 10 then FiveOfAKind
    else if p >= 6 then FourOfAKind
    else if p >= 4 then FullHouse
    else if p == 3 then ThreeOfAKind
    else if p == 2 then TwoPairs
    else if p == 1 then OnePair
    else HighCard
  }

  /** The classification agrees with the independent count of equal pairs,
      so a stronger type always means more equal pairs. */
  lemma ClassifyByPairs(c: Cards)
    ensures Classify(c) == TypeOfPairs(EqualPairs(c))
    ensures EqualPairs(c) in {0, 1, 2, 3, 4, 6, 10}
  {
    if HasCount(c, 5) {
      FiveCase(c);
    } else if HasCount(c, 4) {
      FourCase(c);
    } else if HasCount(c, 3) {
      ThreeCase(c);
    } else {
      PairsCase(c);
    }
  }

  lemma FiveCase(c: Cards)
    requires HasCount(c, 5)
    ensures EqualPairs(c) == 10
  {
  }

  /** Four equal cards and a fifth: the four give six equal pairs. */
  lemma FourCase(c: Cards)
    requires !HasCount(c, 5) && HasCount(c, 4)
    ensures EqualPairs(c) == 6
  {
    MultSum(c);
  }

  /** Three equal cards give three equal pairs, and one more when the
      other two match. */
  lemma ThreeCase(c: Cards)
    requires !HasCount(c, 5) && !HasCount(c, 4) && HasCount(c, 3)
    ensures EqualPairs(c) == if HasCount(c, 2) then 4 else 3
  {
    MultSum(c);
  }

  /** Summing the multiplicity of every position counts each position once
      and each equal pair twice. */
  lemma MultSum(c: Cards)
    ensures Mult(c, c[0]) + Mult(c, c[1]) + Mult(c, c[2]) + Mult(c, c[3]) + Mult(c, c[4]) == 5 + 2 * EqualPairs(c)
  {
  }

  /** Without a group of three or more, every multiplicity is 1 or 2, so
      the equal pairs are half the positions lying in pairs. */
  lemma PairsCase(c: Cards)
    requires !HasCount(c, 5) && !HasCount(c, 4) && !HasCount(c, 3)
    ensures 2 * EqualPairs(c) == InPairs(c)
    ensures HasCount(c, 2) <==> InPairs(c) > 0
  {
    MultSum(c);
  }

  /** A hand without jokers has the type its equal pairs give. */
  lemma PlainType(c: Cards, t: HandType)
    requires 1 !in c && TypeOfPairs(EqualPairs(c)) == t
    ensures TypeOf(c) == t
  {
    ClassifyByPairs(c);
  }

  /** The seven hands of the typing test, one per type: the groups of
      equal values. */
  lemma TypeExamplesGroups()
    ensures TypeOf([11, 11, 11, 11, 11]) == FiveOfAKind
    ensures TypeOf([11, 11, 11, 11, 12]) == FourOfAKind
    ensures TypeOf([11, 11, 11, 12, 12]) == FullHouse
  {
    PlainType([11, 11, 11, 11, 11], FiveOfAKind);
    PlainType([11, 11, 11, 11, 12], FourOfAKind);
    PlainType([11, 11, 11, 12, 12], FullHouse);
  }

  /** The seven hands of the typing test: the weaker types. */
  lemma TypeExamplesWeak()
    ensures TypeOf([11, 11, 11, 12, 13]) == ThreeOfAKind
    ensures TypeOf([11, 11, 12, 12, 13]) == TwoPairs
    ensures TypeOf([11, 11, 12, 13, 14]) == OnePair
    ensures TypeOf([11, 12, 13, 14, 15]) == HighCard
  {
    PlainType([11, 11, 11, 12, 13], ThreeOfAKind);
    PlainType([11, 11, 12, 12, 13], TwoPairs);
    PlainType([11, 11, 12, 13, 14], OnePair);
    PlainType([11, 12, 13, 14, 15], HighCard);
  }

  // ---------------------------------------------------------------- jokers

  function Jokers(c: Cards): nat {
    Mult(c, 1)
  }

  /** `hand_type`: the first joker is tried as every value 2..14 and the
      best resulting type is kept; a hand without jokers is classified by
      its multiplicities. Every try has one joker fewer. */
  function TypeOf(c: Cards): (r: HandType)
    ensures 1 !in c ==> r == TypeOfPairs(EqualPairs(c))
    decreases Jokers(c), 1, 0
  {
    if 1 in c then
      BestTry(c, FirstJoker(c), 2, HighCard)
    else
      ClassifyByPairs(c);
      Classify(c)
  }

  /** The hand with the card at `i` replaced by `n`. */
  function Replace(c: Cards, i: nat, n: nat): (r: Cards)
    requires i < 5
    ensures r[i] == n && forall j :: 0 <= j < 5 && j != i ==> r[j] == c[j]
  {
    c[i := n]
  }

  function FirstJoker(c: Cards): (i: nat)
    requires 1 in c
    ensures i < 5 && c[i] == 1 && forall j :: 0 <= j < i ==> c[j] != 1
  {
    if c[0] == 1 then 0 else if c[1] == 1 then 1 else if c[2] == 1 then 2
    else if c[3] == 1 then 3 else 4
  }

  /** The loop over `n in 2..15`, keeping the best type so far. */
  function BestTry(c: Cards, i: nat, n: nat, best: HandType): HandType
    requires i < 5 && c[i] == 1 && 2 <= n <= 15
    decreases Jokers(c), 0, 15 - n
  {
    if n == 15 then best
    else BestTry(c, i, n + 1, MaxType(best, Try(c, i, n)))
  }

  /** The type of the hand with the joker at `i` replaced by `n`, one
      joker fewer. */
  function Try(c: Cards, i: nat, n: nat): HandType
    requires i < 5 && c[i] == 1 && 2 <= n < 15
    decreases Jokers(c), 0, 0
  {
    JokerReplaced(c, i, n);
    TypeOf(Replace(c, i, n))
  }

  lemma JokerReplaced(c: Cards, i: nat, n: nat)
    requires i < 5 && c[i] == 1 && n != 1
    ensures Jokers(Replace(c, i, n)) == Jokers(c) - 1
  {
  }

  /** The try loop never lowers the best type so far ... */
  lemma {:induction false} BestTryAtLeast(c: Cards, i: nat, n: nat, best: HandType)
    requires i < 5 && c[i] == 1 && 2 <= n <= 15
    ensures Rank(BestTry(c, i, n, best)) >= Rank(best)
    decreases 15 - n
  {
    if n < 15 {
      BestTryAtLeast(c, i, n + 1, MaxType(best, Try(c, i, n)));
    }
  }

  /** ... keeps at least the type of every try it makes ... */
  lemma {:induction false} BestTryBeats(c: Cards, i: nat, n: nat, best: HandType, m: nat)
    requires i < 5 && c[i] == 1 && 2 <= n <= m < 15
    ensures Rank(BestTry(c, i, n, best)) >= Rank(Try(c, i, m))
    decreases 15 - n
  {
    var best' := MaxType(best, Try(c, i, n));
    if n == m {
      BestTryAtLeast(c, i, n + 1, best');
    } else {
      BestTryBeats(c, i, n + 1, best', m);
    }
  }

  /** `t` is the type of one of the tries `n..14`. */
  predicate TriedFrom(c: Cards, i: nat, n: nat, t: HandType)
    requires i < 5 && c[i] == 1 && 2 <= n
  {
    exists m :: n <= m < 15 && t == Try(c, i, m)
  }

  /** ... and ends with the start or the type of one of its tries. */
  lemma {:induction false} BestTrySome(c: Cards, i: nat, n: nat, best: HandType)
    requires i < 5 && c[i] == 1 && 2 <= n <= 15
    ensures BestTry(c, i, n, best) == best || TriedFrom(c, i, n, BestTry(c, i, n, best))
    decreases 15 - n
  {
    if n < 15 {
      var best' := MaxType(best, Try(c, i, n));
      BestTrySome(c, i, n + 1, best');
      var r := BestTry(c, i, n + 1, best');
      assert BestTry(c, i, n, best) == r;
      if r != best {
        if r == best' {
          assert r == Try(c, i, n);
        } else {
          var m :| n + 1 <= m < 15 && r == Try(c, i, m);
          assert n <= m < 15;
        }
        assert TriedFrom(c, i, n, r);
      }
    }
  }

  /** With a joker, the type is at least as strong as each of the first
      joker's thirteen replacements ... */
  lemma JokerIsBestReplacement(c: Cards, m: nat)
    requires 1 in c && 2 <= m < 15
    ensures Rank(TypeOf(c)) >= Rank(TypeOf(Replace(c, FirstJoker(c), m)))
  {
    BestTryBeats(c, FirstJoker(c), 2, HighCard, m);
  }

  /** ... and is the type of one of them. */
  lemma JokerIsSomeReplacement(c: Cards)
    requires 1 in c
    ensures exists m :: 2 <= m < 15 && TypeOf(c) == TypeOf(Replace(c, FirstJoker(c), m))
  {
    var i := FirstJoker(c);
    BestTrySome(c, i, 2, HighCard);
    if TypeOf(c) == HighCard {
      BestTryBeats(c, i, 2, HighCard, 2);
      assert TypeOf(c) == Try(c, i, 2);
      assert TypeOf(c) == TypeOf(Replace(c, i, 2));
    } else {
      var m :| 2 <= m < 15 && TypeOf(c) == Try(c, i, m);
      assert TypeOf(c) == TypeOf(Replace(c, i, m));
    }
  }

  /** A hand whose only joker leads has the type `t` when `t` is the
      type reached by replacing the joker with a most frequent other card
      `w`. */
  lemma SingleJoker(c: Cards, w: nat, t: HandType)
    requires c[0] == 1 && c[1] != 1 && c[2] != 1 && c[3] != 1 && c[4] != 1 && 2 <= w < 15
    requires Mult(c, c[1]) <= Mult(c, w) && Mult(c, c[2]) <= Mult(c, w)
    requires Mult(c, c[3]) <= Mult(c, w) && Mult(c, c[4]) <= Mult(c, w)
    requires TypeOfPairs(EqualPairs(Replace(c, 0, w))) == t
    ensures TypeOf(c) == t
  {
    assert FirstJoker(c) == 0;
    JokerIsSomeReplacement(c);
    var m :| 2 <= m < 15 && TypeOf(c) == TypeOf(Replace(c, 0, m));
    var cm, cw := Replace(c, 0, m), Replace(c, 0, w);
    assert 1 !in cm by { assert forall k :: 0 <= k < 5 ==> cm[k] != 1; }
    assert 1 !in cw by { assert forall k :: 0 <= k < 5 ==> cw[k] != 1; }
    PlainType(cm, TypeOfPairs(EqualPairs(cm)));
    PlainType(cw, t);
    MostFrequentJoker(c, m, w);
    TypeOfPairsMonotone(EqualPairs(cm), EqualPairs(cw));
    JokerIsBestReplacement(c, w);
    RankInjective(TypeOf(c), t);
  }

  lemma MostFrequentJoker(c: Cards, m: nat, w: nat)
    requires c[0] == 1 && c[1] != 1 && c[2] != 1 && c[3] != 1 && c[4] != 1 && m != 1 && w != 1
    requires Mult(c, c[1]) <= Mult(c, w) && Mult(c, c[2]) <= Mult(c, w)
    requires Mult(c, c[3]) <= Mult(c, w) && Mult(c, c[4]) <= Mult(c, w)
    ensures EqualPairs(Replace(c, 0, m)) <= EqualPairs(Replace(c, 0, w))
  {
    var b := Ind(c[1] == c[2]) + Ind(c[1] == c[3]) + Ind(c[1] == c[4])
             + Ind(c[2] == c[3]) + Ind(c[2] == c[4]) + Ind(c[3] == c[4]);
    assert EqualPairs(Replace(c, 0, m)) == b + Mult(c, m);
    assert EqualPairs(Replace(c, 0, w)) == b + Mult(c, w);
  }

  lemma TypeOfPairsMonotone(p: nat, q: nat)
    requires p <= q
    ensures Rank(TypeOfPairs(p)) <= Rank(TypeOfPairs(q))
  {
  }

  /** The seven hands of the joker test; a joker joins the largest group,
      and with no group it makes a pair. */
  lemma JokerFiveExample()
    ensures TypeOf([1, 11, 11, 11, 11]) == FiveOfAKind
  {
    SingleJoker([1, 11, 11, 11, 11], 11, FiveOfAKind);
  }

  lemma JokerFourExample()
    ensures TypeOf([1, 11, 11, 11, 12]) == FourOfAKind
  {
    SingleJoker([1, 11, 11, 11, 12], 11, FourOfAKind);
  }

  lemma JokerFullHouseExample()
    ensures TypeOf([1, 11, 11, 12, 12]) == FullHouse
  {
    SingleJoker([1, 11, 11, 12, 12], 11, FullHouse);
  }

  lemma JokerThreeExamples()
    ensures TypeOf([1, 11, 11, 12, 13]) == ThreeOfAKind
    ensures TypeOf([1, 11, 12, 12, 13]) == ThreeOfAKind
  {
    SingleJoker([1, 11, 11, 12, 13], 11, ThreeOfAKind);
    SingleJoker([1, 11, 12, 12, 13], 12, ThreeOfAKind);
  }

  lemma JokerPairExamples()
    ensures TypeOf([1, 11, 12, 13, 14]) == OnePair
    ensures TypeOf([1, 12, 13, 14, 15]) == OnePair
  {
    JokerPairWithJack();
    JokerPairWithQueen();
  }

  lemma JokerPairWithJack()
    ensures TypeOf([1, 11, 12, 13, 14]) == OnePair
  {
    SingleJoker([1, 11, 12, 13, 14], 11, OnePair);
  }

  lemma JokerPairWithQueen()
    ensures TypeOf([1, 12, 13, 14, 15]) == OnePair
  {
    SingleJoker([1, 12, 13, 14, 15], 12, OnePair);
  }

  /** Every joker read as 'J' (value 11). */
  function JokersAsJacks(c: Cards): (r: Cards)
    ensures 1 !in r
    ensures forall i :: 0 <= i < 5 ==> r[i] == if c[i] == 1 then 11 else c[i]
  {
    [if c[0] == 1 then 11 else c[0], if c[1] == 1 then 11 else c[1], if c[2] == 1 then 11 else c[2],
     if c[3] == 1 then 11 else c[3], if c[4] == 1 then 11 else c[4]]
  }

  /** Jokers only help: a hand with jokers is at least as strong as the
      same hand with every joker read as a plain 'J'. */
  lemma {:induction false} JokersOnlyHelp(c: Cards)
    ensures Rank(TypeOf(c)) >= Rank(Classify(JokersAsJacks(c)))
    decreases Jokers(c)
  {
    if 1 in c {
      var i := FirstJoker(c);
      var c' := Replace(c, i, 11);
      JokerReplaced(c, i, 11);
      JokerIsBestReplacement(c, 11);
      JokersOnlyHelp(c');
      assert JokersAsJacks(c') == JokersAsJacks(c);
    } else {
      assert JokersAsJacks(c) == c;
    }
  }

  // -------------------------------------------------------------- ordering

  datatype Ordering = Less | Equal | Greater

  function Flip(o: Ordering): Ordering {
    match o
    case Less => Greater
    case Equal => Equal
    case Greater => Less
  }

  function CompareNat(a: nat, b: nat): (r: Ordering)
    ensures r == Equal <==> a == b
    ensures r == Less <==> a < b
  {
    if a < b then Less else if a > b then Greater else Equal
  }

  /** The card-by-card comparison from position `i` on. */
  function CompareFrom(a: Cards, b: Cards, i: nat): (r: Ordering)
    requires i <= 5
    ensures r == Equal <==> a[i..] == b[i..]
    decreases 5 - i
  {
    if i == 5 then Equal
    else if a[i] != b[i] then
      assert a[i..][0] == a[i];
      CompareNat(a[i], b[i])
    else
      assert a[i..] == [a[i]] + a[i + 1..] && b[i..] == [b[i]] + b[i + 1..];
      CompareFrom(a, b, i + 1)
  }

  /** The comparison is lexicographic: `a` is less exactly when, at the
      first position where the hands differ, `a` holds the smaller card. */
  lemma {:induction false} CompareFromLess(a: Cards, b: Cards, i: nat)
    requires i <= 5
    ensures CompareFrom(a, b, i) == Less <==> exists k :: i <= k < 5 && a[k] < b[k] && a[i..k] == b[i..k]
    decreases 5 - i
  {
    if i < 5 {
      if a[i] == b[i] {
        CompareFromLess(a, b, i + 1);
        if CompareFrom(a, b, i) == Less {
          var k :| i + 1 <= k < 5 && a[k] < b[k] && a[i + 1..k] == b[i + 1..k];
          assert a[i..k] == [a[i]] + a[i + 1..k] && b[i..k] == [b[i]] + b[i + 1..k];
        }
        if exists k :: i <= k < 5 && a[k] < b[k] && a[i..k] == b[i..k] {
          var k :| i <= k < 5 && a[k] < b[k] && a[i..k] == b[i..k];
          assert a[i + 1..k] == a[i..k][1..] && b[i + 1..k] == b[i..k][1..];
        }
      } else {
        assert a[i..i] == b[i..i];
        assert forall k :: i < k <= 5 ==> a[i..k][0] == a[i] && b[i..k][0] == b[i];
      }
    }
  }

  /** `Ord for Cards`: the type first, then the first differing card. */
  function Compare(a: Cards, b: Cards): (r: Ordering)
    ensures r == Equal <==> a == b
    ensures Rank(TypeOf(a)) < Rank(TypeOf(b)) ==> r == Less
    ensures Rank(TypeOf(a)) > Rank(TypeOf(b)) ==> r == Greater
  {
    var t := CompareNat(Rank(TypeOf(a)), Rank(TypeOf(b)));
    assert a[0..] == a && b[0..] == b;
    if t != Equal then t else CompareFrom(a, b, 0)
  }

  /** `cmp` reports Equal only for identical hands, and swapping the
      arguments flips the answer. */
  lemma CompareEqualSymmetric(a: Cards, b: Cards)
    ensures Compare(a, b) == Equal <==> a == b
    ensures Compare(b, a) == Flip(Compare(a, b))
  {
    assert a[0..] == a && b[0..] == b;
    CompareFromFlip(a, b, 0);
  }

  lemma {:induction false} CompareFromFlip(a: Cards, b: Cards, i: nat)
    requires i <= 5
    ensures CompareFrom(b, a, i) == Flip(CompareFrom(a, b, i))
    decreases 5 - i
  {
    if i < 5 && a[i] == b[i] {
      CompareFromFlip(a, b, i + 1);
    }
  }

  /** `cmp` is transitive. */
  lemma CompareTransitive(a: Cards, b: Cards, c: Cards)
    requires Compare(a, b) == Less && Compare(b, c) == Less
    ensures Compare(a, c) == Less
  {
    if Rank(TypeOf(a)) == Rank(TypeOf(c)) {
      CompareFromTransitive(a, b, c, 0);
    }
  }

  lemma {:induction false} CompareFromTransitive(a: Cards, b: Cards, c: Cards, i: nat)
    requires i <= 5
    requires CompareFrom(a, b, i) == Less && CompareFrom(b, c, i) == Less
    ensures CompareFrom(a, c, i) == Less
    decreases 5 - i
  {
    if a[i] == b[i] && b[i] == c[i] {
      CompareFromTransitive(a, b, c, i + 1);
    }
  }

  /** The expected result of the sorting test is strictly ascending, so
      it is the order any sort under `cmp` produces for those hands. */
  lemma SortExample()
    ensures Compare([11, 12, 13, 14, 10], [11, 11, 12, 13, 14]) == Less
    ensures Compare([11, 11, 12, 13, 14], [11, 11, 12, 12, 13]) == Less
  {
    PlainType([11, 12, 13, 14, 10], HighCard);
    PlainType([11, 11, 12, 13, 14], OnePair);
    PlainType([11, 11, 12, 12, 13], TwoPairs);
  }

  lemma SortExampleMiddle()
    ensures Compare([11, 11, 12, 12, 13], [11, 11, 11, 12, 13]) == Less
    ensures Compare([11, 11, 11, 12, 13], [11, 11, 11, 12, 12]) == Less
  {
    PlainType([11, 11, 12, 12, 13], TwoPairs);
    PlainType([11, 11, 11, 12, 13], ThreeOfAKind);
    PlainType([11, 11, 11, 12, 12], FullHouse);
  }

  lemma SortExampleStrong()
    ensures Compare([11, 11, 11, 12, 12], [11, 11, 11, 11, 12]) == Less
    ensures Compare([11, 11, 11, 11, 12], [11, 11, 11, 11, 11]) == Less
  {
    PlainType([11, 11, 11, 12, 12], FullHouse);
    PlainType([11, 11, 11, 11, 12], FourOfAKind);
    PlainType([11, 11, 11, 11, 11], FiveOfAKind);
  }

  // ------------------------------------------------------------------- run

  datatype Hand = Hand(cards: Cards, bid: nat)

  predicate LessEq(a: Hand, b: Hand) {
    Compare(a.cards, b.cards) != Greater
  }

  predicate SortedHands(hs: seq<Hand>) {
    forall i, j :: 0 <= i < j < |hs| ==> LessEq(hs[i], hs[j])
  }

  /** Inserts `h` in front of the first hand it is not greater than, so
      it goes before the hands with equal cards. */
  function Insert(h: Hand, hs: seq<Hand>): (r: seq<Hand>)
    requires SortedHands(hs)
    ensures multiset(r) == multiset(hs) + multiset{h}
    ensures SortedHands(r)
  {
    if |hs| == 0 then [h]
    else if LessEq(h, hs[0]) then
      InsertFront(h, hs);
      [h] + hs
    else
      var rest := Insert(h, hs[1..]);
      CompareEqualSymmetric(h.cards, hs[0].cards);
      InsertLater(h, hs, rest);
      [hs[0]] + rest
  }

  lemma InsertLater(h: Hand, hs: seq<Hand>, rest: seq<Hand>)
    requires SortedHands(hs) && |hs| > 0 && LessEq(hs[0], h)
    requires SortedHands(rest) && multiset(rest) == multiset(hs[1..]) + multiset{h}
    ensures SortedHands([hs[0]] + rest)
    ensures multiset([hs[0]] + rest) == multiset(hs) + multiset{h}
  {
    forall x | x in multiset(rest) ensures LessEq(hs[0], x) {
      if x != h {
        assert x in multiset(hs[1..]);
        var j :| 0 <= j < |hs[1..]| && hs[1..][j] == x;
        assert hs[j + 1] == x;
      }
    }
    ConsSorted(hs[0], rest);
    ConsSplit(hs);
  }

  lemma InsertFront(h: Hand, hs: seq<Hand>)
    requires SortedHands(hs) && |hs| > 0 && LessEq(h, hs[0])
    ensures SortedHands([h] + hs)
  {
    CompareEqualSymmetric(h.cards, hs[0].cards);
    forall j | 0 < j < |hs|
      ensures LessEq(h, hs[j])
    {
      if Compare(hs[0].cards, hs[j].cards) == Less {
        if Compare(h.cards, hs[0].cards) == Less {
          CompareTransitive(h.cards, hs[0].cards, hs[j].cards);
        }
      } else {
        CompareEqualSymmetric(hs[0].cards, hs[j].cards);
      }
    }
  }

  lemma ConsSorted(h: Hand, rest: seq<Hand>)
    requires SortedHands(rest)
    requires forall x :: x in multiset(rest) ==> LessEq(h, x)
    ensures SortedHands([h] + rest)
  {
    forall j | 0 <= j < |rest|
      ensures LessEq(h, rest[j])
    {
      assert rest[j] in multiset(rest);
    }
    var r := [h] + rest;
    forall i, j | 0 <= i < j < |r|
      ensures LessEq(r[i], r[j])
    {
      assert r[j] == rest[j - 1];
      if i > 0 {
        assert r[i] == rest[i - 1];
      }
    }
  }

  /** `hands.sort_by_key(|h| h.cards)`: an ordering of the same hands,
      ascending under `cmp`. */
  function SortHands(hs: seq<Hand>): (r: seq<Hand>)
    ensures multiset(r) == multiset(hs)
    ensures SortedHands(r)
  {
    if |hs| == 0 then []
    else
      assert hs == [hs[0]] + hs[1..];
      Insert(hs[0], SortHands(hs[1..]))
  }

  /** The hands holding exactly the cards `c`, in their order in `hs`. */
  function WithCards(hs: seq<Hand>, c: Cards): seq<Hand> {
    if |hs| == 0 then []
    else (if hs[0].cards == c then [hs[0]] else []) + WithCards(hs[1..], c)
  }

  /** `r` lists the hands of every card sequence in the order `hs` does:
      what a stable sort such as `sort_by_key` keeps. */
  ghost predicate Stable(r: seq<Hand>, hs: seq<Hand>) {
    forall c :: WithCards(r, c) == WithCards(hs, c)
  }

  /** Inserting puts `h` in front of every hand with the same cards. */
  lemma {:induction false} InsertStable(h: Hand, hs: seq<Hand>, c: Cards)
    requires SortedHands(hs)
    ensures WithCards(Insert(h, hs), c) == WithCards([h] + hs, c)
    decreases |hs|
  {
    if |hs| > 0 && !LessEq(h, hs[0]) {
      var rest := Insert(h, hs[1..]);
      InsertStable(h, hs[1..], c);
      CompareEqualSymmetric(h.cards, hs[0].cards);
      ConsSplit(hs);
      SwapStable(h, hs[0], hs[1..], rest, Insert(h, hs), c);
    }
  }

  /** The hands of `c` in a sequence with `x` in front. */
  lemma WithCardsCons(x: Hand, s: seq<Hand>, c: Cards)
    ensures WithCards([x] + s, c) == (if x.cards == c then [x] else []) + WithCards(s, c)
  {
    assert ([x] + s)[1..] == s;
  }

  /** Moving `h` behind a hand with other cards keeps the hands of every
      card sequence in order. */
  lemma SwapStable(h: Hand, x: Hand, tail: seq<Hand>, rest: seq<Hand>, r: seq<Hand>, c: Cards)
    requires h.cards != x.cards && r == [x] + rest
    requires WithCards(rest, c) == WithCards([h] + tail, c)
    ensures WithCards(r, c) == WithCards([h] + ([x] + tail), c)
  {
    WithCardsCons(x, rest, c);
    WithCardsCons(h, tail, c);
    WithCardsCons(x, tail, c);
    WithCardsCons(h, [x] + tail, c);
    SwapEmpty(if x.cards == c then [x] else [], if h.cards == c then [h] else [], WithCards(tail, c));
  }

  /** The sort is stable: hands with equal cards keep their input order. */
  lemma {:induction false} SortHandsStable(hs: seq<Hand>)
    ensures Stable(SortHands(hs), hs)
    decreases |hs|
  {
    if |hs| > 0 {
      var rest := SortHands(hs[1..]);
      SortHandsStable(hs[1..]);
      forall c ensures WithCards(SortHands(hs), c) == WithCards(hs, c) {
        InsertStable(hs[0], rest, c);
        assert ([hs[0]] + rest)[1..] == rest;
      }
    }
  }

  /** Two sorted, stable orderings of the same hands are the same
      ordering: the stable sort fixes the ranks even when cards tie. */
  lemma {:induction false} SortedStableUnique(a: seq<Hand>, b: seq<Hand>)
    requires multiset(a) == multiset(b)
    requires SortedHands(a) && SortedHands(b)
    requires forall c :: WithCards(a, c) == WithCards(b, c)
    ensures a == b
    decreases |a|
  {
    if |a| == 0 {
      assert |multiset(b)| == 0;
    } else {
      assert |b| == |multiset(b)| == |multiset(a)| == |a|;
      SameFirst(a, b);
      TailsAgree(a, b);
      MultisetTail(a, b);
      SortedTail(a);
      SortedTail(b);
      SortedStableUnique(a[1..], b[1..]);
    }
  }

  /** The first hands of two sorted orderings of the same hands hold the
      same cards. */
  lemma SameFirstCards(a: seq<Hand>, b: seq<Hand>)
    requires multiset(a) == multiset(b) && |a| > 0 && |b| > 0
    requires SortedHands(a) && SortedHands(b)
    ensures a[0].cards == b[0].cards
  {
    assert a[0] in multiset(b) && b[0] in multiset(a);
    var i :| 0 <= i < |b| && b[i] == a[0];
    var j :| 0 <= j < |a| && a[j] == b[0];
    assert LessEq(b[0], a[0]) by {
      if i > 0 {
        assert LessEq(b[0], b[i]);
      }
    }
    assert LessEq(a[0], b[0]) by {
      if j > 0 {
        assert LessEq(a[0], a[j]);
      }
    }
    CompareEqualSymmetric(a[0].cards, b[0].cards);
  }

  lemma SameFirst(a: seq<Hand>, b: seq<Hand>)
    requires multiset(a) == multiset(b) && |a| > 0 && |b| > 0
    requires SortedHands(a) && SortedHands(b)
    requires forall c :: WithCards(a, c) == WithCards(b, c)
    ensures a[0] == b[0]
  {
    SameFirstCards(a, b);
    SameHead(a, b, a[0].cards);
  }

  /** Two lists that start with hands of the same cards, and list the hands
      of those cards alike, start with the same hand. */
  lemma SameHead(a: seq<Hand>, b: seq<Hand>, c: Cards)
    requires |a| > 0 && |b| > 0 && a[0].cards == c && b[0].cards == c
    requires WithCards(a, c) == WithCards(b, c)
    ensures a[0] == b[0]
  {
    assert WithCards(a, c) == [a[0]] + WithCards(a[1..], c);
    assert WithCards(b, c) == [b[0]] + WithCards(b[1..], c);
  }

  lemma TailsAgree(a: seq<Hand>, b: seq<Hand>)
    requires |a| > 0 && |b| > 0 && a[0] == b[0]
    requires forall c :: WithCards(a, c) == WithCards(b, c)
    ensures forall c :: WithCards(a[1..], c) == WithCards(b[1..], c)
  {
    forall c ensures WithCards(a[1..], c) == WithCards(b[1..], c) {
      TailAgrees(a, b, c);
    }
  }

  lemma TailAgrees(a: seq<Hand>, b: seq<Hand>, c: Cards)
    requires |a| > 0 && |b| > 0 && a[0] == b[0]
    requires WithCards(a, c) == WithCards(b, c)
    ensures WithCards(a[1..], c) == WithCards(b[1..], c)
  {
    var p := if a[0].cards == c then [a[0]] else [];
    assert WithCards(a, c) == p + WithCards(a[1..], c);
    assert WithCards(b, c) == p + WithCards(b[1..], c);
    assert WithCards(a[1..], c) == WithCards(a, c)[|p|..];
    assert WithCards(b[1..], c) == WithCards(b, c)[|p|..];
  }

  lemma MultisetTail(a: seq<Hand>, b: seq<Hand>)
    requires multiset(a) == multiset(b) && |a| > 0 && |b| > 0 && a[0] == b[0]
    ensures multiset(a[1..]) == multiset(b[1..])
  {
    assert a == [a[0]] + a[1..] && b == [b[0]] + b[1..];
    assert multiset(a) == multiset{a[0]} + multiset(a[1..]);
    assert multiset(b) == multiset{b[0]} + multiset(b[1..]);
    assert multiset(a[1..]) == multiset(a) - multiset{a[0]};
    assert multiset(b[1..]) == multiset(b) - multiset{b[0]};
  }

  lemma SortedTail(hs: seq<Hand>)
    requires SortedHands(hs) && |hs| > 0
    ensures SortedHands(hs[1..])
  {
    forall i, j | 0 <= i < j < |hs| - 1 ensures LessEq(hs[1..][i], hs[1..][j]) {
      assert hs[1..][i] == hs[i + 1] && hs[1..][j] == hs[j + 1];
    }
  }

  /** Hands with the same cards come out in input order, so with bids 1
      and 2 the later hand ranks second. */
  lemma TiesKeepOrder(c: Cards, b1: nat, b2: nat)
    ensures SortHands([Hand(c, b1), Hand(c, b2)]) == [Hand(c, b1), Hand(c, b2)]
    ensures Winnings(SortHands([Hand(c, b1), Hand(c, b2)])) == b1 + 2 * b2
  {
    CompareEqualSymmetric(c, c);
    var hs := [Hand(c, b1), Hand(c, b2)];
    assert hs[1..] == [Hand(c, b2)];
    assert SortHands([Hand(c, b2)]) == [Hand(c, b2)] by {
      assert [Hand(c, b2)][1..] == [];
    }
    assert Insert(Hand(c, b1), [Hand(c, b2)]) == hs;
    assert hs[..1] == [Hand(c, b1)];
    assert Winnings([Hand(c, b1)]) == b1 by {
      assert [Hand(c, b1)][..0] == [];
    }
  }

  /** The total winnings: each bid times its 1-based rank. */
  function Winnings(hs: seq<Hand>): (r: nat)
    ensures r == 0 <==> forall i :: 0 <= i < |hs| ==> hs[i].bid == 0
    ensures forall i :: 0 <= i < |hs| ==> (i + 1) * hs[i].bid <= r
  {
    if |hs| == 0 then 0
    else
      var init := hs[..|hs| - 1];
      var w := Winnings(init);
      WinningsSnoc(hs, init, w);
      w + |hs| * hs[|hs| - 1].bid
  }

  /** One more hand on top, on the values alone: it adds its bid times the
      new hand count, which is 0 exactly when the bid is. */
  lemma WinningsSnoc(hs: seq<Hand>, init: seq<Hand>, w: nat)
    requires |hs| > 0 && init == hs[..|hs| - 1]
    requires w == 0 <==> forall i :: 0 <= i < |init| ==> init[i].bid == 0
    requires forall i :: 0 <= i < |init| ==> (i + 1) * init[i].bid <= w
    ensures var r := w + |hs| * hs[|hs| - 1].bid;
            && (r == 0 <==> forall i :: 0 <= i < |hs| ==> hs[i].bid == 0)
            && forall i :: 0 <= i < |hs| ==> (i + 1) * hs[i].bid <= r
  {
    var n, b := |hs|, hs[|hs| - 1].bid;
    assert forall i :: 0 <= i < |init| ==> init[i] == hs[i];
    assert n * b == 0 <==> b == 0 by {
      if b > 0 {
        assert n * b >= 1 * b;
      }
    }
  }

  /** Every hand wins at least its bid, and at most its bid times the
      number of hands. */
  lemma {:induction false} WinningsBounds(hs: seq<Hand>)
    ensures BidSum(hs) <= Winnings(hs) <= |hs| * BidSum(hs)
    decreases |hs|
  {
    if |hs| > 0 {
      var n := |hs|;
      var init, b := hs[..n - 1], hs[n - 1].bid;
      WinningsBounds(init);
      BidSumLast(hs);
      assert Winnings(hs) == Winnings(init) + n * b;
      BoundsStep(n, Winnings(init), BidSum(init), b);
    }
  }

  lemma BoundsStep(n: nat, w: nat, b': nat, b: nat)
    requires n >= 1 && b' <= w <= (n - 1) * b'
    ensures b' + b <= w + n * b <= n * (b' + b)
  {
    assert n * b >= b;
    assert (n - 1) * b' <= n * b';
    assert n * (b' + b) == n * b' + n * b;
  }

  function BidSum(hs: seq<Hand>): nat {
    if |hs| == 0 then 0 else hs[0].bid + BidSum(hs[1..])
  }

  lemma {:induction false} BidSumLast(hs: seq<Hand>)
    requires |hs| > 0
    ensures BidSum(hs) == BidSum(hs[..|hs| - 1]) + hs[|hs| - 1].bid
    decreases |hs|
  {
    if |hs| > 1 {
      assert hs[1..][..|hs| - 2] == hs[..|hs| - 1][1..];
      BidSumLast(hs[1..]);
    }
  }

  /** One line: five cards, one separator character, then the bid. A
      line too short for the bid, a bad card or a bad bid is an error. */
  function ParseHand(line: string, jokers: bool): (r: Result<Hand>)
    ensures r.Ok? <==> (|line| >= 6 && (forall i :: 0 <= i < 5 ==> ParseCard(line[i], jokers).Ok?)
                        && ParseNat(line[6..]).Some?)
    ensures r.Ok? ==> (forall i :: 0 <= i < 5 ==> r.value.cards[i] == ParseCard(line[i], jokers).value)
                      && Some(r.value.bid) == ParseNat(line[6..])
  {
    if |line| < 6 then Err("line too short")
    else
      var c0 :- ParseCard(line[0], jokers);
      var c1 :- ParseCard(line[1], jokers);
      var c2 :- ParseCard(line[2], jokers);
      var c3 :- ParseCard(line[3], jokers);
      var c4 :- ParseCard(line[4], jokers);
      var bid :- OkOr(ParseNat(line[6..]), "bid is not a number");
      Ok(Hand([c0, c1, c2, c3, c4], bid))
  }

  /** A printed hand reads back as itself. */
  lemma ParseShowHand(h: Hand, sep: char)
    requires forall i :: 0 <= i < 5 ==> 2 <= h.cards[i] <= 14
    ensures ParseHand(ShowHand(h, sep), false) == Ok(h)
  {
    var line := ShowHand(h, sep);
    ShowHandParts(h, sep);
    ParseShowNat(h.bid);
    var r := ParseHand(line, false);
    assert r.Ok?;
    assert r.value.cards == h.cards;
  }

  lemma ShowHandParts(h: Hand, sep: char)
    requires forall i :: 0 <= i < 5 ==> 2 <= h.cards[i] <= 14
    ensures |ShowHand(h, sep)| >= 6 && ShowHand(h, sep)[6..] == ShowNat(h.bid)
    ensures forall i :: 0 <= i < 5 ==> ParseCard(ShowHand(h, sep)[i], false) == Ok(h.cards[i])
  {
    var line := ShowHand(h, sep);
    forall i | 0 <= i < 5 ensures ParseCard(line[i], false) == Ok(h.cards[i]) {
      assert line[i] == ShowCard(h.cards[i]);
      ParseShowCard(h.cards[i]);
    }
  }

  function ShowHand(h: Hand, sep: char): string
    requires forall i :: 0 <= i < 5 ==> 2 <= h.cards[i] <= 14
  {
    [ShowCard(h.cards[0]), ShowCard(h.cards[1]), ShowCard(h.cards[2]), ShowCard(h.cards[3]),
     ShowCard(h.cards[4]), sep] + ShowNat(h.bid)
  }

  function ParseHands(lines: seq<string>, jokers: bool): (r: Result<seq<Hand>>)
    ensures r.Ok? <==> forall i :: 0 <= i < |lines| ==> ParseHand(lines[i], jokers).Ok?
    ensures r.Ok? ==> |r.value| == |lines|
                      && forall i :: 0 <= i < |lines| ==> r.value[i] == ParseHand(lines[i], jokers).value
  {
    MapAllOk(lines, (line: string) => ParseHand(line, jokers))
  }

  /** `run`: the winnings of the hands in ascending order; 'J' is a joker
      in part 2. */
  function Run(lines: seq<string>, part1: bool): (r: Result<nat>)
    ensures r.Ok? <==> forall i :: 0 <= i < |lines| ==> ParseHand(lines[i], !part1).Ok?
    ensures r.Ok? ==> exists sorted :: multiset(sorted) == multiset(ParseHands(lines, !part1).value)
                                       && SortedHands(sorted) && Stable(sorted, ParseHands(lines, !part1).value)
                                       && r.value == Winnings(sorted)
  {
    var hands :- ParseHands(lines, !part1);
    var sorted := SortHands(hands);
    SortHandsStable(hands);
    Ok(Winnings(sorted))
  }

  /** The answer does not depend on how ties are broken beyond input
      order: every sorted, stable ordering of the parsed hands has the
      winnings `run` returns. */
  lemma RunUnique(lines: seq<string>, part1: bool, sorted: seq<Hand>)
    requires ParseHands(lines, !part1).Ok?
    requires multiset(sorted) == multiset(ParseHands(lines, !part1).value)
    requires SortedHands(sorted) && Stable(sorted, ParseHands(lines, !part1).value)
    ensures Run(lines, part1) == Ok(Winnings(sorted))
  {
    var hands := ParseHands(lines, !part1).value;
    SortHandsStable(hands);
    SortedStableUnique(sorted, SortHands(hands));
  }
}
