/** Day 5: the almanac (src/d5.rs).

    Seeds pass through a chain of mappings. A mapping is a list of remaps,
    each translating the window [src, src + length) to [dst, dst + length);
    a value no window covers passes through unchanged. The solution maps
    whole ranges at once by cutting each range into the parts before,
    inside and after a window. */
module Almanac {
  import opened Wrappers
  import opened Text

  /** The values start .. start + length − 1. */
  datatype Range = Range(start: nat, length: nat)

  datatype Remap = Remap(dst: nat, src: nat, length: nat)

  datatype Mapping = Mapping(remaps: seq<Remap>)

  datatype Almanac = Almanac(seeds: seq<Range>, mappings: seq<Mapping>)

  function End(r: Range): nat {
    r.start + r.length
  }

  predicate InRange(r: Range, v: int) {
    r.start <= v < r.start + r.length
  }

  /** `v` lies in one of the ranges. */
  predicate InRanges(rs: seq<Range>, v: int) {
    |rs| > 0 && (InRange(rs[0], v) || InRanges(rs[1..], v))
  }

  lemma {:induction false} InRangesAppend(a: seq<Range>, b: seq<Range>, v: int)
    ensures InRanges(a + b, v) <==> InRanges(a, v) || InRanges(b, v)
    decreases |a|
  {
    if |a| == 0 {
      assert a + b == b;
    } else {
      assert (a + b)[0] == a[0];
      assert (a + b)[1..] == a[1..] + b;
      InRangesAppend(a[1..], b, v);
    }
  }

  lemma InRangesCons(r: Range, rs: seq<Range>, v: int)
    ensures InRanges([r] + rs, v) <==> InRange(r, v) || InRanges(rs, v)
  {
    assert ([r] + rs)[0] == r;
    assert ([r] + rs)[1..] == rs;
  }

  /** The number of values in the ranges, counted with multiplicity. */
  function TotalLength(rs: seq<Range>): nat {
    if |rs| == 0 then 0 else rs[0].length + TotalLength(rs[1..])
  }

  lemma {:induction false} TotalLengthAppend(a: seq<Range>, b: seq<Range>)
    ensures TotalLength(a + b) == TotalLength(a) + TotalLength(b)
    decreases |a|
  {
    if |a| == 0 {
      assert a + b == b;
    } else {
      assert (a + b)[0] == a[0];
      assert (a + b)[1..] == a[1..] + b;
      TotalLengthAppend(a[1..], b);
    }
  }

  // ---------------------------------------------------------------- seeds

  /** `Range::from_pairs`: consecutive (start, length) pairs; an odd count
      fails the assertion. */
  function FromPairs(ns: seq<nat>): (r: Result<seq<Range>>)
    ensures r.Ok? <==> |ns| % 2 == 0
    ensures r.Ok? ==> |r.value| == |ns| / 2
    ensures r.Ok? ==> forall i :: 0 <= i < |r.value| ==> r.value[i] == Range(ns[2 * i], ns[2 * i + 1])
  {
    if |ns| % 2 != 0 then Err("odd number of seed values") else Ok(Pairs(ns))
  }

  function Pairs(ns: seq<nat>): (r: seq<Range>)
    requires |ns| % 2 == 0
    ensures |r| == |ns| / 2
    ensures forall i :: 0 <= i < |r| ==> r[i] == Range(ns[2 * i], ns[2 * i + 1])
    decreases |ns|
  {
    if |ns| == 0 then []
    else
      var rest := Pairs(ns[2..]);
      assert forall i :: 0 <= i < |rest| ==> rest[i] == Range(ns[2 * (i + 1)], ns[2 * (i + 1) + 1]);
      [Range(ns[0], ns[1])] + rest
  }

  /** Each seed on its own, as a range of length 1. */
  function Singles(ns: seq<nat>): (r: seq<Range>)
    ensures |r| == |ns|
    ensures forall i :: 0 <= i < |ns| ==> r[i] == Range(ns[i], 1)
  {
    if |ns| == 0 then [] else [Range(ns[0], 1)] + Singles(ns[1..])
  }

  // --------------------------------------------------------------- remaps

  /** The window of the remap covers `v`. */
  predicate Covers(m: Remap, v: int) {
    m.src <= v < m.src + m.length
  }

  function Translate(m: Remap, v: int): int {
    v - m.src + m.dst
  }

  /** `Remap::apply_range`: a range inside the window, moved by dst − src;
      the two assertions of the source are the preconditions. */
  function ApplyRange(m: Remap, values: Range): (r: Range)
    requires values.start >= m.src
    requires values.start - m.src + m.dst + values.length <= m.dst + m.length
    ensures r.length == values.length
    ensures forall v :: InRange(values, v) ==> Covers(m, v) && InRange(r, Translate(m, v))
    ensures forall w :: InRange(r, w) ==> InRange(values, w - m.dst + m.src)
  {
    Range(values.start - m.src + m.dst, values.length)
  }

  function Max(a: nat, b: nat): nat { if a >= b then a else b }
  function Min(a: nat, b: nat): nat { if a <= b then a else b }

  /** `Remap::split_input_map`: the parts of `values` before, inside and
      after the window. They are contiguous and together make up `values`. */
  function SplitInputMap(m: Remap, values: Range): (r: (Range, Range, Range))
    ensures r.0.start == values.start && End(r.0) == r.1.start
    ensures End(r.1) == r.2.start && End(r.2) == End(values)
    ensures forall v :: InRange(r.0, v) ==> v < m.src
    ensures forall v :: InRange(r.1, v) ==> Covers(m, v)
    ensures forall v :: InRange(r.2, v) ==> v >= m.src + m.length
  {
    var vl := values.start;
    var vr := values.start + values.length;
    var sl := m.src;
    var sr := m.src + m.length;
    var l := Min(Max(vl, sl), vr);
    var r := Max(Min(vr, sr), vl);
    (Range(vl, if l > vl then l - vl else 0),
     Range(l, if r > l then r - l else 0),
     Range(r, if vr > r then vr - r else 0))
  }

  /** The three parts hold exactly the values of the input. */
  lemma SplitCovers(m: Remap, values: Range, v: int)
    ensures var (a, b, c) := SplitInputMap(m, values);
            InRange(values, v) <==> InRange(a, v) || InRange(b, v) || InRange(c, v)
    ensures var (a, b, c) := SplitInputMap(m, values);
            a.length + b.length + c.length == values.length
  {
  }

  /** The middle part is exactly the values inside the window. */
  lemma SplitMiddle(m: Remap, values: Range, v: int)
    ensures InRange(SplitInputMap(m, values).1, v) <==> InRange(values, v) && Covers(m, v)
  {
    SplitCovers(m, values, v);
  }

  /** One remap over the current ranges: the pieces inside the window are
      moved (first component), the pieces outside are left for the next
      remap (second component), and empty pieces are dropped. */
  function Step(m: Remap, cur: seq<Range>): (r: (seq<Range>, seq<Range>))
  {
    if |cur| == 0 then ([], [])
    else
      var (l, mid, rr) := SplitInputMap(m, cur[0]);
      var (mapped, left) := Step(m, cur[1..]);
      ((if mid.length > 0 then [ApplyRange(m, mid)] else []) + mapped,
       (if l.length > 0 then [l] else []) + (if rr.length > 0 then [rr] else []) + left)
  }

  /** One remap conserves the values: the moved and the left-over pieces
      together are as long as the input. */
  lemma {:induction false} StepLength(m: Remap, cur: seq<Range>)
    ensures TotalLength(Step(m, cur).0) + TotalLength(Step(m, cur).1) == TotalLength(cur)
    decreases |cur|
  {
    if |cur| > 0 {
      var (l, mid, rr) := SplitInputMap(m, cur[0]);
      var (mapped, left) := Step(m, cur[1..]);
      StepLength(m, cur[1..]);
      SplitCovers(m, cur[0], 0);
      var a := if mid.length > 0 then [ApplyRange(m, mid)] else [];
      var b := (if l.length > 0 then [l] else []) + (if rr.length > 0 then [rr] else []);
      TotalLengthAppend(a, mapped);
      TotalLengthAppend(b, left);
      TotalLengthAppend(if l.length > 0 then [l] else [], if rr.length > 0 then [rr] else []);
    }
  }

  /** The left-over pieces hold exactly the values outside the window. */
  lemma {:induction false} StepLeft(m: Remap, cur: seq<Range>, v: int)
    ensures InRanges(Step(m, cur).1, v) <==> InRanges(cur, v) && !Covers(m, v)
    decreases |cur|
  {
    if |cur| > 0 {
      var (l, mid, rr) := SplitInputMap(m, cur[0]);
      StepLeft(m, cur[1..], v);
      SplitCovers(m, cur[0], v);
      var left := Step(m, cur[1..]).1;
      var a := if l.length > 0 then [l] else [];
      var b := if rr.length > 0 then [rr] else [];
      InRangesAppend(a + b, left, v);
      InRangesAppend(a, b, v);
      if l.length > 0 { InRangesCons(l, [], v); }
      if rr.length > 0 { InRangesCons(rr, [], v); }
    }
  }

  /** The moved pieces hold exactly the translated values inside the window. */
  lemma {:induction false} StepMapped(m: Remap, cur: seq<Range>, v: int)
    ensures InRanges(cur, v) && Covers(m, v) ==> InRanges(Step(m, cur).0, Translate(m, v))
    ensures InRanges(Step(m, cur).0, Translate(m, v)) ==> InRanges(cur, v) && Covers(m, v)
    decreases |cur|
  {
    if |cur| > 0 {
      var (l, mid, rr) := SplitInputMap(m, cur[0]);
      StepMapped(m, cur[1..], v);
      SplitMiddle(m, cur[0], v);
      var mapped := Step(m, cur[1..]).0;
      var a := if mid.length > 0 then [ApplyRange(m, mid)] else [];
      InRangesAppend(a, mapped, v);
      InRangesAppend(a, mapped, Translate(m, v));
      if mid.length > 0 {
        InRangesCons(ApplyRange(m, mid), [], Translate(m, v));
      }
    }
  }

  /** Where the first remap covering `v` sends it; uncovered values stay. */
  function MapValue(remaps: seq<Remap>, v: int): int {
    if |remaps| == 0 then v
    else if Covers(remaps[0], v) then Translate(remaps[0], v)
    else MapValue(remaps[1..], v)
  }

  /** The loop of `apply_ranges` before merging: each remap in turn moves
      what it covers among the ranges the earlier remaps left over; what is
      left after the last remap passes through. */
  function ApplyRaw(remaps: seq<Remap>, cur: seq<Range>): seq<Range> {
    if |remaps| == 0 then cur
    else
      var (mapped, left) := Step(remaps[0], cur);
      mapped + ApplyRaw(remaps[1..], left)
  }

  /** Before merging, the output is exactly as long as the input. */
  lemma {:induction false} ApplyRawLength(remaps: seq<Remap>, cur: seq<Range>)
    ensures TotalLength(ApplyRaw(remaps, cur)) == TotalLength(cur)
    decreases |remaps|
  {
    if |remaps| > 0 {
      var (mapped, left) := Step(remaps[0], cur);
      StepLength(remaps[0], cur);
      ApplyRawLength(remaps[1..], left);
      TotalLengthAppend(mapped, ApplyRaw(remaps[1..], left));
    }
  }

  /** Every input value appears in the output at its mapped place. */
  lemma {:induction false} ApplyRawForward(remaps: seq<Remap>, cur: seq<Range>, v: int)
    requires InRanges(cur, v)
    ensures InRanges(ApplyRaw(remaps, cur), MapValue(remaps, v))
    decreases |remaps|
  {
    if |remaps| > 0 {
      var (mapped, left) := Step(remaps[0], cur);
      InRangesAppend(mapped, ApplyRaw(remaps[1..], left), MapValue(remaps, v));
      if Covers(remaps[0], v) {
        StepMapped(remaps[0], cur, v);
      } else {
        StepLeft(remaps[0], cur, v);
        ApplyRawForward(remaps[1..], left, v);
      }
    }
  }

  /** Every output value is the mapped place of some input value. */
  lemma {:induction false} ApplyRawBackward(remaps: seq<Remap>, cur: seq<Range>, w: int) returns (v: int)
    requires InRanges(ApplyRaw(remaps, cur), w)
    ensures InRanges(cur, v) && MapValue(remaps, v) == w
    decreases |remaps|
  {
    if |remaps| == 0 {
      v := w;
    } else {
      var m := remaps[0];
      var (mapped, left) := Step(m, cur);
      InRangesAppend(mapped, ApplyRaw(remaps[1..], left), w);
      if InRanges(mapped, w) {
        v := w - m.dst + m.src;
        assert Translate(m, v) == w;
        StepMapped(m, cur, v);
      } else {
        v := ApplyRawBackward(remaps[1..], left, w);
        StepLeft(m, cur, v);
      }
    }
  }

  // --------------------------------------------------------------- merging

  /** The order `merge_ranges` sorts by: ascending start, then descending
      length. */
  predicate Before(a: Range, b: Range) {
    a.start < b.start || (a.start == b.start && a.length >= b.length)
  }

  predicate SortedRanges(s: seq<Range>) {
    forall i, j :: 0 <= i < j < |s| ==> Before(s[i], s[j])
  }

  function Insert(x: Range, s: seq<Range>): (r: seq<Range>)
    requires SortedRanges(s)
    ensures SortedRanges(r)
    ensures multiset(r) == multiset(s) + multiset{x}
    ensures |r| == |s| + 1
  {
    if |s| == 0 then [x]
    else if Before(x, s[0]) then [x] + s
    else
      var rest := Insert(x, s[1..]);
      assert s == [s[0]] + s[1..];
      forall k | 0 <= k < |rest|
        ensures Before(s[0], rest[k])
      {
        assert rest[k] in multiset(rest);
      }
      [s[0]] + rest
  }

  function Sort(s: seq<Range>): (r: seq<Range>)
    ensures SortedRanges(r)
    ensures multiset(r) == multiset(s)
    ensures |r| == |s|
  {
    if |s| == 0 then []
    else
      assert s == [s[0]] + s[1..];
      Insert(s[0], Sort(s[1..]))
  }

  /** A value lies in a sequence of ranges iff it lies in one of the
      sequence's elements, whatever their order. */
  lemma {:induction false} InRangesElems(rs: seq<Range>, v: int)
    ensures InRanges(rs, v) <==> exists r :: r in multiset(rs) && InRange(r, v)
    decreases |rs|
  {
    if |rs| > 0 {
      InRangesElems(rs[1..], v);
      assert rs == [rs[0]] + rs[1..];
      assert multiset(rs) == multiset{rs[0]} + multiset(rs[1..]);
    }
  }

  lemma SortCovers(s: seq<Range>, v: int)
    ensures InRanges(Sort(s), v) <==> InRanges(s, v)
  {
    InRangesElems(s, v);
    InRangesElems(Sort(s), v);
  }

  /** The loop of `merge_ranges` over the sorted ranges: `current` grows
      while the next range starts inside it or right at its end. */
  function MergeLoop(rest: seq<Range>, current: Range): (r: seq<Range>)
    ensures |r| >= 1 && r[0].start == current.start
  {
    if |rest| == 0 then [current]
    else
      var next := rest[0];
      if next.start <= End(current) then
        MergeLoop(rest[1..], if End(next) > End(current) then Range(current.start, End(next) - current.start) else current)
      else [current] + MergeLoop(rest[1..], next)
  }

  /** `merge_ranges`: empty stays empty; otherwise sort and sweep. */
  function MergeRanges(ranges: seq<Range>): (r: seq<Range>)
    ensures r == [] <==> ranges == []
  {
    if |ranges| == 0 then []
    else
      var s := Sort(ranges);
      MergeLoop(s, s[0])
  }

  /** Output ranges are separated by gaps: the next starts after the end of
      the previous one. */
  predicate Separated(rs: seq<Range>) {
    forall i :: 0 <= i < |rs| - 1 ==> End(rs[i]) < rs[i + 1].start
  }

  lemma {:induction false} MergeLoopSeparated(rest: seq<Range>, current: Range)
    ensures Separated(MergeLoop(rest, current))
    decreases |rest|
  {
    if |rest| > 0 {
      var next := rest[0];
      if next.start <= End(current) {
        MergeLoopSeparated(rest[1..], if End(next) > End(current) then Range(current.start, End(next) - current.start) else current);
      } else {
        MergeLoopSeparated(rest[1..], next);
        var tail := MergeLoop(rest[1..], next);
        assert forall i :: 1 <= i < |tail| + 1 ==> ([current] + tail)[i] == tail[i - 1];
      }
    }
  }

  lemma {:induction false} MergeLoopCovers(rest: seq<Range>, current: Range, v: int)
    requires SortedRanges(rest)
    requires forall i :: 0 <= i < |rest| ==> current.start <= rest[i].start
    ensures InRanges(MergeLoop(rest, current), v) <==> InRange(current, v) || InRanges(rest, v)
    decreases |rest|
  {
    if |rest| == 0 {
      InRangesCons(current, [], v);
    } else {
      var next := rest[0];
      InRangesCons(next, rest[1..], v);
      assert rest == [next] + rest[1..];
      if next.start <= End(current) {
        var c := if End(next) > End(current) then Range(current.start, End(next) - current.start) else current;
        MergeLoopCovers(rest[1..], c, v);
      } else {
        MergeLoopCovers(rest[1..], next, v);
        InRangesCons(current, MergeLoop(rest[1..], next), v);
      }
    }
  }

  /** `merge_ranges` keeps exactly the values of its input and returns
      gap-separated ranges in ascending order. */
  lemma MergeRangesSpec(ranges: seq<Range>, v: int)
    ensures InRanges(MergeRanges(ranges), v) <==> InRanges(ranges, v)
    ensures Separated(MergeRanges(ranges))
  {
    if |ranges| > 0 {
      var s := Sort(ranges);
      SortCovers(ranges, v);
      MergeLoopSeparated(s, s[0]);
      MergeLoopCovers(s, s[0], v);
    }
  }

  /** `Mapping::apply_ranges`. */
  function ApplyRanges(mapping: Mapping, values: seq<Range>): seq<Range> {
    MergeRanges(ApplyRaw(mapping.remaps, values))
  }

  /** Applying a mapping to ranges maps every value by the first remap
      covering it, and produces nothing else. */
  lemma ApplyRangesForward(mapping: Mapping, values: seq<Range>, v: int)
    requires InRanges(values, v)
    ensures InRanges(ApplyRanges(mapping, values), MapValue(mapping.remaps, v))
  {
    ApplyRawForward(mapping.remaps, values, v);
    MergeRangesSpec(ApplyRaw(mapping.remaps, values), MapValue(mapping.remaps, v));
  }

  lemma ApplyRangesBackward(mapping: Mapping, values: seq<Range>, w: int) returns (v: int)
    requires InRanges(ApplyRanges(mapping, values), w)
    ensures InRanges(values, v) && MapValue(mapping.remaps, v) == w
  {
    MergeRangesSpec(ApplyRaw(mapping.remaps, values), w);
    v := ApplyRawBackward(mapping.remaps, values, w);
  }

  /** The seven cases of the unit test for `split_input_map`, with the
      window [5, 8). */
  lemma SplitExamples()
    ensures var m := Remap(15, 5, 3);
            SplitInputMap(m, Range(5, 3)) == (Range(5, 0), Range(5, 3), Range(8, 0))
            && SplitInputMap(m, Range(2, 6)) == (Range(2, 3), Range(5, 3), Range(8, 0))
  {
  }

  lemma SplitExampleAfter()
    ensures SplitInputMap(Remap(15, 5, 3), Range(5, 6)) == (Range(5, 0), Range(5, 3), Range(8, 3))
  {
  }

  lemma SplitExamplesPartial()
    ensures var m := Remap(15, 5, 3);
            SplitInputMap(m, Range(1, 3)) == (Range(1, 3), Range(4, 0), Range(4, 0))
            && SplitInputMap(m, Range(10, 3)) == (Range(10, 0), Range(10, 0), Range(10, 3))
            && SplitInputMap(m, Range(7, 3)) == (Range(7, 0), Range(7, 1), Range(8, 2))
            && SplitInputMap(m, Range(3, 3)) == (Range(3, 2), Range(5, 1), Range(6, 0))
  {
  }

  /** The unit test of `apply_ranges` with the window [5, 8) moved to 15:
      [5, 7) becomes [15, 17); [5, 9) and [4, 8) become the listed pieces,
      compared as sets of values because merging sorts them by start. */
  lemma ApplyExamples(v: int)
    ensures var mp := Mapping([Remap(15, 5, 3)]);
            ApplyRanges(mp, [Range(5, 2)]) == [Range(15, 2)]
            && (InRanges(ApplyRanges(mp, [Range(5, 4)]), v) <==> InRanges([Range(15, 3), Range(8, 1)], v))
  {
    var mp := Mapping([Remap(15, 5, 3)]);
    assert ApplyRaw(mp.remaps, [Range(5, 2)]) == [Range(15, 2)];
    assert ApplyRaw(mp.remaps, [Range(5, 4)]) == [Range(15, 3), Range(8, 1)];
    MergeRangesSpec([Range(15, 3), Range(8, 1)], v);
  }

  lemma ApplyExampleBefore(v: int)
    ensures InRanges(ApplyRanges(Mapping([Remap(15, 5, 3)]), [Range(4, 4)]), v) <==> InRanges([Range(15, 3), Range(4, 1)], v)
  {
    var mp := Mapping([Remap(15, 5, 3)]);
    assert ApplyRaw(mp.remaps, [Range(4, 4)]) == [Range(15, 3), Range(4, 1)];
    MergeRangesSpec([Range(15, 3), Range(4, 1)], v);
  }

  // ------------------------------------------------------------ locations

  /** `Almanac::locations`: the seeds through every mapping in turn. */
  function Locations(seeds: seq<Range>, mappings: seq<Mapping>): seq<Range>
    decreases |mappings|
  {
    if |mappings| == 0 then seeds
    else Locations(ApplyRanges(mappings[0], seeds), mappings[1..])
  }

  /** A value through every mapping in turn. */
  function MapAll(mappings: seq<Mapping>, v: int): int
    decreases |mappings|
  {
    if |mappings| == 0 then v else MapAll(mappings[1..], MapValue(mappings[0].remaps, v))
  }

  lemma {:induction false} LocationsForward(seeds: seq<Range>, mappings: seq<Mapping>, v: int)
    requires InRanges(seeds, v)
    ensures InRanges(Locations(seeds, mappings), MapAll(mappings, v))
    decreases |mappings|
  {
    if |mappings| > 0 {
      ApplyRangesForward(mappings[0], seeds, v);
      LocationsForward(ApplyRanges(mappings[0], seeds), mappings[1..], MapValue(mappings[0].remaps, v));
    }
  }

  lemma {:induction false} LocationsBackward(seeds: seq<Range>, mappings: seq<Mapping>, w: int) returns (v: int)
    requires InRanges(Locations(seeds, mappings), w)
    ensures InRanges(seeds, v) && MapAll(mappings, v) == w
    decreases |mappings|
  {
    if |mappings| == 0 {
      v := w;
    } else {
      var u := LocationsBackward(ApplyRanges(mappings[0], seeds), mappings[1..], w);
      v := ApplyRangesBackward(mappings[0], seeds, u);
    }
  }

  /** The smallest value in the ranges, if there is any. */
  function MinValue(rs: seq<Range>): (r: Option<nat>)
    ensures r.None? ==> forall v :: !InRanges(rs, v)
    ensures r.Some? ==> InRanges(rs, r.value) && forall v :: InRanges(rs, v) ==> r.value <= v
  {
    if |rs| == 0 then None
    else
      var rest := MinValue(rs[1..]);
      if rs[0].length == 0 then
        assert forall v :: InRanges(rs, v) <==> InRanges(rs[1..], v);
        rest
      else if rest.None? || rs[0].start <= rest.value then
        assert InRange(rs[0], rs[0].start);
        Some(rs[0].start)
      else
        rest
  }

  /** `run`: the lowest location of any seed; no seed value at all is the
      failing `unwrap`. */
  function RunAlmanac(almanac: Almanac): Result<nat> {
    OkOr(MinValue(Locations(almanac.seeds, almanac.mappings)), "no seed values")
  }

  /** The answer is the location of some seed, and no seed has a lower one. */
  lemma RunAlmanacSpec(almanac: Almanac)
    ensures RunAlmanac(almanac).Ok? <==> exists v :: InRanges(almanac.seeds, v)
    ensures RunAlmanac(almanac).Ok? ==>
              (exists v :: InRanges(almanac.seeds, v) && MapAll(almanac.mappings, v) == RunAlmanac(almanac).value)
              && forall v :: InRanges(almanac.seeds, v) ==> RunAlmanac(almanac).value <= MapAll(almanac.mappings, v)
  {
    var locs := Locations(almanac.seeds, almanac.mappings);
    if RunAlmanac(almanac).Ok? {
      var w := RunAlmanac(almanac).value;
      var v := LocationsBackward(almanac.seeds, almanac.mappings, w);
      assert InRanges(almanac.seeds, v);
      assert exists x :: InRanges(almanac.seeds, x);
      forall u | InRanges(almanac.seeds, u)
        ensures w <= MapAll(almanac.mappings, u)
      {
        LocationsForward(almanac.seeds, almanac.mappings, u);
      }
    } else {
      forall u | InRanges(almanac.seeds, u)
        ensures false
      {
        LocationsForward(almanac.seeds, almanac.mappings, u);
      }
    }
  }

  // --------------------------------------------------------------- parsing

  /** `Remap::from`: the first three space-separated numbers, in the order
      destination, source, length; later words are never read. */
  function ParseRemap(line: string): (r: Result<Remap>)
    ensures r.Ok? <==> |Words(line)| >= 3 && forall i :: 0 <= i < 3 ==> ParseNat(Words(line)[i]).Some?
  {
    var ws := Words(line);
    if |ws| < 3 then Err("fewer than three numbers")
    else
      var dst :- OkOr(ParseNat(ws[0]), "bad destination");
      var src :- OkOr(ParseNat(ws[1]), "bad source");
      var len :- OkOr(ParseNat(ws[2]), "bad length");
      Ok(Remap(dst, src, len))
  }

  /** The numbers printed as a remap line read back in the same roles. */
  lemma ParseRemapShow(dst: nat, src: nat, len: nat)
    ensures ParseRemap(Join(ShowNats([dst, src, len]), ' ')) == Ok(Remap(dst, src, len))
  {
    WordsShowNats([dst, src, len]);
    ParseShowNat(dst);
    ParseShowNat(src);
    ParseShowNat(len);
  }

  /** `Mapping::from`: one remap per line. */
  function ParseMapping(lines: seq<string>): (r: Result<Mapping>)
    ensures r.Ok? ==> |r.value.remaps| == |lines|
    ensures r.Ok? ==> forall i :: 0 <= i < |lines| ==> ParseRemap(lines[i]) == Ok(r.value.remaps[i])
  {
    if |lines| == 0 then Ok(Mapping([]))
    else
      var first :- ParseRemap(lines[0]);
      var rest :- ParseMapping(lines[1..]);
      Ok(Mapping([first] + rest.remaps))
  }

  /** The numbers of a "seeds: " line: pairs of (start, length) when seeds
      are ranges, single seeds otherwise. */
  function ParseSeeds(text: string, asRanges: bool): (r: Result<seq<Range>>)
    ensures r.Ok? ==> ParseNats(Words(text)).Some?
    ensures r.Ok? && asRanges ==> FromPairs(ParseNats(Words(text)).value) == r
    ensures r.Ok? && !asRanges ==> r.value == Singles(ParseNats(Words(text)).value)
  {
    var ns :- OkOr(ParseNats(Words(text)), "bad seed number");
    if asRanges then FromPairs(ns) else Ok(Singles(ns))
  }

  /** The state of the `parse_almanac` loop: what was read so far, the
      header of the block being read (if any) and its lines. */
  datatype Reader = Reader(seeds: seq<Range>, mappings: seq<Mapping>, part: Option<string>, waiting: seq<string>)

  /** One line of `parse_almanac`: a blank line closes the current block; a
      "seeds: " line outside a block adds seeds; any other line outside a
      block opens one; a line inside a block joins it. */
  function ReadLine(st: Reader, line: string, asRanges: bool): Result<Reader> {
    if line == [] then
      if st.part.Some? then
        var mp :- ParseMapping(st.waiting);
        Ok(Reader(st.seeds, st.mappings + [mp], None, []))
      else Ok(st.(waiting := []))
    else if st.part.None? then
      match StripPrefix(line, "seeds: ")
      case Some(text) =>
        var seeds :- ParseSeeds(text, asRanges);
        Ok(st.(seeds := st.seeds + seeds))
      case None => Ok(st.(part := Some(line)))
    else Ok(st.(waiting := st.waiting + [line]))
  }

  function ReadLines(st: Reader, lines: seq<string>, asRanges: bool): Result<Reader>
    decreases |lines|
  {
    if |lines| == 0 then Ok(st)
    else
      var st' :- ReadLine(st, lines[0], asRanges);
      ReadLines(st', lines[1..], asRanges)
  }

  /** `parse_almanac`: read every line, then close a block still open. */
  function ParseAlmanac(lines: seq<string>, asRanges: bool): Result<Almanac> {
    var st :- ReadLines(Reader([], [], None, []), lines, asRanges);
    if st.part.Some? then
      var mp :- ParseMapping(st.waiting);
      Ok(Almanac(st.seeds, st.mappings + [mp]))
    else Ok(Almanac(st.seeds, st.mappings))
  }

  lemma {:induction false} ReadBody(st: Reader, body: seq<string>, rest: seq<string>, asRanges: bool)
    requires st.part.Some?
    requires forall i :: 0 <= i < |body| ==> body[i] != []
    ensures ReadLines(st, body + rest, asRanges) == ReadLines(st.(waiting := st.waiting + body), rest, asRanges)
    decreases |body|
  {
    if |body| == 0 {
      assert body + rest == rest;
      assert st.waiting + body == st.waiting;
    } else {
      assert (body + rest)[0] == body[0];
      assert (body + rest)[1..] == body[1..] + rest;
      var st' := st.(waiting := st.waiting + [body[0]]);
      ReadBody(st', body[1..], rest, asRanges);
      assert st.waiting + [body[0]] + body[1..] == st.waiting + body;
    }
  }

  lemma ReadLinesCons(st: Reader, line: string, rest: seq<string>, asRanges: bool)
    ensures ReadLine(st, line, asRanges).Ok? ==>
              ReadLines(st, [line] + rest, asRanges) == ReadLines(ReadLine(st, line, asRanges).value, rest, asRanges)
    ensures ReadLine(st, line, asRanges).Err? ==> ReadLines(st, [line] + rest, asRanges).Err?
  {
    assert ([line] + rest)[0] == line;
    assert ([line] + rest)[1..] == rest;
  }

  /** A block — a header line, its non-blank remap lines and a blank line —
      read outside a block adds exactly one mapping made of those lines. */
  lemma ReadBlock(st: Reader, header: string, body: seq<string>, rest: seq<string>, asRanges: bool)
    requires st.part.None? && st.waiting == []
    requires header != "" && StripPrefix(header, "seeds: ").None?
    requires forall i :: 0 <= i < |body| ==> body[i] != ""
    requires ParseMapping(body).Ok?
    ensures ReadLines(st, [header] + (body + ([""] + rest)), asRanges)
         == ReadLines(st.(mappings := st.mappings + [ParseMapping(body).value]), rest, asRanges)
  {
    var st1 := st.(part := Some(header));
    assert ReadLine(st, header, asRanges) == Ok(st1);
    ReadLinesCons(st, header, body + ([""] + rest), asRanges);
    ReadBody(st1, body, [""] + rest, asRanges);
    var st2 := st1.(waiting := body);
    assert st1.waiting + body == body;
    ReadLinesCons(st2, "", rest, asRanges);
    assert ReadLine(st2, "", asRanges) == Ok(Reader(st.seeds, st.mappings + [ParseMapping(body).value], None, []));
  }

  /** The seed line alone, with seeds as ranges: consecutive pairs of its
      numbers, and no mappings. */
  lemma SeedRangesLine(ns: seq<nat>)
    requires |ns| % 2 == 0
    ensures ParseAlmanac(["seeds: " + Join(ShowNats(ns), ' ')], true) == Ok(Almanac(Pairs(ns), []))
  {
    var line := "seeds: " + Join(ShowNats(ns), ' ');
    SeedLineRead(ns, line);
  }

  lemma SeedLineRead(ns: seq<nat>, line: string)
    requires |ns| % 2 == 0
    requires line == "seeds: " + Join(ShowNats(ns), ' ')
    ensures ReadLines(Reader([], [], None, []), [line], true) == Ok(Reader(Pairs(ns), [], None, []))
  {
    var text := Join(ShowNats(ns), ' ');
    assert StripPrefix(line, "seeds: ") == Some(text) by {
      assert line[..7] == "seeds: ";
      assert line[7..] == text;
    }
    assert ParseSeeds(text, true) == Ok(Pairs(ns)) by {
      WordsShowNats(ns);
      ParseNatsShow(ns);
    }
    assert line != "" by { assert line[0] == 's'; }
    ReadOneSeedLine(line, text, Pairs(ns));
  }

  /** A "seeds: " line read alone from the start. */
  lemma ReadOneSeedLine(line: string, text: string, seeds: seq<Range>)
    requires line != "" && StripPrefix(line, "seeds: ") == Some(text)
    requires ParseSeeds(text, true) == Ok(seeds)
    ensures ReadLines(Reader([], [], None, []), [line], true) == Ok(Reader(seeds, [], None, []))
  {
    var st := Reader([], [], None, []);
    assert [] + seeds == seeds;
    assert ReadLine(st, line, true) == Ok(Reader(seeds, [], None, []));
    assert [line][1..] == [];
  }

  /** `run`: part 1 reads single seeds, part 2 seed ranges. */
  /** The puzzle answer: part 1 reads the seeds one by one and part 2 as
      (start, length) pairs; on a parsed almanac the answer is the lowest
      location any seed reaches, and it fails only when there is no seed. */
  function Run(lines: seq<string>, part1: bool): (r: Result<nat>)
    ensures r.Ok? ==> ParseAlmanac(lines, !part1).Ok?
    ensures ParseAlmanac(lines, !part1).Ok? ==>
              var a := ParseAlmanac(lines, !part1).value;
              && (r.Ok? <==> exists v :: InRanges(a.seeds, v))
              && (r.Ok? ==> (exists v :: InRanges(a.seeds, v) && MapAll(a.mappings, v) == r.value)
                            && forall v :: InRanges(a.seeds, v) ==> r.value <= MapAll(a.mappings, v))
  {
    var almanac :- ParseAlmanac(lines, !part1);
    RunAlmanacSpec(almanac);
    RunAlmanac(almanac)
  }
}
