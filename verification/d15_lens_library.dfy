/** Day 15: the HASH algorithm and the 256-box lens table (src/d15.rs).

    HASH folds `v := ((v + byte) * 17) mod 256` over the characters, where
    the byte is the character code truncated to 8 bits. The table keeps, per
    box, an ordered list of lenses with distinct labels. */
module LensLibrary {
  import opened Wrappers
  import opened Text

  /** Rust's `ch as u8`: the character code truncated to 8 bits. */
  function Byte(c: char): nat {
    (c as int) % 256
  }

  function HashStep(v: nat, c: char): (r: nat)
    ensures r < 256
  {
    ((v + Byte(c)) * 17) % 256
  }

  /** HASH of `s`, folding from the left (the last character is applied last). */
  function Hash(s: string): (r: nat)
    ensures r < 256
    ensures s == [] ==> r == 0
  {
    if s == [] then 0 else HashStep(Hash(s[..|s| - 1]), s[|s| - 1])
  }

  /** The loop of `calc_hash`, with 8-bit wrapping written out. */
  method CalcHash(s: string) returns (value: nat)
    ensures value == Hash(s)
    ensures value < 256
  {
    value := 0;
    var i := 0;
    while i < |s|
      invariant 0 <= i <= |s|
      invariant value == Hash(s[..i])
    {
      assert s[..i + 1][..i] == s[..i];
      value := ((value + Byte(s[i])) * 17) % 256;
      i := i + 1;
    }
    assert s[..|s|] == s;
  }

  function Pow17(k: nat): nat {
    if k == 0 then 1 else 17 * Pow17(k - 1)
  }

  /** An independent closed form: byte i of an n-character string is
      weighted by 17^(n - i), without any wrapping. */
  function Weighted(s: string): nat {
    if s == [] then 0 else Byte(s[0]) * Pow17(|s|) + Weighted(s[1..])
  }

  lemma {:induction false} WeightedSnoc(s: string, c: char)
    ensures Weighted(s + [c]) == (Weighted(s) + Byte(c)) * 17
    decreases |s|
  {
    if s == [] {
      assert [c][1..] == [];
    } else {
      assert (s + [c])[0] == s[0];
      assert (s + [c])[1..] == s[1..] + [c];
      WeightedSnoc(s[1..], c);
      assert Pow17(|s| + 1) == 17 * Pow17(|s|);
    }
  }

  lemma ModStep(a: int, b: int)
    ensures ((a % 256 + b) * 17) % 256 == ((a + b) * 17) % 256
  {
    var q := a / 256;
    assert a == 256 * q + a % 256;
    assert (a + b) * 17 == 256 * (17 * q) + (a % 256 + b) * 17;
  }

  /** HASH is the 8-bit truncation of the closed form, so the wrapping
      arithmetic of the source loses nothing but the high bits. */
  lemma {:induction false} HashIsWeightedMod(s: string)
    ensures Hash(s) == Weighted(s) % 256
    decreases |s|
  {
    if s != [] {
      var p := s[..|s| - 1];
      var c := s[|s| - 1];
      assert s == p + [c];
      HashIsWeightedMod(p);
      WeightedSnoc(p, c);
      ModStep(Weighted(p), Byte(c));
    }
  }

  /** Hashing a concatenation continues from the hash of the prefix. */
  lemma {:induction false} HashAppend(s: string, t: string)
    ensures Hash(s + t) == HashFrom(Hash(s), t)
    decreases |t|
  {
    if t != [] {
      var t' := t[..|t| - 1];
      assert (s + t)[..|s + t| - 1] == s + t';
      HashAppend(s, t');
    } else {
      assert s + t == s;
    }
  }

  function HashFrom(v: nat, t: string): (r: nat)
    requires v < 256
    ensures r < 256
  {
    if t == [] then v else HashStep(HashFrom(v, t[..|t| - 1]), t[|t| - 1])
  }

  // ------------------------------------------------------------ lens table

  datatype Lens = Lens(name: string, focal: nat)

  /** The 256 boxes; `boxes[b]` is the ordered content of box b. */
  datatype Table = Table(boxes: seq<seq<Lens>>)

  /** Distinct labels within one box. */
  predicate UniqueNames(slots: seq<Lens>) {
    forall i, j :: 0 <= i < j < |slots| ==> slots[i].name != slots[j].name
  }

  /** The invariant every reachable table keeps: 256 boxes, each lens in the
      box of its name's hash, labels unique per box. */
  predicate Valid(t: Table) {
    |t.boxes| == 256
    && (forall b, i :: 0 <= b < 256 && 0 <= i < |t.boxes[b]| ==> Hash(t.boxes[b][i].name) == b)
    && (forall b :: 0 <= b < 256 ==> UniqueNames(t.boxes[b]))
  }

  function Empty(): (t: Table)
    ensures Valid(t)
    ensures forall b :: 0 <= b < 256 ==> t.boxes[b] == []
  {
    Table(seq(256, _ => []))
  }

  /** `slots.iter().position(|l| l.name == name)`. */
  function Position(slots: seq<Lens>, name: string): (r: Option<nat>)
    ensures r.None? <==> forall i :: 0 <= i < |slots| ==> slots[i].name != name
    ensures r.Some? ==> (r.value < |slots| && slots[r.value].name == name
                         && forall i :: 0 <= i < r.value ==> slots[i].name != name)
  {
    if |slots| == 0 then None
    else if slots[0].name == name then Some(0)
    else match Position(slots[1..], name)
      case None => None
      case Some(i) => Some(i + 1)
  }

  function AddToBox(slots: seq<Lens>, lens: Lens): seq<Lens> {
    match Position(slots, lens.name)
    case Some(i) => slots[i := lens]
    case None => slots + [lens]
  }

  function RemoveFromBox(slots: seq<Lens>, name: string): seq<Lens> {
    match Position(slots, name)
    case Some(i) => slots[..i] + slots[i + 1..]
    case None => slots
  }

  /** `HashMap::add`: replace the lens with the same name in its slot, or
      append to the end of the box. Only box `Hash(name)` changes. */
  function Add(t: Table, lens: Lens): (r: Table)
    requires |t.boxes| == 256
    ensures |r.boxes| == 256
    ensures forall b :: 0 <= b < 256 && b != Hash(lens.name) ==> r.boxes[b] == t.boxes[b]
    ensures var old_ := t.boxes[Hash(lens.name)];
            var new_ := r.boxes[Hash(lens.name)];
            match Position(old_, lens.name)
            case Some(i) => |new_| == |old_| && new_[i] == lens
                            && forall j :: 0 <= j < |old_| && j != i ==> new_[j] == old_[j]
            case None => |new_| == |old_| + 1 && new_[|old_|] == lens && new_[..|old_|] == old_
  {
    var h := Hash(lens.name);
    Table(t.boxes[h := AddToBox(t.boxes[h], lens)])
  }

  /** `HashMap::remove`: drop the lens with that name, keeping the others
      in order; no change if it is absent. Only box `Hash(name)` changes. */
  function Remove(t: Table, name: string): (r: Table)
    requires |t.boxes| == 256
    ensures |r.boxes| == 256
    ensures forall b :: 0 <= b < 256 && b != Hash(name) ==> r.boxes[b] == t.boxes[b]
    ensures Position(t.boxes[Hash(name)], name).None? ==> r == t
  {
    var h := Hash(name);
    Table(t.boxes[h := RemoveFromBox(t.boxes[h], name)])
  }

  /** The focal length stored under `name`, if any: the table seen as a map. */
  function Lookup(t: Table, name: string): Option<nat>
    requires |t.boxes| == 256
  {
    Find(t.boxes[Hash(name)], name)
  }

  /** The focal length of the first lens named `name` in one box. */
  function Find(slots: seq<Lens>, name: string): Option<nat> {
    match Position(slots, name)
    case Some(i) => Some(slots[i].focal)
    case None => None
  }

  lemma AddValid(t: Table, lens: Lens)
    requires Valid(t)
    ensures Valid(Add(t, lens))
  {
    var h := Hash(lens.name);
    var s := t.boxes[h];
    var s' := AddToBox(s, lens);
    assert UniqueNames(s') by {
      match Position(s, lens.name)
      case Some(i) =>
      case None =>
    }
  }

  lemma RemoveValid(t: Table, name: string)
    requires Valid(t)
    ensures Valid(Remove(t, name))
  {
    var h := Hash(name);
    var s := t.boxes[h];
    match Position(s, name)
    case None =>
    case Some(i) =>
      var s' := s[..i] + s[i + 1..];
      assert forall k :: 0 <= k < |s'| ==> s'[k] == (if k < i then s[k] else s[k + 1]);
  }

  /** The first slot holding `name` is `i`. */
  lemma PositionIs(slots: seq<Lens>, name: string, i: nat)
    requires i < |slots| && slots[i].name == name
    requires forall j :: 0 <= j < i ==> slots[j].name != name
    ensures Position(slots, name) == Some(i)
  {
  }

  /** After `Add`, the name maps to the new focal length and every other
      name keeps its entry. */
  lemma AddLookup(t: Table, lens: Lens, name: string)
    requires Valid(t)
    ensures Lookup(Add(t, lens), name) == if name == lens.name then Some(lens.focal) else Lookup(t, name)
  {
    var r := Add(t, lens);
    var h := Hash(lens.name);
    var s := t.boxes[h];
    var s' := r.boxes[h];
    if name == lens.name {
      match Position(s, name)
      case Some(i) =>
        PositionIs(s', name, i);
      case None =>
        PositionIs(s', name, |s|);
    } else if Hash(name) == h {
      PositionAgree(s, s', name);
    }
  }

  /** Two boxes that agree on every slot holding `name`, and hold no other
      copy of it, give the same position. */
  lemma PositionAgree(s: seq<Lens>, s': seq<Lens>, name: string)
    requires forall k :: 0 <= k < |s'| && s'[k].name == name ==> k < |s| && s'[k] == s[k]
    requires forall k :: 0 <= k < |s| && s[k].name == name ==> k < |s'| && s'[k] == s[k]
    ensures Position(s', name) == Position(s, name)
  {
    match Position(s, name)
    case Some(i) => PositionIs(s', name, i);
    case None =>
  }

  /** After `Remove`, the name is gone and every other name keeps its entry. */
  lemma RemoveLookup(t: Table, name: string, other: string)
    requires Valid(t)
    ensures Lookup(Remove(t, name), other) == if other == name then None else Lookup(t, other)
  {
    var h := Hash(name);
    var s := t.boxes[h];
    assert Remove(t, name).boxes[h] == RemoveFromBox(s, name);
    if other == name {
      match Position(s, name)
      case None =>
      case Some(i) => RemoveDrops(s, name, i);
    } else if Hash(other) == h {
      RemoveFind(s, name, other);
    }
  }

  /** With unique names, the removed name is no longer in the box. */
  lemma RemoveDrops(s: seq<Lens>, name: string, i: nat)
    requires UniqueNames(s) && Position(s, name) == Some(i)
    ensures Position(RemoveFromBox(s, name), name).None?
  {
    var s' := s[..i] + s[i + 1..];
    assert forall k :: 0 <= k < |s'| ==> s'[k] == (if k < i then s[k] else s[k + 1]);
  }

  /** Removing one name from a box keeps what another name finds. */
  lemma RemoveFind(s: seq<Lens>, name: string, other: string)
    requires other != name
    ensures Find(RemoveFromBox(s, name), other) == Find(s, other)
  {
    match Position(s, name)
    case None =>
    case Some(i) =>
      var s' := s[..i] + s[i + 1..];
      assert RemoveFromBox(s, name) == s';
      match Position(s, other)
      case None =>
        forall k | 0 <= k < |s'| ensures s'[k].name != other {
          RemovedAt(s, i, k);
        }
      case Some(j) =>
        var j' := if j < i then j else j - 1;
        RemovedAt(s, i, j');
        forall k | 0 <= k < j' ensures s'[k].name != other {
          RemovedAt(s, i, k);
        }
        PositionIs(s', other, j');
  }

  lemma RemovedAt(s: seq<Lens>, i: nat, k: nat)
    requires i < |s| && k < |s| - 1
    ensures (s[..i] + s[i + 1..])[k] == if k < i then s[k] else s[k + 1]
  {
  }

  /** Removing a name from a box keeps the other lenses in their order:
      it is the box filtered by name. */
  lemma {:induction false} RemoveFromBoxIsFilter(slots: seq<Lens>, name: string)
    requires UniqueNames(slots)
    ensures RemoveFromBox(slots, name) == Without(slots, name)
  {
    if |slots| > 0 {
      if slots[0].name == name {
        assert forall k :: 0 <= k < |slots[1..]| ==> slots[1..][k].name != name by {
          forall k | 0 <= k < |slots[1..]| ensures slots[1..][k].name != name {
            assert slots[1..][k] == slots[k + 1];
          }
        }
        WithoutAbsent(slots[1..], name);
      } else {
        RemoveFromBoxIsFilter(slots[1..], name);
        match Position(slots[1..], name)
        case None =>
        case Some(i) =>
          assert slots[..i + 1] + slots[i + 2..] == [slots[0]] + (slots[1..][..i] + slots[1..][i + 1..]);
      }
    }
  }

  function Without(slots: seq<Lens>, name: string): seq<Lens> {
    if |slots| == 0 then []
    else if slots[0].name == name then Without(slots[1..], name)
    else [slots[0]] + Without(slots[1..], name)
  }

  lemma {:induction false} WithoutAbsent(slots: seq<Lens>, name: string)
    requires forall k :: 0 <= k < |slots| ==> slots[k].name != name
    ensures Without(slots, name) == slots
  {
    if |slots| > 0 {
      WithoutAbsent(slots[1..], name);
    }
  }

  /** Adding and then removing a name that was absent restores the table. */
  lemma RemoveUndoesFreshAdd(t: Table, lens: Lens)
    requires Valid(t)
    requires Lookup(t, lens.name).None?
    ensures Remove(Add(t, lens), lens.name) == t
  {
    var h := Hash(lens.name);
    var s := t.boxes[h];
    var s' := s + [lens];
    assert Add(t, lens).boxes[h] == s';
    PositionIs(s', lens.name, |s|);
    assert s'[..|s|] + s'[|s| + 1..] == s;
    assert Remove(Add(t, lens), lens.name).boxes == t.boxes;
  }

  // ------------------------------------------------------- focusing power

  function BoxPower(slots: seq<Lens>): nat {
    if |slots| == 0 then 0
    else BoxPower(slots[..|slots| - 1]) + |slots| * slots[|slots| - 1].focal
  }

  function PowerFrom(boxes: seq<seq<Lens>>, b: nat): nat
    requires b <= |boxes|
    decreases |boxes| - b
  {
    if b == |boxes| then 0 else (b + 1) * BoxPower(boxes[b]) + PowerFrom(boxes, b + 1)
  }

  /** `focusing_power`: Σ (box + 1) · (slot + 1) · focal length. */
  function FocusingPower(t: Table): nat {
    PowerFrom(t.boxes, 0)
  }

  lemma {:induction false} PowerFromUpdate(boxes: seq<seq<Lens>>, b: nat, h: nat, s: seq<Lens>)
    requires b <= |boxes| && h < |boxes|
    ensures PowerFrom(boxes[h := s], b) + (if b <= h then (h + 1) * BoxPower(boxes[h]) else 0)
         == PowerFrom(boxes, b) + (if b <= h then (h + 1) * BoxPower(s) else 0)
    decreases |boxes| - b
  {
    if b < |boxes| {
      PowerFromUpdate(boxes, b + 1, h, s);
    }
  }

  /** Adding a lens under a new name adds (box + 1) · (new slot) · focal. */
  lemma FreshAddPower(t: Table, lens: Lens)
    requires Valid(t)
    requires Lookup(t, lens.name).None?
    ensures FocusingPower(Add(t, lens))
         == FocusingPower(t) + (Hash(lens.name) + 1) * (|t.boxes[Hash(lens.name)]| + 1) * lens.focal
  {
    var h := Hash(lens.name);
    var s := t.boxes[h];
    var s' := s + [lens];
    assert s'[..|s'| - 1] == s;
    assert Position(s, lens.name).None?;
    assert Add(t, lens).boxes == t.boxes[h := s'];
    PowerFromUpdate(t.boxes, 0, h, s');
    Distrib(h + 1, BoxPower(s), |s| + 1, lens.focal);
  }

  lemma Distrib(a: int, b: int, c: int, d: int)
    ensures a * (b + c * d) == a * b + a * c * d
  {
  }

  /** Replacing the focal length of a present name changes the power by
      (box + 1) · (slot + 1) · (new − old). */
  lemma {:induction false} BoxPowerReplace(slots: seq<Lens>, i: nat, lens: Lens)
    requires i < |slots|
    ensures BoxPower(slots[i := lens]) + (i + 1) * slots[i].focal == BoxPower(slots) + (i + 1) * lens.focal
    decreases |slots|
  {
    var n := |slots|;
    if i < n - 1 {
      assert slots[i := lens][..n - 1] == slots[..n - 1][i := lens];
      BoxPowerReplace(slots[..n - 1], i, lens);
    } else {
      assert slots[i := lens][..n - 1] == slots[..n - 1];
    }
  }

  // ------------------------------------------------------------------- run

  /** Applies one comma-separated step: "name-" removes; "name=n" adds
      with focal length n (an unparsable n is an error); other steps are ignored. */
  function ApplyStep(t: Table, step: string): (r: Result<Table>)
    requires Valid(t)
    ensures r.Ok? ==> Valid(r.value)
    ensures r.Err? <==> (StripSuffix(step, "-").None? && SplitOnce(step, '=').Some?
                         && ParseNat(SplitOnce(step, '=').value.1).None?)
  {
    match StripSuffix(step, "-")
    case Some(name) =>
      RemoveValid(t, name);
      Ok(Remove(t, name))
    case None =>
      match SplitOnce(step, '=')
      case None => Ok(t)
      case Some((name, focus)) =>
        match ParseNat(focus)
        case None => Err("focal length is not a number")
        case Some(f) =>
          AddValid(t, Lens(name, f));
          Ok(Add(t, Lens(name, f)))
  }

  function ApplySteps(t: Table, steps: seq<string>): (r: Result<Table>)
    requires Valid(t)
    ensures r.Ok? ==> Valid(r.value)
    decreases |steps|
  {
    if |steps| == 0 then Ok(t)
    else
      var t' :- ApplyStep(t, steps[0]);
      ApplySteps(t', steps[1..])
  }

  function SumHashes(steps: seq<string>): (r: nat)
    ensures r <= 255 * |steps|
  {
    if |steps| == 0 then 0 else Hash(steps[0]) + SumHashes(steps[1..])
  }

  /** `run`: part 1 sums the hashes of the comma-separated steps; part 2
      performs them on an empty table and reports its focusing power. */
  function Run(line: string, part1: bool): (r: Result<nat>)
    ensures part1 ==> r.Ok? && r.value <= 255 * |Split(line, ',')|
  {
    var steps := Split(line, ',');
    if part1 then Ok(SumHashes(steps))
    else
      var t :- ApplySteps(Empty(), steps);
      Ok(FocusingPower(t))
  }

  /** The worked example of the puzzle: "HASH" hashes to 52. */
  lemma HashExample()
    ensures Hash("HASH") == 52
  {
    assert Hash("H") == 200 by { assert "H"[..0] == ""; }
    assert Hash("HA") == 153 by { assert "HA"[..1] == "H"; }
    assert Hash("HAS") == 172 by { assert "HAS"[..2] == "HA"; }
    assert "HASH"[..3] == "HAS";
  }
}
