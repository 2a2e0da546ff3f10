/** Day 2: the cube game (src/d2.rs).

    A game line "Game 7: 3 blue, 4 red; 1 red" lists draws separated by ';',
    each draw a comma-separated list of "count colour" parts. */
module CubeGame {
  import opened Wrappers
  import opened Text
  import opened Collections

  datatype CubeSet = CubeSet(red: nat, green: nat, blue: nat)

  datatype Game = Game(id: nat, sets: seq<CubeSet>)

  /** Componentwise `a <= b`. */
  predicate Within(a: CubeSet, b: CubeSet) {
    a.red <= b.red && a.green <= b.green && a.blue <= b.blue
  }

  /** `Game::possible`: scans the draws and fails on the first one exceeding
      `max` in some colour. */
  function Possible(sets: seq<CubeSet>, max: CubeSet): (r: bool)
    ensures r <==> forall i :: 0 <= i < |sets| ==> Within(sets[i], max)
  {
    if |sets| == 0 then true
    else if sets[0].red > max.red || sets[0].green > max.green || sets[0].blue > max.blue then false
    else Possible(sets[1..], max)
  }

  /** The running maximum of the part-2 loop. */
  function MinimumSet(sets: seq<CubeSet>): (req: CubeSet)
    ensures forall i :: 0 <= i < |sets| ==> Within(sets[i], req)
    ensures req.red == 0 || exists i :: 0 <= i < |sets| && sets[i].red == req.red
    ensures req.green == 0 || exists i :: 0 <= i < |sets| && sets[i].green == req.green
    ensures req.blue == 0 || exists i :: 0 <= i < |sets| && sets[i].blue == req.blue
  {
    if |sets| == 0 then CubeSet(0, 0, 0)
    else
      var req := MinimumSet(sets[..|sets| - 1]);
      var s := sets[|sets| - 1];
      assert forall i :: 0 <= i < |sets| - 1 ==> sets[..|sets| - 1][i] == sets[i];
      CubeSet(if s.red > req.red then s.red else req.red,
              if s.green > req.green then s.green else req.green,
              if s.blue > req.blue then s.blue else req.blue)
  }

  /** The minimum set is the least bound under which the game is possible. */
  lemma MinimumSetIsLeast(sets: seq<CubeSet>, max: CubeSet)
    ensures Possible(sets, max) <==> Within(MinimumSet(sets), max)
  {
    var req := MinimumSet(sets);
    if Possible(sets, max) {
      if req.red != 0 { var i :| 0 <= i < |sets| && sets[i].red == req.red; assert Within(sets[i], max); }
      if req.green != 0 { var i :| 0 <= i < |sets| && sets[i].green == req.green; assert Within(sets[i], max); }
      if req.blue != 0 { var i :| 0 <= i < |sets| && sets[i].blue == req.blue; assert Within(sets[i], max); }
    }
  }

  /** The power of a set: the product of its three counts. */
  function Power(c: CubeSet): nat {
    c.red * c.green * c.blue
  }

  // --------------------------------------------------------------- parsing

  /** One "count colour" part sets that colour in the draw; a later part
      for the same colour overrides an earlier one; an unknown colour or a
      malformed part is an error. */
  function ParsePart(acc: CubeSet, part: string): (r: Result<CubeSet>)
    ensures r.Ok? ==> ((r.value.red == acc.red && r.value.green == acc.green)
                       || (r.value.red == acc.red && r.value.blue == acc.blue)
                       || (r.value.green == acc.green && r.value.blue == acc.blue))
  {
    match SplitOnce(Trim(part), ' ')
    case None => Err("part without a space")
    case Some((c, t)) =>
      match ParseNat(Trim(c))
      case None => Err("count is not a number")
      case Some(v) =>
        var colour := Trim(t);
        if colour == "red" then Ok(acc.(red := v))
        else if colour == "green" then Ok(acc.(green := v))
        else if colour == "blue" then Ok(acc.(blue := v))
        else Err("unknown colour")
  }

  /** A part parses exactly when it trims to a number, a space and one of
      the three colour words. */
  lemma ParsePartOk(acc: CubeSet, part: string)
    ensures ParsePart(acc, part).Ok? <==> (SplitOnce(Trim(part), ' ').Some?
                        && ParseNat(Trim(SplitOnce(Trim(part), ' ').value.0)).Some?
                        && IsColour(Trim(SplitOnce(Trim(part), ' ').value.1)))
  {
    match SplitOnce(Trim(part), ' ')
    case None =>
    case Some((c, t)) =>
      match ParseNat(Trim(c))
      case None =>
      case Some(v) =>
        ColourStep(acc, v, Trim(t), ParsePart(acc, part));
  }

  lemma ColourStep(acc: CubeSet, v: nat, colour: string, r: Result<CubeSet>)
    requires r == if colour == "red" then Ok(acc.(red := v))
                  else if colour == "green" then Ok(acc.(green := v))
                  else if colour == "blue" then Ok(acc.(blue := v))
                  else Err("unknown colour")
    ensures r.Ok? <==> IsColour(colour)
  {
  }

  /** One of the three colour words. */
  predicate IsColour(w: string) {
    w == "red" || w == "green" || w == "blue"
  }

  function ParseParts(acc: CubeSet, parts: seq<string>): Result<CubeSet>
    decreases |parts|
  {
    if |parts| == 0 then Ok(acc)
    else
      var acc' :- ParsePart(acc, parts[0]);
      ParseParts(acc', parts[1..])
  }

  /** One draw: the comma-separated parts, starting from no cubes. */
  function ParseSet(draw: string): Result<CubeSet> {
    ParseParts(CubeSet(0, 0, 0), Split(draw, ','))
  }

  function ParseSets(sets: seq<string>): (r: Result<seq<CubeSet>>)
    ensures r.Ok? ==> |r.value| == |sets|
    ensures r.Ok? ==> forall i :: 0 <= i < |sets| ==> ParseSet(sets[i]) == Ok(r.value[i])
  {
    if |sets| == 0 then Ok([])
    else
      var first :- ParseSet(sets[0]);
      var rest :- ParseSets(sets[1..]);
      Ok([first] + rest)
  }

  /** `parse_game`: the id after the first space before ':', then one draw
      per ';'-separated group, in input order. */
  function ParseGame(line: string): (r: Result<Game>)
    ensures r.Ok? ==> SplitOnce(line, ':').Some?
    ensures r.Ok? ==> |r.value.sets| == |Split(SplitOnce(line, ':').value.1, ';')|
  {
    var (left, right) :- OkOr(SplitOnce(line, ':'), "no colon");
    var (_, idStr) :- OkOr(SplitOnce(left, ' '), "no space before the id");
    var id :- OkOr(ParseNat(idStr), "id is not a number");
    var sets :- ParseSets(Split(right, ';'));
    Ok(Game(id, sets))
  }

  // ------------------------------------------------------------- printing

  /** A draw as the puzzle lists it, all three colours named:
      " 4 red, 0 green, 3 blue". */
  function ShowSet(c: CubeSet): string {
    ShowPart(c.red, "red") + "," + ShowPart(c.green, "green") + "," + ShowPart(c.blue, "blue")
  }

  /** One part of a draw: " 4 red". */
  function ShowPart(n: nat, colour: string): string {
    " " + ShowNat(n) + " " + colour
  }

  function ShowSets(sets: seq<CubeSet>): (r: seq<string>)
    ensures |r| == |sets| && forall i :: 0 <= i < |sets| ==> r[i] == ShowSet(sets[i])
  {
    if |sets| == 0 then [] else [ShowSet(sets[0])] + ShowSets(sets[1..])
  }

  /** A game line: "Game 7:" and the draws separated by ';'. */
  function ShowGame(g: Game): string {
    "Game " + ShowNat(g.id) + ":" + Join(ShowSets(g.sets), ';')
  }

  /** A printed number holds none of the characters that delimit a line. */
  lemma NumberChars(n: nat)
    ensures var t := ShowNat(n); ':' !in t && ';' !in t && ',' !in t && ' ' !in t
    ensures !IsSpace(ShowNat(n)[0]) && !IsSpace(ShowNat(n)[|ShowNat(n)| - 1])
  {
    var t := ShowNat(n);
    forall k | 0 <= k < |t| ensures t[k] != ':' && t[k] != ';' && t[k] != ',' && !IsSpace(t[k]) {
      assert IsDigit(t[k]);
    }
  }

  /** A part that trims to a count, one space and a colour word sets that
      colour to the count. */
  lemma PartParses(acc: CubeSet, part: string, t: string, colour: string, n: nat)
    requires colour == "red" || colour == "green" || colour == "blue"
    requires Trim(part) == t + [' '] + colour && ' ' !in t
    requires ParseNat(Trim(t)) == Some(n) && Trim(colour) == colour
    ensures ParsePart(acc, part)
         == Ok(if colour == "red" then acc.(red := n)
               else if colour == "green" then acc.(green := n) else acc.(blue := n))
  {
    SplitOnceIs(t, ' ', colour);
  }

  /** A count and a colour word with a space in front trim to themselves. */
  lemma PartTrim(t: string, colour: string)
    requires |t| > 0 && |colour| > 0 && !IsSpace(t[0]) && !IsSpace(colour[|colour| - 1])
    ensures Trim(" " + t + " " + colour) == t + [' '] + colour
  {
    var body := t + [' '] + colour;
    assert " " + t + " " + colour == " " + body;
    assert body[0] == t[0] && body[|body| - 1] == colour[|colour| - 1];
    TrimSpaced(body);
  }

  /** One printed part, " count colour", sets that colour to the count. */
  lemma PartRoundTrip(acc: CubeSet, n: nat, colour: string)
    requires colour == "red" || colour == "green" || colour == "blue"
    ensures ParsePart(acc, ShowPart(n, colour))
         == Ok(if colour == "red" then acc.(red := n)
               else if colour == "green" then acc.(green := n) else acc.(blue := n))
  {
    var t := ShowNat(n);
    NumberChars(n);
    TrimNoSpace(t);
    ParseShowNat(n);
    TrimNoSpace(colour);
    PartTrim(t, colour);
    PartParses(acc, " " + t + " " + colour, t, colour, n);
  }

  /** A part that parses hands its counts on to the rest of the draw. */
  lemma PartStep(acc: CubeSet, p: string, rest: seq<string>, mid: CubeSet)
    requires ParsePart(acc, p) == Ok(mid)
    ensures ParseParts(acc, [p] + rest) == ParseParts(mid, rest)
  {
    assert ([p] + rest)[1..] == rest;
  }

  /** A printed part at the head of a draw sets its colour, giving `mid`,
      and leaves the rest of the draw to go on from there. */
  lemma ShownPartStep(acc: CubeSet, n: nat, colour: string, rest: seq<string>, mid: CubeSet)
    requires (colour == "red" && mid == acc.(red := n)) || (colour == "green" && mid == acc.(green := n))
          || (colour == "blue" && mid == acc.(blue := n))
    ensures ParseParts(acc, [ShowPart(n, colour)] + rest) == ParseParts(mid, rest)
  {
    PartRoundTrip(acc, n, colour);
    PartStep(acc, ShowPart(n, colour), rest, mid);
  }

  /** Three steps that set red, green and blue in turn give those counts. */
  lemma ThreeParts(p1: string, p2: string, p3: string, c: CubeSet)
    requires ParseParts(CubeSet(0, 0, 0), [p1] + [p2, p3]) == ParseParts(CubeSet(c.red, 0, 0), [p2, p3])
    requires ParseParts(CubeSet(c.red, 0, 0), [p2] + [p3]) == ParseParts(CubeSet(c.red, c.green, 0), [p3])
    requires ParseParts(CubeSet(c.red, c.green, 0), [p3] + []) == ParseParts(c, [])
    ensures ParseParts(CubeSet(0, 0, 0), [p1, p2, p3]) == Ok(c)
  {
    ConsThree(p1, p2, p3);
  }

  lemma ConsThree<T>(a: T, b: T, c: T)
    ensures [a] + [b, c] == [a, b, c] && [b] + [c] == [b, c] && [c] + [] == [c]
  {
  }

  /** Comma-free parts joined by commas split back into those parts. */
  lemma SplitThree(p1: string, p2: string, p3: string)
    requires ',' !in p1 && ',' !in p2 && ',' !in p3
    ensures Split(Join([p1, p2, p3], ','), ',') == [p1, p2, p3]
  {
    SplitJoin([p1, p2, p3], ',');
  }

  /** Three texts joined by commas. */
  lemma JoinThree(p1: string, p2: string, p3: string)
    ensures Join([p1, p2, p3], ',') == p1 + [','] + p2 + [','] + p3
  {
    assert [p1, p2, p3][1..] == [p2, p3] && [p2, p3][1..] == [p3];
    assert Join([p3], ',') == p3;
    assert Join([p2, p3], ',') == p2 + [','] + p3;
  }

  /** The printed draw is its three parts joined by commas. */
  lemma ShowSetParts(c: CubeSet)
    ensures ShowSet(c) == Join([ShowPart(c.red, "red"), ShowPart(c.green, "green"), ShowPart(c.blue, "blue")], ',')
  {
    JoinThree(ShowPart(c.red, "red"), ShowPart(c.green, "green"), ShowPart(c.blue, "blue"));
  }

  /** A printed part holds no comma and no semicolon. */
  lemma PartChars(n: nat, colour: string)
    requires colour == "red" || colour == "green" || colour == "blue"
    ensures ',' !in ShowPart(n, colour) && ';' !in ShowPart(n, colour)
  {
    NumberChars(n);
  }

  /** A printed draw parses back to its counts. */
  lemma SetRoundTrip(c: CubeSet)
    ensures ParseSet(ShowSet(c)) == Ok(c)
  {
    var p1, p2, p3 := ShowPart(c.red, "red"), ShowPart(c.green, "green"), ShowPart(c.blue, "blue");
    assert Split(ShowSet(c), ',') == [p1, p2, p3] by {
      PartChars(c.red, "red");
      PartChars(c.green, "green");
      PartChars(c.blue, "blue");
      SplitThree(p1, p2, p3);
      ShowSetParts(c);
    }
    assert ParseParts(CubeSet(0, 0, 0), [p1, p2, p3]) == Ok(c) by {
      ShownPartStep(CubeSet(0, 0, 0), c.red, "red", [p2, p3], CubeSet(c.red, 0, 0));
      ShownPartStep(CubeSet(c.red, 0, 0), c.green, "green", [p3], CubeSet(c.red, c.green, 0));
      ShownPartStep(CubeSet(c.red, c.green, 0), c.blue, "blue", [], c);
      ThreeParts(p1, p2, p3, c);
    }
  }

  lemma {:induction false} SetsRoundTrip(sets: seq<CubeSet>)
    ensures ParseSets(ShowSets(sets)) == Ok(sets)
    decreases |sets|
  {
    if |sets| > 0 {
      var strs := ShowSets(sets);
      SetRoundTrip(sets[0]);
      SetsRoundTrip(sets[1..]);
      ShowSetsTail(sets);
      SetsStep(strs, sets);
    }
  }

  lemma ShowSetsTail(sets: seq<CubeSet>)
    requires |sets| > 0
    ensures ShowSets(sets)[1..] == ShowSets(sets[1..])
  {
    var r, t := ShowSets(sets), ShowSets(sets[1..]);
    assert |r[1..]| == |t|;
    forall i | 0 <= i < |t| ensures r[1..][i] == t[i] {
      assert r[i + 1] == ShowSet(sets[i + 1]) == ShowSet(sets[1..][i]);
    }
  }

  /** Draws whose first parses to the first set and whose others parse
      to the others. */
  lemma SetsStep(strs: seq<string>, sets: seq<CubeSet>)
    requires |strs| > 0 && |sets| > 0
    requires ParseSet(strs[0]) == Ok(sets[0]) && ParseSets(strs[1..]) == Ok(sets[1..])
    ensures ParseSets(strs) == Ok(sets)
  {
    ConsSplit(sets);
  }

  /** A game line splits at its colon, and its left side at the space
      before the id. */
  lemma GameLineSplits(idText: string, body: string)
    requires ':' !in idText
    ensures SplitOnce("Game " + idText + ":" + body, ':') == Some(("Game " + idText, body))
    ensures SplitOnce("Game " + idText, ' ') == Some(("Game", idText))
  {
    var left := "Game " + idText;
    assert "Game " + idText + ":" + body == left + [':'] + body;
    assert ':' !in left by { assert forall k :: 0 <= k < 5 ==> left[k] == "Game "[k]; }
    SplitOnceIs(left, ':', body);
    assert left == "Game" + [' '] + idText by { assert "Game " == "Game" + [' ']; }
    SplitOnceIs("Game", ' ', idText);
  }

  /** "Game ", an id, ':' and draws that parse give the game. */
  lemma GameParses(id: nat, idText: string, body: string, sets: seq<CubeSet>)
    requires ':' !in idText && ParseNat(idText) == Some(id)
    requires ParseSets(Split(body, ';')) == Ok(sets)
    ensures ParseGame("Game " + idText + ":" + body) == Ok(Game(id, sets))
  {
    GameLineSplits(idText, body);
  }

  /** A printed game with at least one draw parses back to the game. */
  lemma GameRoundTrip(g: Game)
    requires |g.sets| >= 1
    ensures ParseGame(ShowGame(g)) == Ok(g)
  {
    NumberChars(g.id);
    ParseShowNat(g.id);
    assert ParseSets(Split(Join(ShowSets(g.sets), ';'), ';')) == Ok(g.sets) by {
      forall i | 0 <= i < |g.sets| ensures ';' !in ShowSets(g.sets)[i] {
        SetChars(g.sets[i]);
      }
      SplitJoin(ShowSets(g.sets), ';');
      SetsRoundTrip(g.sets);
    }
    GameParses(g.id, ShowNat(g.id), Join(ShowSets(g.sets), ';'), g.sets);
  }

  /** A printed draw holds no semicolon. */
  lemma SetChars(c: CubeSet)
    ensures ';' !in ShowSet(c)
  {
    PartChars(c.red, "red");
    PartChars(c.green, "green");
    PartChars(c.blue, "blue");
  }

  /** The colour word of a well-formed part. */
  function ColourOf(part: string): string {
    match SplitOnce(Trim(part), ' ')
    case Some((_, t)) => Trim(t)
    case None => ""
  }

  /** The count of a well-formed part. */
  function CountOf(part: string): nat {
    match SplitOnce(Trim(part), ' ')
    case Some((c, _)) => (match ParseNat(Trim(c)) case Some(v) => v case None => 0)
    case None => 0
  }

  /** The count of the last part naming `colour`, if any part does. */
  function LastNamed(parts: seq<string>, colour: string): Option<nat> {
    if |parts| == 0 then None
    else if ColourOf(parts[|parts| - 1]) == colour then Some(CountOf(parts[|parts| - 1]))
    else LastNamed(parts[..|parts| - 1], colour)
  }

  lemma {:induction false} LastNamedNone(parts: seq<string>, colour: string)
    ensures LastNamed(parts, colour).None? <==> forall i :: 0 <= i < |parts| ==> ColourOf(parts[i]) != colour
  {
    if |parts| > 0 {
      var n := |parts|;
      var init := parts[..n - 1];
      LastNamedNone(init, colour);
      if ColourOf(parts[n - 1]) == colour {
        assert LastNamed(parts, colour).Some?;
      } else {
        NoneSkip(parts, colour);
      }
    }
  }

  /** A last part naming another colour changes nothing. */
  lemma NoneSkip(parts: seq<string>, colour: string)
    requires |parts| > 0 && ColourOf(parts[|parts| - 1]) != colour
    requires var init := parts[..|parts| - 1];
             LastNamed(init, colour).None? <==> forall i :: 0 <= i < |init| ==> ColourOf(init[i]) != colour
    ensures LastNamed(parts, colour).None? <==> forall i :: 0 <= i < |parts| ==> ColourOf(parts[i]) != colour
  {
    assert LastNamed(parts, colour) == LastNamed(parts[..|parts| - 1], colour);
    AllSnoc(parts, parts[..|parts| - 1], part => ColourOf(part) != colour);
  }

  function ValueOr(o: Option<nat>, d: nat): nat {
    match o case Some(v) => v case None => d
  }

  /** Each colour of a parsed draw is the count of the last part naming it,
      and a colour no part names keeps its starting value. */
  lemma {:induction false} ParsePartsSpec(acc: CubeSet, parts: seq<string>)
    requires ParseParts(acc, parts).Ok?
    ensures var r := ParseParts(acc, parts).value;
            r.red == ValueOr(LastNamed(parts, "red"), acc.red)
            && r.green == ValueOr(LastNamed(parts, "green"), acc.green)
            && r.blue == ValueOr(LastNamed(parts, "blue"), acc.blue)
    decreases |parts|
  {
    if |parts| > 0 {
      var acc' := ParsePart(acc, parts[0]).value;
      ParsePartsSpec(acc', parts[1..]);
      LastNamedCons(parts, "red");
      LastNamedCons(parts, "green");
      LastNamedCons(parts, "blue");
    }
  }

  lemma {:induction false} LastNamedCons(parts: seq<string>, colour: string)
    requires |parts| > 0
    ensures LastNamed(parts, colour)
         == if LastNamed(parts[1..], colour).Some? then LastNamed(parts[1..], colour)
            else if ColourOf(parts[0]) == colour then Some(CountOf(parts[0])) else None
    decreases |parts|
  {
    if |parts| > 1 {
      var n := |parts|;
      assert parts[1..][..n - 2] == parts[..n - 1][1..];
      assert parts[1..][n - 2] == parts[n - 1];
      LastNamedCons(parts[..n - 1], colour);
    }
  }

  /** A draw starts from no cubes, so a colour it never names is 0. */
  lemma UnnamedColourIsZero(draw: string)
    requires ParseSet(draw).Ok?
    ensures (forall i :: 0 <= i < |Split(draw, ',')| ==> ColourOf(Split(draw, ',')[i]) != "red") ==> ParseSet(draw).value.red == 0
    ensures (forall i :: 0 <= i < |Split(draw, ',')| ==> ColourOf(Split(draw, ',')[i]) != "green") ==> ParseSet(draw).value.green == 0
    ensures (forall i :: 0 <= i < |Split(draw, ',')| ==> ColourOf(Split(draw, ',')[i]) != "blue") ==> ParseSet(draw).value.blue == 0
  {
    ParsePartsSpec(CubeSet(0, 0, 0), Split(draw, ','));
    LastNamedNone(Split(draw, ','), "red");
    LastNamedNone(Split(draw, ','), "green");
    LastNamedNone(Split(draw, ','), "blue");
  }

  // ------------------------------------------------------------------- run

  /** The bag of part 1. */
  const Bag := CubeSet(12, 13, 14)

  function SumPossible(games: seq<Game>): nat {
    if |games| == 0 then 0
    else (if Possible(games[0].sets, Bag) then games[0].id else 0) + SumPossible(games[1..])
  }

  function SumPowers(games: seq<Game>): nat {
    if |games| == 0 then 0 else Power(MinimumSet(games[0].sets)) + SumPowers(games[1..])
  }

  function ParseGames(lines: seq<string>): (r: Result<seq<Game>>)
    ensures r.Ok? ==> |r.value| == |lines|
    ensures r.Ok? ==> forall i :: 0 <= i < |lines| ==> ParseGame(lines[i]) == Ok(r.value[i])
  {
    if |lines| == 0 then Ok([])
    else
      var g :- ParseGame(lines[0]);
      var rest :- ParseGames(lines[1..]);
      Ok([g] + rest)
  }

  /** `run`: part 1 sums the ids of games possible with the bag (12, 13, 14);
      part 2 sums the powers of the minimum sets. */
  function Run(lines: seq<string>, part1: bool): (r: Result<nat>)
    ensures r.Ok? <==> ParseGames(lines).Ok?
    ensures r.Ok? && part1 ==> r.value == SumPossible(ParseGames(lines).value)
    ensures r.Ok? && !part1 ==> r.value == SumPowers(ParseGames(lines).value)
  {
    var games :- ParseGames(lines);
    if part1 then Ok(SumPossible(games)) else Ok(SumPowers(games))
  }

  /** Part 1 never exceeds the sum of all ids, and equals it when every
      game fits in the bag. */
  lemma {:induction false} SumPossibleBounds(games: seq<Game>)
    ensures SumPossible(games) <= SumIds(games)
    ensures (forall i :: 0 <= i < |games| ==> Within(MinimumSet(games[i].sets), Bag)) ==> SumPossible(games) == SumIds(games)
  {
    if |games| > 0 {
      SumPossibleBounds(games[1..]);
      MinimumSetIsLeast(games[0].sets, Bag);
      assert forall i :: 1 <= i < |games| ==> games[1..][i - 1] == games[i];
    }
  }

  function SumIds(games: seq<Game>): nat {
    if |games| == 0 then 0 else games[0].id + SumIds(games[1..])
  }
}
