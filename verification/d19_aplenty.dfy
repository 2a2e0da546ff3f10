/** Day 19: parts are sorted by workflows of rules. Part 1 routes each
    listed part from the workflow `in` and sums the ratings of the
    accepted ones; part 2 pushes the whole box of ratings 1..4000 through
    the same rules, splitting it at every comparison, and counts the
    rating combinations in the accepted boxes. */
module Aplenty {
  import opened Wrappers
  import opened Text
  import opened Collections

  // ---------------------------------------------------------------- parts

  /** A machine part with its four ratings. */
  datatype Part = Part(x: nat, m: nat, a: nat, s: nat)

  /** The category letters a condition may test. */
  predicate IsCategory(c: char) {
    c == 'x' || c == 'm' || c == 'a' || c == 's'
  }

  /** The rating of `p` in category `c`. */
  function Rating(p: Part, c: char): nat
    requires IsCategory(c)
  {
    if c == 'x' then p.x else if c == 'm' then p.m else if c == 'a' then p.a else p.s
  }

  // ----------------------------------------------------------- conditions

  /** A comparison of one category's rating with a threshold. The category
      is the first byte of its name, whatever it is. */
  datatype Condition = GreaterThan(name: char, v: nat) | LessThan(name: char, v: nat)

  /** Evaluating a condition on a part; a category other than x, m, a, s
      fails, as the source panics. */
  function EvalCondition(c: Condition, p: Part): (r: Result<bool>)
    ensures r.Ok? <==> IsCategory(c.name)
    ensures r.Ok? && c.GreaterThan? ==> r.value == (Rating(p, c.name) > c.v)
    ensures r.Ok? && c.LessThan? ==> r.value == (Rating(p, c.name) < c.v)
  {
    match c
    case GreaterThan(n, v) =>
      (match n
       case 'x' => Ok(p.x > v)
       case 'm' => Ok(p.m > v)
       case 'a' => Ok(p.a > v)
       case 's' => Ok(p.s > v)
       case _ => Err("unknown category"))
    case LessThan(n, v) =>
      (match n
       case 'x' => Ok(p.x < v)
       case 'm' => Ok(p.m < v)
       case 'a' => Ok(p.a < v)
       case 's' => Ok(p.s < v)
       case _ => Err("unknown category"))
  }

  /** `name<num` or, failing that, `name>num`; an empty name or a threshold
      that is not a number fails. */
  function ParseCondition(s: string): (r: Result<Condition>)
    ensures r.Ok? && r.value.LessThan? ==> '<' in s
    ensures r.Ok? && r.value.GreaterThan? ==> '<' !in s && '>' in s
    ensures '<' !in s && '>' !in s ==> r.Err?
  {
    match SplitOnce(s, '<')
    case Some((name, num)) =>
      if |name| == 0 then Err("empty category")
      else
        var v :- OkOr(ParseNat(num), "bad threshold");
        Ok(LessThan(name[0], v))
    case None =>
      match SplitOnce(s, '>')
      case Some((name, num)) =>
        if |name| == 0 then Err("empty category")
        else
          var v :- OkOr(ParseNat(num), "bad threshold");
          Ok(GreaterThan(name[0], v))
      case None => Err("unknown condition")
  }

  /** The text a condition is written as. */
  function ShowCondition(c: Condition): string {
    match c
    case GreaterThan(n, v) => [n] + ">" + ShowNat(v)
    case LessThan(n, v) => [n] + "<" + ShowNat(v)
  }

  /** Printing a condition and parsing it back gives it again, for a
      category character that is not itself a comparison sign. */
  lemma ConditionRoundTrip(c: Condition)
    requires c.name != '<' && c.name != '>'
    ensures ParseCondition(ShowCondition(c)) == Ok(c)
  {
    ParseShowNat(c.v);
    ShowNatValue(c.v);
    DigitsNoSpace(ShowNat(c.v));
    match c
    case GreaterThan(n, v) =>
      SplitOnceIs([n], '>', ShowNat(v));
      assert '<' !in ShowCondition(c);
    case LessThan(n, v) =>
      SplitOnceIs([n], '<', ShowNat(v));
  }

  // --------------------------------------------------------- destinations

  /** Where a rule sends a part: accepted, rejected, or another workflow. */
  datatype Destination = Accepted | Rejected | Send(target: string)

  function ParseDestination(s: string): (r: Destination)
    ensures r.Accepted? <==> s == "A"
    ensures r.Rejected? <==> s == "R"
    ensures r.Send? ==> r.target == s
  {
    if s == "A" then Accepted else if s == "R" then Rejected else Send(s)
  }

  function ShowDestination(d: Destination): string {
    match d
    case Accepted => "A"
    case Rejected => "R"
    case Send(t) => t
  }

  /** A workflow name that reads back as itself inside a rule list. */
  predicate PlainName(s: string) {
    s != "A" && s != "R" && ':' !in s && ',' !in s && '{' !in s && '}' !in s
  }

  predicate PlainDestination(d: Destination) {
    d.Send? ==> PlainName(d.target)
  }

  lemma DestinationRoundTrip(d: Destination)
    requires PlainDestination(d)
    ensures ParseDestination(ShowDestination(d)) == d
  {
  }

  // ---------------------------------------------------------------- rules

  /** A rule: an optional condition and the destination when it holds. */
  datatype Rule = Rule(condition: Option<Condition>, destination: Destination)

  /** `condition:destination`, or a bare destination. */
  function ParseRule(s: string): (r: Result<Rule>)
    ensures ':' !in s ==> r == Ok(Rule(None, ParseDestination(s)))
    ensures r.Ok? && r.value.condition.Some? ==> ':' in s
  {
    match SplitOnce(s, ':')
    case Some((left, right)) =>
      var c :- ParseCondition(left);
      Ok(Rule(Some(c), ParseDestination(right)))
    case None => Ok(Rule(None, ParseDestination(s)))
  }

  function ShowRule(r: Rule): string {
    match r.condition
    case Some(c) => ShowCondition(c) + ":" + ShowDestination(r.destination)
    case None => ShowDestination(r.destination)
  }

  /** A rule whose text reads back as itself. */
  predicate PlainRule(r: Rule) {
    PlainDestination(r.destination)
    && (r.condition.Some? ==> r.condition.value.name !in "<>:,{}")
  }

  /** A condition's text has no rule or workflow separators. */
  lemma ConditionText(c: Condition)
    requires c.name !in "<>:,{}"
    ensures ':' !in ShowCondition(c) && ',' !in ShowCondition(c)
  {
    ShowNatValue(c.v);
    DigitsNoSpace(ShowNat(c.v));
  }

  lemma RuleRoundTrip(r: Rule)
    requires PlainRule(r)
    ensures ParseRule(ShowRule(r)) == Ok(r)
    ensures ',' !in ShowRule(r)
  {
    match r.condition
    case Some(c) =>
      ConditionRoundTrip(c);
      ConditionText(c);
      var t := ShowCondition(c) + ":" + ShowDestination(r.destination);
      SplitOnceIs(ShowCondition(c), ':', ShowDestination(r.destination));
      assert ParseRule(t) == Ok(Rule(Some(c), ParseDestination(ShowDestination(r.destination))));
      DestinationRoundTrip(r.destination);
    case None =>
      DestinationRoundTrip(r.destination);
  }

  /** The rule forms of the puzzle: a conditional rule sending on to a
      workflow, and bare accept and reject rules. */
  lemma RuleExamples()
    ensures ParseRule("x>10:one") == Ok(Rule(Some(GreaterThan('x', 10)), Send("one")))
    ensures ParseRule("A") == Ok(Rule(None, Accepted))
    ensures ParseRule("R") == Ok(Rule(None, Rejected))
  {
    var r := Rule(Some(GreaterThan('x', 10)), Send("one"));
    ShowRuleExample();
    RuleRoundTrip(r);
    BareRuleExamples();
  }

  lemma ShowRuleExample()
    ensures ShowRule(Rule(Some(GreaterThan('x', 10)), Send("one"))) == "x>10:one"
  {
    assert ShowNat(10) == ShowNat(1) + [DigitChar(0)];
    assert ShowCondition(GreaterThan('x', 10)) == "x>10";
  }

  lemma BareRuleExamples()
    ensures ParseRule("A") == Ok(Rule(None, Accepted))
    ensures ParseRule("R") == Ok(Rule(None, Rejected))
  {
    RuleRoundTrip(Rule(None, Accepted));
    RuleRoundTrip(Rule(None, Rejected));
  }

  /** Rust's `Rule::evaluate`: the destination when the condition holds or
      is absent, `None` when it fails. */
  function EvalRule(rule: Rule, p: Part): (r: Result<Option<Destination>>)
    ensures rule.condition.None? ==> r == Ok(Some(rule.destination))
    ensures rule.condition.Some? ==> (r.Ok? <==> IsCategory(rule.condition.value.name))
    ensures r.Ok? && r.value.Some? ==> r.value.value == rule.destination
  {
    match rule.condition
    case None => Ok(Some(rule.destination))
    case Some(c) =>
      var holds :- EvalCondition(c, p);
      if holds then Ok(Some(rule.destination)) else Ok(None)
  }

  /** The rule sends the part on. */
  predicate Fires(rule: Rule, p: Part) {
    EvalRule(rule, p).Ok? && EvalRule(rule, p).value.Some?
  }

  /** The rule's condition is false for the part. */
  predicate Passes(rule: Rule, p: Part) {
    EvalRule(rule, p) == Ok(None)
  }

  /** Rule `i` is the first that fires, and every earlier one passes. */
  predicate FirstFiring(rules: seq<Rule>, p: Part, i: int) {
    0 <= i < |rules| && Fires(rules[i], p) && forall j :: 0 <= j < i ==> Passes(rules[j], p)
  }

  // ------------------------------------------------------------ workflows

  datatype Workflow = Workflow(name: string, rules: seq<Rule>)

  /** Rust's `Workflow::evaluate`: the destination of the first rule that
      fires. Running out of rules fails, and so does a condition on an
      unknown category that is reached first. */
  function EvalRules(rules: seq<Rule>, p: Part): (r: Result<Destination>)
    ensures r.Ok? <==> exists i :: FirstFiring(rules, p, i)
    ensures r.Ok? ==> exists i :: FirstFiring(rules, p, i) && r.value == rules[i].destination
    decreases |rules|
  {
    if |rules| == 0 then Err("the last rule should always match")
    else
      var fired :- EvalRule(rules[0], p);
      match fired
      case Some(d) =>
        assert FirstFiring(rules, p, 0);
        Ok(d)
      case None =>
        var r := EvalRules(rules[1..], p);
        assert forall i :: FirstFiring(rules[1..], p, i) ==> FirstFiring(rules, p, i + 1);
        assert forall i :: FirstFiring(rules, p, i) ==> i >= 1 && FirstFiring(rules[1..], p, i - 1);
        r
  }

  /** `name{rule,rule,...}`; a missing brace or a bad rule fails. */
  function ParseWorkflow(line: string): (r: Result<Workflow>)
    ensures r.Ok? ==> '{' !in r.value.name && |r.value.rules| >= 1
  {
    var (name, rest) :- OkOr(SplitOnce(line, '{'), "missing '{'");
    var body :- OkOr(StripSuffix(rest, "}"), "missing '}'");
    var rules :- MapAllOk(Split(body, ','), ParseRule);
    Ok(Workflow(name, rules))
  }

  function ShowRules(rules: seq<Rule>): (r: seq<string>)
    ensures |r| == |rules| && forall i :: 0 <= i < |rules| ==> r[i] == ShowRule(rules[i])
  {
    if |rules| == 0 then [] else [ShowRule(rules[0])] + ShowRules(rules[1..])
  }

  function ShowWorkflow(w: Workflow): string {
    w.name + "{" + Join(ShowRules(w.rules), ',') + "}"
  }

  /** A workflow printed and parsed back is the same workflow, when it has
      a rule and its names avoid the separators. */
  lemma WorkflowRoundTrip(w: Workflow)
    requires '{' !in w.name && |w.rules| >= 1
    requires forall i :: 0 <= i < |w.rules| ==> PlainRule(w.rules[i])
    ensures ParseWorkflow(ShowWorkflow(w)) == Ok(w)
  {
    var pieces := ShowRules(w.rules);
    var body := Join(pieces, ',');
    forall i | 0 <= i < |pieces| ensures ',' !in pieces[i] && ParseRule(pieces[i]) == Ok(w.rules[i]) {
      RuleRoundTrip(w.rules[i]);
    }
    SplitJoin(pieces, ',');
    SplitOnceIs(w.name, '{', body + "}");
    assert ShowWorkflow(w) == w.name + "{" + (body + "}");
    StripSuffixIs(body, "}");
    var parsed := MapAllOk(Split(body, ','), ParseRule);
    assert parsed.Ok? && parsed.value == w.rules;
  }

  /** The last definition of `name` among `wfs` is at `i`. */
  predicate LastDefinition(wfs: seq<Workflow>, name: string, i: int) {
    0 <= i < |wfs| && wfs[i].name == name && forall j :: i < j < |wfs| ==> wfs[j].name != name
  }

  /** The workflows by name; a name defined twice keeps its last
      definition, as collecting into a hash map does. */
  function Index(wfs: seq<Workflow>): map<string, Workflow>
    decreases |wfs|
  {
    if |wfs| == 0 then map[]
    else Index(wfs[..|wfs| - 1])[wfs[|wfs| - 1].name := wfs[|wfs| - 1]]
  }

  lemma {:induction false} IndexLastWins(wfs: seq<Workflow>, name: string)
    ensures name in Index(wfs) <==> exists i :: 0 <= i < |wfs| && wfs[i].name == name
    ensures name in Index(wfs) ==> exists i :: LastDefinition(wfs, name, i) && Index(wfs)[name] == wfs[i]
    decreases |wfs|
  {
    if |wfs| > 0 {
      var init := wfs[..|wfs| - 1];
      var last := |wfs| - 1;
      assert forall i :: 0 <= i < |init| ==> init[i] == wfs[i];
      IndexLastWins(init, name);
      if wfs[last].name == name {
        assert LastDefinition(wfs, name, last);
      } else if name in Index(wfs) {
        var i :| LastDefinition(init, name, i) && Index(init)[name] == init[i];
        assert LastDefinition(wfs, name, i);
      }
    }
  }

  type System = map<string, Workflow>

  // ------------------------------------------------------------- routing

  /** Part 1's loop from workflow `name`: true when the part ends accepted.
      A missing workflow or a failing evaluation fails; so does a chain of
      more than `fuel` hops, where a cycle makes the source loop forever. */
  function Route(sys: System, name: string, p: Part, fuel: nat): Result<bool>
    decreases fuel, 1
  {
    if name !in sys then Err("unknown workflow")
    else
      var d :- EvalRules(sys[name].rules, p);
      RouteFrom(sys, d, p, fuel)
  }

  function RouteFrom(sys: System, d: Destination, p: Part, fuel: nat): Result<bool>
    decreases fuel, 0
  {
    match d
    case Accepted => Ok(true)
    case Rejected => Ok(false)
    case Send(n) => if fuel == 0 then Err("workflow chain too long") else Route(sys, n, p, fuel - 1)
  }

  // -------------------------------------------------------- rating boxes

  /** The half-open range `lo..hi` of 16-bit ratings. */
  datatype Span = Span(lo: int, hi: int)

  predicate InSpan(r: Span, v: int) {
    r.lo <= v < r.hi
  }

  /** Rust's `Range::len`: zero for an empty or reversed range. */
  function Len(r: Span): nat {
    if r.lo < r.hi then r.hi - r.lo else 0
  }

  /** Rust's `split_range_lt`: the values below `d` and the rest. */
  function SplitSpan(r: Span, d: int): (h: (Span, Span))
    ensures forall v :: InSpan(h.0, v) <==> InSpan(r, v) && v < d
    ensures forall v :: InSpan(h.1, v) <==> InSpan(r, v) && v >= d
    ensures Len(h.0) + Len(h.1) == Len(r)
  {
    if d < r.lo then (Span(r.lo, r.lo), r)
    else if d >= r.hi then (r, Span(r.lo, r.lo))
    else (Span(r.lo, d), Span(d, r.hi))
  }

  /** Four rating ranges: the parts whose every rating is in its range. */
  datatype Box = Box(x: Span, m: Span, a: Span, s: Span)

  function SpanOf(b: Box, c: char): Span
    requires IsCategory(c)
  {
    if c == 'x' then b.x else if c == 'm' then b.m else if c == 'a' then b.a else b.s
  }

  predicate InBox(p: Part, b: Box) {
    InSpan(b.x, p.x) && InSpan(b.m, p.m) && InSpan(b.a, p.a) && InSpan(b.s, p.s)
  }

  /** The number of rating combinations in the box. */
  function Volume(b: Box): nat {
    Len(b.x) * Len(b.m) * Len(b.a) * Len(b.s)
  }

  /** A box with one category's range replaced. */
  function WithSpan(b: Box, c: char, r: Span): Box
    requires IsCategory(c)
  {
    if c == 'x' then b.(x := r) else if c == 'm' then b.(m := r) else if c == 'a' then b.(a := r) else b.(s := r)
  }

  /** Rust's `PartRanges::split_lt`: the box split where category `name`
      meets `value` truncated to 16 bits; the other categories are kept in
      both halves. An unknown category fails. */
  function SplitBox(b: Box, name: char, value: nat): (r: Result<(Box, Box)>)
    ensures r.Ok? <==> IsCategory(name)
    ensures r.Ok? ==> forall c :: IsCategory(c) && c != name ==>
                        SpanOf(r.value.0, c) == SpanOf(b, c) && SpanOf(r.value.1, c) == SpanOf(b, c)
    ensures r.Ok? ==> (SpanOf(r.value.0, name), SpanOf(r.value.1, name)) == SplitSpan(SpanOf(b, name), value % 65536)
  {
    if IsCategory(name) then
      var h := SplitSpan(SpanOf(b, name), value % 65536);
      Ok((WithSpan(b, name, h.0), WithSpan(b, name, h.1)))
    else Err("unknown category")
  }

  /** A part is in the lower half of a split box exactly when it is in the
      box with its rating below the cut, and in the upper half exactly when
      it is in the box with its rating at or above the cut. */
  lemma SplitBoxParts(b: Box, name: char, value: nat, p: Part)
    requires IsCategory(name)
    ensures InBox(p, SplitBox(b, name, value).value.0) <==> InBox(p, b) && Rating(p, name) < value % 65536
    ensures InBox(p, SplitBox(b, name, value).value.1) <==> InBox(p, b) && Rating(p, name) >= value % 65536
  {
  }

  /** The product of the range lengths of the three categories other
      than `c`. */
  function Others(b: Box, c: char): nat
    requires IsCategory(c)
  {
    if c == 'x' then Len(b.m) * Len(b.a) * Len(b.s)
    else if c == 'm' then Len(b.x) * Len(b.a) * Len(b.s)
    else if c == 'a' then Len(b.x) * Len(b.m) * Len(b.s)
    else Len(b.x) * Len(b.m) * Len(b.a)
  }

  /** Regrouping a product of four lengths around each factor. */
  lemma Regroup(x: nat, m: nat, a: nat, s: nat)
    ensures x * m * a * s == x * (m * a * s)
    ensures x * m * a * s == m * (x * a * s)
    ensures x * m * a * s == a * (x * m * s)
  {
    calc {
      x * m * a * s;
      x * (m * a) * s;
      x * (m * a * s);
    }
    calc {
      x * m * a * s;
      { assert x * m == m * x; }
      m * x * a * s;
      m * (x * a) * s;
      m * (x * a * s);
    }
    calc {
      x * m * a * s;
      { assert x * m * a == a * (x * m); }
      a * (x * m) * s;
      a * (x * m * s);
    }
  }

  /** A box's volume factors into one category's length and the rest. */
  lemma VolumeFactors(b: Box, c: char)
    requires IsCategory(c)
    ensures Volume(b) == Len(SpanOf(b, c)) * Others(b, c)
  {
    Regroup(Len(b.x), Len(b.m), Len(b.a), Len(b.s));
  }

  /** Splitting keeps the other three categories' lengths. */
  lemma SplitOthers(b: Box, name: char, value: nat)
    requires IsCategory(name)
    ensures Others(SplitBox(b, name, value).value.0, name) == Others(b, name)
    ensures Others(SplitBox(b, name, value).value.1, name) == Others(b, name)
  {
  }

  /** The two halves of a split hold as many combinations as the box. */
  lemma SplitBoxVolume(b: Box, name: char, value: nat)
    requires IsCategory(name)
    ensures Volume(SplitBox(b, name, value).value.0) + Volume(SplitBox(b, name, value).value.1) == Volume(b)
  {
    var h := SplitBox(b, name, value).value;
    var o := Others(b, name);
    var l0, l1 := Len(SpanOf(h.0, name)), Len(SpanOf(h.1, name));
    assert l0 + l1 == Len(SpanOf(b, name));
    SplitOthers(b, name, value);
    VolumeFactors(b, name);
    VolumeFactors(h.0, name);
    VolumeFactors(h.1, name);
    MulDist(o, l0, l1);
    assert l0 * o == o * l0 && l1 * o == o * l1 && (l0 + l1) * o == o * (l0 + l1);
  }

  // ----------------------------------------------------------- filtering

  /** Rust's `SortingSystem::filter`: the accepted sub-boxes of `b` when it
      enters workflow `name`. A missing workflow fails; so does a chain of
      more than `fuel` hops, where the source recurses forever. */
  function Filter(sys: System, name: string, b: Box, fuel: nat): Result<seq<Box>>
    decreases fuel, 2, 0
  {
    if name !in sys then Err("unknown workflow")
    else FilterRules(sys, sys[name].rules, b, fuel)
  }

  /** Rust's `filter_rules`: a `>` test splits at one above the threshold,
      a `<` test at the threshold; the matching half goes to the rule's
      destination and the rest to the remaining rules. */
  function FilterRules(sys: System, rules: seq<Rule>, b: Box, fuel: nat): Result<seq<Box>>
    decreases fuel, 1, |rules|
  {
    if |rules| == 0 then Err("ran out of rules")
    else
      var dest := rules[0].destination;
      match rules[0].condition
      case None => FilterTo(sys, dest, b, fuel)
      case Some(GreaterThan(n, v)) =>
        var halves :- SplitBox(b, n, v + 1);
        var yes :- FilterTo(sys, dest, halves.1, fuel);
        var no :- FilterRules(sys, rules[1..], halves.0, fuel);
        Ok(yes + no)
      case Some(LessThan(n, v)) =>
        var halves :- SplitBox(b, n, v);
        var yes :- FilterTo(sys, dest, halves.0, fuel);
        var no :- FilterRules(sys, rules[1..], halves.1, fuel);
        Ok(yes + no)
  }

  /** Rust's `filter_destination`. */
  function FilterTo(sys: System, d: Destination, b: Box, fuel: nat): Result<seq<Box>>
    decreases fuel, 0, 0
  {
    match d
    case Accepted => Ok([b])
    case Rejected => Ok([])
    case Send(n) => if fuel == 0 then Err("workflow chain too long") else Filter(sys, n, b, fuel - 1)
  }

  // ------------------------------------------- what filtering guarantees

  ghost predicate SubBox(x: Box, b: Box) {
    forall p :: InBox(p, x) ==> InBox(p, b)
  }

  ghost predicate Apart(x: Box, y: Box) {
    forall p :: !(InBox(p, x) && InBox(p, y))
  }

  /** Every box of `bs` lies in `b`. */
  ghost predicate Within(bs: seq<Box>, b: Box) {
    forall i :: 0 <= i < |bs| ==> SubBox(bs[i], b)
  }

  /** No part lies in two boxes of `bs`. */
  ghost predicate Disjoint(bs: seq<Box>) {
    forall i, j :: 0 <= i < j < |bs| ==> Apart(bs[i], bs[j])
  }

  /** The part lies in one of the boxes. */
  ghost predicate Covered(bs: seq<Box>, p: Part) {
    exists i :: 0 <= i < |bs| && InBox(p, bs[i])
  }

  function TotalVolume(bs: seq<Box>): nat {
    if |bs| == 0 then 0 else Volume(bs[0]) + TotalVolume(bs[1..])
  }

  lemma {:induction false} TotalVolumeAppend(xs: seq<Box>, ys: seq<Box>)
    ensures TotalVolume(xs + ys) == TotalVolume(xs) + TotalVolume(ys)
    decreases |xs|
  {
    if |xs| > 0 {
      assert (xs + ys)[0] == xs[0];
      assert (xs + ys)[1..] == xs[1..] + ys;
      TotalVolumeAppend(xs[1..], ys);
    } else {
      assert xs + ys == ys;
    }
  }

  /** Two well-behaved results from disjoint halves of `b` combine into a
      well-behaved result for `b`. */
  lemma CombineHalves(yes: seq<Box>, no: seq<Box>, hy: Box, hn: Box, b: Box)
    requires Within(yes, hy) && Disjoint(yes) && TotalVolume(yes) <= Volume(hy)
    requires Within(no, hn) && Disjoint(no) && TotalVolume(no) <= Volume(hn)
    requires SubBox(hy, b) && SubBox(hn, b) && Apart(hy, hn)
    requires Volume(hy) + Volume(hn) == Volume(b)
    ensures Within(yes + no, b) && Disjoint(yes + no) && TotalVolume(yes + no) <= Volume(b)
  {
    var all := yes + no;
    forall i | 0 <= i < |all| ensures SubBox(all[i], b) {
      if i < |yes| { assert all[i] == yes[i]; } else { assert all[i] == no[i - |yes|]; }
    }
    forall i, j | 0 <= i < j < |all| ensures Apart(all[i], all[j]) {
      if j < |yes| {
        assert all[i] == yes[i] && all[j] == yes[j];
      } else if i >= |yes| {
        assert all[i] == no[i - |yes|] && all[j] == no[j - |yes|];
      } else {
        assert all[i] == yes[i] && all[j] == no[j - |yes|];
        assert SubBox(yes[i], hy) && SubBox(no[j - |yes|], hn);
      }
    }
    TotalVolumeAppend(yes, no);
  }

  /** The boxes accepted from workflow `name` are pairwise disjoint, lie in
      the box that entered, and hold no more combinations than it. */
  lemma {:induction false} FilterSound(sys: System, name: string, b: Box, fuel: nat)
    requires Filter(sys, name, b, fuel).Ok?
    ensures Within(Filter(sys, name, b, fuel).value, b)
    ensures Disjoint(Filter(sys, name, b, fuel).value)
    ensures TotalVolume(Filter(sys, name, b, fuel).value) <= Volume(b)
    decreases fuel, 2, 0
  {
    FilterRulesSound(sys, sys[name].rules, b, fuel);
  }

  /** Where a rule's condition cuts a box: one above the threshold for `>`,
      the threshold itself for `<`. */
  function CutOf(c: Condition): nat {
    if c.GreaterThan? then c.v + 1 else c.v
  }

  /** The half of `b` a rule with condition `c` sends on, and the half it
      passes to the next rule. */
  function Halves(b: Box, c: Condition): (Box, Box)
    requires IsCategory(c.name)
  {
    var h := SplitBox(b, c.name, CutOf(c)).value;
    if c.GreaterThan? then (h.1, h.0) else (h.0, h.1)
  }

  /** What a successful filter through a conditional first rule is made of,
      and how the two halves relate to the box. */
  lemma RuleSplit(sys: System, rules: seq<Rule>, b: Box, fuel: nat)
    requires |rules| >= 1 && rules[0].condition.Some?
    requires FilterRules(sys, rules, b, fuel).Ok?
    ensures IsCategory(rules[0].condition.value.name)
    ensures var (hy, hn) := Halves(b, rules[0].condition.value);
            && FilterTo(sys, rules[0].destination, hy, fuel).Ok?
            && FilterRules(sys, rules[1..], hn, fuel).Ok?
            && FilterRules(sys, rules, b, fuel).value
               == FilterTo(sys, rules[0].destination, hy, fuel).value + FilterRules(sys, rules[1..], hn, fuel).value
            && SubBox(hy, b) && SubBox(hn, b) && Apart(hy, hn)
            && Volume(hy) + Volume(hn) == Volume(b)
  {
    var c := rules[0].condition.value;
    var (hy, hn) := Halves(b, c);
    forall p ensures (InBox(p, hy) ==> InBox(p, b)) && (InBox(p, hn) ==> InBox(p, b)) && !(InBox(p, hy) && InBox(p, hn)) {
      SplitBoxParts(b, c.name, CutOf(c), p);
    }
    SplitBoxVolume(b, c.name, CutOf(c));
  }

  /** For a part in the box, the half it falls into is the rule's verdict. */
  lemma RuleSplitPart(rules: seq<Rule>, b: Box, p: Part)
    requires |rules| >= 1 && rules[0].condition.Some? && SmallRule(rules[0])
    requires IsCategory(rules[0].condition.value.name) && InBox(p, b)
    ensures var (hy, hn) := Halves(b, rules[0].condition.value);
            && InBox(p, hy) != InBox(p, hn)
            && (InBox(p, hy) ==> EvalRules(rules, p) == Ok(rules[0].destination))
            && (InBox(p, hn) ==> EvalRules(rules, p) == EvalRules(rules[1..], p))
  {
    var c := rules[0].condition.value;
    var (hy, hn) := Halves(b, c);
    SplitBoxParts(b, c.name, CutOf(c), p);
    assert CutOf(c) % 65536 == CutOf(c);
    var holds := EvalCondition(c, p).value;
    assert c.GreaterThan? ==> (holds <==> Rating(p, c.name) >= CutOf(c));
    assert c.LessThan? ==> (holds <==> Rating(p, c.name) < CutOf(c));
    assert InBox(p, hy) <==> holds;
    if holds {
      assert EvalRule(rules[0], p) == Ok(Some(rules[0].destination));
    } else {
      assert EvalRule(rules[0], p) == Ok(None);
    }
  }

  lemma {:induction false} FilterRulesSound(sys: System, rules: seq<Rule>, b: Box, fuel: nat)
    requires FilterRules(sys, rules, b, fuel).Ok?
    ensures Within(FilterRules(sys, rules, b, fuel).value, b)
    ensures Disjoint(FilterRules(sys, rules, b, fuel).value)
    ensures TotalVolume(FilterRules(sys, rules, b, fuel).value) <= Volume(b)
    decreases fuel, 1, |rules|
  {
    var dest := rules[0].destination;
    match rules[0].condition
    case None => FilterToSound(sys, dest, b, fuel);
    case Some(c) =>
      RuleSplit(sys, rules, b, fuel);
      var (hy, hn) := Halves(b, c);
      FilterToSound(sys, dest, hy, fuel);
      FilterRulesSound(sys, rules[1..], hn, fuel);
      CombineHalves(FilterTo(sys, dest, hy, fuel).value, FilterRules(sys, rules[1..], hn, fuel).value, hy, hn, b);
  }

  lemma {:induction false} FilterToSound(sys: System, d: Destination, b: Box, fuel: nat)
    requires FilterTo(sys, d, b, fuel).Ok?
    ensures Within(FilterTo(sys, d, b, fuel).value, b)
    ensures Disjoint(FilterTo(sys, d, b, fuel).value)
    ensures TotalVolume(FilterTo(sys, d, b, fuel).value) <= Volume(b)
    decreases fuel, 0, 0
  {
    match d
    case Accepted =>
      assert TotalVolume([b]) == Volume(b) + TotalVolume([]);
    case Rejected =>
    case Send(n) => FilterSound(sys, n, b, fuel - 1);
  }

  /** Thresholds small enough that the 16-bit cuts of part 2 are the
      comparisons of part 1. */
  predicate SmallRule(r: Rule) {
    match r.condition
    case None => true
    case Some(GreaterThan(_, v)) => v + 1 < 65536
    case Some(LessThan(_, v)) => v < 65536
  }

  predicate SmallRules(rules: seq<Rule>) {
    forall i :: 0 <= i < |rules| ==> SmallRule(rules[i])
  }

  predicate SmallSystem(sys: System) {
    forall n :: n in sys ==> SmallRules(sys[n].rules)
  }

  /** Part 2 agrees with part 1: when the box filtered from workflow `name`
      succeeds, every part inside the box is routed without error, and it
      is accepted exactly when it lies in one of the accepted boxes. */
  lemma {:induction false} FilterAgrees(sys: System, name: string, b: Box, fuel: nat, p: Part)
    requires SmallSystem(sys)
    requires Filter(sys, name, b, fuel).Ok? && InBox(p, b)
    ensures Route(sys, name, p, fuel) == Ok(Covered(Filter(sys, name, b, fuel).value, p))
    decreases fuel, 2, 0
  {
    FilterRulesAgrees(sys, sys[name].rules, b, fuel, p);
  }

  lemma {:induction false} FilterRulesAgrees(sys: System, rules: seq<Rule>, b: Box, fuel: nat, p: Part)
    requires SmallSystem(sys) && SmallRules(rules)
    requires FilterRules(sys, rules, b, fuel).Ok? && InBox(p, b)
    ensures EvalRules(rules, p).Ok?
    ensures RouteFrom(sys, EvalRules(rules, p).value, p, fuel) == Ok(Covered(FilterRules(sys, rules, b, fuel).value, p))
    decreases fuel, 1, |rules|
  {
    var dest := rules[0].destination;
    assert SmallRule(rules[0]);
    match rules[0].condition
    case None =>
      FilterToAgrees(sys, dest, b, fuel, p);
    case Some(c) =>
      RuleSplit(sys, rules, b, fuel);
      RuleSplitPart(rules, b, p);
      var (hy, hn) := Halves(b, c);
      var yes := FilterTo(sys, dest, hy, fuel).value;
      var no := FilterRules(sys, rules[1..], hn, fuel).value;
      if InBox(p, hy) {
        FilterToAgrees(sys, dest, hy, fuel, p);
        FilterRulesSound(sys, rules[1..], hn, fuel);
        CoveredAppend(yes, no, hn, p);
      } else {
        assert SmallRules(rules[1..]) by {
          assert forall i :: 0 <= i < |rules[1..]| ==> rules[1..][i] == rules[i + 1];
        }
        FilterRulesAgrees(sys, rules[1..], hn, fuel, p);
        FilterToSound(sys, dest, hy, fuel);
        CoveredAppendRight(yes, no, hy, p);
      }
  }

  lemma {:induction false} FilterToAgrees(sys: System, d: Destination, b: Box, fuel: nat, p: Part)
    requires SmallSystem(sys)
    requires FilterTo(sys, d, b, fuel).Ok? && InBox(p, b)
    ensures RouteFrom(sys, d, p, fuel) == Ok(Covered(FilterTo(sys, d, b, fuel).value, p))
    decreases fuel, 0, 0
  {
    match d
    case Accepted =>
      assert InBox(p, [b][0]);
    case Rejected =>
    case Send(n) => FilterAgrees(sys, n, b, fuel - 1, p);
  }

  /** A part outside every box of `no` is covered by `yes + no` exactly when
      it is covered by `yes`. */
  lemma CoveredAppend(yes: seq<Box>, no: seq<Box>, hn: Box, p: Part)
    requires Within(no, hn) && !InBox(p, hn)
    ensures Covered(yes + no, p) == Covered(yes, p)
  {
    forall i | |yes| <= i < |yes + no| ensures !InBox(p, (yes + no)[i]) {
      assert (yes + no)[i] == no[i - |yes|];
      assert SubBox(no[i - |yes|], hn);
    }
    forall i | 0 <= i < |yes| ensures (yes + no)[i] == yes[i] {
    }
  }

  /** A part outside every box of `yes` is covered by `yes + no` exactly
      when it is covered by `no`. */
  lemma CoveredAppendRight(yes: seq<Box>, no: seq<Box>, hy: Box, p: Part)
    requires Within(yes, hy) && !InBox(p, hy)
    ensures Covered(yes + no, p) == Covered(no, p)
  {
    forall i | 0 <= i < |yes| ensures !InBox(p, (yes + no)[i]) {
      assert (yes + no)[i] == yes[i];
      assert SubBox(yes[i], hy);
    }
    forall i | 0 <= i < |no| ensures (yes + no)[i + |yes|] == no[i] {
    }
    if Covered(yes + no, p) {
      var i :| 0 <= i < |yes + no| && InBox(p, (yes + no)[i]);
      assert InBox(p, no[i - |yes|]);
    }
  }

  // -------------------------------------------------------- part parsing

  /** One `name=value` field applied to a part; a missing `=`, a bad value
      or an unknown category fails. */
  function Assign(p: Part, field: string): (r: Result<Part>)
    ensures r.Ok? <==> FieldOk(field)
    ensures r.Ok? ==> r.value == WithRating(p, FieldName(field), FieldValue(field))
  {
    var (name, value) :- OkOr(SplitOnce(field, '='), "missing '='");
    var v :- OkOr(ParseNat(value), "bad rating");
    assert |name| == 1 ==> name == [name[0]];
    if name == "x" then Ok(p.(x := v))
    else if name == "m" then Ok(p.(m := v))
    else if name == "a" then Ok(p.(a := v))
    else if name == "s" then Ok(p.(s := v))
    else Err("unknown category")
  }

  /** A field that names a category and carries a number. */
  predicate FieldOk(field: string) {
    match SplitOnce(field, '=')
    case None => false
    case Some((name, value)) => ParseNat(value).Some? && |name| == 1 && IsCategory(name[0])
  }

  predicate FieldsOk(fields: seq<string>) {
    forall i :: 0 <= i < |fields| ==> FieldOk(fields[i])
  }

  lemma FieldsOkCons(fields: seq<string>)
    requires |fields| > 0
    ensures FieldsOk(fields) <==> FieldOk(fields[0]) && FieldsOk(fields[1..])
  {
    assert forall i :: 1 <= i < |fields| ==> fields[1..][i - 1] == fields[i];
  }

  /** The fields applied left to right. */
  function AssignAll(p: Part, fields: seq<string>): (r: Result<Part>)
    ensures r.Ok? <==> FieldsOk(fields)
    decreases |fields|
  {
    if |fields| == 0 then Ok(p)
    else
      FieldsOkCons(fields);
      var q :- Assign(p, fields[0]);
      AssignAll(q, fields[1..])
  }

  /** `{x=..,m=..,a=..,s=..}`; ratings not given stay 0, and a later field
      overrides an earlier one of the same category. */
  function ParsePart(line: string): (r: Result<Part>)
    ensures r.Ok? ==> |line| >= 2 && line[0] == '{' && line[|line| - 1] == '}'
  {
    var inner :- OkOr(StripPrefix(line, "{"), "missing '{'");
    var body :- OkOr(StripSuffix(inner, "}"), "missing '}'");
    AssignAll(Part(0, 0, 0, 0), Split(body, ','))
  }

  /** The category a valid field names. */
  function FieldName(field: string): char
    requires FieldOk(field)
  {
    SplitOnce(field, '=').value.0[0]
  }

  /** The part with the rating of category `c` set to `v`. */
  function WithRating(p: Part, c: char, v: nat): (q: Part)
    requires IsCategory(c)
    ensures Rating(q, c) == v
    ensures forall d :: IsCategory(d) && d != c ==> Rating(q, d) == Rating(p, d)
  {
    if c == 'x' then p.(x := v) else if c == 'm' then p.(m := v) else if c == 'a' then p.(a := v) else p.(s := v)
  }

  /** The number a valid field carries. */
  function FieldValue(field: string): nat
    requires FieldOk(field)
  {
    ParseNat(SplitOnce(field, '=').value.1).value
  }

  /** Two fields of different categories may be given in either order. */
  lemma AssignSwap(p: Part, f: string, g: string)
    requires FieldOk(f) && FieldOk(g) && FieldName(f) != FieldName(g)
    ensures Assign(Assign(p, f).value, g) == Assign(Assign(p, g).value, f)
  {
    var pf := WithRating(p, FieldName(f), FieldValue(f));
    var pg := WithRating(p, FieldName(g), FieldValue(g));
    var q1 := WithRating(pf, FieldName(g), FieldValue(g));
    var q2 := WithRating(pg, FieldName(f), FieldValue(f));
    assert Rating(q1, 'x') == Rating(q2, 'x') && Rating(q1, 'm') == Rating(q2, 'm');
    assert Rating(q1, 'a') == Rating(q2, 'a') && Rating(q1, 's') == Rating(q2, 's');
  }

  function Field(c: char, v: nat): string {
    [c] + "=" + ShowNat(v)
  }

  function ShowPart(p: Part): string {
    "{" + Join([Field('x', p.x), Field('m', p.m), Field('a', p.a), Field('s', p.s)], ',') + "}"
  }

  lemma FieldNoComma(c: char, v: nat)
    requires c != ','
    ensures ',' !in Field(c, v)
  {
    ShowNatValue(v);
    DigitsNoSpace(ShowNat(v));
  }

  lemma FieldReads(q: Part, c: char, v: nat)
    requires IsCategory(c)
    ensures Assign(q, Field(c, v)) == Ok(WithRating(q, c, v))
  {
    ParseShowNat(v);
    SplitOnceIs([c], '=', ShowNat(v));
    assert FieldOk(Field(c, v)) && FieldName(Field(c, v)) == c && FieldValue(Field(c, v)) == v;
  }

  /** The four fields of a part, applied from any starting part, give the
      part. */
  lemma FieldsRead(q: Part, p: Part)
    ensures AssignAll(q, [Field('x', p.x), Field('m', p.m), Field('a', p.a), Field('s', p.s)]) == Ok(p)
  {
    var fields := [Field('x', p.x), Field('m', p.m), Field('a', p.a), Field('s', p.s)];
    var q1 := WithRating(q, 'x', p.x);
    var q2 := WithRating(q1, 'm', p.m);
    var q3 := WithRating(q2, 'a', p.a);
    var q4 := WithRating(q3, 's', p.s);
    FieldReads(q, 'x', p.x);
    FieldReads(q1, 'm', p.m);
    FieldReads(q2, 'a', p.a);
    FieldReads(q3, 's', p.s);
    assert q4 == p by {
      assert Rating(q4, 'x') == p.x && Rating(q4, 'm') == p.m;
      assert Rating(q4, 'a') == p.a && Rating(q4, 's') == p.s;
    }
    assert fields[3..][1..] == [];
    assert AssignAll(q3, fields[3..]) == Ok(q4);
    assert fields[2..][1..] == fields[3..];
    assert AssignAll(q2, fields[2..]) == Ok(q4);
    assert fields[1..][1..] == fields[2..];
    assert AssignAll(q1, fields[1..]) == Ok(q4);
  }

  /** The fields of a printed part, split back apart. */
  lemma FieldsSplit(p: Part)
    ensures Split(Join([Field('x', p.x), Field('m', p.m), Field('a', p.a), Field('s', p.s)], ','), ',')
         == [Field('x', p.x), Field('m', p.m), Field('a', p.a), Field('s', p.s)]
  {
    var fields := [Field('x', p.x), Field('m', p.m), Field('a', p.a), Field('s', p.s)];
    forall i | 0 <= i < |fields| ensures ',' !in fields[i] {
      FieldNoComma(fields[i][0], [p.x, p.m, p.a, p.s][i]);
    }
    SplitJoin(fields, ',');
  }

  /** A part printed in the puzzle's format parses back to itself. */
  lemma PartRoundTrip(p: Part)
    ensures ParsePart(ShowPart(p)) == Ok(p)
  {
    var fields := [Field('x', p.x), Field('m', p.m), Field('a', p.a), Field('s', p.s)];
    var body := Join(fields, ',');
    StripPrefixIs("{", body + "}");
    assert ShowPart(p) == "{" + (body + "}");
    StripSuffixIs(body, "}");
    FieldsSplit(p);
    FieldsRead(Part(0, 0, 0, 0), p);
  }

  // ------------------------------------------------------------- the run

  /** The lines before the first empty one, and those after it. */
  function Sections(lines: seq<string>): (r: (seq<string>, seq<string>))
    ensures "" !in r.0
    ensures "" in lines ==> lines == r.0 + [""] + r.1
    ensures "" !in lines ==> r == (lines, [])
    decreases |lines|
  {
    if |lines| == 0 then ([], [])
    else if lines[0] == "" then
      assert lines == [] + [""] + lines[1..];
      ([], lines[1..])
    else
      var rest := Sections(lines[1..]);
      assert lines == [lines[0]] + lines[1..];
      ([lines[0]] + rest.0, rest.1)
  }

  /** The sum of the ratings of the accepted parts. */
  function AcceptedTotal(sys: System, parts: seq<Part>, fuel: nat): (r: Result<nat>)
    ensures r.Ok? <==> forall i :: 0 <= i < |parts| ==> Route(sys, "in", parts[i], fuel).Ok?
    decreases |parts|
  {
    if |parts| == 0 then Ok(0)
    else
      var p := parts[0];
      var accepted :- Route(sys, "in", p, fuel);
      var rest :- AcceptedTotal(sys, parts[1..], fuel);
      assert forall i :: 1 <= i < |parts| ==> parts[1..][i - 1] == parts[i];
      Ok((if accepted then p.x + p.m + p.a + p.s else 0) + rest)
  }

  /** Every rating from 1 to 4000. */
  const FullBox := Box(Span(1, 4001), Span(1, 4001), Span(1, 4001), Span(1, 4001))

  /** Rust's `run`. Workflow lines come before the first empty line and
      part lines after it; every line must parse, in either part. A cycle
      among the workflows, where the source never returns, fails once a
      chain has visited more workflows than there are. */
  function Run(lines: seq<string>, part1: bool): (r: Result<nat>)
    ensures !part1 && r.Ok? ==> r.value <= 4000 * 4000 * 4000 * 4000
  {
    var (wfLines, partLines) := Sections(lines);
    var wfs :- MapAllOk(wfLines, ParseWorkflow);
    var parts :- MapAllOk(partLines, ParsePart);
    var sys := Index(wfs);
    if part1 then AcceptedTotal(sys, parts, |sys|)
    else
      var boxes :- Filter(sys, "in", FullBox, |sys|);
      FilterSound(sys, "in", FullBox, |sys|);
      Ok(TotalVolume(boxes))
  }

  /** In part 2, a part with every rating from 1 to 4000 is counted (lies in
      an accepted box) exactly when part 1 would accept it. */
  lemma Part2CountsAccepted(lines: seq<string>, p: Part)
    requires 1 <= p.x <= 4000 && 1 <= p.m <= 4000 && 1 <= p.a <= 4000 && 1 <= p.s <= 4000
    requires Run(lines, false).Ok?
    ensures var wfs := MapAllOk(Sections(lines).0, ParseWorkflow).value;
            var sys := Index(wfs);
            SmallSystem(sys) ==>
              Route(sys, "in", p, |sys|) == Ok(Covered(Filter(sys, "in", FullBox, |sys|).value, p))
  {
    var wfs := MapAllOk(Sections(lines).0, ParseWorkflow).value;
    var sys := Index(wfs);
    if SmallSystem(sys) {
      FilterAgrees(sys, "in", FullBox, |sys|, p);
    }
  }
}
