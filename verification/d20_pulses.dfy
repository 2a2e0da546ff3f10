/** Day 20: a network of flip-flops and conjunctions passing high and low
    pulses. Part 1 presses the button 1000 times and multiplies the
    numbers of low and high pulses; the press count at which a module
    first receives a low pulse is searched for generically. */
module Pulses {
  import opened Wrappers
  import opened Text

  datatype Signal = Low | High

  datatype ModuleType = FlipFlopModule | ConjunctionModule | BroadcastModule

  /** A module's memory: a flip-flop's on/off bit, a conjunction's last
      signal per input, or nothing for the broadcaster. */
  datatype ModuleState = FlipFlop(on: bool) | Conjunction(inputs: map<string, Signal>) | Broadcast

  /** One line of the puzzle: a module's type, name and destinations. */
  datatype Module = Module(t: ModuleType, name: string, dests: seq<string>)

  // -------------------------------------------------------------- parsing

  /** The left-hand side of a line: `%name`, `&name` or `broadcaster`;
      anything else fails. */
  function ParseLeft(l: string): (r: Result<(string, ModuleType)>)
    ensures r.Ok? <==> (|l| >= 1 && (l[0] == '%' || l[0] == '&')) || l == "broadcaster"
    ensures r.Ok? && r.value.1 == FlipFlopModule ==> l == "%" + r.value.0
    ensures r.Ok? && r.value.1 == ConjunctionModule ==> l == "&" + r.value.0
    ensures r.Ok? && r.value.1 == BroadcastModule ==> l == r.value.0 == "broadcaster"
  {
    match StripPrefix(l, "%")
    case Some(name) => Ok((name, FlipFlopModule))
    case None =>
      match StripPrefix(l, "&")
      case Some(name) => Ok((name, ConjunctionModule))
      case None =>
        if l == "broadcaster" then Ok(("broadcaster", BroadcastModule))
        else Err("unknown module type")
  }

  /** `left -> a, b`: a missing arrow or a bad left-hand side fails. */
  function ParseLine(line: string): (r: Result<Module>)
    ensures SplitOnceStr(line, " -> ").None? ==> r.Err?
    ensures SplitOnceStr(line, " -> ").Some? ==>
              (r.Ok? <==> ParseLeft(SplitOnceStr(line, " -> ").value.0).Ok?)
  {
    var (l, rest) :- OkOr(SplitOnceStr(line, " -> "), "missing ' -> '");
    var (name, t) :- ParseLeft(l);
    Ok(Module(t, name, SplitStr(rest, ", ")))
  }

  function TypePrefix(t: ModuleType): string {
    match t
    case FlipFlopModule => "%"
    case ConjunctionModule => "&"
    case BroadcastModule => ""
  }

  function ShowModule(m: Module): string {
    TypePrefix(m.t) + m.name + " -> " + JoinStr(m.dests, ", ")
  }

  /** A module whose line reads back as itself: names without spaces or
      commas, at least one destination, and the broadcaster so named. */
  predicate PlainModule(m: Module) {
    ' ' !in m.name && |m.dests| >= 1
    && (forall i :: 0 <= i < |m.dests| ==> ',' !in m.dests[i])
    && (m.t == BroadcastModule ==> m.name == "broadcaster")
  }

  lemma LeftRoundTrip(t: ModuleType, name: string)
    requires t == BroadcastModule ==> name == "broadcaster"
    ensures ParseLeft(TypePrefix(t) + name) == Ok((name, t))
  {
    var l := TypePrefix(t) + name;
    match t
    case FlipFlopModule => StripPrefixIs("%", name);
    case ConjunctionModule =>
      StripPrefixIs("&", name);
      assert l[0] == '&';
    case BroadcastModule =>
      assert l == "broadcaster" && l[0] == 'b';
  }

  /** Printing a module's line and parsing it back gives the module. */
  lemma ModuleRoundTrip(m: Module)
    requires PlainModule(m)
    ensures ParseLine(ShowModule(m)) == Ok(m)
  {
    var l := TypePrefix(m.t) + m.name;
    var rest := JoinStr(m.dests, ", ");
    assert ' ' !in l;
    SplitOnceStrIs(l, " -> ", rest);
    assert ShowModule(m) == l + " -> " + rest;
    SplitStrJoin(m.dests, ", ");
    LeftRoundTrip(m.t, m.name);
  }

  // -------------------------------------------------------- configuration

  /** The module states and the destinations, by module name. */
  datatype Config = Config(states: map<string, ModuleState>, destinations: map<string, seq<string>>)

  /** Every module with a state has a destination list and vice versa. */
  predicate WellFormed(c: Config) {
    c.states.Keys == c.destinations.Keys
  }

  /** The last definition of `name` among `mods` is at `i`. */
  predicate LastDefinition(mods: seq<Module>, name: string, i: int) {
    0 <= i < |mods| && mods[i].name == name && forall j :: i < j < |mods| ==> mods[j].name != name
  }

  /** The declared modules by name; a name declared twice keeps its last
      declaration, as inserting into a hash map does. */
  function Declared(mods: seq<Module>): map<string, Module>
    decreases |mods|
  {
    if |mods| == 0 then map[]
    else Declared(mods[..|mods| - 1])[mods[|mods| - 1].name := mods[|mods| - 1]]
  }

  lemma {:induction false} DeclaredLastWins(mods: seq<Module>, name: string)
    ensures name in Declared(mods) <==> exists i :: 0 <= i < |mods| && mods[i].name == name
    ensures name in Declared(mods) ==> exists i :: LastDefinition(mods, name, i) && Declared(mods)[name] == mods[i]
    decreases |mods|
  {
    if |mods| > 0 {
      var init := mods[..|mods| - 1];
      var last := |mods| - 1;
      assert forall i :: 0 <= i < |init| ==> init[i] == mods[i];
      DeclaredLastWins(init, name);
      if mods[last].name == name {
        assert LastDefinition(mods, name, last);
      } else if name in Declared(mods) {
        var i :| LastDefinition(init, name, i) && Declared(init)[name] == init[i];
        assert LastDefinition(mods, name, i);
      }
    }
  }

  /** A fresh module: flip-flops start off, conjunctions remember nothing. */
  function InitState(t: ModuleType): ModuleState {
    match t
    case FlipFlopModule => FlipFlop(false)
    case ConjunctionModule => Conjunction(map[])
    case BroadcastModule => Broadcast
  }

  /** The modules whose destination lists name `n`, each remembered as
      having sent a low pulse. */
  function InputsOf(dests: map<string, seq<string>>, n: string): map<string, Signal> {
    map f | f in dests && n in dests[f] :: Low
  }

  /** The same, counting only the senders in `done` and the first `j`
      destinations of `k`. */
  function InputsUpTo(dests: map<string, seq<string>>, done: set<string>, k: string, j: nat, n: string): map<string, Signal>
    requires k in dests && j <= |dests[k]|
    requires done <= dests.Keys
  {
    map f | f in done + {k} && (if f == k then n in dests[k][..j] else n in dests[f]) :: Low
  }

  /** `r` is `states` with the inputs counted by `InputsUpTo` added to every
      conjunction, and the other modules untouched. */
  ghost predicate SeededUpTo(states: map<string, ModuleState>, dests: map<string, seq<string>>,
                             done: set<string>, k: string, j: nat, r: map<string, ModuleState>)
    requires k in dests && j <= |dests[k]| && done <= dests.Keys
  {
    r.Keys == states.Keys
    && forall n :: n in states ==>
         if states[n].Conjunction? then r[n] == Conjunction(states[n].inputs + InputsUpTo(dests, done, k, j, n))
         else r[n] == states[n]
  }

  lemma SeedStep(states: map<string, ModuleState>, dests: map<string, seq<string>>,
                 done: set<string>, k: string, j: nat, r: map<string, ModuleState>)
    requires k in dests && j < |dests[k]| && done <= dests.Keys && k !in done
    requires dests[k][j] in states
    requires SeededUpTo(states, dests, done, k, j, r)
    ensures var d := dests[k][j];
            var r' := if r[d].Conjunction? then r[d := Conjunction(r[d].inputs[k := Low])] else r;
            SeededUpTo(states, dests, done, k, j + 1, r')
  {
    var d := dests[k][j];
    var r' := if r[d].Conjunction? then r[d := Conjunction(r[d].inputs[k := Low])] else r;
    forall n | n in states
      ensures if states[n].Conjunction? then r'[n] == Conjunction(states[n].inputs + InputsUpTo(dests, done, k, j + 1, n))
              else r'[n] == states[n]
    {
      InputsUpToStep(dests, done, k, j, n);
      if n == d && states[n].Conjunction? {
        var before := InputsUpTo(dests, done, k, j, n);
        assert states[n].inputs + before[k := Low] == (states[n].inputs + before)[k := Low];
      }
    }
  }

  /** Reading one more destination of `k` adds `k` as an input of that
      destination only. */
  lemma InputsUpToStep(dests: map<string, seq<string>>, done: set<string>, k: string, j: nat, n: string)
    requires k in dests && j < |dests[k]| && done <= dests.Keys && k !in done
    ensures InputsUpTo(dests, done, k, j + 1, n)
            == if n == dests[k][j] then InputsUpTo(dests, done, k, j, n)[k := Low] else InputsUpTo(dests, done, k, j, n)
  {
    assert dests[k][..j + 1] == dests[k][..j] + [dests[k][j]];
  }

  /** The inputs from the senders in `done`. */
  function InputsDone(dests: map<string, seq<string>>, done: set<string>, n: string): map<string, Signal>
    requires done <= dests.Keys
  {
    map f | f in done && n in dests[f] :: Low
  }

  /** `r` is `states` with the inputs from the senders in `done` added to
      every conjunction. */
  ghost predicate SeededDone(states: map<string, ModuleState>, dests: map<string, seq<string>>,
                             done: set<string>, r: map<string, ModuleState>)
    requires done <= dests.Keys
  {
    r.Keys == states.Keys
    && forall n :: n in states ==>
         if states[n].Conjunction? then r[n] == Conjunction(states[n].inputs + InputsDone(dests, done, n))
         else r[n] == states[n]
  }

  lemma SeedRestart(states: map<string, ModuleState>, dests: map<string, seq<string>>,
                    done: set<string>, k: string, r: map<string, ModuleState>)
    requires k in dests && done <= dests.Keys && k !in done
    requires SeededDone(states, dests, done, r)
    ensures SeededUpTo(states, dests, done, k, 0, r)
  {
    forall n ensures InputsUpTo(dests, done, k, 0, n) == InputsDone(dests, done, n) {
      InputsUpToStart(dests, done, k, n);
    }
  }

  /** Before any destination of `k` is read, only the senders in `done`
      count. */
  lemma InputsUpToStart(dests: map<string, seq<string>>, done: set<string>, k: string, n: string)
    requires k in dests && done <= dests.Keys && k !in done
    ensures InputsUpTo(dests, done, k, 0, n) == InputsDone(dests, done, n)
  {
    assert dests[k][..0] == [];
    assert InputsUpTo(dests, done, k, 0, n).Keys == InputsDone(dests, done, n).Keys;
  }

  /** Finishing sender `k` is having `k` done. */
  lemma SeedNext(states: map<string, ModuleState>, dests: map<string, seq<string>>,
                 done: set<string>, k: string, r: map<string, ModuleState>)
    requires k in dests && done <= dests.Keys && k !in done
    requires SeededUpTo(states, dests, done, k, |dests[k]|, r)
    ensures SeededDone(states, dests, done + {k}, r)
  {
    assert dests[k][..|dests[k]|] == dests[k];
    forall n ensures InputsUpTo(dests, done, k, |dests[k]|, n) == InputsDone(dests, done + {k}, n) {
    }
  }

  lemma SeedFinish(states: map<string, ModuleState>, dests: map<string, seq<string>>, r: map<string, ModuleState>)
    requires SeededDone(states, dests, dests.Keys, r)
    ensures forall n :: n in states ==>
              if states[n].Conjunction? then r[n] == Conjunction(states[n].inputs + InputsOf(dests, n))
              else r[n] == states[n]
  {
    forall n ensures InputsDone(dests, dests.Keys, n) == InputsOf(dests, n) {
    }
  }

  /** The inner loop: sender `k` registers itself with each conjunction
      among its destinations. */
  method SeedFrom(states: map<string, ModuleState>, dests: map<string, seq<string>>,
                  done: set<string>, k: string, r0: map<string, ModuleState>) returns (r: map<string, ModuleState>)
    requires k in dests && done <= dests.Keys && k !in done
    requires forall i :: 0 <= i < |dests[k]| ==> dests[k][i] in states
    requires SeededDone(states, dests, done, r0)
    ensures SeededDone(states, dests, done + {k}, r)
  {
    r := r0;
    SeedRestart(states, dests, done, k, r);
    var j := 0;
    while j < |dests[k]|
      invariant j <= |dests[k]|
      invariant SeededUpTo(states, dests, done, k, j, r)
    {
      SeedStep(states, dests, done, k, j, r);
      var d := dests[k][j];
      if r[d].Conjunction? {
        r := r[d := Conjunction(r[d].inputs[k := Low])];
      }
      j := j + 1;
    }
    SeedNext(states, dests, done, k, r);
  }

  /** Seeding every conjunction's memory with a low pulse from each module
      that lists it as a destination, the senders taken in any order. */
  method SeedInputs(states: map<string, ModuleState>, dests: map<string, seq<string>>) returns (r: map<string, ModuleState>)
    requires states.Keys == dests.Keys
    requires forall f, i :: f in dests && 0 <= i < |dests[f]| ==> dests[f][i] in states
    ensures r.Keys == states.Keys
    ensures forall n :: n in states && !states[n].Conjunction? ==> r[n] == states[n]
    ensures forall n :: n in states && states[n].Conjunction? ==>
              r[n] == Conjunction(states[n].inputs + InputsOf(dests, n))
  {
    r := states;
    var done: set<string> := {};
    forall n | n in states ensures InputsDone(dests, done, n) == map[] {
    }
    while done != dests.Keys
      invariant done <= dests.Keys
      invariant SeededDone(states, dests, done, r)
      decreases |dests.Keys - done|
    {
      var k :| k in dests.Keys - done;
      r := SeedFrom(states, dests, done, k, r);
      assert dests.Keys - (done + {k}) < dests.Keys - done;
      done := done + {k};
    }
    SeedFinish(states, dests, r);
  }

  /** The modules named as destinations by some declared module. */
  function Targets(decl: map<string, Module>): set<string> {
    set k, d | k in decl && d in decl[k].dests :: d
  }

  /** The first two steps of `from_lines`: every declared module with its
      initial state and destinations, and every undeclared destination as
      a conjunction without destinations. */
  function Unseeded(decl: map<string, Module>): (c: Config)
    ensures WellFormed(c)
    ensures c.states.Keys == decl.Keys + Targets(decl)
    ensures forall n :: n in decl ==> c.destinations[n] == decl[n].dests && c.states[n] == InitState(decl[n].t)
    ensures forall n :: n in c.states && n !in decl ==> c.destinations[n] == [] && c.states[n] == Conjunction(map[])
    ensures forall f, i :: f in c.destinations && 0 <= i < |c.destinations[f]| ==> c.destinations[f][i] in c.states
  {
    var all := decl.Keys + Targets(decl);
    var c := Config(map n | n in all :: if n in decl then InitState(decl[n].t) else Conjunction(map[]),
                    map n | n in all :: if n in decl then decl[n].dests else []);
    forall f, i | f in c.destinations && 0 <= i < |c.destinations[f]| ensures c.destinations[f][i] in all {
      assert f in decl && decl[f].dests[i] in decl[f].dests;
    }
    c
  }

  /** Rust's `ModuleConfig::from_lines`. Flip-flops start off; a
      destination that is never declared becomes a conjunction with no
      destinations of its own; every conjunction remembers a low pulse from
      each module that sends to it. */
  method FromLines(mods: seq<Module>) returns (cfg: Config)
    ensures WellFormed(cfg)
    ensures cfg.states.Keys == Declared(mods).Keys + Targets(Declared(mods))
    ensures forall n :: n in Declared(mods) ==> cfg.destinations[n] == Declared(mods)[n].dests
    ensures forall n :: n in cfg.states && n !in Declared(mods) ==>
              cfg.destinations[n] == [] && cfg.states[n] == Conjunction(InputsOf(cfg.destinations, n))
    ensures forall n :: n in Declared(mods) && Declared(mods)[n].t == FlipFlopModule ==> cfg.states[n] == FlipFlop(false)
    ensures forall n :: n in Declared(mods) && Declared(mods)[n].t == BroadcastModule ==> cfg.states[n] == Broadcast
    ensures forall n :: n in Declared(mods) && Declared(mods)[n].t == ConjunctionModule ==>
              cfg.states[n] == Conjunction(InputsOf(cfg.destinations, n))
  {
    var decl := Declared(mods);
    var c := Unseeded(decl);
    var seeded := SeedInputs(c.states, c.destinations);
    cfg := Config(seeded, c.destinations);
    SeededDeclared(decl, c, cfg);
    SeededUndeclared(decl, c, cfg);
  }

  /** What seeding leaves behind, given what `SeedInputs` promises. */
  ghost predicate SeededFrom(c: Config, cfg: Config) {
    && cfg.destinations == c.destinations
    && cfg.states.Keys == c.states.Keys
    && (forall n :: n in c.states && !c.states[n].Conjunction? ==> cfg.states[n] == c.states[n])
    && (forall n :: n in c.states && c.states[n].Conjunction? ==>
          cfg.states[n] == Conjunction(c.states[n].inputs + InputsOf(c.destinations, n)))
  }

  lemma SeededDeclared(decl: map<string, Module>, c: Config, cfg: Config)
    requires c == Unseeded(decl) && SeededFrom(c, cfg)
    ensures forall n :: n in decl ==> cfg.destinations[n] == decl[n].dests
    ensures forall n :: n in decl && decl[n].t == FlipFlopModule ==> cfg.states[n] == FlipFlop(false)
    ensures forall n :: n in decl && decl[n].t == BroadcastModule ==> cfg.states[n] == Broadcast
    ensures forall n :: n in decl && decl[n].t == ConjunctionModule ==>
              cfg.states[n] == Conjunction(InputsOf(cfg.destinations, n))
  {
    forall n | n in decl
      ensures cfg.destinations[n] == decl[n].dests
      ensures cfg.states[n] == if decl[n].t == ConjunctionModule then Conjunction(InputsOf(cfg.destinations, n))
                               else InitState(decl[n].t)
    {
      SeededOne(decl, c, cfg, n);
    }
  }

  lemma SeededOne(decl: map<string, Module>, c: Config, cfg: Config, n: string)
    requires c == Unseeded(decl) && SeededFrom(c, cfg) && n in decl
    ensures cfg.destinations[n] == decl[n].dests
    ensures cfg.states[n] == if decl[n].t == ConjunctionModule then Conjunction(InputsOf(cfg.destinations, n))
                             else InitState(decl[n].t)
  {
    assert c.states[n] == InitState(decl[n].t);
    if decl[n].t == ConjunctionModule {
      assert c.states[n] == Conjunction(map[]);
      assert map[] + InputsOf(cfg.destinations, n) == InputsOf(cfg.destinations, n);
    }
  }

  lemma SeededUndeclared(decl: map<string, Module>, c: Config, cfg: Config)
    requires c == Unseeded(decl) && SeededFrom(c, cfg)
    ensures forall n :: n in cfg.states && n !in decl ==>
              cfg.destinations[n] == [] && cfg.states[n] == Conjunction(InputsOf(cfg.destinations, n))
  {
    forall n | n in cfg.states && n !in decl
      ensures cfg.destinations[n] == [] && cfg.states[n] == Conjunction(InputsOf(cfg.destinations, n))
    {
      assert c.states[n] == Conjunction(map[]);
      assert map[] + InputsOf(cfg.destinations, n) == InputsOf(cfg.destinations, n);
    }
  }

  // ---------------------------------------------------------------- pulses

  /** A pulse `signal` sent from module `from` to module `to`. */
  datatype Pulse = Pulse(from: string, signal: Signal, to: string)

  /** The pulses module `from` sends, one per destination in listed order. */
  function Send(from: string, s: Signal, dests: seq<string>): (r: seq<Pulse>)
    ensures |r| == |dests|
    ensures forall i :: 0 <= i < |dests| ==> r[i] == Pulse(from, s, dests[i])
  {
    if |dests| == 0 then [] else [Pulse(from, s, dests[0])] + Send(from, s, dests[1..])
  }

  /** Every remembered input was high. */
  predicate AllHigh(inputs: map<string, Signal>) {
    forall f | f in inputs :: inputs[f] == High
  }

  /** How a module reacts to a pulse: its new memory and the signal it
      sends, if any. */
  function React(st: ModuleState, from: string, s: Signal): (r: (ModuleState, Option<Signal>))
    ensures r.1.None? <==> st.FlipFlop? && s == High
    ensures st.FlipFlop? ==> r.0.FlipFlop? && (r.0.on != st.on <==> s == Low)
    ensures st.FlipFlop? && r.1.Some? ==> (r.1.value == High <==> r.0.on)
    ensures st.Conjunction? ==> r.0 == Conjunction(st.inputs[from := s])
                                 && (r.1 == Some(Low) <==> forall f :: f in r.0.inputs ==> r.0.inputs[f] == High)
    ensures st.Broadcast? ==> r == (Broadcast, Some(s))
  {
    match st
    case Broadcast => (Broadcast, Some(s))
    case FlipFlop(on) =>
      (match s
       case High => (st, None)
       case Low => (FlipFlop(!on), Some(if !on then High else Low)))
    case Conjunction(inputs) =>
      var m := inputs[from := s];
      (Conjunction(m), Some(if AllHigh(m) then Low else High))
  }

  /** Delivering one pulse: a module without a state ignores it; otherwise
      it reacts and its output goes to each destination in order. No other
      module changes. */
  function Deliver(c: Config, p: Pulse): (r: (Config, seq<Pulse>))
    requires WellFormed(c)
    ensures WellFormed(r.0) && r.0.destinations == c.destinations && r.0.states.Keys == c.states.Keys
    ensures forall n :: n in c.states && n != p.to ==> r.0.states[n] == c.states[n]
    ensures p.to !in c.states ==> r == (c, [])
    ensures p.to in c.states ==>
              var (st, out) := React(c.states[p.to], p.from, p.signal);
              r.0.states[p.to] == st
              && r.1 == (if out.Some? then Send(p.to, out.value, c.destinations[p.to]) else [])
  {
    if p.to !in c.states then (c, [])
    else
      var (st, out) := React(c.states[p.to], p.from, p.signal);
      var c' := c.(states := c.states[p.to := st]);
      match out
      case Some(s) => (c', Send(p.to, s, c.destinations[p.to]))
      case None => (c', [])
  }

  function CountOf(q: seq<Pulse>, s: Signal): nat {
    if |q| == 0 then 0 else (if q[0].signal == s then 1 else 0) + CountOf(q[1..], s)
  }

  /** The queue of a button press worked off first in, first out, counting
      low and high pulses; a press that would process more than `fuel`
      pulses fails, where a cycle makes the source run forever. */
  function Drain(c: Config, q: seq<Pulse>, low: nat, high: nat, fuel: nat): (r: Result<(Config, nat, nat)>)
    requires WellFormed(c)
    ensures r.Ok? ==> WellFormed(r.value.0) && r.value.0.destinations == c.destinations
                      && r.value.0.states.Keys == c.states.Keys
    ensures r.Ok? ==> r.value.1 >= low + CountOf(q, Low) && r.value.2 >= high + CountOf(q, High)
    ensures r.Ok? ==> r.value.1 + r.value.2 <= low + high + fuel
    decreases fuel
  {
    if |q| == 0 then Ok((c, low, high))
    else if fuel == 0 then Err("too many pulses")
    else
      var p := q[0];
      var (c', out) := Deliver(c, p);
      var r := Drain(c', q[1..] + out, if p.signal == Low then low + 1 else low,
                     if p.signal == High then high + 1 else high, fuel - 1);
      CountAppend(q[1..], out);
      r
  }

  lemma {:induction false} CountAppend(a: seq<Pulse>, b: seq<Pulse>)
    ensures forall s :: CountOf(a + b, s) == CountOf(a, s) + CountOf(b, s)
    decreases |a|
  {
    if |a| == 0 {
      assert a + b == b;
    } else {
      assert (a + b)[1..] == a[1..] + b;
      CountAppend(a[1..], b);
    }
  }

  /** The low and the high pulses of a trace with `p` in front. */
  lemma CountCons(p: Pulse, t: seq<Pulse>)
    ensures CountOf([p] + t, Low) == (if p.signal == Low then 1 else 0) + CountOf(t, Low)
    ensures CountOf([p] + t, High) == (if p.signal == High then 1 else 0) + CountOf(t, High)
  {
    assert ([p] + t)[1..] == t;
  }

  /** The low and the high pulses of two traces, one after the other. */
  lemma CountSums(a: seq<Pulse>, b: seq<Pulse>)
    ensures CountOf(a + b, Low) == CountOf(a, Low) + CountOf(b, Low)
    ensures CountOf(a + b, High) == CountOf(a, High) + CountOf(b, High)
  {
    CountAppend(a, b);
  }

  /** The pulses a press works off, in the order they leave the queue,
      and the configuration it leaves: the queued pulses first, then
      everything delivering them sends, first in, first out. More than
      `fuel` pulses is a failure. */
  function Processed(c: Config, q: seq<Pulse>, fuel: nat): (r: Result<(Config, seq<Pulse>)>)
    requires WellFormed(c)
    ensures r.Ok? ==> WellFormed(r.value.0) && r.value.0.destinations == c.destinations
                      && r.value.0.states.Keys == c.states.Keys
    ensures r.Ok? ==> q <= r.value.1 && |r.value.1| <= fuel
    decreases fuel
  {
    if |q| == 0 then Ok((c, []))
    else if fuel == 0 then Err("too many pulses")
    else
      var (c', out) := Deliver(c, q[0]);
      var rest :- Processed(c', q[1..] + out, fuel - 1);
      assert q == [q[0]] + q[1..];
      Ok((rest.0, [q[0]] + rest.1))
  }

  /** Working off a queue counts exactly the low and the high pulses
      processed, and leaves the configuration the processing does. */
  lemma {:induction false} DrainTrace(c: Config, q: seq<Pulse>, low: nat, high: nat, fuel: nat)
    requires WellFormed(c)
    ensures Drain(c, q, low, high, fuel).Ok? <==> Processed(c, q, fuel).Ok?
    ensures Drain(c, q, low, high, fuel).Ok? ==>
              var (c', t) := Processed(c, q, fuel).value;
              Drain(c, q, low, high, fuel).value == (c', low + CountOf(t, Low), high + CountOf(t, High))
    decreases fuel
  {
    if |q| > 0 && fuel > 0 {
      var (c', out) := Deliver(c, q[0]);
      var p := q[0];
      DrainTrace(c', q[1..] + out, if p.signal == Low then low + 1 else low,
                 if p.signal == High then high + 1 else high, fuel - 1);
      var rest := Processed(c', q[1..] + out, fuel - 1);
      if rest.Ok? {
        CountCons(p, rest.value.1);
      }
    }
  }

  /** More fuel changes nothing once the queue is worked off. */
  lemma {:induction false} ProcessedFuel(c: Config, q: seq<Pulse>, fuel: nat, more: nat)
    requires WellFormed(c) && Processed(c, q, fuel).Ok? && fuel <= more
    ensures Processed(c, q, more) == Processed(c, q, fuel)
    decreases fuel
  {
    if |q| > 0 {
      var (c', out) := Deliver(c, q[0]);
      ProcessedFuel(c', q[1..] + out, fuel - 1, more - 1);
    }
  }

  const ButtonPulse := Pulse("button", Low, "broadcaster")

  /** Rust's `simulate_button_press`: the low and the high pulses among
      those a button press processes, the button's own low pulse first. */
  function Press(c: Config, fuel: nat): (r: Result<(Config, nat, nat)>)
    requires WellFormed(c)
    ensures r.Ok? <==> Processed(c, [ButtonPulse], fuel).Ok?
    ensures r.Ok? ==> var (c', t) := Processed(c, [ButtonPulse], fuel).value;
                      t[0] == ButtonPulse && r.value == (c', CountOf(t, Low), CountOf(t, High))
    ensures r.Ok? ==> WellFormed(r.value.0) && r.value.0.states.Keys == c.states.Keys
    ensures r.Ok? ==> r.value.1 >= 1 && r.value.1 + r.value.2 <= fuel
  {
    assert CountOf([ButtonPulse], Low) == 1;
    DrainTrace(c, [ButtonPulse], 0, 0, fuel);
    Drain(c, [ButtonPulse], 0, 0, fuel)
  }

  /** The pulses of `k` presses in a row, press after press, and the
      configuration they leave. */
  function Presses(c: Config, k: nat, fuel: nat): (r: Result<(Config, seq<Pulse>)>)
    requires WellFormed(c)
    ensures r.Ok? ==> WellFormed(r.value.0)
    decreases k
  {
    if k == 0 then Ok((c, []))
    else
      var (c1, t1) :- Processed(c, [ButtonPulse], fuel);
      var (c2, t2) :- Presses(c1, k - 1, fuel);
      Ok((c2, t1 + t2))
  }

  /** `k` presses of at most `fuel` pulses each: `k * fuel`, spelt out by
      addition. */
  function Budget(k: nat, fuel: nat): (r: nat)
    decreases k
  {
    if k == 0 then 0 else fuel + Budget(k - 1, fuel)
  }

  lemma {:induction false} BudgetIsProduct(k: nat, fuel: nat)
    ensures Budget(k, fuel) == k * fuel
    decreases k
  {
    if k > 0 {
      BudgetIsProduct(k - 1, fuel);
    }
  }

  /** `k` presses in a row, summing the low and the high pulses. */
  function PressMany(c: Config, k: nat, fuel: nat): (r: Result<(Config, nat, nat)>)
    requires WellFormed(c)
    ensures r.Ok? ==> WellFormed(r.value.0) && r.value.1 >= k && r.value.1 + r.value.2 <= Budget(k, fuel)
    decreases k
  {
    if k == 0 then Ok((c, 0, 0))
    else
      var (c1, lo, hi) :- Press(c, fuel);
      var (c2, lo2, hi2) :- PressMany(c1, k - 1, fuel);
      Ok((c2, lo + lo2, hi + hi2))
  }

  /** A press counting `lo1` and `hi1` followed by k - 1 more counting
      `lo2` and `hi2`. */
  lemma ManyStep(c: Config, k: nat, fuel: nat, c1: Config, lo1: nat, hi1: nat, c2: Config, lo2: nat, hi2: nat)
    requires WellFormed(c) && k > 0 && Press(c, fuel) == Ok((c1, lo1, hi1))
    requires PressMany(c1, k - 1, fuel) == Ok((c2, lo2, hi2))
    ensures PressMany(c, k, fuel) == Ok((c2, lo1 + lo2, hi1 + hi2))
  {
  }

  /** A press whose pulses are `t` counts the low and high pulses of `t`. */
  lemma PressOfTrace(c: Config, fuel: nat, c1: Config, t: seq<Pulse>)
    requires WellFormed(c) && Processed(c, [ButtonPulse], fuel) == Ok((c1, t))
    ensures Press(c, fuel) == Ok((c1, CountOf(t, Low), CountOf(t, High)))
  {
  }

  /** The same first press followed by k - 1 more whose pulses are `t2`. */
  lemma PressesCons(c: Config, k: nat, fuel: nat, c1: Config, t1: seq<Pulse>, c2: Config, t2: seq<Pulse>)
    requires WellFormed(c) && k > 0 && Processed(c, [ButtonPulse], fuel) == Ok((c1, t1))
    requires Presses(c1, k - 1, fuel) == Ok((c2, t2))
    ensures Presses(c, k, fuel) == Ok((c2, t1 + t2))
  {
  }

  /** The sums over `k` presses count exactly the low and the high pulses
      of all of them. */
  lemma {:induction false} PressManyTrace(c: Config, k: nat, fuel: nat)
    requires WellFormed(c)
    ensures PressMany(c, k, fuel).Ok? <==> Presses(c, k, fuel).Ok?
    ensures PressMany(c, k, fuel).Ok? ==>
              var (c', t) := Presses(c, k, fuel).value;
              PressMany(c, k, fuel).value == (c', CountOf(t, Low), CountOf(t, High))
    decreases k
  {
    if k > 0 {
      var first := Processed(c, [ButtonPulse], fuel);
      if first.Ok? {
        var (c1, t1) := first.value;
        PressManyTrace(c1, k - 1, fuel);
        match Presses(c1, k - 1, fuel)
        case Ok((c2, t2)) =>
          PressesCons(c, k, fuel, c1, t1, c2, t2);
          PressOfTrace(c, fuel, c1, t1);
          PressManyBoth(c, k, fuel, c1, t1, c2, t2);
        case Err(_) => PressManyRestFails(c, k, fuel, c1, t1);
      } else {
        PressManyFirstFails(c, k, fuel);
      }
    }
  }

  /** A press whose pulses are `t1` followed by k - 1 more whose pulses
      are `t2`. */
  lemma PressManyBoth(c: Config, k: nat, fuel: nat, c1: Config, t1: seq<Pulse>, c2: Config, t2: seq<Pulse>)
    requires WellFormed(c) && k > 0 && Press(c, fuel) == Ok((c1, CountOf(t1, Low), CountOf(t1, High)))
    requires PressMany(c1, k - 1, fuel) == Ok((c2, CountOf(t2, Low), CountOf(t2, High)))
    ensures PressMany(c, k, fuel) == Ok((c2, CountOf(t1 + t2, Low), CountOf(t1 + t2, High)))
  {
    var lo2, hi2 := CountOf(t2, Low), CountOf(t2, High);
    ManyStep(c, k, fuel, c1, CountOf(t1, Low), CountOf(t1, High), c2, lo2, hi2);
    SumsOfTraces(PressMany(c, k, fuel), c2, t1, t2, lo2, hi2);
  }

  /** A result holding the sums of two traces' counts holds the counts of
      the traces joined. */
  lemma SumsOfTraces(x: Result<(Config, nat, nat)>, c2: Config, t1: seq<Pulse>, t2: seq<Pulse>, lo2: nat, hi2: nat)
    requires lo2 == CountOf(t2, Low) && hi2 == CountOf(t2, High)
    requires x == Ok((c2, CountOf(t1, Low) + lo2, CountOf(t1, High) + hi2))
    ensures x == Ok((c2, CountOf(t1 + t2, Low), CountOf(t1 + t2, High)))
  {
    CountSums(t1, t2);
  }

  /** The first press finishes and one of the k - 1 after it does not. */
  lemma PressManyRestFails(c: Config, k: nat, fuel: nat, c1: Config, t1: seq<Pulse>)
    requires WellFormed(c) && k > 0 && Processed(c, [ButtonPulse], fuel) == Ok((c1, t1))
    requires Presses(c1, k - 1, fuel).Err? && PressMany(c1, k - 1, fuel).Err?
    ensures Presses(c, k, fuel).Err? && PressMany(c, k, fuel).Err?
  {
  }

  /** The first press does not finish. */
  lemma PressManyFirstFails(c: Config, k: nat, fuel: nat)
    requires WellFormed(c) && k > 0 && Processed(c, [ButtonPulse], fuel).Err?
    ensures Presses(c, k, fuel).Err? && PressMany(c, k, fuel).Err?
  {
  }

  /** More fuel changes no run of presses that finishes. */
  lemma {:induction false} PressesFuel(c: Config, k: nat, fuel: nat, more: nat)
    requires WellFormed(c) && Presses(c, k, fuel).Ok? && fuel <= more
    ensures Presses(c, k, more) == Presses(c, k, fuel)
    decreases k
  {
    if k > 0 {
      ProcessedFuel(c, [ButtonPulse], fuel, more);
      var (c1, _) := Processed(c, [ButtonPulse], fuel).value;
      PressesFuel(c1, k - 1, fuel, more);
    }
  }

  /** The configuration `from_lines` builds, stated directly: the declared
      modules and their destinations, each undeclared destination as an
      output without destinations; flip-flops off, the broadcaster as it
      is, and every conjunction remembering each of its senders as low. */
  ghost function Initial(mods: seq<Module>): Config {
    InitialOf(Declared(mods))
  }

  /** The same, from the declared modules by name. */
  ghost function InitialOf(decl: map<string, Module>): Config {
    var dests := map n | n in decl.Keys + Targets(decl) :: if n in decl then decl[n].dests else [];
    Config(map n | n in dests :: if n in decl && decl[n].t != ConjunctionModule then InitState(decl[n].t)
                                 else Conjunction(InputsOf(dests, n)),
           dests)
  }

  /** `from_lines` builds exactly that configuration. */
  method FromLinesInitial(mods: seq<Module>) returns (cfg: Config)
    ensures WellFormed(cfg) && cfg == Initial(mods)
  {
    cfg := FromLines(mods);
    BuiltIsInitial(Declared(mods), cfg);
  }

  /** A configuration with what `FromLines` promises about `decl` is the
      initial configuration of `decl`. */
  lemma BuiltIsInitial(decl: map<string, Module>, cfg: Config)
    requires WellFormed(cfg)
    requires cfg.states.Keys == decl.Keys + Targets(decl)
    requires forall n :: n in decl ==> cfg.destinations[n] == decl[n].dests
    requires forall n :: n in cfg.states && n !in decl ==>
               cfg.destinations[n] == [] && cfg.states[n] == Conjunction(InputsOf(cfg.destinations, n))
    requires forall n :: n in decl && decl[n].t == FlipFlopModule ==> cfg.states[n] == FlipFlop(false)
    requires forall n :: n in decl && decl[n].t == BroadcastModule ==> cfg.states[n] == Broadcast
    requires forall n :: n in decl && decl[n].t == ConjunctionModule ==>
               cfg.states[n] == Conjunction(InputsOf(cfg.destinations, n))
    ensures cfg == InitialOf(decl)
  {
    var i := InitialOf(decl);
    assert cfg.destinations == i.destinations;
    assert cfg.states.Keys == i.states.Keys;
    forall n | n in cfg.states ensures cfg.states[n] == i.states[n] {
    }
    SameConfig(cfg, i);
  }

  /** Two configurations with the same destinations, the same modules and
      the same state for each module are equal. */
  lemma SameConfig(a: Config, b: Config)
    requires a.destinations == b.destinations && a.states.Keys == b.states.Keys
    requires forall n :: n in a.states ==> a.states[n] == b.states[n]
    ensures a == b
  {
    assert a.states == b.states;
  }

  /** Rust's `run` for part 1: the low count times the high count after a
      thousand presses, on the configuration the lines describe; `fuel`
      bounds the pulses of each press, where a press that never settles
      makes the source run forever. */
  method Part1(lines: seq<string>, fuel: nat) returns (r: Result<nat>)
    ensures r.Ok? <==> MapAllOk(lines, ParseLine).Ok?
                       && Presses(Initial(MapAllOk(lines, ParseLine).value), 1000, fuel).Ok?
    ensures r.Ok? ==> var (_, t) := Presses(Initial(MapAllOk(lines, ParseLine).value), 1000, fuel).value;
                      r.value == CountOf(t, Low) * CountOf(t, High)
    ensures r.Ok? ==> r.value == 0 || r.value >= 1000
  {
    var mods :- MapAllOk(lines, ParseLine);
    var cfg := FromLinesInitial(mods);
    PressManyTrace(cfg, 1000, fuel);
    var pressed :- PressMany(cfg, 1000, fuel);
    var lo, hi := pressed.1, pressed.2;
    ProductBound(lo, hi);
    return Ok(lo * hi);
  }

  lemma ProductBound(lo: nat, hi: nat)
    requires lo >= 1000
    ensures lo * hi == 0 || lo * hi >= 1000
  {
    if hi >= 1 {
      assert lo * hi >= lo * 1;
    }
  }

  // ------------------------------------------------- first low at a target

  datatype PressOutcome = Found | Finished(after: Config)

  /** One press watched for a low pulse to `target`, checked as each pulse
      is taken from the queue, before it is delivered. */
  function Watch(c: Config, q: seq<Pulse>, target: string, fuel: nat): (r: Result<PressOutcome>)
    requires WellFormed(c)
    ensures r.Ok? && r.value.Finished? ==> WellFormed(r.value.after)
    decreases fuel
  {
    if |q| == 0 then Ok(Finished(c))
    else if q[0].to == target && q[0].signal == Low then Ok(Found)
    else if fuel == 0 then Err("too many pulses")
    else
      var (c', out) := Deliver(c, q[0]);
      Watch(c', q[1..] + out, target, fuel - 1)
  }

  /** Some pulse of the trace is a low pulse to `target`. */
  ghost predicate LowTo(t: seq<Pulse>, target: string) {
    exists i :: 0 <= i < |t| && t[i].to == target && t[i].signal == Low
  }

  /** A watched press that can be worked off finds a low pulse to the
      target exactly when one is among the pulses it processes, and
      otherwise ends where the unwatched press does. */
  lemma {:induction false} WatchTrace(c: Config, q: seq<Pulse>, target: string, fuel: nat)
    requires WellFormed(c) && Processed(c, q, fuel).Ok?
    ensures var (c', t) := Processed(c, q, fuel).value;
            Watch(c, q, target, fuel) == if LowTo(t, target) then Ok(Found) else Ok(Finished(c'))
    decreases fuel
  {
    var t := Processed(c, q, fuel).value.1;
    if |q| > 0 {
      assert t[0] == q[0];
      if !(q[0].to == target && q[0].signal == Low) {
        var (c', out) := Deliver(c, q[0]);
        WatchTrace(c', q[1..] + out, target, fuel - 1);
        var rest := Processed(c', q[1..] + out, fuel - 1).value.1;
        assert t == [q[0]] + rest;
        LowToCons(q[0], rest, target);
      }
    }
  }

  /** A trace with `p` in front has a low pulse to `target` exactly when
      `p` is one or the rest has one. */
  lemma LowToCons(p: Pulse, rest: seq<Pulse>, target: string)
    ensures LowTo([p] + rest, target) <==> (p.to == target && p.signal == Low) || LowTo(rest, target)
  {
    var t := [p] + rest;
    if LowTo(rest, target) {
      var i :| 0 <= i < |rest| && rest[i].to == target && rest[i].signal == Low;
      assert t[i + 1] == rest[i];
    }
    if LowTo(t, target) && !(p.to == target && p.signal == Low) {
      var i :| 0 <= i < |t| && t[i].to == target && t[i].signal == Low;
      assert rest[i - 1] == t[i];
    }
  }

  /** The state after `k` presses none of which sent a low pulse to
      `target`; `None` when one of them did or failed. */
  function Pressed(c: Config, target: string, k: nat, fuel: nat): (r: Option<Config>)
    requires WellFormed(c)
    ensures r.Some? ==> WellFormed(r.value)
  {
    if k == 0 then Some(c)
    else
      match Pressed(c, target, k - 1, fuel)
      case None => None
      case Some(c1) =>
        match Watch(c1, [ButtonPulse], target, fuel)
        case Ok(Finished(c2)) => Some(c2)
        case _ => None
  }

  /** At most this many presses are tried before giving up. */
  const PressLimit: nat := 100000

  function SearchPresses(c: Config, target: string, pressed: nat, fuel: nat): (r: Result<nat>)
    requires WellFormed(c)
    ensures r.Ok? ==> pressed < r.value <= PressLimit
    decreases PressLimit - pressed
  {
    if pressed >= PressLimit then Err("not found")
    else
      var outcome :- Watch(c, [ButtonPulse], target, fuel);
      match outcome
      case Found => Ok(pressed + 1)
      case Finished(c') => SearchPresses(c', target, pressed + 1, fuel)
  }

  /** Rust's `find_first_low` for a target other than "rx": the number of
      the first press during which `target` receives a low pulse. */
  function FindFirstLow(c: Config, target: string, fuel: nat): (r: Result<nat>)
    requires WellFormed(c) && target != "rx"
    ensures r.Ok? ==> 1 <= r.value <= PressLimit
  {
    SearchPresses(c, target, 0, fuel)
  }

  /** The press number found is the first: every earlier press finished
      without a low pulse to the target, and that press sends one. */
  lemma {:induction false} SearchFirst(c: Config, target: string, pressed: nat, fuel: nat, c0: Config, n: nat)
    requires WellFormed(c) && WellFormed(c0)
    requires Pressed(c0, target, pressed, fuel) == Some(c)
    requires SearchPresses(c, target, pressed, fuel) == Ok(n)
    ensures Pressed(c0, target, n - 1, fuel).Some?
            && Watch(Pressed(c0, target, n - 1, fuel).value, [ButtonPulse], target, fuel) == Ok(Found)
    decreases PressLimit - pressed
  {
    var w := Watch(c, [ButtonPulse], target, fuel);
    SearchStep(c, target, pressed, fuel);
    match w.value
    case Found =>
      assert n - 1 == pressed;
    case Finished(c') =>
      PressedNext(c0, target, pressed, fuel, c, c');
      SearchFirst(c', target, pressed + 1, fuel, c0, n);
  }

  /** One step of the search: it stops at a press that found a low pulse
      and otherwise carries on from the state after that press. */
  lemma SearchStep(c: Config, target: string, pressed: nat, fuel: nat)
    requires WellFormed(c)
    requires SearchPresses(c, target, pressed, fuel).Ok?
    ensures Watch(c, [ButtonPulse], target, fuel).Ok?
    ensures Watch(c, [ButtonPulse], target, fuel) == Ok(Found) ==> SearchPresses(c, target, pressed, fuel) == Ok(pressed + 1)
    ensures var w := Watch(c, [ButtonPulse], target, fuel);
            w.Ok? && w.value.Finished? ==>
              SearchPresses(c, target, pressed, fuel) == SearchPresses(w.value.after, target, pressed + 1, fuel)
  {
  }

  /** A press that finishes without a low pulse to the target extends the
      run of such presses by one. */
  lemma PressedNext(c0: Config, target: string, k: nat, fuel: nat, c: Config, c': Config)
    requires WellFormed(c0)
    requires Pressed(c0, target, k, fuel) == Some(c)
    requires Watch(c, [ButtonPulse], target, fuel) == Ok(Finished(c'))
    ensures Pressed(c0, target, k + 1, fuel) == Some(c')
  {
  }

  lemma FindFirstLowIsFirst(c: Config, target: string, fuel: nat)
    requires WellFormed(c) && target != "rx"
    requires FindFirstLow(c, target, fuel).Ok?
    ensures var n := FindFirstLow(c, target, fuel).value;
            Pressed(c, target, n - 1, fuel).Some?
            && Watch(Pressed(c, target, n - 1, fuel).value, [ButtonPulse], target, fuel) == Ok(Found)
  {
    SearchFirst(c, target, 0, fuel, c, FindFirstLow(c, target, fuel).value);
  }

  // ------------------------------------------------------ repeating pattern

  type Event = ((nat, nat), Signal)

  /** From `start` on, the events repeat with period `l`. */
  predicate Periodic(numbers: seq<Event>, start: nat, l: nat)
    requires l <= |numbers|
  {
    forall i | start <= i < |numbers| - l :: numbers[i] == numbers[i + l]
  }

  /** A pattern the search accepts: ten periods fit after `start`, the
      event at `start` is low, and the rest repeats. */
  predicate Repeats(numbers: seq<Event>, start: nat, l: nat) {
    1 <= l && start + 10 * l <= |numbers| && numbers[start].1 == Low && Periodic(numbers, start, l)
  }

  /** The inner loop over start positions for period `l`. */
  function SearchStart(numbers: seq<Event>, l: nat, start: nat): (r: Option<nat>)
    requires 1 <= l
    ensures r.Some? ==> start <= r.value < l + 2000 && Repeats(numbers, r.value, l)
    ensures r.Some? ==> forall s :: start <= s < r.value ==> !Repeats(numbers, s, l)
    ensures r.None? ==> forall s :: start <= s < l + 2000 ==> !Repeats(numbers, s, l)
    decreases l + 2000 - start
  {
    if start >= l + 2000 || start + 10 * l > |numbers| then None
    else if numbers[start].1 == Low && Periodic(numbers, start, l) then Some(start)
    else SearchStart(numbers, l, start + 1)
  }

  function SearchLength(numbers: seq<Event>, l: nat): (r: Option<(nat, nat)>)
    requires 1 <= l
    ensures r.Some? ==> l <= r.value.1 <= |numbers| / 2 && r.value.0 < r.value.1 + 2000
                        && Repeats(numbers, r.value.0, r.value.1)
    ensures r.Some? ==> forall l': nat, s: nat :: l <= l' < r.value.1 && s < l' + 2000 ==> !Repeats(numbers, s, l')
    ensures r.Some? ==> forall s: nat :: s < r.value.0 ==> !Repeats(numbers, s, r.value.1)
    ensures r.None? ==> forall l': nat, s: nat :: l <= l' <= |numbers| / 2 && s < l' + 2000 ==> !Repeats(numbers, s, l')
    decreases |numbers| / 2 + 1 - l
  {
    if l > |numbers| / 2 then None
    else
      match SearchStart(numbers, l, 0)
      case Some(s) => Some((s, l))
      case None => SearchLength(numbers, l + 1)
  }

  /** Rust's `find_repeating_pattern`: the shortest period, and for it the
      earliest start, among starts below the period plus 2000. */
  function FindRepeatingPattern(numbers: seq<Event>): (r: Option<(nat, nat)>)
    ensures r.Some? ==> var (s, l) := r.value;
                        l >= 1 && s + 10 * l <= |numbers| && numbers[s].1 == Low
                        && forall i :: s <= i < |numbers| - l ==> numbers[i] == numbers[i + l]
    ensures r.Some? ==> forall l': nat, s: nat :: 1 <= l' < r.value.1 && s < l' + 2000 ==> !Repeats(numbers, s, l')
    ensures r.None? ==> forall l': nat, s: nat :: 1 <= l' <= |numbers| / 2 && s < l' + 2000 ==> !Repeats(numbers, s, l')
  {
    SearchLength(numbers, 1)
  }
}
