/** Day 25, "Snowverload": a wiring diagram of components, cut into two
    groups by removing three wires.

    The model covers the name-interning cache, the graph built from the
    diagram, node contraction, and the Stoer–Wagner loop that keeps the
    smallest cut-of-the-phase. Which two nodes end a phase (the
    maximum-adjacency search over a priority queue) is a parameter: an
    oracle on the current graph. */
module Snowverload {
  import opened Wrappers
  import opened Text
  import opened Collections

  // ------------------------------------------------------------ name cache

  /** Interned component names: `names[i]` is the name with index `i`, and
      `indices` maps each name back to its index. */
  datatype NameCache = NameCache(indices: map<string, nat>, names: seq<string>)

  const EmptyCache := NameCache(map[], [])

  /** `indices` and `names` are inverse to each other. */
  predicate ValidCache(c: NameCache) {
    && (forall n :: n in c.indices ==> c.indices[n] < |c.names| && c.names[c.indices[n]] == n)
    && (forall i :: 0 <= i < |c.names| ==> c.names[i] in c.indices && c.indices[c.names[i]] == i)
  }

  /** The index of `name`; a new name gets the next free index
      (`NameCache::insert`). A known name leaves the cache as it is, and
      afterwards the name is known at the returned index, so inserting
      twice returns the same index. */
  function Insert(c: NameCache, name: string): (r: (NameCache, nat))
    ensures name in c.indices ==> r.0 == c
    ensures name in r.0.indices && r.0.indices[name] == r.1
    ensures ValidCache(c) ==> ValidCache(r.0) && r.1 < |r.0.names| && r.0.names[r.1] == name
    ensures ValidCache(c) ==> c.names <= r.0.names && (r.1 == |c.names| <==> name !in c.indices)
    ensures |r.0.names| <= |c.names| + 1
    ensures c.indices.Keys <= r.0.indices.Keys && r.0.indices.Keys <= c.indices.Keys + {name}
  {
    if name in c.indices then (c, c.indices[name])
    else
      var idx := |c.names|;
      (NameCache(c.indices[name := idx], c.names + [name]), idx)
  }

  // ------------------------------------------------------------- the graph

  /** A node's neighbours as a multiset: each wire to a neighbour counts
      once. The order of the adjacency vector plays no part in the cut
      weights or in the merging. */
  type Adj = multiset<nat>

  /** The contracted graph: adjacency, the nodes still taking part, and
      how many original components each node stands for. */
  datatype Graph = Graph(nodes: seq<Adj>, active: seq<nat>, card: seq<nat>)

  /** Every wire is recorded at both ends. */
  predicate Symmetric(nodes: seq<Adj>) {
    forall x, y :: 0 <= x < |nodes| && 0 <= y < |nodes| ==> nodes[x][y] == nodes[y][x]
  }

  predicate InRange(nodes: seq<Adj>) {
    forall x, y :: 0 <= x < |nodes| && y in nodes[x] ==> y < |nodes|
  }

  /** A wire from a component to itself is recorded at both of its ends,
      which are the same node, so every node lists itself an even number
      of times. */
  predicate EvenLoops(nodes: seq<Adj>) {
    forall x :: 0 <= x < |nodes| ==> nodes[x][x] % 2 == 0
  }

  predicate WellFormed(g: Graph) {
    && |g.card| == |g.nodes|
    && Symmetric(g.nodes)
    && InRange(g.nodes)
    && EvenLoops(g.nodes)
    && forall i :: 0 <= i < |g.active| ==> g.active[i] < |g.nodes|
  }

  /** The nodes from `i` on that have a neighbour, in increasing order. */
  function Connected(nodes: seq<Adj>, i: nat): (r: seq<nat>)
    requires i <= |nodes|
    ensures forall x: nat :: x in r <==> i <= x < |nodes| && nodes[x] != multiset{}
    ensures Increasing(r)
    decreases |nodes| - i
  {
    if i == |nodes| then []
    else
      var rest := Connected(nodes, i + 1);
      assert forall k :: 0 <= k < |rest| ==> rest[k] in rest;
      if nodes[i] != multiset{} then [i] + rest else rest
  }

  /** A fresh graph (`Graph::new`): the nodes with a neighbour are active,
      each listed once, and every node stands for one component. */
  function NewGraph(nodes: seq<Adj>): (g: Graph)
    ensures g.nodes == nodes
    ensures forall x: nat :: x in g.active <==> x < |nodes| && nodes[x] != multiset{}
    ensures Increasing(g.active)
    ensures |g.card| == |nodes| && forall i :: 0 <= i < |nodes| ==> g.card[i] == 1
  {
    Graph(nodes, Connected(nodes, 0), seq(|nodes|, _ => 1))
  }

  /** A fresh graph's cardinalities add up to the number of nodes. */
  lemma NewGraphTotal(nodes: seq<Adj>)
    ensures Sum(NewGraph(nodes).card) == |nodes|
  {
    var c := NewGraph(nodes).card;
    SumAtMost(c, 1);
    SumAtLeastLength(c);
  }

  /** The index of the first `x` in `a` (`iter().position`). */
  function Position(a: seq<nat>, x: nat): (r: Option<nat>)
    ensures r.None? <==> x !in a
    ensures r.Some? ==> r.value < |a| && a[r.value] == x && x !in a[..r.value]
  {
    if |a| == 0 then None
    else if a[0] == x then Some(0)
    else
      match Position(a[1..], x)
      case None => None
      case Some(i) =>
        assert a[..i + 1] == [a[0]] + a[1..][..i];
        Some(i + 1)
  }

  /** `Vec::swap_remove`: the last element takes the place of the removed one. */
  function SwapRemove(a: seq<nat>, i: nat): (r: seq<nat>)
    requires i < |a|
    ensures |r| == |a| - 1
    ensures multiset(r) == multiset(a) - multiset{a[i]}
  {
    var last := |a| - 1;
    if i == last then
      assert a == a[..i] + [a[i]];
      a[..i]
    else
      assert a == a[..i] + [a[i]] + a[i + 1..last] + [a[last]];
      a[..i] + [a[last]] + a[i + 1..last]
  }

  /** Wires to `t` now lead to `s`. */
  function Rename(m: Adj, t: nat, s: nat): (r: Adj)
    requires s != t
    ensures r[t] == 0 && r[s] == m[s] + m[t]
    ensures forall y :: y != s && y != t ==> r[y] == m[y]
    ensures |r| == |m|
  {
    m[s := m[s] + m[t]][t := 0]
  }

  /** The adjacency after contracting `t` into `s`. The wires between them
      go; `t`'s other entries move to `s`, and the entries of `t`'s
      neighbours are renamed. A self-entry of `t` is renamed once a later
      entry names `t` or `s`, which the pairs of self-entries always do; a
      single self-entry would stay behind as `t` in `s`'s list. */
  function Contract(nodes: seq<Adj>, s: nat, t: nat): (r: seq<Adj>)
    requires s < |nodes| && t < |nodes| && s != t
    ensures |r| == |nodes| && r[t] == multiset{}
    ensures forall y :: y != s && y != t ==> r[s][y] == nodes[s][y] + nodes[t][y]
    ensures nodes[t][t] != 1 ==> r[s][t] == 0 && r[s][s] == nodes[s][s] + nodes[t][t]
    ensures |r[s]| == |nodes[s]| - nodes[s][t] + |nodes[t]| - nodes[t][s]
  {
    var fromT := nodes[t][s := 0];
    var fromS := nodes[s][t := 0];
    seq(|nodes|, k requires 0 <= k < |nodes| =>
      if k == s then fromS + (if nodes[t][t] == 1 then fromT else Rename(fromT, t, s))
      else if k == t then multiset{}
      else if k in fromT then Rename(nodes[k], t, s)
      else nodes[k])
  }

  /** `t`'s cardinality moves to `s`; the total is kept. */
  function MoveCard(card: seq<nat>, s: nat, t: nat): (r: seq<nat>)
    requires s < |card| && t < |card| && s != t
    ensures |r| == |card| && Sum(r) == Sum(card)
    ensures r[s] == card[s] + card[t] && r[t] == 0
  {
    var card1 := card[s := card[s] + card[t]];
    SumUpdate(card, s, card[s] + card[t]);
    SumUpdate(card1, t, 0);
    card1[t := 0]
  }

  /** Contracts node `t` into node `s` (`Graph::merge_nodes`): the wires
      between them disappear, `t`'s other wires move to `s`, and `t`'s
      neighbours are told. Merging a node with itself, or a node that is
      no longer active, panics. */
  function Merge(g: Graph, s: nat, t: nat): (r: Result<Graph>)
    requires s < |g.nodes| && t < |g.nodes| && s < |g.card| && t < |g.card|
    ensures r.Err? <==> s == t || t !in g.active
    ensures r.Ok? ==> |r.value.nodes| == |g.nodes| && |r.value.card| == |g.card|
    ensures r.Ok? ==> multiset(r.value.active) == multiset(g.active) - multiset{t}
    ensures r.Ok? ==> Sum(r.value.card) == Sum(g.card)
    ensures r.Ok? ==> r.value.card[s] == g.card[s] + g.card[t] && r.value.card[t] == 0
  {
    if s == t then Err("merging a node with itself")
    else
      var i :- OkOr(Position(g.active, t), "merged node is not active");
      Ok(Graph(Contract(g.nodes, s, t), SwapRemove(g.active, i), MoveCard(g.card, s, t)))
  }

  /** Wire counts after a contraction: nothing touches `t` any more, `s`
      carries the wires of both, and all other wires stay. */
  ghost predicate Contracted(old_: seq<Adj>, new_: seq<Adj>, s: nat, t: nat)
    requires s < |old_| && t < |old_| && |new_| == |old_|
  {
    forall x: nat, y: nat :: x < |old_| ==>
      new_[x][y] == (if x == t || y == t then 0
                     else if x == s && y == s then old_[s][s] + old_[t][t]
                     else if x == s then old_[s][y] + old_[t][y]
                     else if y == s then old_[x][s] + old_[x][t]
                     else old_[x][y])
  }

  lemma ContractEntries(nodes: seq<Adj>, s: nat, t: nat)
    requires Symmetric(nodes) && EvenLoops(nodes) && s < |nodes| && t < |nodes| && s != t
    ensures Contracted(nodes, Contract(nodes, s, t), s, t)
  {
    forall x: nat, y: nat | x < |nodes| {
      ContractEntry(nodes, s, t, x, y);
    }
  }

  lemma ContractEntry(nodes: seq<Adj>, s: nat, t: nat, x: nat, y: nat)
    requires Symmetric(nodes) && EvenLoops(nodes) && s < |nodes| && t < |nodes| && s != t && x < |nodes|
    ensures Contract(nodes, s, t)[x][y]
         == (if x == t || y == t then 0
             else if x == s && y == s then nodes[s][s] + nodes[t][t]
             else if x == s then nodes[s][y] + nodes[t][y]
             else if y == s then nodes[x][s] + nodes[x][t]
             else nodes[x][y])
  {
    var c := Contract(nodes, s, t);
    if x == s {
      assert nodes[t][t] != 1;
    } else if x != t {
      assert nodes[x][t] == nodes[t][x];
      if x in nodes[t] {
        assert c[x] == Rename(nodes[x], t, s);
      } else {
        assert c[x] == nodes[x];
      }
    }
  }

  /** A contraction of a well-formed adjacency is well formed. */
  lemma {:induction false} ContractedWellFormed(old_: seq<Adj>, new_: seq<Adj>, s: nat, t: nat)
    requires s < |old_| && t < |old_| && |new_| == |old_| && Contracted(old_, new_, s, t)
    requires Symmetric(old_) && InRange(old_) && EvenLoops(old_)
    ensures Symmetric(new_) && InRange(new_) && EvenLoops(new_)
  {
    var n := |old_|;
    forall x, y | 0 <= x < n && 0 <= y < n ensures new_[x][y] == new_[y][x] {
      assert old_[x][y] == old_[y][x];
      assert old_[s][y] == old_[y][s] && old_[t][y] == old_[y][t];
      assert old_[s][x] == old_[x][s] && old_[t][x] == old_[x][t];
    }
    forall x, y | 0 <= x < n && y in new_[x] ensures y < n {
      if y != s {
        assert y in old_[s] || y in old_[t] || y in old_[x];
      }
    }
  }

  /** Contraction keeps the graph well formed, and the wire counts are
      those of the contracted graph: `s` inherits `t`'s wires, the wires
      between them vanish, and `s`'s degree grows by `t`'s degree less
      twice the wires they shared. */
  lemma MergeContracts(g: Graph, s: nat, t: nat)
    requires WellFormed(g) && s < |g.nodes| && t < |g.nodes| && Merge(g, s, t).Ok?
    ensures WellFormed(Merge(g, s, t).value)
    ensures Contracted(g.nodes, Merge(g, s, t).value.nodes, s, t)
    ensures |Merge(g, s, t).value.nodes[s]| + 2 * g.nodes[s][t] == |g.nodes[s]| + |g.nodes[t]|
  {
    var h := Merge(g, s, t).value;
    ContractEntries(g.nodes, s, t);
    ContractedWellFormed(g.nodes, h.nodes, s, t);
    MergeActive(g, s, t);
    MergeDegree(g.nodes, s, t);
  }

  lemma MergeWellFormed(g: Graph, s: nat, t: nat)
    requires WellFormed(g) && s < |g.nodes| && t < |g.nodes| && Merge(g, s, t).Ok?
    ensures WellFormed(Merge(g, s, t).value)
  {
    MergeContracts(g, s, t);
  }

  lemma MergeActive(g: Graph, s: nat, t: nat)
    requires WellFormed(g) && s < |g.nodes| && t < |g.nodes| && Merge(g, s, t).Ok?
    ensures forall i :: 0 <= i < |Merge(g, s, t).value.active| ==> Merge(g, s, t).value.active[i] < |g.nodes|
  {
    var i := Position(g.active, t).value;
    var r := SwapRemove(g.active, i);
    assert Merge(g, s, t).value.active == r;
    forall k | 0 <= k < |r| ensures r[k] < |g.nodes| {
      assert r[k] in multiset(r);
      assert r[k] in multiset(g.active);
    }
  }

  lemma MergeDegree(nodes: seq<Adj>, s: nat, t: nat)
    requires Symmetric(nodes) && s < |nodes| && t < |nodes| && s != t
    ensures |Contract(nodes, s, t)[s]| + 2 * nodes[s][t] == |nodes[s]| + |nodes[t]|
  {
    assert nodes[t][s] == nodes[s][t];
  }

  // ------------------------------------------------------- Stoer–Wagner

  /** A cut-of-the-phase: the length of the last node's adjacency list
      (its wires, a self-wire counted at both ends), and how many
      components that node stands for. */
  datatype MinCut = MinCut(weight: nat, size: nat)

  /** One phase: `phase` names the last two nodes `s`, `t` of the phase's
      maximum-adjacency order; the cut-of-the-phase is `t`'s wires and
      cardinality, and `t` is then merged into `s`. Indexing past the graph
      panics, and so does every panic of the merge. */
  function Phase(phase: Graph -> (nat, nat), g: Graph): (r: Result<(Graph, MinCut)>)
    ensures r.Err? <==> var (s, t) := phase(g);
              s >= |g.nodes| || t >= |g.nodes| || s >= |g.card| || t >= |g.card| || s == t || t !in g.active
    ensures r.Ok? ==> |r.value.0.nodes| == |g.nodes| && Sum(r.value.0.card) == Sum(g.card)
    ensures r.Ok? ==> r.value.1.size <= Sum(g.card) && r.value.1.size == g.card[phase(g).1]
  {
    var (s, t) := phase(g);
    if s >= |g.nodes| || t >= |g.nodes| || s >= |g.card| || t >= |g.card| then Err("index out of range")
    else
      var cut := MinCut(|g.nodes[t]|, g.card[t]);
      SumElem(g.card, t);
      var h :- Merge(g, s, t);
      Ok((h, cut))
  }

  /** A phase keeps the graph well formed. */
  lemma PhaseWellFormed(phase: Graph -> (nat, nat), g: Graph)
    requires WellFormed(g) && Phase(phase, g).Ok?
    ensures WellFormed(Phase(phase, g).value.0)
  {
    MergeWellFormed(g, phase(g).0, phase(g).1);
  }

  /** The phase as a step function, to be repeated by `Phases`. */
  function PhaseOf(phase: Graph -> (nat, nat)): Graph -> Result<(Graph, MinCut)> {
    g => Phase(phase, g)
  }

  /** `k` rounds of `step` from `g`: the graph after them, and what each
      round reported, in order. The first failing round fails the run. */
  function Phases(g: Graph, step: Graph -> Result<(Graph, MinCut)>, k: nat): (r: Result<(Graph, seq<MinCut>)>)
    ensures r.Ok? ==> |r.value.1| == k
    ensures k == 0 ==> r == Ok((g, []))
    decreases k
  {
    if k == 0 then Ok((g, []))
    else
      var first :- step(g);
      var rest :- Phases(first.0, step, k - 1);
      Ok((rest.0, [first.1] + rest.1))
  }

  /** `j` rounds and then one more are `j + 1` rounds. */
  lemma {:induction false} PhasesSnoc(g: Graph, step: Graph -> Result<(Graph, MinCut)>, j: nat,
                                      g1: Graph, cuts: seq<MinCut>, h: Graph, cut: MinCut, j': nat, cuts': seq<MinCut>)
    requires Phases(g, step, j) == Ok((g1, cuts)) && step(g1) == Ok((h, cut))
    requires j' == j + 1 && cuts' == cuts + [cut]
    ensures Phases(g, step, j') == Ok((h, cuts'))
    decreases j
  {
    if j == 0 {
      assert cuts' == [cut] + [];
    } else {
      var first := step(g).value;
      var rest := Phases(first.0, step, j - 1).value.1;
      PhasesSnoc(first.0, step, j - 1, g1, rest, h, cut, j, rest + [cut]);
      assert [first.1] + (rest + [cut]) == cuts';
    }
  }

  /** `j` rounds and then a failing one fail as `j + 1` rounds. */
  lemma {:induction false} PhasesSnocFail(g: Graph, step: Graph -> Result<(Graph, MinCut)>, j: nat,
                                          g1: Graph, cuts: seq<MinCut>)
    requires Phases(g, step, j) == Ok((g1, cuts)) && step(g1).Err?
    ensures Phases(g, step, j + 1).Err?
    decreases j
  {
    if j > 0 {
      var first := step(g).value;
      PhasesSnocFail(first.0, step, j - 1, g1, Phases(first.0, step, j - 1).value.1);
    }
  }

  /** Once a run fails, a longer run fails too. */
  lemma {:induction false} PhasesFailLater(g: Graph, step: Graph -> Result<(Graph, MinCut)>, j: nat, m: nat)
    requires j <= m && Phases(g, step, j).Err?
    ensures Phases(g, step, m).Err?
    decreases j
  {
    if step(g).Ok? {
      PhasesFailLater(step(g).value.0, step, j - 1, m - 1);
    }
  }

  /** No cut stands for more than `b` components. */
  predicate SizesAtMost(cuts: seq<MinCut>, b: nat) {
    forall i :: 0 <= i < |cuts| ==> cuts[i].size <= b
  }

  lemma SizesSnoc(cuts: seq<MinCut>, c: MinCut, b: nat)
    requires c.size <= b && SizesAtMost(cuts, b)
    ensures SizesAtMost(cuts + [c], b)
  {
  }

  /** `m` is the cut at index `i`, no cut is lighter, and every earlier cut
      is heavier: the first lightest cut. */
  ghost predicate FirstMinAt(cuts: seq<MinCut>, m: MinCut, i: nat) {
    && i < |cuts| && cuts[i] == m
    && (forall j :: 0 <= j < |cuts| ==> m.weight <= cuts[j].weight)
    && (forall j :: 0 <= j < i ==> m.weight < cuts[j].weight)
  }

  ghost predicate FirstMin(cuts: seq<MinCut>, m: MinCut) {
    exists i: nat :: FirstMinAt(cuts, m, i)
  }

  /** Keeping the first lightest cut as one more cut arrives. */
  lemma FirstMinNext(cuts: seq<MinCut>, best: Option<MinCut>, at: nat, c: MinCut)
    requires best.None? ==> cuts == []
    requires best.Some? ==> FirstMinAt(cuts, best.value, at)
    ensures best.None? || c.weight < best.value.weight ==> FirstMinAt(cuts + [c], c, |cuts|)
    ensures best.Some? && c.weight >= best.value.weight ==> FirstMinAt(cuts + [c], best.value, at)
  {
  }

  /** How many phases `calculate` runs: one less than the number of nodes. */
  function PhaseCount(g: Graph): nat {
    if |g.nodes| == 0 then 0 else |g.nodes| - 1
  }

  /** The Stoer–Wagner loop (`StoerWagner::calculate`): one phase per node
      but one, each merging the phase's last node into the one before it;
      the result is the first lightest cut-of-the-phase. With fewer than
      two nodes no phase runs and there is no cut to return. */
  method Calculate(g0: Graph, phase: Graph -> (nat, nat)) returns (r: Result<MinCut>)
    requires WellFormed(g0)
    ensures r.Ok? <==> |g0.nodes| >= 2 && Phases(g0, PhaseOf(phase), PhaseCount(g0)).Ok?
    ensures r.Ok? ==> FirstMin(Phases(g0, PhaseOf(phase), PhaseCount(g0)).value.1, r.value)
    ensures r.Ok? ==> r.value.size <= Sum(g0.card)
  {
    ghost var step := PhaseOf(phase);
    var g := g0;
    var best: Option<MinCut> := None;
    ghost var cuts: seq<MinCut> := [];
    ghost var at: nat := 0;
    ghost var done: nat := 0;
    var left := |g0.nodes|;
    while left > 1
      invariant left <= |g0.nodes| && |cuts| == |g0.nodes| - left && |cuts| <= PhaseCount(g0)
      invariant WellFormed(g) && Sum(g.card) == Sum(g0.card)
      invariant done == |cuts| && Phases(g0, step, done) == Ok((g, cuts))
      invariant best.None? <==> |cuts| == 0
      invariant best.Some? ==> FirstMinAt(cuts, best.value, at)
      invariant SizesAtMost(cuts, Sum(g0.card))
    {
      var next := Phase(phase, g);
      assert step(g) == next;
      if next.Err? {
        PhasesSnocFail(g0, step, done, g, cuts);
        PhasesFailLater(g0, step, done + 1, PhaseCount(g0));
        return Err(next.msg);
      }
      var (h, cut) := next.value;
      PhaseWellFormed(phase, g);
      SizesSnoc(cuts, cut, Sum(g0.card));
      FirstMinNext(cuts, best, at, cut);
      if best.None? || cut.weight < best.value.weight {
        best := Some(cut);
        at := |cuts|;
      }
      ghost var (g1, cuts1, done1) := (g, cuts, done);
      cuts := cuts + [cut];
      g := h;
      done := done + 1;
      PhasesSnoc(g0, step, done1, g1, cuts1, g, cut, done, cuts);
      left := left - 1;
    }
    if best.None? {
      return Err("no phase ran");
    }
    assert done == PhaseCount(g0);
    return Ok(best.value);
  }

  // ------------------------------------------------------ reading the diagram

  /** The diagram read so far: the interned names and one adjacency per name. */
  datatype Built = Built(cache: NameCache, nodes: seq<Adj>)

  /** `Built` is consistent enough to go on reading: the cache is valid and
      there is a node per name. */
  predicate Sized(b: Built) {
    ValidCache(b.cache) && |b.nodes| == |b.cache.names|
  }

  /** Interns `name`, giving a new name an empty adjacency. */
  function AddName(b: Built, name: string): (r: (Built, nat))
    requires Sized(b)
    ensures Sized(r.0) && r.1 < |r.0.nodes| && r.0.cache.names[r.1] == name
    ensures b.cache.names <= r.0.cache.names && b.nodes <= r.0.nodes
  {
    var (c, idx) := Insert(b.cache, name);
    (Built(c, if idx == |b.nodes| then b.nodes + [multiset{}] else b.nodes), idx)
  }

  /** One wire between `l` and `r`, recorded at both ends (a wire from a
      node to itself is recorded twice at that node). */
  function Connect(nodes: seq<Adj>, l: nat, r: nat): (res: seq<Adj>)
    requires l < |nodes| && r < |nodes|
    ensures |res| == |nodes|
    ensures forall x, y :: 0 <= x < |nodes| ==>
              res[x][y] == nodes[x][y] + (if x == l && y == r then 1 else 0) + (if x == r && y == l then 1 else 0)
  {
    var once := nodes[l := nodes[l] + multiset{r}];
    once[r := once[r] + multiset{l}]
  }

  /** The wires from `l` to each of the `targets`, one by one. */
  function AddTargets(b: Built, l: nat, targets: seq<string>): (r: Built)
    requires Sized(b) && l < |b.nodes|
    ensures Sized(r) && b.cache.names <= r.cache.names
    decreases |targets|
  {
    if |targets| == 0 then b
    else
      var (b1, t) := AddName(b, targets[0]);
      AddTargets(Built(b1.cache, Connect(b1.nodes, l, t)), l, targets[1..])
  }

  /** One line `name: target target ...`; a line without a colon panics. */
  function AddLine(b: Built, line: string): (r: Result<Built>)
    requires Sized(b)
    ensures r.Ok? ==> Sized(r.value)
    ensures r.Err? <==> ':' !in line
  {
    var parts :- OkOr(SplitOnce(line, ':'), "line without ':'");
    var (b1, l) := AddName(b, parts.0);
    Ok(AddTargets(b1, l, Split(Trim(parts.1), ' ')))
  }

  function BuildFrom(b: Built, lines: seq<string>): (r: Result<Built>)
    requires Sized(b)
    ensures r.Ok? ==> Sized(r.value)
    decreases |lines|
  {
    if |lines| == 0 then Ok(b)
    else
      var b1 :- AddLine(b, lines[0]);
      BuildFrom(b1, lines[1..])
  }

  /** The graph construction at the start of `run`. */
  function Build(lines: seq<string>): Result<Built> {
    BuildFrom(Built(EmptyCache, []), lines)
  }

  // --------------------------------------------- the wires the diagram lists

  type Wire = (string, string)

  function Targets(name: string, targets: seq<string>): (r: seq<Wire>)
    ensures |r| == |targets| && forall i :: 0 <= i < |r| ==> r[i] == (name, targets[i])
  {
    seq(|targets|, i requires 0 <= i < |targets| => (name, targets[i]))
  }

  /** Some line of the diagram has no ':' between the component and its
      neighbours. */
  predicate Malformed(lines: seq<string>) {
    exists i :: 0 <= i < |lines| && ':' !in lines[i]
  }

  lemma MalformedCons(lines: seq<string>)
    requires |lines| > 0
    ensures Malformed(lines) <==> ':' !in lines[0] || Malformed(lines[1..])
  {
    if Malformed(lines[1..]) {
      var i :| 0 <= i < |lines[1..]| && ':' !in lines[1..][i];
      assert ':' !in lines[i + 1];
    }
    if Malformed(lines) && ':' in lines[0] {
      var i :| 0 <= i < |lines| && ':' !in lines[i];
      assert ':' !in lines[1..][i - 1];
    }
  }

  /** Every wire of the diagram, line by line, as the reference the built
      graph is compared with. */
  function Wires(lines: seq<string>): (r: Result<seq<Wire>>)
    ensures r.Err? <==> Malformed(lines)
    decreases |lines|
  {
    if |lines| == 0 then Ok([])
    else
      MalformedCons(lines);
      var parts :- OkOr(SplitOnce(lines[0], ':'), "line without ':'");
      var rest :- Wires(lines[1..]);
      Ok(Targets(parts.0, Split(Trim(parts.1), ' ')) + rest)
  }

  /** How often the wire `a`–`b` is listed with `a` first. */
  function Count(wires: seq<Wire>, a: string, b: string): nat
    decreases |wires|
  {
    if |wires| == 0 then 0
    else Count(wires[..|wires| - 1], a, b) + (if wires[|wires| - 1] == (a, b) then 1 else 0)
  }

  /** A name no wire mentions has no wires. */
  lemma {:induction false} CountUnknown(wires: seq<Wire>, a: string, b: string)
    requires forall i :: 0 <= i < |wires| ==> wires[i].0 != a
    ensures Count(wires, a, b) == 0
    decreases |wires|
  {
    if |wires| > 0 {
      CountUnknown(wires[..|wires| - 1], a, b);
    }
  }

  lemma {:induction false} CountUnknownTarget(wires: seq<Wire>, a: string, b: string)
    requires forall i :: 0 <= i < |wires| ==> wires[i].1 != b
    ensures Count(wires, a, b) == 0
    decreases |wires|
  {
    if |wires| > 0 {
      CountUnknownTarget(wires[..|wires| - 1], a, b);
    }
  }

  /** Every name a wire mentions has been interned. */
  ghost predicate Known(c: NameCache, wires: seq<Wire>) {
    forall i :: 0 <= i < |wires| ==> wires[i].0 in c.indices && wires[i].1 in c.indices
  }

  /** Node `x` has as many wires to node `y` as the diagram lists between
      their names, in either direction. */
  ghost predicate Counts(b: Built, wires: seq<Wire>)
    requires |b.nodes| == |b.cache.names|
  {
    forall x, y :: 0 <= x < |b.nodes| && 0 <= y < |b.nodes| ==>
      b.nodes[x][y] == Count(wires, b.cache.names[x], b.cache.names[y]) + Count(wires, b.cache.names[y], b.cache.names[x])
  }

  /** What reading the diagram keeps true after the wires `wires`. */
  ghost predicate Reads(b: Built, wires: seq<Wire>) {
    Sized(b) && InRange(b.nodes) && Known(b.cache, wires) && Counts(b, wires)
  }

  /** Interning a name keeps the graph in step with the wires read so far. */
  lemma AddNameReads(b: Built, wires: seq<Wire>, name: string)
    requires Reads(b, wires)
    ensures Reads(AddName(b, name).0, wires)
  {
    if name !in b.cache.indices {
      var b' := AddName(b, name).0;
      forall x, y | 0 <= x < |b'.nodes| && 0 <= y < |b'.nodes|
        ensures b'.nodes[x][y] == Count(wires, b'.cache.names[x], b'.cache.names[y])
                                 + Count(wires, b'.cache.names[y], b'.cache.names[x])
      {
        AddNameEntry(b, wires, name, x, y);
      }
    }
  }

  lemma AddNameEntry(b: Built, wires: seq<Wire>, name: string, x: nat, y: nat)
    requires Reads(b, wires) && name !in b.cache.indices && x <= |b.nodes| && y <= |b.nodes|
    ensures var b' := AddName(b, name).0;
            b'.nodes[x][y] == Count(wires, b'.cache.names[x], b'.cache.names[y])
                              + Count(wires, b'.cache.names[y], b'.cache.names[x])
  {
    var b' := AddName(b, name).0;
    var n := |b.nodes|;
    assert b'.nodes == b.nodes + [multiset{}] && b'.cache.names == b.cache.names + [name];
    if x == n || y == n {
      forall i | 0 <= i < |wires| ensures wires[i].0 != name && wires[i].1 != name {
      }
      if x < n {
        assert n !in b.nodes[x];
      }
      if x == n {
        CountUnknown(wires, name, b'.cache.names[y]);
        CountUnknownTarget(wires, b'.cache.names[y], name);
      } else {
        CountUnknownTarget(wires, b'.cache.names[x], name);
        CountUnknown(wires, name, b'.cache.names[x]);
      }
    } else {
      assert b'.nodes[x] == b.nodes[x] && b'.cache.names[x] == b.cache.names[x];
      assert b'.cache.names[y] == b.cache.names[y];
    }
  }

  /** Listing one more wire adds one to its count. */
  lemma CountSnoc(wires: seq<Wire>, w: Wire, a: string, b: string)
    ensures Count(wires + [w], a, b) == Count(wires, a, b) + (if w == (a, b) then 1 else 0)
  {
    assert (wires + [w])[..|wires|] == wires;
  }

  /** Distinct nodes have distinct names. */
  lemma NamesDistinct(c: NameCache, x: nat, y: nat)
    requires ValidCache(c) && x < |c.names| && y < |c.names|
    ensures c.names[x] == c.names[y] <==> x == y
  {
  }

  /** Connecting `l` and `r` is reading the wire between their names. */
  lemma ConnectReads(b: Built, wires: seq<Wire>, l: nat, r: nat)
    requires Reads(b, wires) && l < |b.nodes| && r < |b.nodes|
    ensures Reads(Built(b.cache, Connect(b.nodes, l, r)), wires + [(b.cache.names[l], b.cache.names[r])])
  {
    var names := b.cache.names;
    var b' := Built(b.cache, Connect(b.nodes, l, r));
    forall x, y | 0 <= x < |b'.nodes| && 0 <= y < |b'.nodes|
      ensures b'.nodes[x][y] == Count(wires + [(names[l], names[r])], names[x], names[y])
                               + Count(wires + [(names[l], names[r])], names[y], names[x])
    {
      ConnectEntry(b, wires, l, r, x, y);
    }
    ConnectInRange(b.nodes, l, r);
  }

  lemma ConnectInRange(nodes: seq<Adj>, l: nat, r: nat)
    requires InRange(nodes) && l < |nodes| && r < |nodes|
    ensures InRange(Connect(nodes, l, r))
  {
    var c := Connect(nodes, l, r);
    forall x, y | 0 <= x < |c| && y in c[x] ensures y < |c| {
      if y !in nodes[x] {
        assert c[x][y] > 0;
      }
    }
  }

  lemma ConnectEntry(b: Built, wires: seq<Wire>, l: nat, r: nat, x: nat, y: nat)
    requires Reads(b, wires) && l < |b.nodes| && r < |b.nodes| && x < |b.nodes| && y < |b.nodes|
    ensures var names := b.cache.names;
            Connect(b.nodes, l, r)[x][y] == Count(wires + [(names[l], names[r])], names[x], names[y])
                                            + Count(wires + [(names[l], names[r])], names[y], names[x])
  {
    var names := b.cache.names;
    var w := (names[l], names[r]);
    assert b.nodes[x][y] == Count(wires, names[x], names[y]) + Count(wires, names[y], names[x]);
    CountSnoc(wires, w, names[x], names[y]);
    CountSnoc(wires, w, names[y], names[x]);
    NamesDistinct(b.cache, x, l);
    NamesDistinct(b.cache, y, r);
    NamesDistinct(b.cache, x, r);
    NamesDistinct(b.cache, y, l);
  }

  /** Reading a line's targets reads a wire from the line's name to each. */
  lemma {:induction false} AddTargetsReads(b: Built, wires: seq<Wire>, l: nat, targets: seq<string>)
    requires Reads(b, wires) && l < |b.nodes|
    ensures Reads(AddTargets(b, l, targets), wires + Targets(b.cache.names[l], targets))
    decreases |targets|
  {
    var name := b.cache.names[l];
    if |targets| == 0 {
      assert wires + Targets(name, targets) == wires;
    } else {
      var (b1, t) := AddName(b, targets[0]);
      AddNameReads(b, wires, targets[0]);
      assert b1.cache.names[l] == name;
      ConnectReads(b1, wires, l, t);
      var b2 := Built(b1.cache, Connect(b1.nodes, l, t));
      AddTargetsReads(b2, wires + [(name, targets[0])], l, targets[1..]);
      TargetsCons(wires, name, targets);
    }
  }

  lemma TargetsCons(wires: seq<Wire>, name: string, targets: seq<string>)
    requires |targets| > 0
    ensures wires + [(name, targets[0])] + Targets(name, targets[1..]) == wires + Targets(name, targets)
  {
    assert Targets(name, targets) == [(name, targets[0])] + Targets(name, targets[1..]);
  }

  /** Reading one line reads the wires it lists. */
  lemma AddLineReads(b: Built, wires: seq<Wire>, line: string)
    requires Reads(b, wires) && ':' in line
    ensures var parts := SplitOnce(line, ':').value;
            Reads(AddLine(b, line).value, wires + Targets(parts.0, Split(Trim(parts.1), ' ')))
  {
    var parts := SplitOnce(line, ':').value;
    var (b1, l) := AddName(b, parts.0);
    AddNameReads(b, wires, parts.0);
    AddTargetsReads(b1, wires, l, Split(Trim(parts.1), ' '));
  }

  lemma WiresCons(lines: seq<string>)
    requires |lines| > 0 && ':' in lines[0]
    ensures Wires(lines).Ok? <==> Wires(lines[1..]).Ok?
    ensures Wires(lines).Ok? ==>
              var parts := SplitOnce(lines[0], ':').value;
              Wires(lines).value == Targets(parts.0, Split(Trim(parts.1), ' ')) + Wires(lines[1..]).value
  {
  }

  lemma AppendAssoc(a: seq<Wire>, b: seq<Wire>, c: seq<Wire>)
    ensures a + b + c == a + (b + c)
  {
  }

  /** Reading the lines builds the graph of exactly the wires they list. */
  lemma {:induction false} BuildFromReads(b: Built, wires: seq<Wire>, lines: seq<string>)
    requires Reads(b, wires)
    ensures BuildFrom(b, lines).Ok? <==> Wires(lines).Ok?
    ensures BuildFrom(b, lines).Ok? ==> Reads(BuildFrom(b, lines).value, wires + Wires(lines).value)
    decreases |lines|
  {
    if |lines| == 0 {
      assert wires + [] == wires;
    } else if ':' in lines[0] {
      var parts := SplitOnce(lines[0], ':').value;
      var here := Targets(parts.0, Split(Trim(parts.1), ' '));
      AddLineReads(b, wires, lines[0]);
      BuildFromReads(AddLine(b, lines[0]).value, wires + here, lines[1..]);
      WiresCons(lines);
      if Wires(lines).Ok? {
        AppendAssoc(wires, here, Wires(lines[1..]).value);
      }
    }
  }

  /** The graph `run` builds has, between any two components, as many
      wires as the diagram lists between them in either direction; every
      listed name is a node, and every wire is recorded at both ends. */
  lemma BuildReads(lines: seq<string>)
    ensures Build(lines).Ok? <==> Wires(lines).Ok?
    ensures Build(lines).Ok? ==> Reads(Build(lines).value, Wires(lines).value)
    ensures Build(lines).Ok? ==> Symmetric(Build(lines).value.nodes) && EvenLoops(Build(lines).value.nodes)
  {
    BuildFromReads(Built(EmptyCache, []), [], lines);
    if Build(lines).Ok? {
      assert [] + Wires(lines).value == Wires(lines).value;
      ReadsSymmetric(Build(lines).value, Wires(lines).value);
    }
  }

  lemma ReadsSymmetric(b: Built, wires: seq<Wire>)
    requires Reads(b, wires)
    ensures Symmetric(b.nodes) && EvenLoops(b.nodes)
  {
    forall x, y | 0 <= x < |b.nodes| && 0 <= y < |b.nodes| ensures b.nodes[x][y] == b.nodes[y][x] {
      assert b.nodes[x][y] == Count(wires, b.cache.names[x], b.cache.names[y]) + Count(wires, b.cache.names[y], b.cache.names[x]);
      assert b.nodes[y][x] == Count(wires, b.cache.names[y], b.cache.names[x]) + Count(wires, b.cache.names[x], b.cache.names[y]);
    }
    forall x | 0 <= x < |b.nodes| ensures b.nodes[x][x] % 2 == 0 {
      assert b.nodes[x][x] == 2 * Count(wires, b.cache.names[x], b.cache.names[x]);
    }
  }

  // ---------------------------------------------------------------- answer

  /** Only one cut is the first lightest. */
  lemma FirstMinUnique(cuts: seq<MinCut>, m: MinCut, m': MinCut)
    requires FirstMin(cuts, m) && FirstMin(cuts, m')
    ensures m == m'
  {
    var i: nat :| FirstMinAt(cuts, m, i);
    var i': nat :| FirstMinAt(cuts, m', i');
  }

  /** The product of the sizes of two groups that split `n` components;
      `size <= n`, so the subtraction cannot wrap. */
  function GroupProduct(n: nat, size: nat): nat
    requires size <= n
  {
    size * (n - size)
  }

  /** `a` is the answer for the diagram `lines`: the first lightest
      cut-of-the-phase of the built graph has three wires, and `a` is the
      product of the sizes of the two groups it separates. */
  ghost predicate Answers(lines: seq<string>, phase: Graph -> (nat, nat), a: nat) {
    Build(lines).Ok? && AnswerFor(Build(lines).value.nodes, phase, a)
  }

  ghost predicate AnswerFor(nodes: seq<Adj>, phase: Graph -> (nat, nat), a: nat) {
    var g := NewGraph(nodes);
    && EvenLoops(nodes) && |nodes| >= 2
    && Phases(g, PhaseOf(phase), PhaseCount(g)).Ok?
    && exists c: MinCut :: FirstMin(Phases(g, PhaseOf(phase), PhaseCount(g)).value.1, c)
                         && c.weight == 3 && c.size <= |nodes| && a == GroupProduct(|nodes|, c.size)
  }

  /** With the first lightest cut in hand, the answer is decided: it is the
      product of the group sizes if the cut has three wires, and there is
      none otherwise. */
  lemma AnswerFrom(nodes: seq<Adj>, phase: Graph -> (nat, nat), cut: MinCut)
    requires EvenLoops(nodes) && |nodes| >= 2 && cut.size <= |nodes|
    requires Phases(NewGraph(nodes), PhaseOf(phase), PhaseCount(NewGraph(nodes))).Ok?
    requires FirstMin(Phases(NewGraph(nodes), PhaseOf(phase), PhaseCount(NewGraph(nodes))).value.1, cut)
    ensures cut.weight == 3 ==> AnswerFor(nodes, phase, GroupProduct(|nodes|, cut.size))
    ensures cut.weight != 3 ==> forall a: nat :: !AnswerFor(nodes, phase, a)
  {
    var g := NewGraph(nodes);
    var cuts := Phases(g, PhaseOf(phase), PhaseCount(g)).value.1;
    forall c: MinCut | FirstMin(cuts, c) ensures c == cut {
      FirstMinUnique(cuts, c, cut);
    }
  }

  /** A freshly built graph is well formed. */
  lemma NewGraphWellFormed(nodes: seq<Adj>)
    requires Symmetric(nodes) && InRange(nodes) && EvenLoops(nodes)
    ensures WellFormed(NewGraph(nodes))
  {
    var g := NewGraph(nodes);
    assert forall i :: 0 <= i < |g.active| ==> g.active[i] in g.active;
  }

  /** `run`: build the graph, find the first lightest cut-of-the-phase,
      check that it has three wires, and multiply the group sizes. */
  method Run(lines: seq<string>, phase: Graph -> (nat, nat)) returns (r: Result<nat>)
    ensures Wires(lines).Err? ==> r.Err?
    ensures r.Ok? ==> Answers(lines, phase, r.value)
    ensures r.Err? ==> forall a: nat :: !Answers(lines, phase, a)
  {
    BuildReads(lines);
    var b :- Build(lines);
    var g := NewGraph(b.nodes);
    NewGraphWellFormed(b.nodes);
    NewGraphTotal(b.nodes);
    var found := Calculate(g, phase);
    if found.Err? {
      return Err(found.msg);
    }
    var cut := found.value;
    AnswerFrom(b.nodes, phase, cut);
    if cut.weight != 3 {
      return Err("the smallest cut does not have three wires");
    }
    r := Ok(GroupProduct(|b.nodes|, cut.size));
  }
}
