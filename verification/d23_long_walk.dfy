/** Day 23: the longest hike through the forest (src/d23.rs).

    The map becomes a graph with one node per walkable cell, numbered in
    reading order, and an edge of length 1 per allowed step. Nodes with
    exactly two edges are then bypassed, and a depth-first search finds
    the longest path from the first node to the last that never enters a
    node twice. */
module LongWalk {
  import opened Wrappers
  import Collections

  // ------------------------------------------------------------------ Dirs

  const Up: nat := 0
  const Right: nat := 1
  const Down: nat := 2
  const Left: nat := 3

  /** The four directions a cell allows, indexed by `Up`, `Right`, `Down`
      and `Left`. */
  type Dirs = s: seq<bool> | |s| == 4 witness [false, false, false, false]

  function AllDirs(): (r: Dirs)
    ensures forall d :: 0 <= d < 4 ==> r[d]
  {
    [true, true, true, true]
  }

  function NoDirs(): (r: Dirs)
    ensures forall d :: 0 <= d < 4 ==> !r[d]
  {
    [false, false, false, false]
  }

  /** `Dirs::with`: the same directions plus `d`. */
  function With(ds: Dirs, d: nat): (r: Dirs)
    requires d < 4
    ensures forall k :: 0 <= k < 4 ==> (r[k] <==> k == d || ds[k])
  {
    ds[d := true]
  }

  /** The offset of one step in direction `d`; `y` grows downwards. */
  function Offset(d: nat): (int, int)
    requires d < 4
  {
    if d == Up then (0, -1) else if d == Right then (1, 0) else if d == Down then (0, 1) else (-1, 0)
  }

  function Neighbour(x: int, y: int, d: nat): (int, int)
    requires d < 4
  {
    (x + Offset(d).0, y + Offset(d).1)
  }

  // ------------------------------------------------------------ from_lines

  predicate Known(c: char) {
    c == '#' || c == '.' || c == '^' || c == '>' || c == 'v' || c == '<'
  }

  /** The direction a slope points in. */
  function Arrow(c: char): Option<nat> {
    if c == '^' then Some(Up)
    else if c == '>' then Some(Right)
    else if c == 'v' then Some(Down)
    else if c == '<' then Some(Left)
    else None
  }

  /** A step in direction `d` out of a cell showing `c` is allowed by the
      cell itself: never out of a wall, in any direction out of a path, and
      out of a slope only downhill unless slopes are ignored. */
  predicate Allowed(c: char, d: nat, ignoreSlopes: bool) {
    c != '#' && (c == '.' || ignoreSlopes || Arrow(c) == Some(d))
  }

  /** Step 1 of `from_lines`: the directions a cell allows by itself. */
  function CellMoves(c: char, ignoreSlopes: bool): (r: Result<Dirs>)
    ensures r.Ok? <==> Known(c)
    ensures r.Ok? ==> forall d :: 0 <= d < 4 ==> (r.value[d] <==> Allowed(c, d, ignoreSlopes))
  {
    if c == '#' then Ok(NoDirs())
    else if c == '.' then Ok(AllDirs())
    else if Arrow(c).Some? then
      if ignoreSlopes then Ok(AllDirs()) else Ok(With(NoDirs(), Arrow(c).value))
    else Err("unknown character")
  }

  /** Every line is at least `width` long. */
  predicate Wide(lines: seq<string>, width: nat) {
    forall y :: 0 <= y < |lines| ==> |lines[y]| >= width
  }

  /** The cell at `(x, y)` is inside the `width` columns and is a wall. */
  predicate Wall(lines: seq<string>, width: nat, p: (int, int))
    requires Wide(lines, width)
  {
    0 <= p.1 < |lines| && 0 <= p.0 < width && lines[p.1][p.0] == '#'
  }

  /** One cell's directions (both steps of the loop body in `from_lines`):
      what the cell allows, minus every step into a wall. */
  function CellDirs(lines: seq<string>, width: nat, x: nat, y: nat, ignoreSlopes: bool): (r: Dirs)
    requires Wide(lines, width) && y < |lines| && x < width && Known(lines[y][x])
    ensures forall d :: 0 <= d < 4 ==>
              (r[d] <==> Allowed(lines[y][x], d, ignoreSlopes) && !Wall(lines, width, Neighbour(x, y, d)))
  {
    var e := CellMoves(lines[y][x], ignoreSlopes).value;
    var up := y > 0 && lines[y - 1][x] == '#';
    var left := x > 0 && lines[y][x - 1] == '#';
    var down := y < |lines| - 1 && lines[y + 1][x] == '#';
    var right := x < width - 1 && lines[y][x + 1] == '#';
    WallSides(lines, width, x, y);
    Prune(Prune(Prune(Prune(e, Up, up), Left, left), Down, down), Right, right)
  }

  /** The four neighbour tests of `from_lines` are the wall tests. */
  lemma WallSides(lines: seq<string>, width: nat, x: nat, y: nat)
    requires Wide(lines, width) && y < |lines| && x < width
    ensures (y > 0 && lines[y - 1][x] == '#') == Wall(lines, width, Neighbour(x, y, Up))
    ensures (x > 0 && lines[y][x - 1] == '#') == Wall(lines, width, Neighbour(x, y, Left))
    ensures (y < |lines| - 1 && lines[y + 1][x] == '#') == Wall(lines, width, Neighbour(x, y, Down))
    ensures (x < width - 1 && lines[y][x + 1] == '#') == Wall(lines, width, Neighbour(x, y, Right))
  {
  }

  /** Direction `d` closed when the neighbour that way is a wall. */
  function Prune(e: Dirs, d: nat, wall: bool): (r: Dirs)
    requires d < 4
    ensures forall k :: 0 <= k < 4 ==> (r[k] <==> e[k] && !(k == d && wall))
  {
    if e[d] && wall then e[d := false] else e
  }

  /** The grid of directions, one row per line. */
  datatype BasicGraph = BasicGraph(width: nat, height: nat, edges: seq<seq<Dirs>>)

  predicate Shaped(bg: BasicGraph) {
    |bg.edges| == bg.height && forall y :: 0 <= y < bg.height ==> |bg.edges[y]| == bg.width
  }

  /** `BasicGraph::from_lines`: the width is that of the first line; a
      missing first line, a line shorter than that or an unknown character
      among the first `width` of a line is an error. */
  function FromLines(lines: seq<string>, ignoreSlopes: bool): (r: Result<BasicGraph>)
    ensures r.Ok? <==> |lines| > 0 && Wide(lines, |lines[0]|)
                       && forall y, x :: 0 <= y < |lines| && 0 <= x < |lines[0]| ==> Known(lines[y][x])
    ensures r.Ok? ==> Shaped(r.value) && r.value.width == |lines[0]| && r.value.height == |lines|
    ensures r.Ok? ==> forall y, x, d :: 0 <= y < |lines| && 0 <= x < |lines[0]| && 0 <= d < 4 ==>
                        (r.value.edges[y][x][d] <==> (Allowed(lines[y][x], d, ignoreSlopes)
                                                     && !Wall(lines, |lines[0]|, Neighbour(x, y, d))))
  {
    if |lines| == 0 then Err("no lines")
    else
      var w := |lines[0]|;
      if !Wide(lines, w) then Err("line too short")
      else if exists y, x :: 0 <= y < |lines| && 0 <= x < w && !Known(lines[y][x]) then Err("unknown character")
      else
        Ok(BasicGraph(w, |lines|, seq(|lines|, y requires 0 <= y < |lines| =>
                                        seq(w, x requires 0 <= x < w => CellDirs(lines, w, x, y, ignoreSlopes)))))
  }

  // ------------------------------------------------------ as_compact_graph

  type Pos = (nat, nat)

  predicate IsNode(bg: BasicGraph, p: Pos)
    requires Shaped(bg)
  {
    p.1 < bg.height && p.0 < bg.width && bg.edges[p.1][p.0] != NoDirs()
  }

  /** `p` comes before `q` in reading order. */
  predicate Earlier(p: Pos, q: Pos) {
    p.1 < q.1 || (p.1 == q.1 && p.0 < q.0)
  }

  predicate Increasing(ps: seq<Pos>) {
    forall i, j :: 0 <= i < j < |ps| ==> Earlier(ps[i], ps[j])
  }

  /** The cells of row `y` from column `x` on that have a move. */
  function RowNodes(bg: BasicGraph, y: nat, x: nat): (r: seq<Pos>)
    requires Shaped(bg) && y < bg.height && x <= bg.width
    ensures forall p :: p in r <==> p.1 == y && x <= p.0 && IsNode(bg, p)
    ensures Increasing(r)
    decreases bg.width - x
  {
    if x == bg.width then []
    else
      var rest := RowNodes(bg, y, x + 1);
      if IsNode(bg, (x, y)) then [(x, y)] + rest else rest
  }

  lemma IncreasingAppend(a: seq<Pos>, b: seq<Pos>)
    requires Increasing(a) && Increasing(b)
    requires forall p, q :: p in a && q in b ==> Earlier(p, q)
    ensures Increasing(a + b)
  {
    forall i, j | 0 <= i < j < |a + b| ensures Earlier((a + b)[i], (a + b)[j]) {
      if j < |a| {
      } else if i >= |a| {
        assert (a + b)[i] == b[i - |a|] && (a + b)[j] == b[j - |a|];
      } else {
        assert (a + b)[i] in a && (a + b)[j] in b;
      }
    }
  }

  /** The cells with a move in rows `y` on, in reading order. */
  function NodesFrom(bg: BasicGraph, y: nat): (r: seq<Pos>)
    requires Shaped(bg) && y <= bg.height
    ensures forall p :: p in r <==> y <= p.1 && IsNode(bg, p)
    ensures Increasing(r)
    decreases bg.height - y
  {
    if y == bg.height then []
    else
      var row := RowNodes(bg, y, 0);
      var rest := NodesFrom(bg, y + 1);
      IncreasingAppend(row, rest);
      row + rest
  }

  /** The node numbering of `as_compact_graph`: the cells with at least one
      move, in reading order. */
  function Positions(bg: BasicGraph): (r: seq<Pos>)
    requires Shaped(bg)
    ensures forall p :: p in r <==> IsNode(bg, p)
    ensures Increasing(r)
  {
    NodesFrom(bg, 0)
  }

  /** `node_indices`: the number of the node at `p`, or 0 for a cell that
      is not a node. */
  function NodeIndex(ps: seq<Pos>, p: Pos): (r: nat)
    ensures p in ps ==> r < |ps| && ps[r] == p
    ensures p !in ps ==> r == 0
  {
    if |ps| == 0 then 0
    else if ps[0] == p then 0
    else if p in ps[1..] then 1 + NodeIndex(ps[1..], p)
    else 0
  }

  /** A node's number is the count of nodes before it in reading order. */
  lemma NodeIndexCounts(ps: seq<Pos>, p: Pos)
    requires Increasing(ps) && p in ps
    ensures forall i :: 0 <= i < |ps| ==> (i < NodeIndex(ps, p) <==> Earlier(ps[i], p))
  {
    var k := NodeIndex(ps, p);
    forall i | 0 <= i < |ps| ensures i < k <==> Earlier(ps[i], p) {
      if i > k {
        assert Earlier(ps[k], ps[i]);
      }
    }
  }

  /** One edge of the compact graph: the node it leads to and its length. */
  type Edge = (nat, nat)

  datatype Node = Node(edges: seq<Edge>)

  type Graph = seq<Node>

  predicate InGrid(bg: BasicGraph, p: (int, int)) {
    0 <= p.0 < bg.width && 0 <= p.1 < bg.height
  }

  /** The edges of the node at `(x, y)` for the directions from `d` on:
      one of length 1 per allowed direction whose neighbour is in the grid. */
  function EdgesFrom(bg: BasicGraph, ps: seq<Pos>, x: nat, y: nat, d: nat): (r: seq<Edge>)
    requires Shaped(bg) && y < bg.height && x < bg.width && d <= 4
    ensures |r| <= 4 - d
    ensures forall i :: 0 <= i < |r| ==> r[i].1 == 1
    ensures forall i :: 0 <= i < |r| ==> Leads(bg, ps, x, y, d, r[i].0)
    decreases 4 - d
  {
    if d == 4 then []
    else
      var n := Neighbour(x, y, d);
      var rest := EdgesFrom(bg, ps, x, y, d + 1);
      assert forall t :: Leads(bg, ps, x, y, d + 1, t) ==> Leads(bg, ps, x, y, d, t);
      if bg.edges[y][x][d] && InGrid(bg, n) then
        assert Towards(bg, ps, x, y, d, NodeIndex(ps, (n.0 as nat, n.1 as nat)));
        assert Leads(bg, ps, x, y, d, NodeIndex(ps, (n.0 as nat, n.1 as nat)));
        [(NodeIndex(ps, (n.0 as nat, n.1 as nat)), 1)] + rest
      else rest
  }

  /** Some direction from `d` on leads to node `t`. */
  predicate Leads(bg: BasicGraph, ps: seq<Pos>, x: nat, y: nat, d: nat, t: nat)
    requires Shaped(bg) && y < bg.height && x < bg.width
  {
    exists k :: d <= k < 4 && Towards(bg, ps, x, y, k, t)
  }

  /** The cell at `(x, y)` allows direction `k`, whose neighbour is in the
      grid and has number `t` (0 for a neighbour without moves). */
  predicate Towards(bg: BasicGraph, ps: seq<Pos>, x: nat, y: nat, k: nat, t: nat)
    requires Shaped(bg) && y < bg.height && x < bg.width && k < 4
  {
    var n := Neighbour(x, y, k);
    bg.edges[y][x][k] && InGrid(bg, n) && t == NodeIndex(ps, (n.0 as nat, n.1 as nat))
  }

  /** Every edge leads to an existing node and no node has more than its
      four edge slots. */
  predicate WellFormed(g: Graph) {
    forall k :: 0 <= k < |g| ==> |g[k].edges| <= 4 && forall i :: 0 <= i < |g[k].edges| ==> g[k].edges[i].0 < |g|
  }

  /** The graph before simplification: one node per position, with an edge
      per allowed in-grid step. */
  function RawGraph(bg: BasicGraph): (g: Graph)
    requires Shaped(bg)
    ensures |g| == |Positions(bg)|
    ensures WellFormed(g)
    ensures forall k :: 0 <= k < |g| ==> g[k].edges == EdgesFrom(bg, Positions(bg), Positions(bg)[k].0, Positions(bg)[k].1, 0)
  {
    var ps := Positions(bg);
    seq(|ps|, k requires 0 <= k < |ps| => Node(EdgesFrom(bg, ps, ps[k].0, ps[k].1, 0)))
  }

  /** Every edge of the raw graph is a unit step the cell allows, into the
      grid, and leads to the node at that neighbour when it is a node. */
  lemma RawEdges(bg: BasicGraph, k: nat, i: nat)
    requires Shaped(bg) && k < |Positions(bg)|
    requires i < |RawGraph(bg)[k].edges|
    ensures var p := Positions(bg)[k]; var e := RawGraph(bg)[k].edges[i];
            e.1 == 1
            && exists d :: 0 <= d < 4 && bg.edges[p.1][p.0][d] && InGrid(bg, Neighbour(p.0, p.1, d))
                           && (IsNode(bg, (Neighbour(p.0, p.1, d).0 as nat, Neighbour(p.0, p.1, d).1 as nat))
                               ==> Positions(bg)[e.0] == (Neighbour(p.0, p.1, d).0 as nat, Neighbour(p.0, p.1, d).1 as nat))
  {
    var ps := Positions(bg);
    var p := ps[k];
    var e := RawGraph(bg)[k].edges[i];
    var d :| 0 <= d < 4 && Towards(bg, ps, p.0, p.1, d, e.0);
  }

  // ------------------------------------------------------------ simplified

  /** Each edge to `j` replaced by `e`. */
  function Redirect(es: seq<Edge>, j: nat, e: Edge): (r: seq<Edge>)
    ensures |r| == |es|
    ensures forall i :: 0 <= i < |es| ==> r[i] == if es[i].0 == j then e else es[i]
  {
    if |es| == 0 then [] else [if es[0].0 == j then e else es[0]] + Redirect(es[1..], j, e)
  }

  /** One step of `simplified`: node `j`, with exactly two edges, to `n1`
      and `n2`, is taken out; `n1`'s edges to it now lead to `n2` and
      `n2`'s to `n1`, each with the two lengths added. */
  function Bypass(g: Graph, j: nat): (r: Graph)
    requires WellFormed(g) && j < |g| && |g[j].edges| == 2
    ensures |r| == |g| && WellFormed(r)
    ensures r[j].edges == []
    ensures forall k :: 0 <= k < |g| && k != j ==> |r[k].edges| == |g[k].edges|
    ensures var (n1, d1) := g[j].edges[0]; var (n2, d2) := g[j].edges[1];
            forall k, i :: 0 <= k < |g| && k != j && 0 <= i < |g[k].edges| ==>
              r[k].edges[i] == if g[k].edges[i].0 != j then g[k].edges[i]
                               else if k == n1 then (n2, d1 + d2)
                               else if k == n2 then (n1, d1 + d2)
                               else g[k].edges[i]
  {
    var (n1, d1) := g[j].edges[0];
    var (n2, d2) := g[j].edges[1];
    var g1 := g[j := Node([])];
    var g2 := RedirectAt(g1, n1, j, (n2, d1 + d2));
    RedirectAt(g2, n2, j, (n1, d1 + d2))
  }

  /** Node `k`'s edges to `j` replaced by `e`, which leads to a node. */
  function RedirectAt(g: Graph, k: nat, j: nat, e: Edge): (r: Graph)
    requires WellFormed(g) && k < |g| && e.0 < |g|
    ensures |r| == |g| && WellFormed(r)
    ensures forall m :: 0 <= m < |g| && m != k ==> r[m] == g[m]
    ensures r[k].edges == Redirect(g[k].edges, j, e)
  {
    g[k := Node(Redirect(g[k].edges, j, e))]
  }

  /** `Graph::simplified` from node `j` on: every node that has exactly two
      edges when its turn comes is bypassed. A node's edge count only
      changes on its own turn, so the nodes that go are exactly those that
      started with two edges, and the others keep their count. */
  function Simplify(g: Graph, j: nat): (r: Graph)
    requires WellFormed(g) && j <= |g|
    ensures |r| == |g| && WellFormed(r)
    ensures forall k :: 0 <= k < j ==> |r[k].edges| == |g[k].edges|
    ensures forall k :: j <= k < |g| ==> |r[k].edges| == if |g[k].edges| == 2 then 0 else |g[k].edges|
    decreases |g| - j
  {
    if j == |g| then g
    else if |g[j].edges| == 2 then Simplify(Bypass(g, j), j + 1)
    else Simplify(g, j + 1)
  }

  /** `as_compact_graph`: the raw graph, simplified. */
  function Compact(bg: BasicGraph): (g: Graph)
    requires Shaped(bg)
    ensures |g| == |Positions(bg)| && WellFormed(g)
  {
    Simplify(RawGraph(bg), 0)
  }

  // ----------------------------------------------------- find_longest_path

  /** The longest path from `src` to `dst` that enters no node of
      `visited` and no node twice (`find_longest_path`). The search stops
      as soon as it stands on `dst`. Passing the set down each call plays
      the part of marking a node and clearing the mark on return. */
  function Longest(g: Graph, visited: set<nat>, src: nat, dst: nat): (r: Option<nat>)
    requires WellFormed(g) && src < |g|
    ensures src != dst && (forall k :: 0 <= k < |g[src].edges| ==> g[src].edges[k].0 in visited) ==> r.None?
    decreases Collections.Indices(|g|) - visited, 1, 0
  {
    if src == dst then Some(0) else BestFrom(g, visited, src, dst, 0, None)
  }

  /** The loop over `src`'s edges from slot `i` on, with the best length
      found so far. */
  function BestFrom(g: Graph, visited: set<nat>, src: nat, dst: nat, i: nat, best: Option<nat>): (r: Option<nat>)
    requires WellFormed(g) && src < |g| && i <= |g[src].edges|
    ensures best.Some? ==> r.Some? && best.value <= r.value
    ensures (forall k :: i <= k < |g[src].edges| ==> g[src].edges[k].0 in visited) ==> r == best
    decreases Collections.Indices(|g|) - visited, 0, |g[src].edges| - i
  {
    if i == |g[src].edges| then best
    else
      var (nb, d) := g[src].edges[i];
      if nb in visited then BestFrom(g, visited, src, dst, i + 1, best)
      else
        assert Collections.Indices(|g|) - (visited + {nb}) < Collections.Indices(|g|) - visited by {
          assert nb in Collections.Indices(|g|) - visited;
        }
        match Longest(g, visited + {nb}, nb, dst)
        case None => BestFrom(g, visited, src, dst, i + 1, best)
        case Some(res) =>
          var better := if best.None? || best.value < res + d then Some(res + d) else best;
          BestFrom(g, visited, src, dst, i + 1, better)
  }

  /** A path, written as the edge slot taken at each node, that starts at
      `src`, enters only fresh nodes outside `visited`, and ends the first
      time it reaches `dst`. */
  predicate PathOk(g: Graph, visited: set<nat>, src: nat, dst: nat, ks: seq<nat>)
    decreases |ks|
  {
    if |ks| == 0 then src == dst
    else
      src != dst && src < |g| && ks[0] < |g[src].edges|
      && g[src].edges[ks[0]].0 !in visited
      && PathOk(g, visited + {g[src].edges[ks[0]].0}, g[src].edges[ks[0]].0, dst, ks[1..])
  }

  /** The total length of the edges a path takes. */
  function Weight(g: Graph, src: nat, ks: seq<nat>): nat
    decreases |ks|
  {
    if |ks| == 0 || src >= |g| || ks[0] >= |g[src].edges| then 0
    else g[src].edges[ks[0]].1 + Weight(g, g[src].edges[ks[0]].0, ks[1..])
  }

  /** Some path has length `m`. */
  ghost predicate Achieved(g: Graph, visited: set<nat>, src: nat, dst: nat, m: nat) {
    exists ks :: PathOk(g, visited, src, dst, ks) && Weight(g, src, ks) == m
  }

  /** Some path whose first slot is at least `i` has length `m`. */
  ghost predicate AchievedFrom(g: Graph, visited: set<nat>, src: nat, dst: nat, i: nat, m: nat) {
    exists ks :: PathOk(g, visited, src, dst, ks) && |ks| > 0 && ks[0] >= i && Weight(g, src, ks) == m
  }

  /** A path that starts with slot `k` is that edge followed by a path from
      its end. */
  lemma PathCons(g: Graph, visited: set<nat>, src: nat, dst: nat, k: nat, rest: seq<nat>)
    requires src < |g| && src != dst && k < |g[src].edges|
    ensures var nb := g[src].edges[k].0;
            PathOk(g, visited, src, dst, [k] + rest) <==> nb !in visited && PathOk(g, visited + {nb}, nb, dst, rest)
    ensures Weight(g, src, [k] + rest) == g[src].edges[k].1 + Weight(g, g[src].edges[k].0, rest)
  {
    assert ([k] + rest)[1..] == rest;
  }

  /** Every path from `src` to `dst` has a length of at most `r`'s value. */
  ghost predicate Bounded(g: Graph, visited: set<nat>, src: nat, dst: nat, r: Option<nat>) {
    forall ks :: PathOk(g, visited, src, dst, ks) ==> r.Some? && Weight(g, src, ks) <= r.value
  }

  /** The same for the paths whose first slot is at least `i`. */
  ghost predicate Covers(g: Graph, visited: set<nat>, src: nat, dst: nat, i: nat, r: Option<nat>) {
    forall ks :: PathOk(g, visited, src, dst, ks) && |ks| > 0 && ks[0] >= i ==> r.Some? && Weight(g, src, ks) <= r.value
  }

  /** What the loop over the edge slots keeps: it never forgets the best
      so far, what it returns is that or the length of a path through the
      slots it looked at, and no such path is longer. */
  ghost predicate LoopOk(g: Graph, visited: set<nat>, src: nat, dst: nat, i: nat, best: Option<nat>, r: Option<nat>) {
    (best.Some? ==> r.Some? && r.value >= best.value)
    && (r.Some? ==> r == best || AchievedFrom(g, visited, src, dst, i, r.value))
    && Covers(g, visited, src, dst, i, r)
  }

  /** `find_longest_path` finds a path exactly when there is one, and then
      one of the greatest length. */
  lemma {:induction false} LongestSpec(g: Graph, visited: set<nat>, src: nat, dst: nat)
    requires WellFormed(g) && src < |g|
    ensures Longest(g, visited, src, dst).Some? ==> Achieved(g, visited, src, dst, Longest(g, visited, src, dst).value)
    ensures Bounded(g, visited, src, dst, Longest(g, visited, src, dst))
    decreases Collections.Indices(|g|) - visited, 1, 0, 0
  {
    var r := Longest(g, visited, src, dst);
    if src == dst {
      assert PathOk(g, visited, src, dst, []);
      forall ks | PathOk(g, visited, src, dst, ks) ensures Weight(g, src, ks) <= 0 {
        assert |ks| == 0;
      }
    } else {
      BestSpec(g, visited, src, dst, 0, None);
      forall ks | PathOk(g, visited, src, dst, ks) ensures r.Some? && Weight(g, src, ks) <= r.value {
        assert |ks| > 0;
      }
      if r.Some? {
        var ks :| PathOk(g, visited, src, dst, ks) && |ks| > 0 && ks[0] >= 0 && Weight(g, src, ks) == r.value;
      }
    }
  }

  /** The loop keeps `LoopOk` from slot `i` on. */
  lemma {:induction false} BestSpec(g: Graph, visited: set<nat>, src: nat, dst: nat, i: nat, best: Option<nat>)
    requires WellFormed(g) && src < |g| && i <= |g[src].edges| && src != dst
    ensures LoopOk(g, visited, src, dst, i, best, BestFrom(g, visited, src, dst, i, best))
    decreases Collections.Indices(|g|) - visited, 0, |g[src].edges| - i, 1
  {
    if i < |g[src].edges| {
      var nb := g[src].edges[i].0;
      var r := BestFrom(g, visited, src, dst, i, best);
      if nb in visited {
        BestSpec(g, visited, src, dst, i + 1, best);
        SkipVisited(g, visited, src, dst, i, r);
        if r.Some? && r != best {
          NarrowFrom(g, visited, src, dst, i, r);
        }
      } else {
        assert Collections.Indices(|g|) - (visited + {nb}) < Collections.Indices(|g|) - visited by {
          assert nb in Collections.Indices(|g|) - visited;
        }
        LongestSpec(g, visited + {nb}, nb, dst);
        BestStep(g, visited, src, dst, i, best);
      }
    }
  }

  /** A slot leading to a visited node starts no path. */
  lemma SkipVisited(g: Graph, visited: set<nat>, src: nat, dst: nat, i: nat, r: Option<nat>)
    requires src < |g| && src != dst && i < |g[src].edges| && g[src].edges[i].0 in visited
    requires Covers(g, visited, src, dst, i + 1, r)
    ensures Covers(g, visited, src, dst, i, r)
  {
    assert forall ks | PathOk(g, visited, src, dst, ks) && |ks| > 0 && ks[0] >= i :: ks[0] >= i + 1;
  }

  /** A path found from slot `i + 1` on is one from slot `i` on. */
  lemma NarrowFrom(g: Graph, visited: set<nat>, src: nat, dst: nat, i: nat, r: Option<nat>)
    requires r.Some? && AchievedFrom(g, visited, src, dst, i + 1, r.value)
    ensures AchievedFrom(g, visited, src, dst, i, r.value)
  {
  }

  /** Taking slot `i` and then a path from its end is a path from slot `i` on. */
  lemma TakeSlot(g: Graph, visited: set<nat>, src: nat, dst: nat, i: nat, m: nat)
    requires src < |g| && src != dst && i < |g[src].edges| && g[src].edges[i].0 !in visited
    requires Achieved(g, visited + {g[src].edges[i].0}, g[src].edges[i].0, dst, m)
    ensures AchievedFrom(g, visited, src, dst, i, g[src].edges[i].1 + m)
  {
    var nb := g[src].edges[i].0;
    var ks :| PathOk(g, visited + {nb}, nb, dst, ks) && Weight(g, nb, ks) == m;
    PathCons(g, visited, src, dst, i, ks);
  }

  /** Paths through slot `i` are no longer than its edge plus the longest
      path from its end. */
  lemma TakeCover(g: Graph, visited: set<nat>, src: nat, dst: nat, i: nat, l: Option<nat>, r: Option<nat>)
    requires src < |g| && src != dst && i < |g[src].edges| && g[src].edges[i].0 !in visited
    requires Bounded(g, visited + {g[src].edges[i].0}, g[src].edges[i].0, dst, l)
    requires l.Some? ==> r.Some? && r.value >= l.value + g[src].edges[i].1
    requires Covers(g, visited, src, dst, i + 1, r)
    ensures Covers(g, visited, src, dst, i, r)
  {
    forall ks | PathOk(g, visited, src, dst, ks) && |ks| > 0 && ks[0] >= i ensures r.Some? && Weight(g, src, ks) <= r.value {
      if ks[0] == i {
        assert ks == [ks[0]] + ks[1..];
        PathCons(g, visited, src, dst, i, ks[1..]);
      }
    }
  }

  /** The loop step at an unvisited neighbour. */
  lemma {:induction false} BestStep(g: Graph, visited: set<nat>, src: nat, dst: nat, i: nat, best: Option<nat>)
    requires WellFormed(g) && src < |g| && i < |g[src].edges| && src != dst
    requires g[src].edges[i].0 !in visited
    requires var nb := g[src].edges[i].0;
             var l := Longest(g, visited + {nb}, nb, dst);
             (l.Some? ==> Achieved(g, visited + {nb}, nb, dst, l.value)) && Bounded(g, visited + {nb}, nb, dst, l)
    ensures LoopOk(g, visited, src, dst, i, best, BestFrom(g, visited, src, dst, i, best))
    decreases Collections.Indices(|g|) - visited, 0, |g[src].edges| - i, 0
  {
    var (nb, d) := g[src].edges[i];
    var l := Longest(g, visited + {nb}, nb, dst);
    var better := if l.None? then best
                  else if best.None? || best.value < l.value + d then Some(l.value + d) else best;
    assert BestFrom(g, visited, src, dst, i, best) == BestFrom(g, visited, src, dst, i + 1, better);
    BestSpec(g, visited, src, dst, i + 1, better);
    var r := BestFrom(g, visited, src, dst, i, best);
    if l.Some? {
      TakeSlot(g, visited, src, dst, i, l.value);
    }
    if r.Some? && r != best && r != better {
      NarrowFrom(g, visited, src, dst, i, r);
    }
    TakeCover(g, visited, src, dst, i, l, r);
  }

  /** Some path leads from `src` to `dst`. */
  ghost predicate Connected(g: Graph, visited: set<nat>, src: nat, dst: nat) {
    exists ks :: PathOk(g, visited, src, dst, ks)
  }

  /** `run`: build the graph, then the longest path from the first node
      (the top-left-most walkable cell) to the last. A graph without
      nodes, or no path at all, is an error. */
  function Run(lines: seq<string>, ignoreSlopes: bool): (r: Result<nat>)
    ensures r.Ok? ==> FromLines(lines, ignoreSlopes).Ok?
    ensures r.Ok? ==> var g := Compact(FromLines(lines, ignoreSlopes).value);
                      |g| > 0 && Achieved(g, {}, 0, |g| - 1, r.value) && Bounded(g, {}, 0, |g| - 1, Some(r.value))
    ensures r.Err? && FromLines(lines, ignoreSlopes).Ok? && |Compact(FromLines(lines, ignoreSlopes).value)| > 0
            ==> var g := Compact(FromLines(lines, ignoreSlopes).value);
                !Connected(g, {}, 0, |g| - 1)
  {
    var bg :- FromLines(lines, ignoreSlopes);
    var g := Compact(bg);
    if |g| == 0 then Err("no nodes")
    else
      LongestSpec(g, {}, 0, |g| - 1);
      OkOr(Longest(g, {}, 0, |g| - 1), "no path")
  }
}
