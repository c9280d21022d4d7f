/**
 The neighbourhood query: a breadth-first walk over the link graph, following links
 forwards from a node's own document and backwards by scanning the manifest, with one
 scan budget shared by the whole traversal and one cap on recorded edges.
 */
module GraphWalk {
  import opened Basics

  /** The links of every node document that is there and decodes. */
  type Graph = map<Id, seq<Id>>

  type Edge = (Id, Id)

  function LinksFrom(g: Graph, n: Id): seq<Id> {
    if n in g then g[n] else []
  }

  predicate LinksTo(g: Graph, src: Id, n: Id) {
    src != n && n in LinksFrom(g, src)
  }

  /** The candidates that link to `n`, in candidate order. */
  function Backlinks(g: Graph, n: Id, candidates: seq<Id>): (out: seq<Id>)
    ensures forall x :: x in out <==> x in candidates && LinksTo(g, x, n)
  {
    if candidates == [] then []
    else
      var last := candidates[|candidates| - 1];
      assert candidates == candidates[..|candidates| - 1] + [last];
      Backlinks(g, n, candidates[..|candidates| - 1]) + (if LinksTo(g, last, n) then [last] else [])
  }

  /** Scan candidates for backlinks, up to a limit; `examined` counts the ones looked at. */
  method LinksToNode(g: Graph, n: Id, candidates: seq<Id>, limit: nat)
    returns (out: seq<Id>, truncated: bool, ghost examined: nat)
    ensures examined == Min(|candidates|, limit)
    ensures out == Backlinks(g, n, candidates[..examined])
    ensures truncated <==> |candidates| > limit
  {
    hide Backlinks, LinksFrom;
    BacklinksStart(g, n, candidates);
    out, truncated, examined := [], false, 0;
    for scanned := 0 to |candidates|
      invariant scanned <= limit
      invariant examined == scanned && !truncated
      invariant out == Backlinks(g, n, candidates[..scanned])
    {
      if scanned >= limit {
        truncated := true;
        break;
      }
      var id := candidates[scanned];
      BacklinksStep(g, n, candidates, scanned);
      if id != n && n in LinksFrom(g, id) {
        out := out + [id];
      }
      examined := examined + 1;
    }
  }

  lemma BacklinksStart(g: Graph, n: Id, candidates: seq<Id>)
    ensures Backlinks(g, n, candidates[..0]) == []
    ensures candidates[..|candidates|] == candidates
  {
  }

  lemma BacklinksStep(g: Graph, n: Id, candidates: seq<Id>, i: nat)
    requires i < |candidates|
    ensures Backlinks(g, n, candidates[..i + 1])
         == Backlinks(g, n, candidates[..i]) + (if LinksTo(g, candidates[i], n) then [candidates[i]] else [])
  {
    assert candidates[..i + 1][..i] == candidates[..i];
  }

  // ---- The reference ----

  /** Everything one hop away from `x`. */
  function Neighbours(g: Graph, candidates: seq<Id>, x: Id): set<Id> {
    (set y | y in LinksFrom(g, x)) + (set y | y in candidates && LinksTo(g, y, x))
  }

  function Hop(g: Graph, candidates: seq<Id>, from: set<Id>): set<Id> {
    set x, y | x in from && y in Neighbours(g, candidates, x) :: y
  }

  /** The nodes within `k` hops of the root. */
  function Ball(g: Graph, candidates: seq<Id>, root: Id, k: nat): set<Id> {
    if k == 0 then {root}
    else Ball(g, candidates, root, k - 1) + Hop(g, candidates, Ball(g, candidates, root, k - 1))
  }

  /** The edges recorded when `x` is expanded without truncation. */
  function EdgesOf(g: Graph, candidates: seq<Id>, x: Id): seq<Edge> {
    Edges(x, LinksFrom(g, x), true) + Edges(x, Backlinks(g, x, candidates), false)
  }

  function Edges(x: Id, others: seq<Id>, forward: bool): (out: seq<Edge>)
    ensures |out| == |others|
  {
    seq(|others|, i requires 0 <= i < |others| => if forward then (x, others[i]) else (others[i], x))
  }

  function AllEdges(g: Graph, candidates: seq<Id>, order: seq<Id>): seq<Edge> {
    if order == [] then []
    else AllEdges(g, candidates, order[..|order| - 1]) + EdgesOf(g, candidates, order[|order| - 1])
  }

  predicate Real(g: Graph, e: Edge) {
    e.1 in LinksFrom(g, e.0)
  }

  ghost function Elems(s: seq<Id>): set<Id> {
    set x | x in s
  }

  ghost predicate Distinct(s: seq<Id>) {
    forall i, j :: 0 <= i < j < |s| ==> s[i] != s[j]
  }

  // ---- The walk ----

  /** What the walk carries between nodes. */
  datatype Walk = Walk(seen: set<Id>, next: seq<Id>, edges: seq<Edge>, truncated: bool)

  /** Record edges between `x` and `others` until the edge cap is reached. */
  method Record(w: Walk, x: Id, others: seq<Id>, forward: bool, cap: nat) returns (w': Walk)
    requires |w.edges| <= cap
    requires Distinct(w.next) && Elems(w.next) <= w.seen
    ensures var k := Min(|others|, cap - |w.edges|);
            && w'.edges == w.edges + Edges(x, others[..k], forward)
            && w'.seen == w.seen + Elems(others[..k])
            && Distinct(w'.next) && Elems(w'.next) == Elems(w.next) + (w'.seen - w.seen)
            && w'.truncated == (w.truncated || k < |others|)
  {
    var seen, next, edges, truncated := w.seen, w.next, w.edges, w.truncated;
    var i := 0;
    while i < |others|
      invariant 0 <= i <= Min(|others|, cap - |w.edges|)
      invariant edges == w.edges + Edges(x, others[..i], forward)
      invariant seen == w.seen + Elems(others[..i])
      invariant Distinct(next) && Elems(next) == Elems(w.next) + (seen - w.seen)
      invariant truncated == w.truncated
    {
      if |edges| >= cap {
        return Walk(seen, next, edges, true);
      }
      var other := others[i];
      assert Edges(x, others[..i + 1], forward)
          == Edges(x, others[..i], forward) + [if forward then (x, other) else (other, x)];
      edges := edges + [if forward then (x, other) else (other, x)];
      assert Elems(others[..i + 1]) == Elems(others[..i]) + {other};
      if other !in seen {
        assert other !in Elems(next);
        assert Elems(next + [other]) == Elems(next) + {other};
        seen := seen + {other};
        next := next + [other];
      }
      i := i + 1;
    }
    assert others[..|others|] == others;
    w' := Walk(seen, next, edges, truncated);
  }

  /** Expand one node: its own links, then a budgeted backlink scan. */
  method Expand(g: Graph, candidates: seq<Id>, w: Walk, x: Id, cap: nat, budget: nat)
    returns (w': Walk, budget': nat, ghost examined: nat)
    requires |w.edges| <= cap
    requires Distinct(w.next) && Elems(w.next) <= w.seen
    requires forall e :: e in w.edges ==> Real(g, e)
    ensures |w'.edges| <= cap && Distinct(w'.next)
    ensures Elems(w'.next) == Elems(w.next) + (w'.seen - w.seen)
    ensures w.seen <= w'.seen <= w.seen + Neighbours(g, candidates, x)
    ensures forall e :: e in w'.edges ==> Real(g, e)
    ensures w'.truncated <==> w.truncated || |candidates| > budget || |w.edges| + |EdgesOf(g, candidates, x)| > cap
    ensures !w'.truncated ==> w'.seen == w.seen + Neighbours(g, candidates, x)
                              && w'.edges == w.edges + EdgesOf(g, candidates, x)
    ensures budget' + examined == budget && examined == Min(|candidates|, budget)
  {
    hide Neighbours, EdgesOf, Edges, Real;
    var out := LinksFrom(g, x);
    var forward := Record(w, x, out, true, cap);
    var back, t;
    back, t, examined := LinksToNode(g, x, candidates, budget);
    budget' := budget - Min(|candidates|, budget);
    w' := Record(forward.(truncated := forward.truncated || t), x, back, false, cap);
    assert !t ==> candidates[..examined] == candidates;
    Truncation(w, forward, w', g, candidates, x, back, t, cap);
  }

  lemma EdgesReal(g: Graph, x: Id, others: seq<Id>, forward: bool, k: nat)
    requires k <= |others|
    requires forall y :: y in others ==> if forward then y in LinksFrom(g, x) else x in LinksFrom(g, y)
    ensures forall e :: e in Edges(x, others[..k], forward) ==> Real(g, e)
  {
    forall i | 0 <= i < k ensures Real(g, Edges(x, others[..k], forward)[i]) {
      assert others[i] in others;
    }
  }

  /** Two recordings in a row amount to one expansion. */
  lemma Truncation(w: Walk, f: Walk, b: Walk, g: Graph, candidates: seq<Id>, x: Id, back: seq<Id>, t: bool, cap: nat)
    requires |w.edges| <= cap
    requires forall e :: e in w.edges ==> Real(g, e)
    requires forall y :: y in back ==> y in candidates && LinksTo(g, y, x)
    requires !t ==> back == Backlinks(g, x, candidates)
    requires var k := Min(|LinksFrom(g, x)|, cap - |w.edges|);
             && f.edges == w.edges + Edges(x, LinksFrom(g, x)[..k], true)
             && f.seen == w.seen + Elems(LinksFrom(g, x)[..k])
             && f.truncated == (w.truncated || k < |LinksFrom(g, x)|)
    requires var k := Min(|back|, cap - |f.edges|);
             && b.edges == f.edges + Edges(x, back[..k], false)
             && b.seen == f.seen + Elems(back[..k])
             && b.truncated == (f.truncated || t || k < |back|)
    ensures |b.edges| <= cap
    ensures w.seen <= b.seen <= w.seen + Neighbours(g, candidates, x)
    ensures forall e :: e in b.edges ==> Real(g, e)
    ensures !b.truncated ==> b.seen == w.seen + Neighbours(g, candidates, x)
                             && b.edges == w.edges + EdgesOf(g, candidates, x)
    ensures b.truncated <==> w.truncated || t || |w.edges| + |EdgesOf(g, candidates, x)| > cap
  {
    hide Edges, Backlinks, Real;
    var out := LinksFrom(g, x);
    var k, j := Min(|out|, cap - |w.edges|), Min(|back|, cap - |f.edges|);
    EdgesReal(g, x, out, true, k);
    EdgesReal(g, x, back, false, j);
    if !b.truncated {
      assert out[..k] == out && back[..j] == back;
      assert Elems(back) == set y | y in candidates && LinksTo(g, y, x);
    }
  }

  /** `nodes` expansions with `links` edges in all stay within the scan budget and the room left for edges. */
  predicate Within(candidates: nat, nodes: nat, links: nat, budget: nat, room: int) {
    nodes == 0 || (budget > 0 && Cost(candidates, nodes) <= budget && links <= room)
  }

  /** What scanning the candidates costs, once for each node. */
  function Cost(candidates: nat, nodes: nat): nat {
    candidates * nodes
  }

  lemma CostAdds(candidates: nat, a: nat, b: nat)
    ensures Cost(candidates, a + b) == Cost(candidates, a) + Cost(candidates, b)
    ensures Cost(candidates, 0) == 0 && Cost(candidates, 1) == candidates
    ensures b > 0 && candidates > 0 ==> Cost(candidates, b) > 0
    ensures candidates == 0 ==> Cost(candidates, a) == 0
  {
  }

  lemma WithinLess(candidates: nat, nodes: nat, links: nat, budget: nat, room: int, more: nat, moreLinks: nat)
    requires nodes <= more && links <= moreLinks && Within(candidates, more, moreLinks, budget, room)
    ensures Within(candidates, nodes, links, budget, room)
  {
    CostAdds(candidates, nodes, more - nodes);
  }

  /** Once the budget is spent, one more node does not fit. */
  lemma SpentBudget(candidates: nat, nodes: nat, links: nat, budget: nat, room: int)
    requires Cost(candidates, nodes) == budget
    ensures !Within(candidates, nodes + 1, links, budget, room)
  {
    hide Cost;
    CostAdds(candidates, nodes, 1);
  }

  /** Expand every node of the frontier until the budget runs out. */
  method ExpandAll(g: Graph, candidates: seq<Id>, frontier: seq<Id>, seen: set<Id>, edges: seq<Edge>, cap: nat, budget: nat)
    returns (w: Walk, budget': nat, ghost examined: nat)
    requires |edges| <= cap
    requires forall e :: e in edges ==> Real(g, e)
    ensures |w.edges| <= cap && Distinct(w.next) && Elems(w.next) == w.seen - seen
    ensures seen <= w.seen <= seen + Hop(g, candidates, Elems(frontier))
    ensures forall e :: e in w.edges ==> Real(g, e)
    ensures !w.truncated ==> w.seen == seen + Hop(g, candidates, Elems(frontier))
                             && w.edges == edges + AllEdges(g, candidates, frontier)
                             && examined == Cost(|candidates|, |frontier|)
    ensures w.truncated <==>
            !Within(|candidates|, |frontier|, |AllEdges(g, candidates, frontier)|, budget, cap - |edges|)
    ensures budget' + examined == budget
  {
    hide Hop, Neighbours, EdgesOf, AllEdges, Real, Within, Cost;
    FrontierStart(g, candidates, frontier);
    CostAdds(|candidates|, 0, 0);
    NothingWithin(|candidates|, budget, cap - |edges|);
    w, budget', examined := Walk(seen, [], edges, false), budget, 0;
    var i := 0;
    while i < |frontier|
      invariant 0 <= i <= |frontier|
      invariant |w.edges| <= cap && Distinct(w.next) && Elems(w.next) == w.seen - seen
      invariant seen <= w.seen <= seen + Hop(g, candidates, Elems(frontier[..i]))
      invariant forall e :: e in w.edges ==> Real(g, e)
      invariant !w.truncated ==> w.seen == seen + Hop(g, candidates, Elems(frontier[..i]))
                                 && w.edges == edges + AllEdges(g, candidates, frontier[..i])
                                 && examined == Cost(|candidates|, i)
      invariant w.truncated <==>
                !Within(|candidates|, i, |AllEdges(g, candidates, frontier[..i])|, budget, cap - |edges|)
      invariant budget' + examined == budget
    {
      FrontierStep(g, candidates, frontier, i);
      if budget' == 0 {
        StopsShort(g, candidates, frontier, i, budget, cap - |edges|, w.truncated);
        w := w.(truncated := true);
        HopMonotone(g, candidates, Elems(frontier[..i]), Elems(frontier));
        return;
      }
      ghost var cost;
      OneMoreWithin(|candidates|, i, |AllEdges(g, candidates, frontier[..i])|, |EdgesOf(g, candidates, frontier[i])|, budget, cap - |edges|);
      w, budget', cost := Expand(g, candidates, w, frontier[i], cap, budget');
      examined := examined + cost;
      i := i + 1;
    }
    assert frontier[..i] == frontier;
  }

  lemma NothingWithin(candidates: nat, budget: nat, room: int)
    ensures Within(candidates, 0, 0, budget, room)
  {
  }

  /** One more node fits exactly when the nodes so far do and what is left is enough for it. */
  lemma OneMoreWithin(candidates: nat, nodes: nat, links: nat, more: nat, budget: nat, room: int)
    ensures budget - Cost(candidates, nodes) > 0 && links <= room ==>
              (Within(candidates, nodes + 1, links + more, budget, room) <==>
               && Within(candidates, nodes, links, budget, room)
               && candidates <= budget - Cost(candidates, nodes) && links + more <= room)
    ensures Cost(candidates, nodes + 1) == Cost(candidates, nodes) + candidates
    ensures !Within(candidates, nodes, links, budget, room) ==> !Within(candidates, nodes + 1, links + more, budget, room)
  {
    hide Cost;
    CostAdds(candidates, nodes, 1);
  }

  /** A frontier that is left before its end did not fit. */
  lemma StopsShort(g: Graph, candidates: seq<Id>, frontier: seq<Id>, i: nat, budget: nat, room: int, truncated: bool)
    requires i < |frontier|
    requires truncated <==> !Within(|candidates|, i, |AllEdges(g, candidates, frontier[..i])|, budget, room)
    requires !truncated ==> Cost(|candidates|, i) == budget
    ensures !Within(|candidates|, |frontier|, |AllEdges(g, candidates, frontier)|, budget, room)
  {
    hide AllEdges, Within, Cost;
    var links, all := |AllEdges(g, candidates, frontier[..i])|, |AllEdges(g, candidates, frontier)|;
    EdgesGrow(g, candidates, frontier, i);
    EdgesGrow(g, candidates, frontier, i + 1);
    if Within(|candidates|, |frontier|, all, budget, room) {
      WithinLess(|candidates|, i, links, budget, room, |frontier|, all);
      WithinLess(|candidates|, i + 1, |AllEdges(g, candidates, frontier[..i + 1])|, budget, room, |frontier|, all);
      SpentBudget(|candidates|, i, |AllEdges(g, candidates, frontier[..i + 1])|, budget, room);
      assert false;
    }
  }

  lemma EdgesGrow(g: Graph, candidates: seq<Id>, order: seq<Id>, i: nat)
    requires i <= |order|
    ensures |AllEdges(g, candidates, order[..i])| <= |AllEdges(g, candidates, order)|
  {
    assert order == order[..i] + order[i..];
    AllEdgesAppend(g, candidates, order[..i], order[i..]);
  }

  // ---- How many edges a set of nodes has ----

  /** The edges recorded for the nodes of `s`, counted. */
  ghost function EdgeTotal(g: Graph, candidates: seq<Id>, s: set<Id>): nat {
    if s == {} then 0
    else
      var x :| x in s;
      |EdgesOf(g, candidates, x)| + EdgeTotal(g, candidates, s - {x})
  }

  lemma {:induction false} EdgeTotalSplit(g: Graph, candidates: seq<Id>, s: set<Id>, x: Id)
    requires x in s
    ensures EdgeTotal(g, candidates, s) == |EdgesOf(g, candidates, x)| + EdgeTotal(g, candidates, s - {x})
    decreases s
  {
    hide EdgesOf;
    var y :| y in s && EdgeTotal(g, candidates, s) == |EdgesOf(g, candidates, y)| + EdgeTotal(g, candidates, s - {y});
    if y != x {
      EdgeTotalSplit(g, candidates, s - {y}, x);
      EdgeTotalSplit(g, candidates, s - {x}, y);
      assert s - {y} - {x} == s - {x} - {y};
    }
  }

  lemma {:induction false} EdgeTotalGrows(g: Graph, candidates: seq<Id>, a: set<Id>, b: set<Id>)
    requires a <= b
    ensures EdgeTotal(g, candidates, a) <= EdgeTotal(g, candidates, b)
    decreases b
  {
    hide EdgesOf;
    var rest := b - a;
    if rest == {} {
      forall x | x in b ensures x in a {
        assert x !in rest;
      }
      assert a == b;
    } else {
      var x :| x in rest;
      EdgeTotalGrows(g, candidates, a, b - {x});
      EdgeTotalSplit(g, candidates, b, x);
    }
  }

  lemma NoEdges(g: Graph, candidates: seq<Id>)
    ensures EdgeTotal(g, candidates, {}) == 0
  {
  }

  /** However the nodes are ordered, they record that many edges. */
  lemma {:induction false} EdgesCounted(g: Graph, candidates: seq<Id>, order: seq<Id>)
    requires Distinct(order)
    ensures |AllEdges(g, candidates, order)| == EdgeTotal(g, candidates, Elems(order)) && |order| == |Elems(order)|
    decreases |order|
  {
    hide EdgesOf, EdgeTotal;
    if order == [] {
      assert Elems(order) == {};
      NoEdges(g, candidates);
    } else {
      var rest, last := order[..|order| - 1], order[|order| - 1];
      EdgesCounted(g, candidates, rest);
      assert order == rest + [last];
      assert last !in rest;
      assert Elems(order) == Elems(rest) + {last} && Elems(order) - {last} == Elems(rest);
      EdgeTotalSplit(g, candidates, Elems(order), last);
    }
  }

  lemma FrontierStart(g: Graph, candidates: seq<Id>, frontier: seq<Id>)
    ensures Hop(g, candidates, Elems(frontier[..0])) == {}
    ensures AllEdges(g, candidates, frontier[..0]) == []
  {
  }

  lemma HopMonotone(g: Graph, candidates: seq<Id>, a: set<Id>, b: set<Id>)
    requires a <= b
    ensures Hop(g, candidates, a) <= Hop(g, candidates, b)
  {
    forall y | y in Hop(g, candidates, a) ensures y in Hop(g, candidates, b) {
      var x :| x in a && y in Neighbours(g, candidates, x);
      assert x in b;
    }
  }

  lemma HopUnion(g: Graph, candidates: seq<Id>, a: set<Id>, b: set<Id>)
    ensures Hop(g, candidates, a + b) == Hop(g, candidates, a) + Hop(g, candidates, b)
  {
    HopMonotone(g, candidates, a, a + b);
    HopMonotone(g, candidates, b, a + b);
    forall y | y in Hop(g, candidates, a + b) ensures y in Hop(g, candidates, a) + Hop(g, candidates, b) {
      var x :| x in a + b && y in Neighbours(g, candidates, x);
      assert x in a || x in b;
    }
  }

  lemma HopOne(g: Graph, candidates: seq<Id>, x: Id)
    ensures Hop(g, candidates, {x}) == Neighbours(g, candidates, x)
  {
    forall y | y in Neighbours(g, candidates, x) ensures y in Hop(g, candidates, {x}) {
      assert x in {x};
    }
  }

  lemma FrontierStep(g: Graph, candidates: seq<Id>, frontier: seq<Id>, i: nat)
    requires i < |frontier|
    ensures Elems(frontier[..i]) <= Elems(frontier)
    ensures Hop(g, candidates, Elems(frontier[..i + 1]))
         == Hop(g, candidates, Elems(frontier[..i])) + Neighbours(g, candidates, frontier[i])
    ensures AllEdges(g, candidates, frontier[..i + 1])
         == AllEdges(g, candidates, frontier[..i]) + EdgesOf(g, candidates, frontier[i])
  {
    assert frontier[..i + 1][..i] == frontier[..i];
    assert Elems(frontier[..i + 1]) == Elems(frontier[..i]) + {frontier[i]};
    HopUnion(g, candidates, Elems(frontier[..i]), {frontier[i]});
    HopOne(g, candidates, frontier[i]);
  }

  lemma {:induction false} AllEdgesAppend(g: Graph, candidates: seq<Id>, a: seq<Id>, b: seq<Id>)
    ensures AllEdges(g, candidates, a + b) == AllEdges(g, candidates, a) + AllEdges(g, candidates, b)
    decreases |b|
  {
    hide EdgesOf;
    if b == [] {
      assert a + b == a;
    } else {
      AllEdgesAppend(g, candidates, a, b[..|b| - 1]);
      assert (a + b)[..|a + b| - 1] == a + b[..|b| - 1];
    }
  }

  lemma DistinctAppend(a: seq<Id>, b: seq<Id>)
    requires Distinct(a) && Distinct(b) && Elems(a) !! Elems(b)
    ensures Distinct(a + b) && Elems(a + b) == Elems(a) + Elems(b)
  {
    forall i, j | 0 <= i < j < |a + b| ensures (a + b)[i] != (a + b)[j] {
      if i < |a| <= j {
        assert (a + b)[i] in Elems(a) && (a + b)[j] in Elems(b);
      }
    }
  }

  /** Growing the ball only needs the nodes that were new in the last hop. */
  lemma BallStep(g: Graph, candidates: seq<Id>, root: Id, k: nat, inner: set<Id>, frontier: set<Id>)
    requires Ball(g, candidates, root, k) == inner + frontier
    requires Hop(g, candidates, inner) <= inner + frontier
    ensures Ball(g, candidates, root, k + 1) == inner + frontier + Hop(g, candidates, frontier)
  {
    HopUnion(g, candidates, inner, frontier);
  }

  /** Once a hop adds nothing, no further hop does. */
  lemma {:induction false} BallFixpoint(g: Graph, candidates: seq<Id>, root: Id, k: nat, n: nat)
    requires k <= n
    requires Ball(g, candidates, root, k + 1) == Ball(g, candidates, root, k)
    ensures Ball(g, candidates, root, n) == Ball(g, candidates, root, k)
    decreases n
  {
    if k < n {
      BallFixpoint(g, candidates, root, k, n - 1);
    }
  }

  lemma {:induction false} BallMonotone(g: Graph, candidates: seq<Id>, root: Id, k: nat, n: nat)
    requires k <= n
    ensures Ball(g, candidates, root, k) <= Ball(g, candidates, root, n)
    decreases n
  {
    if k < n {
      BallMonotone(g, candidates, root, k, n - 1);
    }
  }

  /**
   The walk. Whatever it returns, every edge is a real link, every node seen is within
   `depth` hops, and neither cap is exceeded. If it does not report truncation, the nodes
   seen are exactly those within `depth` hops, and the edges are exactly those of the
   nodes within `depth - 1` hops, each expanded once, in the order `order`. It reports
   truncation exactly when those expansions exceed the scan budget or the edge cap.
   */
  method WalkNeighborhood(g: Graph, root: Id, depth: nat, candidates: seq<Id>, maxScanNodes: nat)
    returns (seen: set<Id>, edges: seq<Edge>, truncated: bool, ghost order: seq<Id>, ghost examined: nat)
    ensures root in seen && seen <= Ball(g, candidates, root, depth)
    ensures forall e :: e in edges ==> Real(g, e)
    ensures |edges| <= maxScanNodes && examined <= maxScanNodes
    ensures !truncated ==> Complete(g, candidates, root, depth, order, seen, edges)
    ensures truncated <==> !InnerFits(g, candidates, root, depth, maxScanNodes)
  {
    hide Hop, Real, Progress, InnerFits, Within, AllEdges, Cost;
    seen, edges, truncated, order, examined := {root}, [], false, [], 0;
    var frontier := [root];
    var budget: nat := maxScanNodes;
    ProgressStart(g, candidates, root, maxScanNodes);
    var hops := 0;
    while hops < depth
      invariant 0 <= hops <= depth && !truncated
      invariant Progress(g, candidates, root, hops, order, frontier, seen, edges, maxScanNodes)
      invariant |edges| <= maxScanNodes && forall e :: e in edges ==> Real(g, e)
      invariant budget + examined == maxScanNodes && examined == Cost(|candidates|, |order|)
    {
      ghost var cost;
      var w;
      HopFits(g, candidates, root, hops, depth, order, frontier, seen, edges, maxScanNodes);
      w, budget, cost := ExpandAll(g, candidates, frontier, seen, edges, maxScanNodes, budget);
      examined := examined + cost;
      if w.truncated {
        HopBounded(g, candidates, root, hops, depth, order, frontier, seen, edges, maxScanNodes, w.seen);
        return w.seen, w.edges, true, order, examined;
      }
      HopTaken(g, candidates, root, hops, depth, order, frontier, seen, edges, maxScanNodes, w);
      seen, edges, order := w.seen, w.edges, order + frontier;
      if w.next == [] {
        return;
      }
      frontier := w.next;
      hops := hops + 1;
    }
    WalkDone(g, candidates, root, depth, order, frontier, seen, edges, maxScanNodes);
  }

  /** Where an untruncated walk stands after `hops` hops: `order` is expanded, `frontier` comes next. */
  ghost predicate Progress(g: Graph, candidates: seq<Id>, root: Id, hops: nat, order: seq<Id>, frontier: seq<Id>,
                           seen: set<Id>, edges: seq<Edge>, cap: nat) {
    && seen == Ball(g, candidates, root, hops)
    && seen == Elems(order) + Elems(frontier) && Elems(order) !! Elems(frontier)
    && Hop(g, candidates, Elems(order)) <= seen
    && Distinct(order) && Distinct(frontier) && frontier != []
    && Elems(order) == Inner(g, candidates, root, hops)
    && edges == AllEdges(g, candidates, order)
    && Cost(|candidates|, |order|) <= cap
    && Within(|candidates|, |order|, |edges|, cap, cap)
  }

  /** What an untruncated walk returns. */
  ghost predicate Complete(g: Graph, candidates: seq<Id>, root: Id, depth: nat, order: seq<Id>, seen: set<Id>, edges: seq<Edge>) {
    && seen == Ball(g, candidates, root, depth)
    && edges == AllEdges(g, candidates, order)
    && Distinct(order)
    && Elems(order) == Inner(g, candidates, root, depth)
  }

  lemma ProgressStart(g: Graph, candidates: seq<Id>, root: Id, cap: nat)
    ensures Progress(g, candidates, root, 0, [], [root], {root}, [], cap)
    ensures Cost(|candidates|, 0) == 0
  {
    FrontierStart(g, candidates, []);
    CostAdds(|candidates|, 0, 0);
    assert Elems([]) == {} && Elems([root]) == {root};
  }

  lemma HopFits(g: Graph, candidates: seq<Id>, root: Id, hops: nat, depth: nat, order: seq<Id>, frontier: seq<Id>,
                seen: set<Id>, edges: seq<Edge>, cap: nat)
    requires hops < depth && Progress(g, candidates, root, hops, order, frontier, seen, edges, cap)
    ensures InnerFits(g, candidates, root, depth, cap) ==>
              Within(|candidates|, |frontier|, |AllEdges(g, candidates, frontier)|, cap - Cost(|candidates|, |order|), cap - |edges|)
  {
    hide AllEdges, Within, Cost, Inner, Hop, InnerFits;
    FrontierFits(g, candidates, root, hops, depth, order, frontier, cap);
  }

  lemma HopBounded(g: Graph, candidates: seq<Id>, root: Id, hops: nat, depth: nat, order: seq<Id>, frontier: seq<Id>,
                   seen: set<Id>, edges: seq<Edge>, cap: nat, seen': set<Id>)
    requires hops < depth && Progress(g, candidates, root, hops, order, frontier, seen, edges, cap)
    requires seen <= seen' <= seen + Hop(g, candidates, Elems(frontier))
    ensures root in seen' && seen' <= Ball(g, candidates, root, depth)
  {
    hide AllEdges, Within, Cost, Inner, Hop, Distinct;
    BallStep(g, candidates, root, hops, Elems(order), Elems(frontier));
    BallMonotone(g, candidates, root, hops + 1, depth);
    BallMonotone(g, candidates, root, 0, hops);
  }

  /** One hop without truncation: the walk goes on, or nothing new is left to expand. */
  lemma HopTaken(g: Graph, candidates: seq<Id>, root: Id, hops: nat, depth: nat, order: seq<Id>, frontier: seq<Id>,
                 seen: set<Id>, edges: seq<Edge>, cap: nat, w: Walk)
    requires hops < depth && Progress(g, candidates, root, hops, order, frontier, seen, edges, cap)
    requires w.seen == seen + Hop(g, candidates, Elems(frontier)) && Distinct(w.next) && Elems(w.next) == w.seen - seen
    requires w.edges == edges + AllEdges(g, candidates, frontier)
    requires Cost(|candidates|, |order|) + Cost(|candidates|, |frontier|) <= cap
    requires Within(|candidates|, |frontier|, |AllEdges(g, candidates, frontier)|, cap - Cost(|candidates|, |order|), cap - |edges|)
    ensures Cost(|candidates|, |order + frontier|) == Cost(|candidates|, |order|) + Cost(|candidates|, |frontier|)
    ensures w.next != [] ==> Progress(g, candidates, root, hops + 1, order + frontier, w.next, w.seen, w.edges, cap)
    ensures w.next == [] ==>
              && Complete(g, candidates, root, depth, order + frontier, w.seen, w.edges)
              && InnerFits(g, candidates, root, depth, cap)
              && root in w.seen
  {
    hide AllEdges, Within, Cost, Hop, InnerFits, Neighbours;
    FrontierFits(g, candidates, root, hops, depth, order, frontier, cap);
    CostAdds(|candidates|, |order|, |frontier|);
    AllEdgesAppend(g, candidates, order, frontier);
    DistinctAppend(order, frontier);
    HopUnion(g, candidates, Elems(order), Elems(frontier));
    BallStep(g, candidates, root, hops, Elems(order), Elems(frontier));
    if w.next == [] {
      assert Elems(w.next) == {} && w.seen == seen + (w.seen - seen);
      BallFixpoint(g, candidates, root, hops, depth - 1);
      BallFixpoint(g, candidates, root, hops, depth);
      BallMonotone(g, candidates, root, 0, hops);
      OrderFits(g, candidates, root, depth, order + frontier, cap);
    }
  }

  lemma WalkDone(g: Graph, candidates: seq<Id>, root: Id, depth: nat, order: seq<Id>, frontier: seq<Id>,
                 seen: set<Id>, edges: seq<Edge>, cap: nat)
    requires Progress(g, candidates, root, depth, order, frontier, seen, edges, cap)
    ensures Complete(g, candidates, root, depth, order, seen, edges) && InnerFits(g, candidates, root, depth, cap) && root in seen
  {
    hide AllEdges, Within, Cost, Hop, InnerFits;
    OrderFits(g, candidates, root, depth, order, cap);
    BallMonotone(g, candidates, root, 0, depth);
  }

  /** The nodes an untruncated walk expands. */
  function Inner(g: Graph, candidates: seq<Id>, root: Id, depth: nat): set<Id> {
    if depth == 0 then {} else Ball(g, candidates, root, depth - 1)
  }

  /** Expanding them stays within the scan budget and the edge cap. */
  ghost predicate InnerFits(g: Graph, candidates: seq<Id>, root: Id, depth: nat, maxScanNodes: nat) {
    var inner := Inner(g, candidates, root, depth);
    depth > 0 ==>
      maxScanNodes > 0 && Cost(|candidates|, |inner|) <= maxScanNodes && EdgeTotal(g, candidates, inner) <= maxScanNodes
  }

  lemma OrderFits(g: Graph, candidates: seq<Id>, root: Id, depth: nat, order: seq<Id>, maxScanNodes: nat)
    requires Distinct(order) && Elems(order) == Inner(g, candidates, root, depth)
    requires Within(|candidates|, |order|, |AllEdges(g, candidates, order)|, maxScanNodes, maxScanNodes)
    ensures InnerFits(g, candidates, root, depth, maxScanNodes)
  {
    hide AllEdges, EdgeTotal, Cost;
    EdgesCounted(g, candidates, order);
    if depth > 0 {
      BallMonotone(g, candidates, root, 0, depth - 1);
      assert root in order;
    }
  }

  /** The nodes expanded so far and the next frontier are among the inner ones, and so are their edges. */
  lemma FrontierSizes(g: Graph, candidates: seq<Id>, root: Id, hops: nat, depth: nat, order: seq<Id>, frontier: seq<Id>)
    requires hops < depth && Distinct(order) && Distinct(frontier) && Elems(order) !! Elems(frontier)
    requires Elems(order) + Elems(frontier) == Ball(g, candidates, root, hops)
    ensures |order| + |frontier| <= |Inner(g, candidates, root, depth)|
    ensures |AllEdges(g, candidates, order)| + |AllEdges(g, candidates, frontier)| == |AllEdges(g, candidates, order + frontier)|
    ensures |AllEdges(g, candidates, order + frontier)| <= EdgeTotal(g, candidates, Inner(g, candidates, root, depth))
  {
    hide AllEdges, EdgeTotal, Ball, Hop;
    DistinctAppend(order, frontier);
    hide Distinct;
    EdgesCounted(g, candidates, order + frontier);
    AllEdgesAppend(g, candidates, order, frontier);
    BallMonotone(g, candidates, root, hops, depth - 1);
    EdgeTotalGrows(g, candidates, Ball(g, candidates, root, hops), Inner(g, candidates, root, depth));
    SubsetSize(Ball(g, candidates, root, hops), Inner(g, candidates, root, depth));
  }

  /** If all the inner nodes fit, so do those expanded so far with the next frontier. */
  lemma FrontierFits(g: Graph, candidates: seq<Id>, root: Id, hops: nat, depth: nat, order: seq<Id>, frontier: seq<Id>, maxScanNodes: nat)
    requires hops < depth && Distinct(order) && Distinct(frontier) && Elems(order) !! Elems(frontier) && frontier != []
    requires Elems(order) + Elems(frontier) == Ball(g, candidates, root, hops)
    requires Cost(|candidates|, |order|) <= maxScanNodes
    ensures var budget, links := maxScanNodes - Cost(|candidates|, |order|), |AllEdges(g, candidates, order)|;
            && (InnerFits(g, candidates, root, depth, maxScanNodes) ==>
                  Within(|candidates|, |frontier|, |AllEdges(g, candidates, frontier)|, budget, maxScanNodes - links))
            && (Within(|candidates|, |frontier|, |AllEdges(g, candidates, frontier)|, budget, maxScanNodes - links) ==>
                  Within(|candidates|, |order + frontier|, |AllEdges(g, candidates, order + frontier)|, maxScanNodes, maxScanNodes))
  {
    hide AllEdges, EdgeTotal, Within, Cost, Inner, Elems, Distinct, Ball;
    FrontierSizes(g, candidates, root, hops, depth, order, frontier);
    var inner := Inner(g, candidates, root, depth);
    FitsTogether(|candidates|, |order|, |frontier|, |AllEdges(g, candidates, order)|, |AllEdges(g, candidates, frontier)|,
                 |inner|, EdgeTotal(g, candidates, inner), maxScanNodes);
  }

  /** The arithmetic of fitting two batches of nodes, and of fitting more nodes than those. */
  lemma FitsTogether(c: nat, n: nat, k: nat, links: nat, more: nat, nodes: nat, total: nat, cap: nat)
    requires k > 0 && Cost(c, n) <= cap && n + k <= nodes && links + more <= total
    ensures cap > 0 && Cost(c, nodes) <= cap && total <= cap ==> Within(c, k, more, cap - Cost(c, n), cap - links)
    ensures Within(c, k, more, cap - Cost(c, n), cap - links) ==> Within(c, n + k, links + more, cap, cap)
  {
    hide Cost;
    CostAdds(c, n, k);
    CostAdds(c, n + k, nodes - n - k);
  }

  lemma EdgesOfMembers(g: Graph, candidates: seq<Id>, x: Id, e: Edge)
    ensures e in EdgesOf(g, candidates, x) <==>
            || (e.0 == x && e.1 in LinksFrom(g, x))
            || (e.1 == x && e.0 in candidates && LinksTo(g, e.0, x))
  {
    var out, back := LinksFrom(g, x), Backlinks(g, x, candidates);
    if e.0 == x && e.1 in out {
      var i :| 0 <= i < |out| && out[i] == e.1;
      assert Edges(x, out, true)[i] == e;
    }
    if e.1 == x && e.0 in back {
      var i :| 0 <= i < |back| && back[i] == e.0;
      assert Edges(x, back, false)[i] == e;
    }
  }

  /** The recorded edges are exactly the links out of, and the listed links into, an expanded node. */
  lemma {:induction false} EdgesTouching(g: Graph, candidates: seq<Id>, order: seq<Id>, e: Edge)
    ensures e in AllEdges(g, candidates, order) <==>
            || (e.0 in order && e.1 in LinksFrom(g, e.0))
            || (e.1 in order && e.0 in candidates && LinksTo(g, e.0, e.1))
  {
    hide EdgesOf, LinksFrom, LinksTo;
    if order != [] {
      EdgesTouching(g, candidates, order[..|order| - 1], e);
      EdgesOfMembers(g, candidates, order[|order| - 1], e);
      assert order == order[..|order| - 1] + [order[|order| - 1]];
    }
  }

  // ---- Hops are paths ----

  ghost predicate IsPath(g: Graph, candidates: seq<Id>, p: seq<Id>, root: Id, y: Id) {
    && |p| > 0
    && p[0] == root
    && p[|p| - 1] == y
    && forall i :: 0 <= i < |p| - 1 ==> p[i + 1] in Neighbours(g, candidates, p[i])
  }

  lemma {:induction false} BallHasPath(g: Graph, candidates: seq<Id>, root: Id, k: nat, y: Id) returns (p: seq<Id>)
    requires y in Ball(g, candidates, root, k)
    ensures IsPath(g, candidates, p, root, y) && |p| <= k + 1
  {
    hide Neighbours;
    if k == 0 {
      p := [root];
    } else if y in Ball(g, candidates, root, k - 1) {
      p := BallHasPath(g, candidates, root, k - 1, y);
    } else {
      var x :| x in Ball(g, candidates, root, k - 1) && y in Neighbours(g, candidates, x);
      var q := BallHasPath(g, candidates, root, k - 1, x);
      p := q + [y];
    }
  }

  lemma {:induction false} PathInBall(g: Graph, candidates: seq<Id>, root: Id, p: seq<Id>, y: Id)
    requires IsPath(g, candidates, p, root, y)
    ensures y in Ball(g, candidates, root, |p| - 1)
    decreases |p|
  {
    hide Neighbours;
    if |p| > 1 {
      var x := p[|p| - 2];
      PathInBall(g, candidates, root, p[..|p| - 1], x);
      assert y in Neighbours(g, candidates, x);
    }
  }

  /** `Ball` is distance: `y` is within `k` hops exactly when a path of at most `k` steps leads to it. */
  lemma BallIsDistance(g: Graph, candidates: seq<Id>, root: Id, k: nat, y: Id)
    ensures y in Ball(g, candidates, root, k) <==> exists p :: IsPath(g, candidates, p, root, y) && |p| <= k + 1
  {
    hide Neighbours;
    if y in Ball(g, candidates, root, k) {
      var p := BallHasPath(g, candidates, root, k, y);
    }
    if p :| IsPath(g, candidates, p, root, y) && |p| <= k + 1 {
      PathInBall(g, candidates, root, p, y);
      BallMonotone(g, candidates, root, |p| - 1, k);
    }
  }

  /**
   A hop is an undirected link, so that the walk measures undirected distance, exactly when
   every link either starts at a listed node or is answered by a link back: backlinks are
   looked for among listed nodes only.
   */
  lemma HopsAreUndirected(g: Graph, candidates: seq<Id>)
    ensures (forall x, y :: y in Neighbours(g, candidates, x) <==> Real(g, (x, y)) || Real(g, (y, x)))
       <==> (forall x, y :: Real(g, (y, x)) ==> y in candidates || Real(g, (x, y)))
  {
    if forall x, y :: y in Neighbours(g, candidates, x) <==> Real(g, (x, y)) || Real(g, (y, x)) {
      forall x, y | Real(g, (y, x)) ensures y in candidates || Real(g, (x, y)) {
        assert y in Neighbours(g, candidates, x);
      }
    }
  }
}
