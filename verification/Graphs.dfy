/**
  Directed graphs with labelled, weighted arcs, walks through them, and the marks that a
  shortest-path search puts on the nodes (pkg/algorithm/dijkstra.go), as values.
*/
module Graphs {
  import opened Results

  datatype Arc = Arc(name: string, dst: string, cost: int)

  type Graph = map<string, seq<Arc>>

  /** Every arc ends at a node of the graph, at a cost that is not negative. */
  ghost predicate Sensible(g: Graph) {
    forall u, a :: u in g && a in g[u] ==> a.dst in g && a.cost >= 0
  }

  function AddNode(g: Graph, n: string): Graph {
    if n in g then g else g[n := []]
  }

  function AddArc(g: Graph, src: string, arc: Arc): Graph {
    var g' := AddNode(AddNode(g, src), arc.dst);
    g'[src := g'[src] + [arc]]
  }

  // ------------------------------------------------------------------ walks

  datatype Hop = Hop(src: string, arc: Arc)

  ghost predicate IsWalk(g: Graph, start: string, hops: seq<Hop>, end: string) {
    if hops == [] then start == end && start in g
    else
      var last := hops[|hops| - 1];
      last.src in g && last.arc in g[last.src] && last.arc.dst == end
      && IsWalk(g, start, hops[..|hops| - 1], last.src)
  }

  function Cost(hops: seq<Hop>): int {
    if hops == [] then 0 else Cost(hops[..|hops| - 1]) + hops[|hops| - 1].arc.cost
  }

  ghost predicate Reaches(g: Graph, start: string, end: string) {
    exists hops :: IsWalk(g, start, hops, end)
  }

  // ------------------------------------------------------------- open walks

  /** The walk keeps clear of the given nodes. */
  ghost predicate Avoids(blocked: set<string>, start: string, hops: seq<Hop>) {
    start !in blocked && forall i :: 0 <= i < |hops| ==> hops[i].arc.dst !in blocked
  }

  ghost predicate IsOpenWalk(g: Graph, blocked: set<string>, start: string, hops: seq<Hop>, end: string) {
    IsWalk(g, start, hops, end) && Avoids(blocked, start, hops)
  }

  ghost predicate OpenTo(g: Graph, blocked: set<string>, start: string, end: string) {
    exists hops :: IsOpenWalk(g, blocked, start, hops, end)
  }

  ghost predicate OpenToAny(g: Graph, blocked: set<string>, start: string, goals: seq<string>) {
    exists goal :: goal in goals && OpenTo(g, blocked, start, goal)
  }

  lemma {:induction false} OpenPrefix(g: Graph, blocked: set<string>, start: string, hops: seq<Hop>, end: string)
    requires IsOpenWalk(g, blocked, start, hops, end) && hops != []
    ensures var last := hops[|hops| - 1];
            && IsOpenWalk(g, blocked, start, hops[..|hops| - 1], last.src)
            && last.src in g && last.arc in g[last.src] && last.arc.dst == end && end !in blocked
  {
  }

  /** A walk that ends outside a set which no arc leaves has never been inside it. */
  lemma {:induction false} OutsideClosed(g: Graph, closed: set<string>, start: string, hops: seq<Hop>, end: string)
    requires forall u, a :: u in closed && u in g && a in g[u] ==> a.dst in closed
    requires IsWalk(g, start, hops, end) && end !in closed
    ensures IsOpenWalk(g, closed, start, hops, end)
  {
    if hops != [] {
      OutsideClosed(g, closed, start, hops[..|hops| - 1], hops[|hops| - 1].src);
    }
  }

  lemma {:induction false} WalkAppend(g: Graph, start: string, hops: seq<Hop>, hop: Hop)
    requires IsWalk(g, start, hops, hop.src) && hop.src in g && hop.arc in g[hop.src]
    ensures IsWalk(g, start, hops + [hop], hop.arc.dst)
    ensures Cost(hops + [hop]) == Cost(hops) + hop.arc.cost
  {
    assert (hops + [hop])[..|hops|] == hops;
  }

  /** A hop in front of a walk. */
  lemma {:induction false} WalkPrepend(g: Graph, hop: Hop, hops: seq<Hop>, end: string)
    requires IsWalk(g, hop.arc.dst, hops, end) && hop.src in g && hop.arc in g[hop.src]
    ensures IsWalk(g, hop.src, [hop] + hops, end)
    ensures Cost([hop] + hops) == hop.arc.cost + Cost(hops)
  {
    var all := [hop] + hops;
    if hops == [] {
      WalkAppend(g, hop.src, [], hop);
      assert all == [] + [hop];
    } else {
      var front, last := hops[..|hops| - 1], hops[|hops| - 1];
      WalkPrepend(g, hop, front, last.src);
      assert all[..|all| - 1] == [hop] + front && all[|all| - 1] == last;
    }
  }

  // ------------------------------------------------------------------ marks

  /** What the search has written on a node; a cost of -1 means that it has not been reached. */
  datatype Mark = Mark(done: bool, cost: int, prev: Option<string>, via: Option<Arc>)
  {
    predicate Reached() {
      cost != -1
    }

    predicate Waiting() {
      !done && Reached()
    }
  }

  type Marks = map<string, Mark>

  function Unmarked(): Mark {
    Mark(false, -1, None, None)
  }

  function RelaxArc(m: Marks, u: string, a: Arc): Marks
    requires u in m && a.dst in m
  {
    var c := m[u].cost + a.cost;
    if m[a.dst].done then m
    else if m[a.dst].cost == -1 || c < m[a.dst].cost then
      m[a.dst := Mark(false, c, Some(u), Some(a))]
    else m
  }

  function RelaxArcs(m: Marks, u: string, arcs: seq<Arc>): (m': Marks)
    requires u in m && forall a :: a in arcs ==> a.dst in m
    ensures m'.Keys == m.Keys
  {
    if arcs == [] then m
    else RelaxArc(RelaxArcs(m, u, arcs[..|arcs| - 1]), u, arcs[|arcs| - 1])
  }

  lemma {:induction false} RelaxArcsStep(m: Marks, u: string, arcs: seq<Arc>, i: nat)
    requires u in m && (forall a :: a in arcs ==> a.dst in m) && i < |arcs|
    ensures RelaxArcs(m, u, arcs[..i + 1]) == RelaxArc(RelaxArcs(m, u, arcs[..i]), u, arcs[i])
  {
    assert arcs[..i + 1][..i] == arcs[..i];
  }

  /** The marks after a node has been processed. */
  function Settle(g: Graph, m: Marks, u: string): Marks
    requires u in g && u in m && forall a :: a in g[u] ==> a.dst in m
  {
    Finish(RelaxArcs(m, u, g[u]), u)
  }

  function Finish(m: Marks, n: string): Marks
    requires n in m
  {
    m[n := m[n].(done := true)]
  }

  /** Of the arcs that lead where this one does, it is a cheapest one, and the first of these. */
  ghost predicate FirstCheapest(arcs: seq<Arc>, a: Arc) {
    exists i: nat :: IsFirstCheapest(arcs, i, a)
  }

  ghost predicate IsFirstCheapest(arcs: seq<Arc>, i: nat, a: Arc) {
    && i < |arcs| && arcs[i] == a
    && forall j :: 0 <= j < |arcs| && arcs[j].dst == a.dst ==> if j < i then a.cost < arcs[j].cost else a.cost <= arcs[j].cost
  }

  lemma {:induction false} FirstCheapestStays(front: seq<Arc>, last: Arc, a: Arc)
    requires FirstCheapest(front, a) && (last.dst == a.dst ==> a.cost <= last.cost)
    ensures FirstCheapest(front + [last], a)
  {
    var i: nat :| IsFirstCheapest(front, i, a);
    assert IsFirstCheapest(front + [last], i, a);
  }

  lemma {:induction false} CheaperIsFirst(front: seq<Arc>, last: Arc)
    requires forall b :: b in front && b.dst == last.dst ==> last.cost < b.cost
    ensures FirstCheapest(front + [last], last)
  {
    assert IsFirstCheapest(front + [last], |front|, last);
  }

  /** Every hop takes the first of the cheapest arcs between its two nodes. */
  ghost predicate OverFirst(g: Graph, hops: seq<Hop>) {
    forall i :: 0 <= i < |hops| ==> hops[i].src in g && FirstCheapest(g[hops[i].src], hops[i].arc)
  }

  /** The mark of a node other than the start comes from a node that this search has finished, over one of its arcs. */
  ghost predicate Supported(g: Graph, m: Marks, rank: map<string, nat>, v: string)
    requires v in m
  {
    && m[v].prev.Some? && m[v].via.Some?
    && var u, a := m[v].prev.value, m[v].via.value;
       u in m && u in g && u in rank && a in g[u] && FirstCheapest(g[u], a) && a.dst == v && m[v].cost == m[u].cost + a.cost
  }

  /** Both ends of an arc out of a finished node have been reached, at costs the arc respects. */
  ghost predicate Relaxed(m: Marks, u: string, a: Arc)
    requires u in m && a.dst in m
  {
    m[a.dst].Reached() && m[a.dst].cost <= m[u].cost + a.cost
  }

  ghost predicate MarksFit(g: Graph, m: Marks, start: string) {
    && Sensible(g) && m.Keys == g.Keys && start in m && m[start].cost == 0
    && forall v :: v in m ==> m[v].cost >= -1 && (m[v].cost == -1 && !m[v].done ==> m[v] == Unmarked())
  }

  /**
    `rank` numbers the nodes that this search has finished in the order it finished them; no goal is
    among them. The other finished nodes are those that were so before the search.
  */
  ghost predicate RanksFit(m: Marks, rank: map<string, nat>, goals: seq<string>, blocked: set<string>) {
    && (forall v :: v in m ==> (m[v].done <==> v in rank || v in blocked))
    && (forall v :: v in rank ==> v in m && v !in blocked && m[v].Reached() && v !in goals && rank[v] < |rank|)
  }

  ghost predicate AllSupported(g: Graph, m: Marks, rank: map<string, nat>, start: string, blocked: set<string>) {
    forall v {:trigger Supported(g, m, rank, v)} ::
      v in m && v != start && v !in blocked && m[v].Reached() ==> Supported(g, m, rank, v)
  }

  ghost predicate ReachedFromEarlier(m: Marks, rank: map<string, nat>, v: string)
    requires v in rank && v in m
  {
    m[v].prev.Some? && m[v].prev.value in rank && rank[m[v].prev.value] < rank[v]
  }

  /** Finished nodes were reached from nodes finished before them. */
  ghost predicate RankedBackwards(m: Marks, rank: map<string, nat>, start: string)
    requires rank.Keys <= m.Keys
  {
    forall v {:trigger ReachedFromEarlier(m, rank, v)} :: v in rank && v != start ==> ReachedFromEarlier(m, rank, v)
  }

  ghost predicate AllRelaxed(g: Graph, m: Marks, rank: map<string, nat>, blocked: set<string>)
    requires Sensible(g) && m.Keys == g.Keys && rank.Keys <= m.Keys
  {
    forall u, a :: u in rank && a in g[u] ==> a.dst in blocked || Relaxed(m, u, a)
  }

  /** Finished nodes are no farther than waiting ones. */
  ghost predicate DoneBeforeWaiting(m: Marks, rank: map<string, nat>)
    requires rank.Keys <= m.Keys
  {
    forall u, v :: u in rank && v in m && m[v].Waiting() ==> m[u].cost <= m[v].cost
  }

  /** What every round of a search keeps; `blocked` are the nodes that earlier, failed searches have left finished. */
  ghost predicate SearchInvariant(g: Graph, m: Marks, rank: map<string, nat>, start: string, goals: seq<string>, blocked: set<string>) {
    && MarksFit(g, m, start) && RanksFit(m, rank, goals, blocked) && start !in blocked
    && AllSupported(g, m, rank, start, blocked) && RankedBackwards(m, rank, start)
    && AllRelaxed(g, m, rank, blocked) && DoneBeforeWaiting(m, rank)
  }

  /** A waiting node with the smallest cost. */
  ghost predicate IsNext(m: Marks, n: string) {
    n in m && m[n].Waiting() && forall v :: v in m && m[v].Waiting() ==> m[n].cost <= m[v].cost
  }

  function StartMarks(m: Marks, start: string): Marks
    requires start in m
  {
    m[start := m[start].(cost := 0)]
  }

  /** Between searches: the nodes that failed searches have finished, and no mark on the others. */
  ghost predicate Resting(m: Marks, blocked: set<string>) {
    forall v :: v in m ==> m[v].cost >= -1 && (m[v].done <==> v in blocked) && (!m[v].done ==> m[v] == Unmarked())
  }

  lemma {:induction false} StartInvariant(g: Graph, m: Marks, start: string, goals: seq<string>, blocked: set<string>)
    requires Sensible(g) && m.Keys == g.Keys && start in g && start !in blocked && Resting(m, blocked)
    ensures SearchInvariant(g, StartMarks(m, start), map[], start, goals, blocked)
  {
  }

  /** A search from a blocked node finds nothing to process. */
  lemma {:induction false} BlockedStart(m: Marks, start: string, blocked: set<string>)
    requires Resting(m, blocked) && start in m && start in blocked
    ensures Resting(StartMarks(m, start), blocked)
    ensures forall v :: v in m ==> !StartMarks(m, start)[v].Waiting()
  {
  }

  /** The mark of `v` has become that of a cheaper way over an arc out of `u`. */
  ghost predicate Improved(m: Marks, m': Marks, u: string, arcs: seq<Arc>, v: string)
    requires u in m && v in m && v in m'
  {
    && !m[v].done && !m'[v].done
    && m'[v].prev == Some(u) && m'[v].via.Some? && m'[v].via.value in arcs && m'[v].via.value.dst == v
    && FirstCheapest(arcs, m'[v].via.value)
    && m'[v].cost == m[u].cost + m'[v].via.value.cost
    && (m[v].cost == -1 || m'[v].cost < m[v].cost)
  }

  /** What the arcs of one node change: nothing on finished nodes, improvements elsewhere. */
  ghost predicate RelaxEffect(m: Marks, m': Marks, u: string, arcs: seq<Arc>)
    requires u in m && m'.Keys == m.Keys && forall a :: a in arcs ==> a.dst in m
  {
    && m'[u] == m[u]
    && (forall v :: v in m ==> m'[v] == m[v] || Improved(m, m', u, arcs, v))
    && (forall a :: a in arcs ==> m[a.dst].done || Relaxed(m', u, a))
  }

  lemma {:induction false} RelaxArcsEffect(m: Marks, u: string, arcs: seq<Arc>)
    requires u in m && m[u].Waiting() && forall a :: a in arcs ==> a.dst in m && a.cost >= 0
    requires forall v :: v in m ==> m[v].cost >= -1
    ensures RelaxEffect(m, RelaxArcs(m, u, arcs), u, arcs)
  {
    if arcs != [] {
      var front, last := arcs[..|arcs| - 1], arcs[|arcs| - 1];
      assert last in arcs && forall a :: a in front ==> a in arcs;
      RelaxArcsEffect(m, u, front);
      assert front + [last] == arcs;
      RelaxOneMore(m, u, front, last, RelaxArcs(m, u, front), RelaxArcs(m, u, arcs));
    }
  }

  lemma {:induction false} RelaxOneMore(m: Marks, u: string, front: seq<Arc>, last: Arc, mid: Marks, m': Marks)
    requires u in m && m[u].Waiting() && last.dst in m && last.cost >= 0 && (forall a :: a in front ==> a.dst in m && a.cost >= 0)
    requires mid.Keys == m.Keys && RelaxEffect(m, mid, u, front) && m' == RelaxArc(mid, u, last)
    requires forall v :: v in m ==> m[v].cost >= -1
    ensures m'.Keys == m.Keys && RelaxEffect(m, m', u, front + [last])
  {
    forall v | v in m
      ensures m'[v] == m[v] || Improved(m, m', u, front + [last], v)
    {
      RelaxedOne(m, u, front, last, mid, m', v);
    }
    forall a | a in front + [last]
      ensures m[a.dst].done || Relaxed(m', u, a)
    {
      StaysRelaxed(m, u, front, last, mid, m', a);
    }
  }

  lemma {:induction false} StaysRelaxed(m: Marks, u: string, front: seq<Arc>, last: Arc, mid: Marks, m': Marks, a: Arc)
    requires u in m && m[u].Waiting() && last.dst in m && last.cost >= 0 && (forall b :: b in front ==> b.dst in m && b.cost >= 0)
    requires mid.Keys == m.Keys && RelaxEffect(m, mid, u, front) && m' == RelaxArc(mid, u, last)
    requires (forall v :: v in m ==> m[v].cost >= -1) && a in front + [last]
    ensures m[a.dst].done || Relaxed(m', u, a)
  {
    assert a in front || a == last;
    assert a in front ==> m[a.dst].done || Relaxed(mid, u, a);
    assert mid[a.dst] == m[a.dst] || Improved(m, mid, u, front, a.dst);
  }

  lemma {:induction false} RelaxedOne(m: Marks, u: string, front: seq<Arc>, last: Arc, mid: Marks, m': Marks, v: string)
    requires u in m && m[u].Waiting() && v in m && last.dst in m && last.cost >= 0 && (forall a :: a in front ==> a.dst in m && a.cost >= 0)
    requires mid.Keys == m.Keys && RelaxEffect(m, mid, u, front) && m' == RelaxArc(mid, u, last)
    ensures m'[v] == m[v] || Improved(m, m', u, front + [last], v)
  {
    if v == last.dst && m'[v] != mid[v] {
      forall b | b in front && b.dst == last.dst
        ensures last.cost < b.cost
      {
        assert m[b.dst].done || Relaxed(mid, u, b);
      }
      CheaperIsFirst(front, last);
    } else if mid[v] != m[v] {
      assert Improved(m, mid, u, front, v);
      FirstCheapestStays(front, last, mid[v].via.value);
    }
  }

  /** Processing a cheapest waiting node that is no goal keeps the invariant. */
  lemma {:induction false} SettleInvariant(g: Graph, m: Marks, rank: map<string, nat>, start: string, goals: seq<string>,
                                           blocked: set<string>, n: string)
    requires SearchInvariant(g, m, rank, start, goals, blocked) && IsNext(m, n) && n !in goals
    ensures SearchInvariant(g, Settle(g, m, n), rank[n := |rank|], start, goals, blocked)
  {
    RelaxArcsEffect(m, n, g[n]);
    var m1 := RelaxArcs(m, n, g[n]);
    SettleKeepsRanks(g, m, m1, rank, start, goals, blocked, n);
    SettleKeepsSupport(g, m, m1, rank, start, goals, blocked, n);
    SettleKeepsBounds(g, m, m1, rank, start, goals, blocked, n);
  }

  lemma {:induction false} SettleKeepsRanks(g: Graph, m: Marks, m1: Marks, rank: map<string, nat>, start: string,
                                            goals: seq<string>, blocked: set<string>, n: string)
    requires MarksFit(g, m, start) && RanksFit(m, rank, goals, blocked) && IsNext(m, n) && n !in goals
    requires m1.Keys == m.Keys && RelaxEffect(m, m1, n, g[n])
    ensures MarksFit(g, Finish(m1, n), start) && RanksFit(Finish(m1, n), rank[n := |rank|], goals, blocked)
  {
    SettleRanksNext(m, m1, rank, goals, blocked, n, g[n]);
  }

  lemma {:induction false} SettleRanksNext(m: Marks, m1: Marks, rank: map<string, nat>, goals: seq<string>, blocked: set<string>,
                                           n: string, arcs: seq<Arc>)
    requires RanksFit(m, rank, goals, blocked) && IsNext(m, n) && n !in goals
    requires m1.Keys == m.Keys && (forall a :: a in arcs ==> a.dst in m) && RelaxEffect(m, m1, n, arcs)
    ensures RanksFit(Finish(m1, n), rank[n := |rank|], goals, blocked)
  {
    RankGrows(rank, n);
  }

  lemma {:induction false} SettleKeepsSupport(g: Graph, m: Marks, m1: Marks, rank: map<string, nat>, start: string,
                                              goals: seq<string>, blocked: set<string>, n: string)
    requires MarksFit(g, m, start) && RanksFit(m, rank, goals, blocked) && IsNext(m, n)
    requires AllSupported(g, m, rank, start, blocked) && RankedBackwards(m, rank, start)
    requires m1.Keys == m.Keys && RelaxEffect(m, m1, n, g[n])
    ensures AllSupported(g, Finish(m1, n), rank[n := |rank|], start, blocked) && RankedBackwards(Finish(m1, n), rank[n := |rank|], start)
  {
    var m', rank' := Finish(m1, n), rank[n := |rank|];
    forall v | v in m' && v != start && v !in blocked && m'[v].Reached()
      ensures Supported(g, m', rank', v)
    {
      SettleSupports(g, m, m1, rank, start, goals, blocked, n, v);
    }
    forall v | v in rank' && v != start
      ensures ReachedFromEarlier(m', rank', v)
    {
      assert m1[v] == m[v] && Supported(g, m, rank, v);
      assert v != n ==> ReachedFromEarlier(m, rank, v);
    }
  }

  lemma {:induction false} SettleSupports(g: Graph, m: Marks, m1: Marks, rank: map<string, nat>, start: string,
                                          goals: seq<string>, blocked: set<string>, n: string, v: string)
    requires MarksFit(g, m, start) && RanksFit(m, rank, goals, blocked) && IsNext(m, n)
    requires AllSupported(g, m, rank, start, blocked)
    requires m1.Keys == m.Keys && RelaxEffect(m, m1, n, g[n])
    requires v in m && v != start && v !in blocked && Finish(m1, n)[v].Reached()
    ensures Supported(g, Finish(m1, n), rank[n := |rank|], v)
  {
    if m1[v] == m[v] {
      assert Supported(g, m, rank, v);
      assert m1[m[v].prev.value] == m[m[v].prev.value];
    } else {
      assert Improved(m, m1, n, g[n], v);
    }
  }

  lemma {:induction false} SettleKeepsBounds(g: Graph, m: Marks, m1: Marks, rank: map<string, nat>, start: string,
                                             goals: seq<string>, blocked: set<string>, n: string)
    requires MarksFit(g, m, start) && RanksFit(m, rank, goals, blocked) && IsNext(m, n)
    requires AllRelaxed(g, m, rank, blocked) && DoneBeforeWaiting(m, rank)
    requires m1.Keys == m.Keys && RelaxEffect(m, m1, n, g[n])
    ensures AllRelaxed(g, Finish(m1, n), rank[n := |rank|], blocked) && DoneBeforeWaiting(Finish(m1, n), rank[n := |rank|])
  {
    var m', rank' := Finish(m1, n), rank[n := |rank|];
    forall u, a | u in rank' && a in g[u]
      ensures a.dst in blocked || Relaxed(m', u, a)
    {
      SettleKeepsArc(g, m, m1, rank, start, goals, blocked, n, u, a);
    }
    forall u, v | u in rank' && v in m' && m'[v].Waiting()
      ensures m'[u].cost <= m'[v].cost
    {
      assert m'[u].cost <= m[n].cost;
      assert m1[v] == m[v] || Improved(m, m1, n, g[n], v);
      assert m1[v] == m[v] ==> m[v].Waiting();
    }
  }

  lemma {:induction false} SettleKeepsArc(g: Graph, m: Marks, m1: Marks, rank: map<string, nat>, start: string,
                                          goals: seq<string>, blocked: set<string>, n: string,
                       u: string, a: Arc)
    requires MarksFit(g, m, start) && RanksFit(m, rank, goals, blocked) && IsNext(m, n)
    requires AllRelaxed(g, m, rank, blocked) && DoneBeforeWaiting(m, rank)
    requires m1.Keys == m.Keys && RelaxEffect(m, m1, n, g[n])
    requires u in g && (u in rank || u == n) && a in g[u]
    ensures a.dst in blocked || Relaxed(Finish(m1, n), u, a)
  {
    var v := a.dst;
    assert m1[v] == m[v] || Improved(m, m1, n, g[n], v);
    if u == n {
      assert m[v].done || Relaxed(m1, n, a);
      if m[v].done && v !in blocked {
        assert v in rank && m[n].Waiting();
      }
    } else if v !in blocked {
      assert Relaxed(m, u, a);
      assert m1[u] == m[u];
    }
  }

  lemma {:induction false} RankGrows(rank: map<string, nat>, n: string)
    requires n !in rank
    ensures |rank[n := |rank|]| == |rank| + 1
  {
    assert rank[n := |rank|].Keys == rank.Keys + {n};
  }

  // ------------------------------------------------------------- optimality

  /** Every open walk costs at least what the invariant says about its end; a waiting or unreached end costs at least `bound`. */
  lemma {:induction false} WalkLowerBound(g: Graph, m: Marks, rank: map<string, nat>, start: string, goals: seq<string>, blocked: set<string>,
                                          bound: int, hops: seq<Hop>, v: string)
    requires SearchInvariant(g, m, rank, start, goals, blocked) && IsOpenWalk(g, blocked, start, hops, v)
    requires forall x :: x in m && m[x].Waiting() ==> bound <= m[x].cost
    requires forall x :: x in rank ==> m[x].cost <= bound
    ensures v in m && Cost(hops) >= if v in rank then m[v].cost else bound
  {
    if hops != [] {
      var front, last := hops[..|hops| - 1], hops[|hops| - 1];
      OpenPrefix(g, blocked, start, hops, v);
      WalkLowerBound(g, m, rank, start, goals, blocked, bound, front, last.src);
      assert last.arc.cost >= 0;
      if last.src in rank {
        assert Relaxed(m, last.src, last.arc);
      }
    }
  }

  /** A goal that comes up next is a cheapest of all goals, over all open walks. */
  lemma {:induction false} NextGoalIsCheapest(g: Graph, m: Marks, rank: map<string, nat>, start: string, goals: seq<string>,
                                              blocked: set<string>, n: string)
    requires SearchInvariant(g, m, rank, start, goals, blocked) && IsNext(m, n)
    ensures forall goal, hops :: goal in goals && IsOpenWalk(g, blocked, start, hops, goal) ==> m[n].cost <= Cost(hops)
  {
    forall goal, hops | goal in goals && IsOpenWalk(g, blocked, start, hops, goal)
      ensures m[n].cost <= Cost(hops)
    {
      WalkLowerBound(g, m, rank, start, goals, blocked, m[n].cost, hops, goal);
    }
  }

  /** With nothing waiting, every node that an open walk leads to is finished. */
  lemma {:induction false} ExhaustedMeansFinished(g: Graph, m: Marks, rank: map<string, nat>, start: string, goals: seq<string>, blocked: set<string>,
                                                  hops: seq<Hop>, v: string)
    requires SearchInvariant(g, m, rank, start, goals, blocked) && IsOpenWalk(g, blocked, start, hops, v)
    requires forall x :: x in m ==> !m[x].Waiting()
    ensures v in rank
  {
    if hops != [] {
      var front, last := hops[..|hops| - 1], hops[|hops| - 1];
      OpenPrefix(g, blocked, start, hops, v);
      ExhaustedMeansFinished(g, m, rank, start, goals, blocked, front, last.src);
      assert Relaxed(m, last.src, last.arc);
    }
  }

  /** An open walk leads to every node that the search has finished. */
  lemma {:induction false} FinishedMeansOpen(g: Graph, m: Marks, rank: map<string, nat>, start: string, goals: seq<string>,
                                             blocked: set<string>, v: string)
    requires SearchInvariant(g, m, rank, start, goals, blocked) && v in rank
    ensures OpenTo(g, blocked, start, v)
    decreases rank[v]
  {
    if v == start {
      assert IsOpenWalk(g, blocked, start, [], start);
    } else {
      assert Supported(g, m, rank, v) && ReachedFromEarlier(m, rank, v);
      var u, a := m[v].prev.value, m[v].via.value;
      FinishedMeansOpen(g, m, rank, start, goals, blocked, u);
      var hops :| IsOpenWalk(g, blocked, start, hops, u);
      WalkAppend(g, start, hops, Hop(u, a));
      assert IsOpenWalk(g, blocked, start, hops + [Hop(u, a)], v);
    }
  }

  /** A search that has nothing left to process has finished exactly what it could reach, and no goal is among that. */
  lemma {:induction false} ExhaustedMeansNoGoal(g: Graph, m: Marks, rank: map<string, nat>, start: string, goals: seq<string>, blocked: set<string>)
    requires SearchInvariant(g, m, rank, start, goals, blocked)
    requires forall x :: x in m ==> !m[x].Waiting()
    ensures !OpenToAny(g, blocked, start, goals)
    ensures Resting(m, blocked + rank.Keys)
    ensures forall v :: v in rank <==> OpenTo(g, blocked, start, v)
  {
    forall v
      ensures v in rank <==> OpenTo(g, blocked, start, v)
    {
      if v in rank {
        FinishedMeansOpen(g, m, rank, start, goals, blocked, v);
      }
      if OpenTo(g, blocked, start, v) {
        var hops :| IsOpenWalk(g, blocked, start, hops, v);
        ExhaustedMeansFinished(g, m, rank, start, goals, blocked, hops, v);
      }
    }
  }

  // -------------------------------------------------- walks past a closed set

  lemma {:induction false} OpenOutside(g: Graph, closed: set<string>, start: string, end: string)
    requires forall u, a :: u in closed && u in g && a in g[u] ==> a.dst in closed
    ensures OpenTo(g, closed, start, end) <==> Reaches(g, start, end) && end !in closed
  {
    if OpenTo(g, closed, start, end) {
      var hops :| IsOpenWalk(g, closed, start, hops, end);
      EndIsOpen(g, closed, start, hops, end);
    }
    if Reaches(g, start, end) && end !in closed {
      var hops :| IsWalk(g, start, hops, end);
      OutsideClosed(g, closed, start, hops, end);
    }
  }

  lemma {:induction false} EndIsOpen(g: Graph, blocked: set<string>, start: string, hops: seq<Hop>, end: string)
    requires IsOpenWalk(g, blocked, start, hops, end)
    ensures end !in blocked
  {
    if hops != [] {
      assert hops[|hops| - 1].arc.dst !in blocked;
    }
  }
}
