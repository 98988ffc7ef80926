/**
  The store of delta images: a graph of image ids whose edges are named by header digests, and a
  map from digests to entries (pkg/image/store.go).
*/
module Store {
  import opened Results
  import opened Graphs
  import opened Dijkstra
  import opened SearchHistory
  import opened ChainMerge

  type HeaderDigest = DimgHeader -> string

  /** Different headers have different digests. */
  ghost predicate Injective(digestOf: HeaderDigest) {
    forall h, h' :: digestOf(h) == digestOf(h') ==> h == h'
  }

  function ArcFor(digestOf: HeaderDigest, h: DimgHeader): Arc {
    Arc(digestOf(h), h.parentId, 1)
  }

  /** The graph after the given headers have been added to an empty store, in order. */
  function GraphOf(digestOf: HeaderDigest, headers: seq<DimgHeader>): Graph {
    if headers == [] then map[]
    else
      var last := headers[|headers| - 1];
      AddArc(GraphOf(digestOf, headers[..|headers| - 1]), last.id, ArcFor(digestOf, last))
  }

  lemma {:induction false} GraphOfMore(digestOf: HeaderDigest, front: seq<DimgHeader>, last: DimgHeader)
    ensures GraphOf(digestOf, front + [last]) == AddArc(GraphOf(digestOf, front), last.id, ArcFor(digestOf, last))
  {
    assert (front + [last])[..|front|] == front;
  }

  /** An id that some header carries or points to. */
  ghost predicate Mentioned(headers: seq<DimgHeader>, id: string) {
    exists h :: h in headers && (h.id == id || h.parentId == id)
  }

  ghost predicate HasArc(digestOf: HeaderDigest, headers: seq<DimgHeader>, u: string, a: Arc) {
    exists h :: h in headers && h.id == u && a == ArcFor(digestOf, h)
  }

  /** The graph has a node for every id mentioned, and an arc for every header and no other. */
  lemma {:induction false} GraphArcs(digestOf: HeaderDigest, headers: seq<DimgHeader>)
    ensures var g := GraphOf(digestOf, headers);
            && (forall u :: u in g <==> Mentioned(headers, u))
            && (forall u, a :: u in g ==> (a in g[u] <==> HasArc(digestOf, headers, u, a)))
  {
    if headers != [] {
      var front, last := headers[..|headers| - 1], headers[|headers| - 1];
      GraphArcs(digestOf, front);
      assert headers == front + [last];
      var g, g' := GraphOf(digestOf, front), GraphOf(digestOf, headers);
      forall u
        ensures u in g' <==> Mentioned(headers, u)
      {
        assert u in g <==> Mentioned(front, u);
        MentionedMore(front, last, u);
      }
      forall u, a | u in g'
        ensures a in g'[u] <==> HasArc(digestOf, headers, u, a)
      {
        assert u in g ==> (a in g[u] <==> HasArc(digestOf, front, u, a));
        HasArcMore(digestOf, front, last, u, a);
        assert u !in g ==> !Mentioned(front, u);
      }
    }
  }

  /** Arcs lead to nodes, at no negative cost. */
  lemma {:induction false} GraphIsSensible(digestOf: HeaderDigest, headers: seq<DimgHeader>)
    ensures Sensible(GraphOf(digestOf, headers))
  {
    var g := GraphOf(digestOf, headers);
    GraphArcs(digestOf, headers);
    forall u, a: Arc | u in g && a in g[u]
      ensures a.dst in g && a.cost >= 0
    {
      assert HasArc(digestOf, headers, u, a);
      var h :| h in headers && h.id == u && a == ArcFor(digestOf, h);
      assert Mentioned(headers, h.parentId);
    }
  }

  lemma {:induction false} MentionedMore(front: seq<DimgHeader>, last: DimgHeader, u: string)
    ensures Mentioned(front + [last], u) <==> Mentioned(front, u) || last.id == u || last.parentId == u
  {
    assert last in front + [last];
  }

  lemma {:induction false} HasArcMore(digestOf: HeaderDigest, front: seq<DimgHeader>, last: DimgHeader, u: string, a: Arc)
    ensures HasArc(digestOf, front + [last], u, a) <==>
              HasArc(digestOf, front, u, a) || (last.id == u && a == ArcFor(digestOf, last))
    ensures HasArc(digestOf, front, u, a) ==> Mentioned(front, u)
  {
    assert last in front + [last];
  }

  /** The arcs of an id's node: those of the headers with that id, in the order in which they were added. */
  function ArcsFrom(digestOf: HeaderDigest, headers: seq<DimgHeader>, id: string): seq<Arc> {
    if headers == [] then []
    else
      var last := headers[|headers| - 1];
      ArcsFrom(digestOf, headers[..|headers| - 1], id) + if last.id == id then [ArcFor(digestOf, last)] else []
  }

  lemma {:induction false} GraphInOrder(digestOf: HeaderDigest, headers: seq<DimgHeader>, id: string)
    ensures id in GraphOf(digestOf, headers) ==> GraphOf(digestOf, headers)[id] == ArcsFrom(digestOf, headers, id)
    ensures id !in GraphOf(digestOf, headers) ==> ArcsFrom(digestOf, headers, id) == []
  {
    if headers != [] {
      GraphInOrder(digestOf, headers[..|headers| - 1], id);
    }
  }

  /** Of the deltas between the same two images it was stored first. */
  ghost predicate FirstStored(headers: seq<DimgHeader>, h: DimgHeader) {
    exists k: nat :: IsFirstStored(headers, k, h)
  }

  ghost predicate IsFirstStored(headers: seq<DimgHeader>, k: nat, h: DimgHeader) {
    k < |headers| && headers[k] == h && forall j :: 0 <= j < k ==> headers[j].id != h.id || headers[j].parentId != h.parentId
  }

  lemma {:induction false} ArcListed(digestOf: HeaderDigest, headers: seq<DimgHeader>, h: DimgHeader)
    requires h in headers
    ensures ArcFor(digestOf, h) in ArcsFrom(digestOf, headers, h.id)
  {
    var front, last := headers[..|headers| - 1], headers[|headers| - 1];
    if h != last {
      assert h in front;
      ArcListed(digestOf, front, h);
    }
  }

  /** The first arc between two nodes is that of the first delta stored between the two images. */
  lemma {:induction false} FirstArcFirstStored(digestOf: HeaderDigest, headers: seq<DimgHeader>, h: DimgHeader, i: nat)
    requires Injective(digestOf) && i < |ArcsFrom(digestOf, headers, h.id)| && ArcsFrom(digestOf, headers, h.id)[i] == ArcFor(digestOf, h)
    requires forall j :: 0 <= j < i ==> ArcsFrom(digestOf, headers, h.id)[j].dst != h.parentId
    ensures FirstStored(headers, h)
  {
    var front, last := headers[..|headers| - 1], headers[|headers| - 1];
    var arcs, all := ArcsFrom(digestOf, front, h.id), ArcsFrom(digestOf, headers, h.id);
    assert forall j :: 0 <= j < |arcs| ==> arcs[j] == all[j];
    if i < |arcs| {
      FirstArcFirstStored(digestOf, front, h, i);
      var k: nat :| IsFirstStored(front, k, h);
      assert IsFirstStored(headers, k, h);
    } else {
      assert digestOf(last) == digestOf(h);
      forall j | 0 <= j < |front|
        ensures headers[j].id != h.id || headers[j].parentId != h.parentId
      {
        if headers[j].id == h.id {
          ArcListed(digestOf, front, front[j]);
        }
      }
      assert IsFirstStored(headers, |front|, h);
    }
  }

  lemma {:induction false} FirstCheapestFirstStored(digestOf: HeaderDigest, headers: seq<DimgHeader>, h: DimgHeader)
    requires Injective(digestOf) && h.id in GraphOf(digestOf, headers)
    requires FirstCheapest(GraphOf(digestOf, headers)[h.id], ArcFor(digestOf, h))
    ensures FirstStored(headers, h)
  {
    GraphInOrder(digestOf, headers, h.id);
    var arcs := ArcsFrom(digestOf, headers, h.id);
    var i: nat :| IsFirstCheapest(arcs, i, ArcFor(digestOf, h));
    forall j | 0 <= j < i
      ensures arcs[j].dst != h.parentId
    {
      UnitCosts(digestOf, headers, h.id, j);
    }
    FirstArcFirstStored(digestOf, headers, h, i);
  }

  lemma {:induction false} UnitCosts(digestOf: HeaderDigest, headers: seq<DimgHeader>, id: string, i: nat)
    requires i < |ArcsFrom(digestOf, headers, id)|
    ensures ArcsFrom(digestOf, headers, id)[i].cost == 1
  {
    if i < |ArcsFrom(digestOf, headers[..|headers| - 1], id)| {
      UnitCosts(digestOf, headers[..|headers| - 1], id, i);
    }
  }

  /** What adding a header means for later requests. */
  function AddedHeader(digestOf: HeaderDigest, h: DimgHeader): Event {
    Added(h.id, ArcFor(digestOf, h))
  }

  // ----------------------------------------------------------------- chains

  /** Each delta's parent is the image that the next delta yields. */
  ghost predicate Linked(chain: seq<DimgHeader>) {
    forall i :: 0 < i < |chain| ==> chain[i].id == chain[i - 1].parentId
  }

  ghost predicate Leads(chain: seq<DimgHeader>, start: string, goal: string) {
    if chain == [] then start == goal
    else Linked(chain) && chain[0].id == start && chain[|chain| - 1].parentId == goal
  }

  ghost predicate IsChain(headers: seq<DimgHeader>, chain: seq<DimgHeader>, start: string, goal: string) {
    && (forall i :: 0 <= i < |chain| ==> chain[i] in headers)
    && Mentioned(headers, start) && Leads(chain, start, goal)
  }

  /** Neither the start nor any image that the chain comes to is among the given ids. */
  ghost predicate ClearOf(blocked: set<string>, chain: seq<DimgHeader>, start: string) {
    start !in blocked && forall i :: 0 <= i < |chain| ==> chain[i].parentId !in blocked
  }

  ghost predicate LeadsTo(headers: seq<DimgHeader>, blocked: set<string>, start: string, goal: string) {
    exists chain :: IsChain(headers, chain, start, goal) && ClearOf(blocked, chain, start)
  }

  lemma {:induction false} UnknownLeadsNowhere(headers: seq<DimgHeader>, blocked: set<string>, start: string, goals: seq<string>)
    requires !Mentioned(headers, start)
    ensures !Updatable(headers, blocked, start, goals) && forall id :: !LeadsTo(headers, blocked, start, id)
  {
  }

  /** Some chain of deltas leads from the start to one of the goals, clear of the blocked ids. */
  ghost predicate Updatable(headers: seq<DimgHeader>, blocked: set<string>, start: string, goals: seq<string>) {
    exists goal :: goal in goals && LeadsTo(headers, blocked, start, goal)
  }

  /** Where a chain from `start` ends. */
  function EndOf(chain: seq<DimgHeader>, start: string): string {
    if chain == [] then start else chain[|chain| - 1].parentId
  }

  /** A chain to a goal that passes no goal before its end, with no shorter one to any goal; all of them clear of the blocked ids. */
  ghost predicate IsBestChain(headers: seq<DimgHeader>, chain: seq<DimgHeader>, start: string, goals: seq<string>, blocked: set<string>) {
    && EndOf(chain, start) in goals && IsChain(headers, chain, start, EndOf(chain, start)) && ClearOf(blocked, chain, start)
    && (forall i :: 0 <= i < |chain| ==> chain[i].id !in goals)
    && forall goal, other :: goal in goals && IsChain(headers, other, start, goal) && ClearOf(blocked, other, start) ==> |chain| <= |other|
  }

  function HopsFor(digestOf: HeaderDigest, chain: seq<DimgHeader>): seq<Hop> {
    seq(|chain|, i requires 0 <= i < |chain| => Hop(chain[i].id, ArcFor(digestOf, chain[i])))
  }

  /** A chain of deltas is a walk through the graph, as long as it costs. */
  lemma {:induction false} ChainIsWalk(digestOf: HeaderDigest, headers: seq<DimgHeader>, chain: seq<DimgHeader>, start: string, goal: string)
    requires IsChain(headers, chain, start, goal)
    ensures IsWalk(GraphOf(digestOf, headers), start, HopsFor(digestOf, chain), goal)
    ensures Cost(HopsFor(digestOf, chain)) == |chain|
  {
    var g := GraphOf(digestOf, headers);
    GraphArcs(digestOf, headers);
    if chain != [] {
      var front, last := chain[..|chain| - 1], chain[|chain| - 1];
      var hops := HopsFor(digestOf, chain);
      ChainIsWalk(digestOf, headers, front, start, last.id);
      assert hops[..|hops| - 1] == HopsFor(digestOf, front);
      assert HasArc(digestOf, headers, last.id, ArcFor(digestOf, last)) && Mentioned(headers, last.id);
    }
  }

  lemma {:induction false} ClearChainIsOpen(digestOf: HeaderDigest, headers: seq<DimgHeader>, blocked: set<string>,
                                            chain: seq<DimgHeader>, start: string, goal: string)
    requires IsChain(headers, chain, start, goal) && ClearOf(blocked, chain, start)
    ensures IsOpenWalk(GraphOf(digestOf, headers), blocked, start, HopsFor(digestOf, chain), goal)
  {
    ChainIsWalk(digestOf, headers, chain, start, goal);
  }

  /** A walk through the graph is a chain of deltas, hop by hop. */
  lemma {:induction false} WalkIsChain(digestOf: HeaderDigest, headers: seq<DimgHeader>, start: string, hops: seq<Hop>,
                                       end: string) returns (chain: seq<DimgHeader>)
    requires IsWalk(GraphOf(digestOf, headers), start, hops, end)
    ensures IsChain(headers, chain, start, end) && HopsFor(digestOf, chain) == hops
    decreases |hops|
  {
    GraphArcs(digestOf, headers);
    if hops == [] {
      chain := [];
    } else {
      var last := hops[|hops| - 1];
      var front := WalkIsChain(digestOf, headers, start, hops[..|hops| - 1], last.src);
      assert HasArc(digestOf, headers, last.src, last.arc);
      var h :| h in headers && h.id == last.src && last.arc == ArcFor(digestOf, h);
      chain := front + [h];
      ChainAppend(headers, front, start, h);
      HopsAppend(digestOf, front, h);
      assert hops == hops[..|hops| - 1] + [last];
    }
  }

  lemma {:induction false} ChainAppend(headers: seq<DimgHeader>, chain: seq<DimgHeader>, start: string, h: DimgHeader)
    requires IsChain(headers, chain, start, h.id) && h in headers
    ensures IsChain(headers, chain + [h], start, h.parentId)
  {
  }

  lemma {:induction false} HopsAppend(digestOf: HeaderDigest, chain: seq<DimgHeader>, h: DimgHeader)
    ensures HopsFor(digestOf, chain + [h]) == HopsFor(digestOf, chain) + [Hop(h.id, ArcFor(digestOf, h))]
  {
  }

  lemma {:induction false} OpenMeansClear(digestOf: HeaderDigest, blocked: set<string>, chain: seq<DimgHeader>, start: string)
    ensures Avoids(blocked, start, HopsFor(digestOf, chain)) <==> ClearOf(blocked, chain, start)
  {
    var hops := HopsFor(digestOf, chain);
    if Avoids(blocked, start, hops) {
      forall i | 0 <= i < |chain|
        ensures chain[i].parentId !in blocked
      {
        assert hops[i].arc.dst == chain[i].parentId;
      }
    }
  }

  /** An open walk leads to an id exactly when a clear chain of deltas does. */
  lemma {:induction false} LeadsToMeansOpen(digestOf: HeaderDigest, headers: seq<DimgHeader>, blocked: set<string>, start: string, goal: string)
    ensures OpenTo(GraphOf(digestOf, headers), blocked, start, goal) <==> LeadsTo(headers, blocked, start, goal)
  {
    var g := GraphOf(digestOf, headers);
    if OpenTo(g, blocked, start, goal) {
      var hops :| IsOpenWalk(g, blocked, start, hops, goal);
      var chain := WalkIsChain(digestOf, headers, start, hops, goal);
      OpenMeansClear(digestOf, blocked, chain, start);
    }
    if LeadsTo(headers, blocked, start, goal) {
      var chain :| IsChain(headers, chain, start, goal) && ClearOf(blocked, chain, start);
      ClearChainIsOpen(digestOf, headers, blocked, chain, start, goal);
    }
  }

  /** The graph reaches a goal exactly when a chain of deltas leads there. */
  lemma {:induction false} UpdatableMeansOpen(digestOf: HeaderDigest, headers: seq<DimgHeader>, blocked: set<string>,
                                              start: string, goals: seq<string>)
    ensures OpenToAny(GraphOf(digestOf, headers), blocked, start, goals) <==> Updatable(headers, blocked, start, goals)
  {
    forall goal
      ensures OpenTo(GraphOf(digestOf, headers), blocked, start, goal) <==> LeadsTo(headers, blocked, start, goal)
    {
      LeadsToMeansOpen(digestOf, headers, blocked, start, goal);
    }
  }

  /** A best chain yields no image twice. */
  lemma {:induction false} BestChainIsSimple(headers: seq<DimgHeader>, chain: seq<DimgHeader>, start: string,
                                             goals: seq<string>, blocked: set<string>, i: nat, j: nat)
    requires IsBestChain(headers, chain, start, goals, blocked) && i < j < |chain|
    ensures chain[i].id != chain[j].id
  {
    if chain[i].id == chain[j].id {
      var shorter := chain[..i] + chain[j..];
      var goal := EndOf(chain, start);
      assert forall k :: 0 < k < |shorter| ==> shorter[k].id == shorter[k - 1].parentId;
      assert IsChain(headers, shorter, start, goal) && ClearOf(blocked, shorter, start);
    }
  }

  // ------------------------------------------------------------------ store

  lemma {:induction false} ChildStored(digestOf: HeaderDigest, child: DimgHeader) returns (s: Situation)
    requires child.id != "" && child.parentId != ""
    ensures s == Situation(map[], {}).Next(AddedHeader(digestOf, child)) && !s.Succeeds(child.id, [""])
    ensures child.id in s.Around(child.id) && child.parentId in s.Around(child.id)
  {
    s := Situation(map[], {}).Next(AddedHeader(digestOf, child));
    NothingNamed(s, child.id, "");
    ReachesNext(s, child.id, ArcFor(digestOf, child));
  }

  /** Both images have their chain down to the empty base, once both headers are there. */
  lemma {:induction false} BothUpdatable(child: DimgHeader, parent: DimgHeader)
    requires child.parentId == parent.id && parent.parentId == ""
    ensures Updatable([child, parent], {}, child.id, [""]) && Updatable([child, parent], {}, parent.id, [""])
  {
    assert child in [child, parent] && parent in [child, parent] && "" in [""];
    assert IsChain([child, parent], [child, parent], child.id, "") && IsChain([child, parent], [parent], parent.id, "");
    assert ClearOf({}, [child, parent], child.id) && ClearOf({}, [parent], parent.id);
  }

  /**
    An image is stored before its parent, and a request for it fails. Once the parent has been stored
    as well, both have their chain down to the empty base. Still all requests for either of them fail,
    whatever else is stored and asked for, until some request succeeds.
  */
  lemma {:induction false} ChildBeforeParent(digestOf: HeaderDigest, child: DimgHeader, parent: DimgHeader, more: seq<Event>)
    requires child.parentId == parent.id && parent.parentId == "" && child.id != "" && parent.id != ""
    ensures var s := Situation(map[], {}).Next(AddedHeader(digestOf, child));
            var both := s.Next(Searched(child.id, [""])).Next(AddedHeader(digestOf, parent));
            && !s.Succeeds(child.id, [""]) && both.graph == GraphOf(digestOf, [child, parent])
            && Updatable([child, parent], {}, child.id, [""]) && Updatable([child, parent], {}, parent.id, [""])
            && (both.AllFail(more) ==> !both.After(more).Succeeds(child.id, [""]) && !both.After(more).Succeeds(parent.id, [""]))
  {
    var s := ChildStored(digestOf, child);
    var both := s.Next(Searched(child.id, [""])).Next(AddedHeader(digestOf, parent));
    BothUpdatable(child, parent);
    GraphOfMore(digestOf, [], child);
    GraphOfMore(digestOf, [child], parent);
    assert [] + [child] == [child] && [child] + [parent] == [child, parent];
    if both.AllFail(more) {
      BlockedEndsFail(both, more, child.id, [""]);
      BlockedEndsFail(both, more, parent.id, [""]);
    }
  }

  class DimgStore {
    const dimgGraph: DirectedGraph
    const digestOf: HeaderDigest
    var dimgDigests: map<string, DimgEntry>

    /** The headers of all delta images added so far. */
    ghost var added: seq<DimgHeader>

    /** A header's digest leads to an entry that carries the header. */
    ghost predicate StoresHeader(h: DimgHeader)
      reads this`dimgDigests, dimgDigests.Values
    {
      digestOf(h) in dimgDigests && dimgDigests[digestOf(h)].header == h
    }

    /** The graph is that of the headers added. */
    ghost predicate GraphFits()
      reads this`added, dimgGraph, dimgGraph.nodes.Values
    {
      dimgGraph.Valid() && dimgGraph.AtRest() && dimgGraph.graph == GraphOf(digestOf, added)
    }

    ghost predicate KnowsAll(headers: seq<DimgHeader>)
      reads this`dimgDigests
    {
      forall h :: h in headers ==> digestOf(h) in dimgDigests
    }

    /** And the digest on every edge is known. */
    ghost predicate Linked()
      reads this, dimgGraph, dimgGraph.nodes.Values
    {
      Injective(digestOf) && GraphFits() && KnowsAll(added)
    }

    /** Moreover, every entry still carries the header that it was stored with. */
    ghost predicate Valid()
      reads this, dimgGraph, dimgGraph.nodes.Values, dimgDigests.Values
    {
      Linked() && StoresAll(added)
    }

    /** The ids that failed requests have left blocked. */
    ghost function Blocked(): set<string>
      reads this, dimgGraph
    {
      dimgGraph.Blocked()
    }

    /** What the next request finds. */
    ghost function Situation(): Situation
      reads this, dimgGraph
    {
      dimgGraph.Situation()
    }

    /** The entries that the digests of the headers of a chain lead to. */
    ghost predicate Holds(dimgs: seq<DimgEntry>, chain: seq<DimgHeader>)
      reads this
    {
      && |dimgs| == |chain|
      && forall i :: 0 <= i < |chain| ==> digestOf(chain[i]) in dimgDigests && dimgs[i] == dimgDigests[digestOf(chain[i])]
    }

    constructor (digestOf: HeaderDigest)
      requires Injective(digestOf)
      ensures Valid() && Blocked() == {} && added == [] && this.digestOf == digestOf
      ensures fresh(dimgGraph) && dimgDigests == map[]
    {
      this.digestOf := digestOf;
      this.dimgGraph := new DirectedGraph();
      this.dimgDigests := map[];
      this.added := [];
    }

    /** Every header of the list is still carried by the entry of its digest. */
    ghost predicate StoresAll(headers: seq<DimgHeader>)
      reads this`dimgDigests, dimgDigests.Values
    {
      forall h {:trigger StoresHeader(h)} :: h in headers ==> StoresHeader(h)
    }

    /** The digest map has a new entry for the header, and the rest of it is as it was. */
    twostate predicate EntryAdded(header: DimgHeader, path: string)
      reads this`dimgDigests, dimgDigests.Values
    {
      && digestOf(header) in dimgDigests && fresh(dimgDigests[digestOf(header)])
      && dimgDigests == old(dimgDigests)[digestOf(header) := dimgDigests[digestOf(header)]]
      && dimgDigests[digestOf(header)].header == header && dimgDigests[digestOf(header)].path == path
      && (old(StoresAll(added)) ==> StoresAll(old(added) + [header]))
    }

    /**
      `AddDimg`, once the header has been read and the file has its place. Under the lock of the store
      the order of the two updates cannot be observed.
    */
    method AddDimg(header: DimgHeader, path: string)
      requires Linked()
      modifies this`dimgDigests, this`added, dimgGraph, dimgGraph.nodes.Values`edges
      ensures Linked() && added == old(added) + [header] && Situation() == old(Situation()).Next(AddedHeader(digestOf, header))
      ensures EntryAdded(header, path) && dimgGraph.Grown() && (old(Valid()) ==> Valid())
    {
      StoreEntry(header, path);
      AddArcFor(header);
    }

    /** The entry of a new header, under its digest; the others are left alone. */
    method StoreEntry(header: DimgHeader, path: string)
      requires Injective(digestOf)
      modifies this`dimgDigests
      ensures EntryAdded(header, path)
      ensures old(KnowsAll(added)) ==> KnowsAll(added + [header])
    {
      var entry := new DimgEntry(header, path);
      dimgDigests := dimgDigests[digestOf(header) := entry];
      forall h | old(StoresAll(added)) && h in added + [header]
        ensures StoresHeader(h)
      {
        assert h in added ==> old(StoresHeader(h));
      }
    }

    /** The edge of a new header, from its id to its parent's; the entries are left alone. */
    method AddArcFor(header: DimgHeader)
      requires GraphFits()
      modifies this`added, dimgGraph, dimgGraph.nodes.Values`edges
      ensures GraphFits()
      ensures old(StoresAll(added + [header])) ==> StoresAll(added)
      ensures dimgGraph.Grown()
      ensures added == old(added) + [header] && Situation() == old(Situation()).Next(AddedHeader(digestOf, header))
    {
      dimgGraph.Add(header.id, header.parentId, digestOf(header), 1);
      GraphOfMore(digestOf, added, header);
      added := added + [header];
    }

    /** The search may run, and none starts at an unknown id. */
    lemma {:induction false} SearchMayRun(start: string, goals: seq<string>, blocked: set<string>)
      requires Linked()
      ensures Sensible(dimgGraph.graph)
      ensures start in dimgGraph.nodes <==> Mentioned(added, start)
    {
      GraphArcs(digestOf, added);
      GraphIsSensible(digestOf, added);
    }

    /** Each delta of the chain was stored before any other between the same two images. */
    ghost predicate AllFirstStored(chain: seq<DimgHeader>)
      reads this`added
    {
      forall i :: 0 <= i < |chain| ==> FirstStored(added, chain[i])
    }

    /** A best path through the graph is a best chain of the headers that its edges name, the first ones of their kind. */
    lemma {:induction false} PathIsBestChain(path: Path, start: string, goals: seq<string>, blocked: set<string>) returns (chain: seq<DimgHeader>)
      requires Linked() && IsBestPath(path, dimgGraph.graph, start, goals, blocked)
      ensures IsBestChain(added, chain, start, goals, blocked)
      ensures NamesChain(path, chain) && AllFirstStored(chain)
    {
      var end, hops := path.Goal(), HopsOf(path);
      chain := WalkIsChain(digestOf, added, start, hops, end);
      OpenMeansClear(digestOf, blocked, chain, start);
      ChainIsWalk(digestOf, added, chain, start, end);
      forall i | 0 <= i < |chain|
        ensures path.via[i].name == digestOf(chain[i]) && chain[i].id == path.nodes[i].name
      {
        assert hops[i] == Hop(chain[i].id, ArcFor(digestOf, chain[i]));
      }
      NothingShorter(chain, start, goals, blocked, path);
      forall i | 0 <= i < |chain|
        ensures FirstStored(added, chain[i])
      {
        assert hops[i] == Hop(chain[i].id, ArcFor(digestOf, chain[i]));
        FirstCheapestFirstStored(digestOf, added, chain[i]);
      }
    }

    lemma {:induction false} NothingShorter(chain: seq<DimgHeader>, start: string, goals: seq<string>, blocked: set<string>, path: Path)
      requires Linked() && IsBestPath(path, dimgGraph.graph, start, goals, blocked) && Cost(HopsOf(path)) == |chain|
      ensures forall goal, other :: goal in goals && IsChain(added, other, start, goal) && ClearOf(blocked, other, start) ==> |chain| <= |other|
    {
      forall goal, other | goal in goals && IsChain(added, other, start, goal) && ClearOf(blocked, other, start)
        ensures |chain| <= |other|
      {
        ClearChainIsOpen(digestOf, added, blocked, other, start, goal);
        ChainIsWalk(digestOf, added, other, start, goal);
      }
    }

    /** The loop that looks up the entries of a path; none of them is missing. */
    method EntriesOf(path: Path, ghost chain: seq<DimgHeader>) returns (dimgChain: seq<DimgEntry>)
      requires Linked() && NamesChain(path, chain)
      ensures Holds(dimgChain, chain)
    {
      dimgChain := [];
      for i := 0 to |path.via|
        invariant |dimgChain| == i
        invariant forall j :: 0 <= j < i ==> digestOf(chain[j]) in dimgDigests && dimgChain[j] == dimgDigests[digestOf(chain[j])]
      {
        assert chain[i] in added;
        dimgChain := dimgChain + [dimgDigests[path.via[i].name]];
      }
    }

    /** The outcome of a request for a chain, in a store with these ids blocked before it. */
    ghost predicate Selected(r: Result<seq<DimgEntry>>, chain: seq<DimgHeader>, start: string, goals: seq<string>, blocked: set<string>)
      reads this, dimgGraph
    {
      && (r.Success? <==> Updatable(added, blocked, start, goals))
      && (r.Success? ==> Blocked() == {} && IsBestChain(added, chain, start, goals, blocked) && Holds(r.value, chain) && AllFirstStored(chain))
      && (r.Failure? ==> forall id :: Mentioned(added, id) ==> (id in Blocked() <==> id in blocked || LeadsTo(added, blocked, start, id)))
    }

    /** What the search for a chain brings: a path over the chain's edges. */
    ghost predicate Found(found: Result<Path>, chain: seq<DimgHeader>, start: string, goals: seq<string>, blocked: set<string>)
      reads this, dimgGraph
    {
      && (found.Success? <==> Updatable(added, blocked, start, goals))
      && (found.Success? ==> Blocked() == {} && IsBestChain(added, chain, start, goals, blocked) && AllFirstStored(chain))
      && (found.Success? ==> NamesChain(found.value, chain))
      && (found.Failure? ==> forall id :: Mentioned(added, id) ==> (id in Blocked() <==> id in blocked || LeadsTo(added, blocked, start, id)))
    }

    /** The edges of the path are named after the headers of the chain. */
    ghost predicate NamesChain(path: Path, chain: seq<DimgHeader>)
      reads this
    {
      |chain| == |path.via| && forall i :: 0 <= i < |chain| ==> chain[i] in added && path.via[i].name == digestOf(chain[i])
    }

    /** A search from an id that no header mentions changes nothing. */
    lemma {:induction false} UnknownFails(start: string, goals: seq<string>)
      requires Linked() && start !in dimgGraph.nodes
      ensures !Updatable(added, Blocked(), start, goals) && Situation() == Situation().Next(Searched(start, goals))
      ensures forall id :: Mentioned(added, id) ==> !LeadsTo(added, Blocked(), start, id)
    {
      SearchMayRun(start, goals, Blocked());
      UnknownLeadsNowhere(added, Blocked(), start, goals);
      UnknownStart(Situation(), start, goals);
    }

    /** What a search says about the graph, in terms of the headers added. */
    lemma {:induction false} SearchMeansChains(found: Result<Path>, start: string, goals: seq<string>, blocked: set<string>)
      requires Linked() && dimgGraph.Concluded(found, start, goals, blocked)
      ensures found.Success? <==> Updatable(added, blocked, start, goals)
      ensures found.Success? ==> Blocked() == {}
      ensures found.Failure? ==> forall id :: Mentioned(added, id) ==> (id in Blocked() <==> id in blocked || LeadsTo(added, blocked, start, id))
    {
      UpdatableMeansOpen(digestOf, added, blocked, start, goals);
      if found.Failure? {
        forall id | Mentioned(added, id)
          ensures id in Blocked() <==> id in blocked || LeadsTo(added, blocked, start, id)
        {
          GraphArcs(digestOf, added);
          LeadsToMeansOpen(digestOf, added, blocked, start, id);
        }
      }
    }

    /** The search for a chain, on a start that the graph knows. */
    method FindChain(startDimgId: string, goalDimgIds: seq<string>) returns (found: Result<Path>, ghost chain: seq<DimgHeader>)
      requires Linked() && startDimgId in dimgGraph.nodes
      modifies dimgGraph`marks, dimgGraph.nodes.Values
      ensures Linked() && added == old(added) && Found(found, chain, startDimgId, goalDimgIds, old(Blocked()))
      ensures Situation() == old(Situation()).Next(Searched(startDimgId, goalDimgIds))
    {
      chain := [];
      ghost var blocked := Blocked();
      SearchMayRun(startDimgId, goalDimgIds, blocked);
      found := dimgGraph.ShortestPathWithMultipleGoals(startDimgId, goalDimgIds);
      SearchMeansChains(found, startDimgId, goalDimgIds, blocked);
      if found.Success? {
        chain := PathIsBestChain(found.value, startDimgId, goalDimgIds, blocked);
      }
    }

    /**
      `GetDimgEntriesWithDimgIds`: a shortest chain of delta images from the wanted image down to one
      of the images at hand. It succeeds exactly when there is such a chain clear of the blocked ids;
      a failure blocks all ids that were within reach. A start that is no node of the graph makes the
      search panic. The entries are found by digest, whatever headers they carry by now.
    */
    method GetDimgEntriesWithDimgIds(startDimgId: string, goalDimgIds: seq<string>)
      returns (r: Result<seq<DimgEntry>>, ghost chain: seq<DimgHeader>)
      requires Linked()
      modifies dimgGraph`marks, dimgGraph.nodes.Values
      ensures Linked() && added == old(added) && Selected(r, chain, startDimgId, goalDimgIds, old(Blocked()))
      ensures Situation() == old(Situation()).Next(Searched(startDimgId, goalDimgIds))
    {
      if startDimgId !in dimgGraph.nodes {
        UnknownFails(startDimgId, goalDimgIds);
        r, chain := Failure("panic: nil pointer dereference"), [];
      } else {
        var found;
        found, chain := FindChain(startDimgId, goalDimgIds);
        if found.Failure? {
          r := Failure("failed to get shortest path");
        } else {
          var dimgChain := EntriesOf(found.value, chain);
          r := Success(dimgChain);
        }
      }
    }
  }
}
