/**
  Searches on a graph that grows in between (pkg/algorithm/dijkstra.go): a failed search leaves its
  marks, adding an edge leaves them alone, and only a search that succeeds clears them.
*/
module SearchHistory {
  import opened Graphs

  datatype Event = Added(src: string, arc: Arc) | Searched(start: string, goals: seq<string>)

  /** A graph, and the nodes that failed searches have left finished. */
  datatype Situation = Situation(graph: Graph, blocked: set<string>)
  {
    ghost predicate Succeeds(start: string, goals: seq<string>) {
      OpenToAny(graph, blocked, start, goals)
    }

    /** All that a search from the node can process. */
    ghost function Around(start: string): set<string> {
      set v | v in graph && OpenTo(graph, blocked, start, v)
    }

    ghost function Next(e: Event): Situation {
      match e
      case Added(src, arc) => Situation(AddArc(graph, src, arc), blocked)
      case Searched(start, goals) => Situation(graph, if Succeeds(start, goals) then {} else blocked + Around(start))
    }

    ghost function After(events: seq<Event>): Situation {
      if events == [] then this else After(events[..|events| - 1]).Next(events[|events| - 1])
    }

    /** The i-th event is a search, and it can process the node. */
    ghost predicate ReachedAt(events: seq<Event>, i: nat, v: string) {
      i < |events| && events[i].Searched? && v in After(events[..i]).Around(events[i].start)
    }

    /** None of the searches succeeds. */
    ghost predicate AllFail(events: seq<Event>) {
      forall i: nat {:trigger FailsAt(events, i)} :: i < |events| ==> FailsAt(events, i)
    }

    ghost predicate FailsAt(events: seq<Event>, i: nat)
      requires i < |events|
    {
      events[i].Searched? ==> !After(events[..i]).Succeeds(events[i].start, events[i].goals)
    }
  }

  // ---------------------------------------------------------------- failures

  lemma {:induction false} AllFailFront(s: Situation, events: seq<Event>)
    requires events != [] && s.AllFail(events)
    ensures s.AllFail(events[..|events| - 1]) && s.FailsAt(events, |events| - 1)
  {
    var front := events[..|events| - 1];
    forall i: nat | i < |front|
      ensures s.FailsAt(front, i)
    {
      assert s.FailsAt(events, i) && front[..i] == events[..i];
    }
  }

  lemma {:induction false} ReachedAtFront(s: Situation, events: seq<Event>, i: nat, v: string)
    requires events != [] && i < |events| - 1
    ensures s.ReachedAt(events[..|events| - 1], i, v) <==> s.ReachedAt(events, i, v)
  {
    assert events[..|events| - 1][..i] == events[..i];
  }

  /**
    Until a search succeeds, what is blocked is what was blocked before, and what each search could
    reach at its time, clear of what was blocked then.
  */
  lemma {:induction false} FailuresAddUp(s: Situation, events: seq<Event>, v: string)
    requires s.AllFail(events)
    ensures v in s.After(events).blocked <==> v in s.blocked || exists i: nat :: s.ReachedAt(events, i, v)
  {
    if events != [] {
      var front, last := events[..|events| - 1], |events| - 1;
      AllFailFront(s, events);
      FailuresAddUp(s, front, v);
      if i: nat :| s.ReachedAt(front, i, v) {
        ReachedAtFront(s, events, i, v);
      }
      if i: nat :| s.ReachedAt(events, i, v) {
        if i < last {
          ReachedAtFront(s, events, i, v);
        }
      }
      assert events[..last] == front;
      assert v in s.After(events).blocked <==> v in s.After(front).blocked || s.ReachedAt(events, last, v);
    }
  }

  /** The walk starts at the node or comes to it. */
  ghost predicate Passes(start: string, hops: seq<Hop>, v: string) {
    v == start || exists i :: 0 <= i < |hops| && hops[i].arc.dst == v
  }

  lemma {:induction false} AvoidsMeans(blocked: set<string>, start: string, hops: seq<Hop>)
    ensures Avoids(blocked, start, hops) <==> forall v :: Passes(start, hops, v) ==> v !in blocked
  {
    if forall v :: Passes(start, hops, v) ==> v !in blocked {
      forall i | 0 <= i < |hops|
        ensures hops[i].arc.dst !in blocked
      {
        assert Passes(start, hops, hops[i].arc.dst);
      }
      assert Passes(start, hops, start);
    }
  }

  /** A way to one of the goals in the graph as it is now, past all that searches have reached so far. */
  ghost predicate FreshWay(s: Situation, events: seq<Event>, start: string, goals: seq<string>, goal: string, hops: seq<Hop>) {
    && goal in goals && IsWalk(s.After(events).graph, start, hops, goal)
    && forall i: nat, v :: s.ReachedAt(events, i, v) ==> !Passes(start, hops, v)
  }

  /**
    However edges have been added in between: after failed searches, the next one succeeds exactly if
    the graph has a way from its start to one of its goals past every node that a failed search has
    reached at its time.
  */
  lemma {:induction false} SearchAfterFailures(s: Situation, events: seq<Event>, start: string, goals: seq<string>)
    requires s.blocked == {} && s.AllFail(events)
    ensures s.After(events).Succeeds(start, goals) <==> exists goal, hops :: FreshWay(s, events, start, goals, goal, hops)
  {
    var now := s.After(events);
    forall v
      ensures v in now.blocked <==> exists i: nat :: s.ReachedAt(events, i, v)
    {
      FailuresAddUp(s, events, v);
    }
    forall goal, hops
      ensures goal in goals && IsOpenWalk(now.graph, now.blocked, start, hops, goal) <==> FreshWay(s, events, start, goals, goal, hops)
    {
      AvoidsMeans(now.blocked, start, hops);
    }
    if now.Succeeds(start, goals) {
      var goal :| goal in goals && OpenTo(now.graph, now.blocked, start, goal);
      var hops :| IsOpenWalk(now.graph, now.blocked, start, hops, goal);
      assert FreshWay(s, events, start, goals, goal, hops);
    }
    if goal, hops :| FreshWay(s, events, start, goals, goal, hops) {
      assert OpenTo(now.graph, now.blocked, start, goal);
    }
  }

  /** With nothing blocked, as after every search that has succeeded, a search finds a goal exactly if it leads to one. */
  lemma {:induction false} ClearedFindsAll(s: Situation, start: string, goals: seq<string>)
    requires s.blocked == {}
    ensures s.Succeeds(start, goals) <==> exists goal :: goal in goals && Reaches(s.graph, start, goal)
  {
    forall goal
      ensures OpenTo(s.graph, {}, start, goal) <==> Reaches(s.graph, start, goal)
    {
      if Reaches(s.graph, start, goal) {
        var hops :| IsWalk(s.graph, start, hops, goal);
        assert IsOpenWalk(s.graph, {}, start, hops, goal);
      }
    }
  }

  // ----------------------------------------------------------- lost for long

  lemma {:induction false} StaysBlocked(s: Situation, events: seq<Event>)
    requires s.AllFail(events)
    ensures s.blocked <= s.After(events).blocked
  {
    forall v | v in s.blocked
      ensures v in s.After(events).blocked
    {
      FailuresAddUp(s, events, v);
    }
  }

  /** Whatever is added, until some search succeeds: a search all of whose ways pass a node that is blocked already fails. */
  lemma {:induction false} BlockedWaysFail(s: Situation, events: seq<Event>, start: string, goals: seq<string>)
    requires s.AllFail(events)
    requires forall goal, hops :: goal in goals && IsWalk(s.After(events).graph, start, hops, goal) ==> !Avoids(s.blocked, start, hops)
    ensures !s.After(events).Succeeds(start, goals)
  {
    StaysBlocked(s, events);
  }

  /** In particular one from a blocked node, or for goals that are all blocked. */
  lemma {:induction false} BlockedEndsFail(s: Situation, events: seq<Event>, start: string, goals: seq<string>)
    requires s.AllFail(events) && (start in s.blocked || forall goal :: goal in goals ==> goal in s.blocked)
    ensures !s.After(events).Succeeds(start, goals)
  {
    forall goal, hops | goal in goals && IsWalk(s.After(events).graph, start, hops, goal)
      ensures !Avoids(s.blocked, start, hops)
    {
      if start !in s.blocked && Avoids(s.blocked, start, hops) {
        EndIsOpen(s.After(events).graph, s.blocked, start, hops, goal);
      }
    }
    BlockedWaysFail(s, events, start, goals);
  }

  lemma {:induction false} WalkStartsAtNode(g: Graph, start: string, hops: seq<Hop>, end: string)
    requires IsWalk(g, start, hops, end)
    ensures start in g
  {
    if hops != [] {
      WalkStartsAtNode(g, start, hops[..|hops| - 1], hops[|hops| - 1].src);
    }
  }

  /** A search from nowhere changes nothing. */
  lemma {:induction false} UnknownStart(s: Situation, start: string, goals: seq<string>)
    requires start !in s.graph
    ensures !s.Succeeds(start, goals) && s.Next(Searched(start, goals)) == s
  {
    forall v
      ensures !OpenTo(s.graph, s.blocked, start, v)
    {
      if OpenTo(s.graph, s.blocked, start, v) {
        var hops :| IsOpenWalk(s.graph, s.blocked, start, hops, v);
        WalkStartsAtNode(s.graph, start, hops, v);
      }
    }
    assert s.Around(start) == {};
  }

  // ------------------------------------------------------ an unchanged graph

  ghost predicate ReachedFrom(g: Graph, starts: set<string>, v: string) {
    exists start :: start in starts && Reaches(g, start, v)
  }

  /** What failed searches from these nodes leave blocked on a graph that does not change: all that they can reach. */
  ghost predicate LeftBy(g: Graph, starts: set<string>, blocked: set<string>) {
    forall v :: v in blocked <==> ReachedFrom(g, starts, v)
  }

  /** No arc leads out of what has been left blocked. */
  lemma {:induction false} LeftIsClosed(g: Graph, starts: set<string>, blocked: set<string>, u: string, a: Arc)
    requires LeftBy(g, starts, blocked) && u in blocked && u in g && a in g[u]
    ensures a.dst in blocked
  {
    var start :| start in starts && Reaches(g, start, u);
    var hops :| IsWalk(g, start, hops, u);
    WalkAppend(g, start, hops, Hop(u, a));
    assert ReachedFrom(g, starts, a.dst);
  }

  /** A further failure adds what its start can reach. */
  lemma {:induction false} LeftByOneMore(g: Graph, starts: set<string>, blocked: set<string>, start: string, blocked': set<string>)
    requires LeftBy(g, starts, blocked)
    requires forall v :: v in blocked' <==> v in blocked || OpenTo(g, blocked, start, v)
    ensures LeftBy(g, starts + {start}, blocked')
  {
    forall v
      ensures v in blocked' <==> ReachedFrom(g, starts + {start}, v)
    {
      OutsideWhatIsLeft(g, starts, blocked, start, v);
      assert Reaches(g, start, v) ==> ReachedFrom(g, starts + {start}, v);
      assert ReachedFrom(g, starts, v) ==> ReachedFrom(g, starts + {start}, v);
    }
  }

  lemma {:induction false} OutsideWhatIsLeft(g: Graph, starts: set<string>, blocked: set<string>, again: string, goal: string)
    requires LeftBy(g, starts, blocked)
    ensures OpenTo(g, blocked, again, goal) <==> Reaches(g, again, goal) && !ReachedFrom(g, starts, goal)
  {
    forall u, a | u in blocked && u in g && a in g[u]
      ensures a.dst in blocked
    {
      LeftIsClosed(g, starts, blocked, u, a);
    }
    OpenOutside(g, blocked, again, goal);
  }

  /**
    On a graph that does not change, after failed searches, a search from anywhere for any goals
    succeeds exactly if it can reach one of them that none of the failed searches could reach. All
    walks to such a goal are open to it, so that a best one among the open walks is a best one among
    all walks to goals of this kind.
  */
  lemma {:induction false} SearchOnUnchangedGraph(g: Graph, starts: set<string>, blocked: set<string>, again: string, goals: seq<string>)
    requires LeftBy(g, starts, blocked)
    ensures OpenToAny(g, blocked, again, goals) <==>
              exists goal :: goal in goals && Reaches(g, again, goal) && !ReachedFrom(g, starts, goal)
    ensures forall goal, hops :: IsWalk(g, again, hops, goal) && !ReachedFrom(g, starts, goal) ==> IsOpenWalk(g, blocked, again, hops, goal)
  {
    forall goal
      ensures OpenTo(g, blocked, again, goal) <==> Reaches(g, again, goal) && !ReachedFrom(g, starts, goal)
    {
      OutsideWhatIsLeft(g, starts, blocked, again, goal);
    }
    forall u, a | u in blocked && u in g && a in g[u]
      ensures a.dst in blocked
    {
      LeftIsClosed(g, starts, blocked, u, a);
    }
    forall goal, hops | IsWalk(g, again, hops, goal) && !ReachedFrom(g, starts, goal)
      ensures IsOpenWalk(g, blocked, again, hops, goal)
    {
      OutsideClosed(g, blocked, again, hops, goal);
    }
  }

  /** The nodes that the searches among the events have started from. */
  ghost function Starts(events: seq<Event>): set<string> {
    set i | 0 <= i < |events| && events[i].Searched? :: events[i].start
  }

  lemma {:induction false} WalkEndsAtNode(g: Graph, start: string, hops: seq<Hop>, end: string)
    requires Sensible(g) && IsWalk(g, start, hops, end)
    ensures end in g
  {
  }

  /** Without edges added in between, failed searches leave blocked all that their starts can reach. */
  lemma {:induction false} LeftBySearches(s: Situation, events: seq<Event>)
    requires Sensible(s.graph) && s.blocked == {} && s.AllFail(events) && forall i :: 0 <= i < |events| ==> events[i].Searched?
    ensures s.After(events).graph == s.graph && LeftBy(s.graph, Starts(events), s.After(events).blocked)
  {
    if events == [] {
      assert forall v :: !ReachedFrom(s.graph, {}, v);
    } else {
      var front, last := events[..|events| - 1], events[|events| - 1];
      AllFailFront(s, events);
      LeftBySearches(s, front);
      assert Starts(events) == Starts(front) + {last.start};
      var now := s.After(front);
      forall v
        ensures v in s.After(events).blocked <==> v in now.blocked || OpenTo(s.graph, now.blocked, last.start, v)
      {
        if OpenTo(s.graph, now.blocked, last.start, v) {
          var hops :| IsOpenWalk(s.graph, now.blocked, last.start, hops, v);
          WalkEndsAtNode(s.graph, last.start, hops, v);
        }
      }
      LeftByOneMore(s.graph, Starts(front), now.blocked, last.start, s.After(events).blocked);
    }
  }

  // ---------------------------------------------------------------- examples

  /** Three nodes in a row. */
  function Row(): Graph {
    map["A" := [Arc("ab", "B", 1)], "B" := [Arc("bc", "C", 1)], "C" := []]
  }

  /** A node that is nowhere in the graph is not reached. */
  lemma {:induction false} NothingNamed(s: Situation, start: string, goal: string)
    requires Sensible(s.graph) && goal !in s.graph
    ensures !s.Succeeds(start, [goal])
  {
    forall hops
      ensures !IsWalk(s.graph, start, hops, goal)
    {
      if IsWalk(s.graph, start, hops, goal) {
        WalkEndsAtNode(s.graph, start, hops, goal);
      }
    }
  }

  /** A search from a node that is not blocked reaches it, and what its arcs lead to. */
  lemma {:induction false} ReachesNext(s: Situation, u: string, a: Arc)
    requires u in s.graph && a in s.graph[u] && a.dst in s.graph && u !in s.blocked && a.dst !in s.blocked
    ensures u in s.Around(u) && a.dst in s.Around(u)
  {
    assert IsOpenWalk(s.graph, s.blocked, u, [], u);
    WalkAppend(s.graph, u, [], Hop(u, a));
    assert IsOpenWalk(s.graph, s.blocked, u, [] + [Hop(u, a)], a.dst);
  }

  lemma {:induction false} RowLeadsToC()
    ensures Reaches(Row(), "A", "C")
  {
    var ab, bc := Hop("A", Arc("ab", "B", 1)), Hop("B", Arc("bc", "C", 1));
    assert IsWalk(Row(), "A", [], "A");
    WalkAppend(Row(), "A", [], ab);
    WalkAppend(Row(), "A", [] + [ab], bc);
  }

  /** After a search from B has failed, a search from A for C fails as well, although A leads to C. */
  lemma {:induction false} FailureHidesReachableGoal()
    ensures var s := Situation(Row(), {});
            && !s.Succeeds("B", ["X"]) && Reaches(Row(), "A", "C") && !s.Next(Searched("B", ["X"])).Succeeds("A", ["C"])
  {
    var s := Situation(Row(), {});
    NothingNamed(s, "B", "X");
    RowLeadsToC();
    ReachesNext(s, "B", Arc("bc", "C", 1));
    BlockedEndsFail(s.Next(Searched("B", ["X"])), [], "A", ["C"]);
  }

  lemma {:induction false} AfterOneMore(s: Situation, events: seq<Event>, e: Event)
    ensures s.After(events + [e]) == s.After(events).Next(e)
  {
    assert (events + [e])[..|events|] == events;
  }

  /** The edges that come too late. */
  function BToC(): Event {
    Added("B", Arc("bc", "C", 1))
  }

  function AToC(): Event {
    Added("A", Arc("ac", "C", 1))
  }

  function LoneB(): Situation {
    Situation(map["B" := []], {})
  }

  lemma {:induction false} LoneBFails()
    ensures !LoneB().Succeeds("B", ["C"]) && LoneB().Next(Searched("B", ["C"])) == Situation(LoneB().graph, {"B"})
    ensures "C" !in LoneB().Around("B")
  {
    NothingNamed(LoneB(), "B", "C");
    assert IsOpenWalk(LoneB().graph, {}, "B", [], "B");
    assert LoneB().Around("B") == {"B"};
  }

  lemma {:induction false} LateEdges(now: Situation)
    requires now == Situation(LoneB().graph, {"B"}).Next(BToC()).Next(AToC())
    ensures Reaches(now.graph, "B", "C") && !now.Succeeds("B", ["C"]) && now.Succeeds("A", ["C"])
  {
    var bc, ac := Hop("B", Arc("bc", "C", 1)), Hop("A", Arc("ac", "C", 1));
    assert now.graph["B"] == [bc.arc] && now.graph["A"] == [ac.arc];
    assert IsWalk(now.graph, "B", [], "B") && IsWalk(now.graph, "A", [], "A");
    WalkAppend(now.graph, "B", [], bc);
    WalkAppend(now.graph, "A", [], ac);
    assert IsOpenWalk(now.graph, now.blocked, "A", [] + [ac], "C") && "C" in ["C"];
    BlockedEndsFail(now, [], "B", ["C"]);
  }

  /**
    A search from B for C fails, and only then the edge from B to C is added. C had not been reached,
    and still a second search from B for it fails. A search from A, with an edge to C that has been
    added as well, succeeds, although C can be reached from B by now.
  */
  lemma {:induction false} EdgeAddedTooLate()
    ensures var events := [Searched("B", ["C"]), BToC(), AToC()];
            var now := LoneB().After(events);
            && LoneB().AllFail(events) && (forall i: nat :: !LoneB().ReachedAt(events, i, "C"))
            && Reaches(now.graph, "B", "C") && !now.Succeeds("B", ["C"]) && now.Succeeds("A", ["C"])
  {
    var s, fail := LoneB(), Searched("B", ["C"]);
    var events := [fail, BToC(), AToC()];
    LoneBFails();
    assert events[..0] == [];
    forall i: nat | i < |events|
      ensures s.FailsAt(events, i) && !s.ReachedAt(events, i, "C")
    {
    }
    AfterOneMore(s, [], fail);
    AfterOneMore(s, [fail], BToC());
    AfterOneMore(s, [fail, BToC()], AToC());
    assert [] + [fail] == [fail] && [fail] + [BToC()] == [fail, BToC()] && [fail, BToC()] + [AToC()] == events;
    LateEdges(s.After(events));
  }
}
