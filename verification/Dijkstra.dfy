/**
  The mutable graph and its shortest-path search with several goals (pkg/algorithm/dijkstra.go).
*/
module Dijkstra {
  import opened Results
  import opened Graphs
  import SearchHistory

  class Node {
    const name: string
    var edges: seq<Edge>
    var done: bool
    var cost: int
    var prev: Node?
    var via: Option<Edge>

    constructor (name: string)
      ensures this.name == name && edges == [] && !done && cost == -1 && prev == null && via == None
    {
      this.name := name;
      edges, done, cost, prev, via := [], false, -1, null, None;
    }
  }

  /** Edges are never changed after they have been added. */
  datatype Edge = Edge(name: string, next: Node, cost: int)

  ghost function ArcOf(e: Edge): Arc {
    Arc(e.name, e.next.name, e.cost)
  }

  ghost function ArcsOf(edges: seq<Edge>): seq<Arc> {
    seq(|edges|, i requires 0 <= i < |edges| => ArcOf(edges[i]))
  }

  ghost function MarkOf(n: Node): Mark
    reads n
  {
    Mark(n.done, n.cost,
         if n.prev == null then None else Some(n.prev.name),
         if n.via == None then None else Some(ArcOf(n.via.value)))
  }

  /** What a search returns: the nodes from the start to a goal and the edges between them. */
  datatype Path = Path(nodes: seq<Node>, via: seq<Edge>)
  {
    function Goal(): string
      requires nodes != []
    {
      nodes[|nodes| - 1].name
    }
  }

  ghost function HopsOf(p: Path): seq<Hop>
    requires |p.nodes| == |p.via| + 1
  {
    seq(|p.via|, i requires 0 <= i < |p.via| => Hop(p.nodes[i].name, ArcOf(p.via[i])))
  }

  /** The nodes and edges fit together and form a walk through the graph. */
  ghost predicate IsPath(p: Path, g: Graph, start: string, end: string) {
    && |p.nodes| == |p.via| + 1
    && p.nodes[0].name == start && p.Goal() == end
    && (forall i :: 0 <= i < |p.via| ==> p.via[i].next == p.nodes[i + 1])
    && IsWalk(g, start, HopsOf(p), end)
  }

  /**
    A path from the start to one of the goals that meets no goal before and keeps clear of the
    blocked nodes, at the least cost over all goals and all walks that keep clear of them; of several
    edges between two of its nodes it takes the first of the cheapest ones.
  */
  ghost predicate IsBestPath(p: Path, g: Graph, start: string, goals: seq<string>, blocked: set<string>) {
    && p.nodes != [] && p.Goal() in goals && IsPath(p, g, start, p.Goal()) && Avoids(blocked, start, HopsOf(p))
    && (forall i :: 0 <= i < |p.nodes| - 1 ==> p.nodes[i].name !in goals)
    && OverFirst(g, HopsOf(p))
    && forall goal, hops :: goal in goals && IsOpenWalk(g, blocked, start, hops, goal) ==> Cost(HopsOf(p)) <= Cost(hops)
  }

  function Reverse<T>(s: seq<T>): seq<T> {
    seq(|s|, i requires 0 <= i < |s| => s[|s| - 1 - i])
  }

  lemma {:induction false} ReverseAppend<T>(s: seq<T>, x: T)
    ensures Reverse(s + [x]) == [x] + Reverse(s)
  {
  }

  function Prepend(prev: Node, via: Edge, p: Path): Path {
    Path([prev] + p.nodes, [via] + p.via)
  }

  lemma {:induction false} PrependedPath(prev: Node, via: Edge, p: Path, g: Graph, end: string)
    requires |p.nodes| == |p.via| + 1 && IsPath(p, g, via.next.name, end) && p.nodes[0] == via.next
    requires prev.name in g && ArcOf(via) in g[prev.name]
    ensures IsPath(Prepend(prev, via, p), g, prev.name, end)
    ensures Cost(HopsOf(Prepend(prev, via, p))) == via.cost + Cost(HopsOf(p))
    ensures HopsOf(Prepend(prev, via, p)) == [Hop(prev.name, ArcOf(via))] + HopsOf(p)
  {
    var longer := Prepend(prev, via, p);
    var hop := Hop(prev.name, ArcOf(via));
    assert HopsOf(longer) == [hop] + HopsOf(p);
    WalkPrepend(g, hop, HopsOf(p), end);
  }

  /** The nodes with a mark of being finished. */
  ghost function Finished(marks: Marks): set<string> {
    set k | k in marks && marks[k].done
  }

  lemma {:induction false} FreshNodeAtRest(marks: Marks, name: string)
    requires name !in marks
    ensures Finished(marks[name := Unmarked()]) == Finished(marks)
    ensures Resting(marks, Finished(marks)) ==> Resting(marks[name := Unmarked()], Finished(marks))
  {
  }

  class DirectedGraph {
    var nodes: map<string, Node>

    /** The graph as `Add` built it, and what searches have written on its nodes. */
    ghost var graph: Graph
    ghost var marks: Marks

    ghost predicate Knows(n: Node)
      reads this
    {
      n.name in nodes && nodes[n.name] == n
    }

    /** All pointers of a node lead to nodes of the graph. */
    ghost predicate Linked(n: Node)
      reads this, n
    {
      && (forall e :: e in n.edges ==> Knows(e.next))
      && (n.prev != null ==> Knows(n.prev))
      && (n.via.Some? ==> Knows(n.via.value.next))
    }

    /** A node says what `graph` and `marks` say about its name. */
    ghost predicate Represented(k: string)
      requires k in nodes
      reads this, nodes[k]
    {
      && nodes[k].name == k && Linked(nodes[k])
      && k in graph && graph[k] == ArcsOf(nodes[k].edges)
      && k in marks && marks[k] == MarkOf(nodes[k])
    }

    ghost predicate Valid()
      reads this, nodes.Values
    {
      && graph.Keys == nodes.Keys && marks.Keys == nodes.Keys
      && forall k {:trigger Represented(k)} :: k in nodes ==> Represented(k)
    }

    /** No trace of an earlier search is left. */
    ghost predicate Clean()
      reads this
    {
      forall k :: k in marks ==> marks[k] == Unmarked()
    }

    /** The nodes that failed searches have left finished. */
    ghost function Blocked(): set<string>
      reads this
    {
      Finished(marks)
    }

    /** What the next search finds. */
    ghost function Situation(): SearchHistory.Situation
      reads this
    {
      SearchHistory.Situation(graph, Blocked())
    }

    /** Between searches there are no marks but those of failed searches. */
    ghost predicate AtRest()
      reads this
    {
      Resting(marks, Blocked())
    }

    constructor ()
      ensures Valid() && Clean() && graph == map[] && nodes == map[]
    {
      nodes, graph, marks := map[], map[], map[];
    }

    method CreateNode(name: string) returns (n: Node)
      requires Valid() && name !in nodes
      modifies this
      ensures Valid() && n.name == name && fresh(n) && nodes == old(nodes)[name := n]
      ensures graph == old(graph)[name := []] && marks == old(marks)[name := Unmarked()]
    {
      n := new Node(name);
      nodes := nodes[name := n];
      graph := graph[name := []];
      marks := marks[name := Unmarked()];
      forall k | k in nodes
        ensures Represented(k)
      {
        assert k != name ==> old(Represented(k));
        assert ArcsOf(n.edges) == [];
      }
    }

    /** The nodes that were there still are, and the others are new. */
    twostate predicate Grown()
      reads this`nodes
    {
      && old(nodes).Keys <= nodes.Keys
      && forall k :: k in nodes ==> if k in old(nodes) then nodes[k] == old(nodes)[k] else fresh(nodes[k])
    }

    /** The node with the given name, created without edges if it is new. */
    method NodeFor(name: string) returns (n: Node)
      requires Valid()
      modifies this
      ensures Valid() && Knows(n) && n.name == name
      ensures graph == AddNode(old(graph), name)
      ensures old(AtRest()) ==> AtRest() && Blocked() == old(Blocked())
      ensures Grown()
    {
      if name in nodes {
        n := nodes[name];
        assert Represented(name);
      } else {
        FreshNodeAtRest(marks, name);
        n := CreateNode(name);
      }
    }

    /** Appends an edge between two nodes of the graph. */
    method Connect(srcNode: Node, edge: Edge)
      requires Valid() && Knows(srcNode) && Knows(edge.next)
      modifies srcNode`edges, this`graph
      ensures Valid() && srcNode.name in old(graph)
      ensures graph == old(graph)[srcNode.name := old(graph)[srcNode.name] + [ArcOf(edge)]]
    {
      assert Represented(srcNode.name);
      srcNode.edges := srcNode.edges + [edge];
      graph := graph[srcNode.name := graph[srcNode.name] + [ArcOf(edge)]];
      forall k | k in nodes
        ensures Represented(k)
      {
        assert old(Represented(k));
      }
    }

    method Add(src: string, dst: string, edgeName: string, cost: int)
      requires Valid()
      modifies this, nodes.Values`edges
      ensures Valid() && graph == AddArc(old(graph), src, Arc(edgeName, dst, cost))
      ensures old(AtRest()) ==> AtRest() && Situation() == old(Situation()).Next(SearchHistory.Added(src, Arc(edgeName, dst, cost)))
      ensures Grown()
    {
      var srcNode := NodeFor(src);
      var dstNode := NodeFor(dst);
      Connect(srcNode, Edge(edgeName, dstNode, cost));
    }

    // ------------------------------------------------------------- the search

    /** Writes the search fields of one node. */
    method Write(node: Node, done: bool, cost: int, prev: Node?, via: Option<Edge>)
      requires Valid() && Knows(node)
      requires (prev != null ==> Knows(prev)) && (via.Some? ==> Knows(via.value.next))
      modifies node`done, node`cost, node`prev, node`via, this`marks
      ensures Valid()
      ensures node.done == done && node.cost == cost && node.prev == prev && node.via == via
      ensures marks == old(marks)[node.name := MarkOf(node)]
    {
      node.done := done;
      node.cost := cost;
      node.prev := prev;
      node.via := via;
      marks := marks[node.name := MarkOf(node)];
      forall k | k in nodes
        ensures Represented(k)
      {
        assert old(Represented(k));
      }
    }

    /** `calc`: relaxes the edges of a node and finishes it. */
    method Calc(node: Node)
      requires Valid() && Knows(node)
      modifies this`marks, nodes.Values`done, nodes.Values`cost, nodes.Values`prev, nodes.Values`via
      ensures Valid()
      ensures node.name in graph && node.name in old(marks)
      ensures forall a :: a in graph[node.name] ==> a.dst in old(marks)
      ensures marks == Settle(graph, old(marks), node.name)
    {
      ghost var m0, arcs := marks, graph[node.name];
      ArcsLeadToNodes(node);
      for i := 0 to |node.edges|
        invariant Valid()
        invariant marks == RelaxArcs(m0, node.name, arcs[..i])
      {
        var edge := node.edges[i];
        assert Represented(node.name) && edge in node.edges && Knows(edge.next);
        assert arcs[i] == ArcOf(edge);
        RelaxNext(node, edge);
        RelaxArcsStep(m0, node.name, arcs, i);
      }
      assert arcs[..|node.edges|] == arcs;
      assert Represented(node.name);
      Write(node, true, node.cost, node.prev, node.via);
    }

    lemma {:induction false} ArcsLeadToNodes(node: Node)
      requires Valid() && Knows(node)
      ensures graph[node.name] == ArcsOf(node.edges)
      ensures forall a :: a in graph[node.name] ==> a.dst in marks
    {
      assert Represented(node.name);
      forall a | a in ArcsOf(node.edges)
        ensures a.dst in nodes
      {
        var i :| 0 <= i < |node.edges| && a == ArcOf(node.edges[i]);
        assert node.edges[i] in node.edges;
      }
    }

    /** One round of the loop of `calc`. */
    method RelaxNext(node: Node, edge: Edge)
      requires Valid() && Knows(node) && edge in node.edges
      modifies this`marks, edge.next`done, edge.next`cost, edge.next`prev, edge.next`via
      ensures Valid()
      ensures node.name in old(marks) && edge.next.name in old(marks)
      ensures marks == RelaxArc(old(marks), node.name, ArcOf(edge))
    {
      assert Represented(node.name) && Represented(edge.next.name);
      var next := edge.next;
      if !next.done {
        var cost := node.cost + edge.cost;
        if next.cost == -1 || cost < next.cost {
          Write(next, next.done, cost, node, Some(edge));
        }
      }
    }

    /** `nextNode`: a cheapest waiting node, whatever the order in which the nodes come up. */
    method NextNode() returns (next: Node?)
      requires Valid()
      ensures next == null ==> forall k :: k in marks ==> !marks[k].Waiting()
      ensures next != null ==> Knows(next) && IsNext(marks, next.name)
    {
      next := null;
      var rest := nodes.Keys;
      while rest != {}
        invariant rest <= nodes.Keys
        invariant next == null ==> forall k :: k in nodes.Keys - rest ==> !marks[k].Waiting()
        invariant next != null ==> Knows(next) && marks[next.name].Waiting() && next.cost == marks[next.name].cost
        invariant next != null ==> forall k :: k in nodes.Keys - rest && marks[k].Waiting() ==> next.cost <= marks[k].cost
      {
        var k :| k in rest;
        rest := rest - {k};
        var node := nodes[k];
        assert Represented(k);
        if !node.done && node.cost != -1 {
          if next == null {
            next := node;
          }
          if next.cost > node.cost {
            next := node;
          }
        }
      }
    }

    /** Puts every node back to its initial marks. */
    method Reset()
      requires Valid()
      modifies this`marks, nodes.Values
      ensures Valid() && Clean()
    {
      var rest := nodes.Keys;
      while rest != {}
        invariant rest <= nodes.Keys
        invariant Valid()
        invariant forall k :: k in nodes.Keys - rest ==> marks[k] == Unmarked()
      {
        var k :| k in rest;
        rest := rest - {k};
        assert Represented(k);
        Write(nodes[k], false, -1, null, None);
      }
    }

    /** The part of the answer from `n` to the goal: the marks account for its cost, and only its end may be a goal. */
    ghost predicate Traced(path: Path, n: Node, goal: Node, goals: seq<string>, blocked: set<string>)
      reads this
    {
      && Knows(n) && n.name in marks && marks[n.name].Reached() && goal.name in marks
      && IsPath(path, graph, n.name, goal.name) && path.nodes[0] == n && Avoids(blocked, n.name, HopsOf(path))
      && OverFirst(graph, HopsOf(path))
      && Cost(HopsOf(path)) == marks[goal.name].cost - marks[n.name].cost
      && forall i :: 0 <= i < |path.nodes| - 1 ==> path.nodes[i].name !in goals
    }

    /** The node before one that has been reached: finished earlier, and clear of goals and blocked nodes. */
    ghost predicate ComesBefore(prev: Node, via: Edge, n: Node, goals: seq<string>, blocked: set<string>)
      reads this
    {
      && Knows(prev) && via.next == n && prev.name in graph && ArcOf(via) in graph[prev.name]
      && FirstCheapest(graph[prev.name], ArcOf(via))
      && prev.name in marks && marks[prev.name].Reached() && prev.name !in goals && prev.name !in blocked
      && n.name in marks && n.name !in blocked && marks[n.name].cost == marks[prev.name].cost + via.cost
    }

    lemma {:induction false} NodeBefore(n: Node, start: string, rank: map<string, nat>, goals: seq<string>, blocked: set<string>)
      requires Valid() && SearchInvariant(graph, marks, rank, start, goals, blocked)
      requires Knows(n) && n.name in marks && marks[n.name].Reached() && n.name != start && n.name !in blocked
      ensures n.prev != null && n.via.Some? && n.prev.name in rank && ComesBefore(n.prev, n.via.value, n, goals, blocked)
      ensures n.name in rank ==> rank[n.prev.name] < rank[n.name]
    {
      assert Represented(n.name) && Supported(graph, marks, rank, n.name) && Represented(n.prev.name);
      assert n.name in rank ==> ReachedFromEarlier(marks, rank, n.name);
    }

    /** One step back: the node before `n` exists, was finished earlier, and extends the answer. */
    lemma {:induction false} TraceStep(path: Path, n: Node, goal: Node, start: string, rank: map<string, nat>,
                                       goals: seq<string>, blocked: set<string>)
      requires Valid() && SearchInvariant(graph, marks, rank, start, goals, blocked)
      requires Traced(path, n, goal, goals, blocked) && n.name != start
      ensures n.prev != null && n.via.Some? && n.prev.name in rank
      ensures n.name in rank ==> rank[n.prev.name] < rank[n.name]
      ensures Traced(Prepend(n.prev, n.via.value, path), n.prev, goal, goals, blocked)
    {
      NodeBefore(n, start, rank, goals, blocked);
      LongerTrace(n.prev, n.via.value, path, n, goal, goals, blocked);
    }

    lemma {:induction false} LongerTrace(prev: Node, via: Edge, path: Path, n: Node, goal: Node, goals: seq<string>, blocked: set<string>)
      requires Traced(path, n, goal, goals, blocked) && ComesBefore(prev, via, n, goals, blocked)
      ensures Traced(Prepend(prev, via, path), prev, goal, goals, blocked)
    {
      PrependedPath(prev, via, path, graph, goal.name);
    }

    /** Follows the recorded nodes from a goal back to the start; the lists come out in reverse. */
    method TraceBack(start: string, goal: Node, ghost rank: map<string, nat>, ghost goals: seq<string>, ghost blocked: set<string>)
      returns (retRev: seq<Node>, viaRev: seq<Edge>)
      requires Valid() && Knows(goal) && SearchInvariant(graph, marks, rank, start, goals, blocked)
      requires goal.name in marks && marks[goal.name].Waiting()
      ensures start in nodes && Traced(Path(Reverse(retRev), Reverse(viaRev)), nodes[start], goal, goals, blocked)
    {
      retRev, viaRev := [], [];
      var n: Node := goal;
      ghost var path := Path([goal], []);
      while true
        invariant Traced(path, n, goal, goals, blocked)
        invariant [n] + Reverse(retRev) == path.nodes && Reverse(viaRev) == path.via
        decreases if n.name in rank then rank[n.name] else |rank|
      {
        ReverseAppend(retRev, n);
        retRev := retRev + [n];
        if n.name == start {
          return;
        }
        TraceStep(path, n, goal, start, rank, goals, blocked);
        ReverseAppend(viaRev, n.via.value);
        viaRev := viaRev + [n.via.value];
        path := Prepend(n.prev, n.via.value, path);
        n := n.prev;
      }
    }

    /** The marks during a search; one that starts at a blocked node has nothing to do. */
    ghost predicate Searching(rank: map<string, nat>, start: string, goals: seq<string>, blocked: set<string>)
      reads this
    {
      if start in blocked then Resting(marks, blocked) && rank == map[] && forall k :: k in marks ==> !marks[k].Waiting()
      else SearchInvariant(graph, marks, rank, start, goals, blocked)
    }

    /** Sets the cost of the start to zero, so that it is processed first. */
    method Begin(start: string, ghost goals: seq<string>)
      requires Valid() && AtRest() && Sensible(graph) && start in nodes
      modifies this`marks, nodes.Values
      ensures Valid() && Searching(map[], start, goals, old(Blocked()))
    {
      var startNode := nodes[start];
      assert Represented(start);
      Write(startNode, startNode.done, 0, startNode.prev, startNode.via);
      if start in old(Blocked()) {
        BlockedStart(old(marks), start, old(Blocked()));
      } else {
        StartInvariant(graph, old(marks), start, goals, old(Blocked()));
      }
    }

    /** Processes a cheapest waiting node that is no goal. */
    method Process(node: Node, ghost rank: map<string, nat>, ghost start: string, ghost goals: seq<string>, ghost blocked: set<string>)
      returns (ghost rank': map<string, nat>)
      requires Valid() && SearchInvariant(graph, marks, rank, start, goals, blocked)
      requires Knows(node) && IsNext(marks, node.name) && node.name !in goals
      modifies this`marks, nodes.Values
      ensures Valid() && SearchInvariant(graph, marks, rank', start, goals, blocked)
      ensures rank' == rank[node.name := |rank|]
    {
      SettleInvariant(graph, marks, rank, start, goals, blocked, node.name);
      rank' := rank[node.name := |rank|];
      Calc(node);
    }

    /** The loop of the search: a cheapest goal, or none when nothing is left to process. */
    method FindGoal(ghost start: string, goals: seq<string>, ghost blocked: set<string>) returns (goal: Node?, ghost rank: map<string, nat>)
      requires Valid() && Searching(map[], start, goals, blocked)
      modifies this`marks, nodes.Values
      ensures Valid() && Searching(rank, start, goals, blocked)
      ensures goal != null ==> Knows(goal) && goal.name in goals && IsNext(marks, goal.name)
      ensures goal == null ==> forall k :: k in marks ==> !marks[k].Waiting()
    {
      rank := map[];
      ghost var unfinished := nodes.Keys;
      while true
        invariant Valid() && Searching(rank, start, goals, blocked)
        invariant forall k :: k in nodes && k !in rank ==> k in unfinished
        decreases unfinished
      {
        var node := NextNode();
        if node == null || node.name in goals {
          return node, rank;
        }
        rank := Process(node, rank, start, goals, blocked);
        unfinished := unfinished - {node.name};
      }
    }

    /** The traced answer to a cheapest goal is a best path. */
    lemma {:induction false} AnswerIsBest(path: Path, start: string, goal: Node, rank: map<string, nat>, goals: seq<string>, blocked: set<string>)
      requires Valid() && SearchInvariant(graph, marks, rank, start, goals, blocked) && IsNext(marks, goal.name)
      requires start in nodes && Traced(path, nodes[start], goal, goals, blocked) && goal.name in goals
      ensures IsBestPath(path, graph, start, goals, blocked)
      ensures OpenToAny(graph, blocked, start, goals)
    {
      assert Represented(start) && IsOpenWalk(graph, blocked, start, HopsOf(path), goal.name);
      assert OpenTo(graph, blocked, start, goal.name);
      NextGoalIsCheapest(graph, marks, rank, start, goals, blocked, goal.name);
    }

    /** Builds the path to the goal that was found and clears the marks. */
    method Answer(start: string, goal: Node, ghost rank: map<string, nat>, ghost goals: seq<string>, ghost blocked: set<string>) returns (path: Path)
      requires Valid() && SearchInvariant(graph, marks, rank, start, goals, blocked)
      requires Knows(goal) && goal.name in goals && IsNext(marks, goal.name)
      modifies this`marks, nodes.Values
      ensures Valid() && Clean()
      ensures IsBestPath(path, graph, start, goals, blocked) && OpenToAny(graph, blocked, start, goals)
    {
      var retRev, viaRev := TraceBack(start, goal, rank, goals, blocked);
      path := Path(Reverse(retRev), Reverse(viaRev));
      AnswerIsBest(path, start, goal, rank, goals, blocked);
      Reset();
    }

    /** A search that has found nothing. */
    lemma {:induction false} NothingFound(start: string, rank: map<string, nat>, goals: seq<string>, blocked: set<string>)
      requires Searching(rank, start, goals, blocked) && forall k :: k in marks ==> !marks[k].Waiting()
      ensures !OpenToAny(graph, blocked, start, goals) && AtRest()
      ensures forall k :: k in marks ==> (k in Blocked() <==> k in blocked || OpenTo(graph, blocked, start, k))
    {
      if start !in blocked {
        ExhaustedMeansNoGoal(graph, marks, rank, start, goals, blocked);
      }
    }

    /** The outcome of a search on a graph whose blocked nodes were these. */
    ghost predicate Concluded(r: Result<Path>, start: string, goals: seq<string>, blocked: set<string>)
      reads this
    {
      && AtRest() && (r.Success? <==> OpenToAny(graph, blocked, start, goals))
      && (r.Success? ==> Clean() && IsBestPath(r.value, graph, start, goals, blocked))
      && (r.Failure? ==> forall k :: k in marks ==> (k in Blocked() <==> k in blocked || OpenTo(graph, blocked, start, k)))
    }

    /** The end of a search: the path to the goal that was found, if there is one. */
    method Conclude(start: string, goal: Node?, ghost rank: map<string, nat>, ghost goals: seq<string>, ghost blocked: set<string>)
      returns (r: Result<Path>)
      requires Valid() && Searching(rank, start, goals, blocked)
      requires goal != null ==> Knows(goal) && goal.name in goals && IsNext(marks, goal.name)
      requires goal == null ==> forall k :: k in marks ==> !marks[k].Waiting()
      modifies this`marks, nodes.Values
      ensures Valid() && Concluded(r, start, goals, blocked)
    {
      if goal == null {
        NothingFound(start, rank, goals, blocked);
        return Failure("Goal not found");
      }
      var path := Answer(start, goal, rank, goals, blocked);
      return Success(path);
    }

    /** A search changes the situation as its outcome says. */
    lemma {:induction false} ConcludedIsNext(r: Result<Path>, start: string, goals: seq<string>, before: SearchHistory.Situation)
      requires Valid() && Concluded(r, start, goals, before.blocked) && graph == before.graph && before.blocked <= marks.Keys
      ensures Situation() == before.Next(SearchHistory.Searched(start, goals))
    {
      if r.Success? {
        assert Blocked() == {};
      } else {
        assert Blocked() == before.blocked + before.Around(start);
      }
    }

    /**
      `ShortestPathWithMultipleGoals`, on whatever marks failed searches have left. It succeeds
      exactly when a walk that keeps clear of the blocked nodes leads to a goal. On success the path
      is a best one among these walks and all marks are cleared; a failure blocks, in addition, every
      node that such a walk leads to.
    */
    method ShortestPathWithMultipleGoals(start: string, goals: seq<string>) returns (r: Result<Path>)
      requires Valid() && AtRest() && Sensible(graph) && start in nodes
      modifies this`marks, nodes.Values
      ensures Valid() && Concluded(r, start, goals, old(Blocked()))
      ensures Situation() == old(Situation()).Next(SearchHistory.Searched(start, goals))
    {
      ghost var before := Situation();
      ghost var blocked, rank := Blocked(), map[];
      Begin(start, goals);
      var goal;
      goal, rank := FindGoal(start, goals, blocked);
      r := Conclude(start, goal, rank, goals, blocked);
      ConcludedIsNext(r, start, goals, before);
    }
  }
}
