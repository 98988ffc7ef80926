/**
  The concurrent run of a merge tree (pkg/image/merge.go, `runMergeDimgTask`): one goroutine walks
  the tree and starts a merge for every inner task; a bounded number of merges runs at a time.
  Runs without errors, as steps over a shared state.
*/
module MergeSchedule {

  /** A task of `buildMergeDimgTask`: a stretch of the chain. */
  datatype Range = Range(lo: nat, hi: nat)
  {
    predicate IsLeaf() {
      hi == lo + 1
    }

    function Mid(): nat
      requires lo < hi
    {
      lo + (hi - lo) / 2
    }

    function Upper(): Range
      requires lo < hi
    {
      Range(lo, Mid())
    }

    function Lower(): Range
      requires lo < hi
    {
      Range(Mid(), hi)
    }
  }

  /** The tasks in the order in which the walk completes them: lower child, upper child, task. */
  function Order(r: Range): seq<Range>
    requires r.lo < r.hi
    decreases r.hi - r.lo
  {
    if r.IsLeaf() then [r] else Order(r.Lower()) + Order(r.Upper()) + [r]
  }

  /** How far the goroutine of an inner task has come. */
  datatype Job<H> = Running | Computed(result: H) | Written | Reported | Released
  {
    predicate HoldsSlot() {
      !Released?
    }

    /** The task's result is in place. */
    predicate Placed() {
      Written? || Reported? || Released?
    }

    /** The task's done channel has been written. */
    predicate HasReported() {
      Reported? || Released?
    }
  }

  /**
    The entries of the chain, the walk's position in the order of tasks and inside one task, the
    goroutines started so far, and all sends and receives on the done channels.
  */
  datatype State<H> = State(
    entries: seq<H>,
    at: nat,
    phase: nat,
    jobs: map<Range, Job<H>>,
    sent: multiset<Range>,
    received: multiset<Range>,
    finished: bool)

  /** The chain to merge, with the function that merges a lower and an upper one, and the slots. */
  datatype Config<!H> = Config(chain: seq<H>, merge: (H, H) -> H, limit: nat)
  {
    ghost predicate Valid() {
      chain != []
    }

    function Root(): Range {
      Range(0, |chain|)
    }

    /** The result of a task on its own. */
    function Value(r: Range): H
      requires r.lo < r.hi <= |chain|
      decreases r.hi - r.lo
    {
      if r.IsLeaf() then chain[r.lo] else merge(Value(r.Lower()), Value(r.Upper()))
    }

    function Init(): State<H> {
      State(chain, 0, 0, map[], multiset{}, multiset{}, false)
    }
  }

  datatype Event =
    | LeafDone
    | AwaitLower
    | AwaitUpper
    | Spawn
    | AwaitRoot
    | Compute(task: Range)
    | Place(task: Range)
    | Report(task: Range)
    | Release(task: Range)

  ghost function Holders<H>(jobs: map<Range, Job<H>>): set<Range> {
    set r | r in jobs && jobs[r].HoldsSlot()
  }

  /** The walk is at an inner task, in the given phase. */
  ghost predicate AtInner<H>(c: Config<H>, s: State<H>, phase: nat)
    requires c.Valid()
  {
    s.at < |Order(c.Root())| && !Order(c.Root())[s.at].IsLeaf() && s.phase == phase
  }

  ghost predicate Step<H>(c: Config<H>, s: State<H>, e: Event, s': State<H>)
    requires c.Valid()
  {
    var order := Order(c.Root());
    match e
    case LeafDone =>
      && s.at < |order| && order[s.at].IsLeaf()
      && s' == s.(at := s.at + 1, sent := s.sent + multiset{order[s.at]})
    case AwaitLower =>
      && AtInner(c, s, 0) && order[s.at].lo < order[s.at].hi
      && var r := order[s.at].Lower();
         s.received[r] < s.sent[r] && s' == s.(phase := 1, received := s.received + multiset{r})
    case AwaitUpper =>
      && AtInner(c, s, 1) && order[s.at].lo < order[s.at].hi
      && var r := order[s.at].Upper();
         s.received[r] < s.sent[r] && s' == s.(phase := 2, received := s.received + multiset{r})
    case Spawn =>
      && AtInner(c, s, 2) && |Holders(s.jobs)| < c.limit
      && s' == s.(at := s.at + 1, phase := 0, jobs := s.jobs[order[s.at] := Running])
    case AwaitRoot =>
      && s.at == |order| && !s.finished && s.received[c.Root()] < s.sent[c.Root()]
      && s' == s.(finished := true, received := s.received + multiset{c.Root()})
    case Compute(r) =>
      && r in s.jobs && s.jobs[r].Running? && r.lo < r.hi && r.Mid() < |s.entries| && r.lo < |s.entries|
      && s' == s.(jobs := s.jobs[r := Computed(c.merge(s.entries[r.Mid()], s.entries[r.lo]))])
    case Place(r) =>
      && r in s.jobs && s.jobs[r].Computed? && r.lo < |s.entries|
      && s' == s.(jobs := s.jobs[r := Written], entries := s.entries[r.lo := s.jobs[r].result])
    case Report(r) =>
      && r in s.jobs && s.jobs[r].Written?
      && s' == s.(jobs := s.jobs[r := Reported], sent := s.sent + multiset{r})
    case Release(r) =>
      && r in s.jobs && s.jobs[r].Reported?
      && s' == s.(jobs := s.jobs[r := Released])
  }

  // --------------------------------------------------------- order of tasks

  ghost predicate Inside(x: Range, r: Range) {
    r.lo <= x.lo < x.hi <= r.hi
  }

  lemma {:induction false} OrderOfTwo(r: Range)
    requires r.hi == r.lo + 2
    ensures Order(r) == [Range(r.lo + 1, r.hi), Range(r.lo, r.lo + 1), r]
  {
    assert r.Lower() == Range(r.lo + 1, r.hi) && r.Upper() == Range(r.lo, r.lo + 1);
  }

  /** Over three deltas: the lower two, bottom first, then what has been merged of them, then the top one. */
  lemma {:induction false} OrderOfThree(r: Range)
    requires r.hi == r.lo + 3
    ensures Order(r) == [Range(r.lo + 2, r.hi), Range(r.lo + 1, r.lo + 2), Range(r.lo + 1, r.hi), Range(r.lo, r.lo + 1), r]
  {
    OrderOfTwo(r.Lower());
    assert r.Lower() == Range(r.lo + 1, r.hi) && r.Upper() == Range(r.lo, r.lo + 1);
  }

  lemma {:induction false} OrderInside(r: Range, x: Range)
    requires r.lo < r.hi && x in Order(r)
    ensures Inside(x, r)
    decreases r.hi - r.lo
  {
    if !r.IsLeaf() && x != r {
      if x in Order(r.Lower()) {
        OrderInside(r.Lower(), x);
      } else {
        OrderInside(r.Upper(), x);
      }
    }
  }

  /** No task comes up twice. */
  lemma {:induction false} OrderDistinct(r: Range, i: nat, j: nat)
    requires r.lo < r.hi && i < j < |Order(r)|
    ensures Order(r)[i] != Order(r)[j]
    decreases r.hi - r.lo
  {
    if !r.IsLeaf() {
      var l, u := Order(r.Lower()), Order(r.Upper());
      if i < |l| {
        assert Order(r)[i] == l[i];
        OrderInside(r.Lower(), l[i]);
      } else {
        assert Order(r)[i] == u[i - |l|];
        OrderInside(r.Upper(), u[i - |l|]);
      }
      if j < |l| {
        assert Order(r)[j] == l[j];
        OrderDistinct(r.Lower(), i, j);
      } else if j < |l| + |u| {
        assert Order(r)[j] == u[j - |l|];
        OrderInside(r.Upper(), u[j - |l|]);
        if i >= |l| {
          OrderDistinct(r.Upper(), i - |l|, j - |l|);
        }
      }
    }
  }

  /** What comes before a task, seen from the halves. */
  lemma {:induction false} BeforeTask(r: Range, i: nat)
    requires r.lo + 1 < r.hi && i < |Order(r)|
    ensures var l, u := Order(r.Lower()), Order(r.Upper());
            if i < |l| then Order(r)[i] == l[i] && Order(r)[..i] == l[..i]
            else if i < |l| + |u| then Order(r)[i] == u[i - |l|] && Order(r)[..i] == l + u[..i - |l|]
            else Order(r)[i] == r && Order(r)[..i] == l + u
  {
    var l, u := Order(r.Lower()), Order(r.Upper());
    assert Order(r) == l + u + [r];
  }

  /** Both children of a task come up before it. */
  lemma {:induction false} ChildrenEarlier(r: Range, i: nat)
    requires r.lo < r.hi && i < |Order(r)| && !Order(r)[i].IsLeaf()
    ensures var x := Order(r)[i]; x.lo < x.hi && x.Lower() in Order(r)[..i] && x.Upper() in Order(r)[..i]
    decreases r.hi - r.lo
  {
    OrderInside(r, Order(r)[i]);
    if !r.IsLeaf() {
      BeforeTask(r, i);
      var l, u := Order(r.Lower()), Order(r.Upper());
      if i < |l| {
        ChildrenEarlier(r.Lower(), i);
      } else if i < |l| + |u| {
        ChildrenEarlier(r.Upper(), i - |l|);
      } else {
        OrderEndsWith(r.Lower());
        OrderEndsWith(r.Upper());
      }
    }
  }

  lemma {:induction false} OrderEndsWith(r: Range)
    requires r.lo < r.hi
    ensures Order(r) != [] && Order(r)[|Order(r)| - 1] == r && r in Order(r)
  {
  }

  ghost predicate IsChild(x: Range, p: Range) {
    p.lo + 1 < p.hi && (x == p.Lower() || x == p.Upper())
  }

  /** A task is the child of one task only. */
  lemma {:induction false} UniqueParent(r: Range, p: Range, q: Range, x: Range)
    requires r.lo < r.hi && p in Order(r) && q in Order(r) && IsChild(x, p) && IsChild(x, q)
    ensures p == q
    decreases r.hi - r.lo
  {
    OrderInside(r, p);
    OrderInside(r, q);
    if !r.IsLeaf() {
      ChildSide(r, p);
      ChildSide(r, q);
      if p != r && q != r {
        if p in Order(r.Lower()) && q in Order(r.Lower()) {
          UniqueParent(r.Lower(), p, q, x);
        } else if p in Order(r.Upper()) && q in Order(r.Upper()) {
          UniqueParent(r.Upper(), p, q, x);
        }
      }
    }
  }

  lemma {:induction false} ChildSide(r: Range, p: Range)
    requires r.lo + 1 < r.hi && p in Order(r)
    ensures p == r || (p in Order(r.Lower()) && Inside(p, r.Lower())) || (p in Order(r.Upper()) && Inside(p, r.Upper()))
  {
    if p in Order(r.Lower()) {
      OrderInside(r.Lower(), p);
    } else if p in Order(r.Upper()) {
      OrderInside(r.Upper(), p);
    }
  }

  // ------------------------------------------------------- data of the tree

  type Jobs<H> = map<Range, Job<H>>

  ghost predicate AllReported<H>(jobs: Jobs<H>, r: Range)
    requires r.lo < r.hi
    decreases r.hi - r.lo
  {
    r.IsLeaf() || (r in jobs && jobs[r].HasReported() && AllReported(jobs, r.Lower()) && AllReported(jobs, r.Upper()))
  }

  /** The highest task under the given one whose result goes to an entry. */
  function TopTask(r: Range, i: nat): (t: Range)
    requires r.lo <= i < r.hi
    ensures t.lo == i < t.hi <= r.hi
    decreases r.hi - r.lo
  {
    if i == r.lo then r else if i < r.Mid() then TopTask(r.Upper(), i) else TopTask(r.Lower(), i)
  }

  ghost predicate SettledAt<H>(c: Config<H>, entries: seq<H>, r: Range, i: nat)
    requires r.lo <= i < r.hi <= |c.chain| == |entries|
  {
    entries[i] == c.Value(TopTask(r, i))
  }

  /** The entries below the task's own hold what the tasks under it have left there. */
  ghost predicate SettledBelow<H>(c: Config<H>, entries: seq<H>, r: Range)
    requires r.lo < r.hi <= |c.chain| == |entries|
  {
    forall i {:trigger SettledAt(c, entries, r, i)} :: r.lo < i < r.hi ==> SettledAt(c, entries, r, i)
  }

  lemma {:induction false} SettledSame<H>(c: Config<H>, entries: seq<H>, entries': seq<H>, r: Range)
    requires r.lo < r.hi <= |c.chain| == |entries| == |entries'|
    requires forall i :: r.lo < i < r.hi ==> entries[i] == entries'[i]
    ensures SettledBelow(c, entries, r) ==> SettledBelow(c, entries', r)
  {
    if SettledBelow(c, entries, r) {
      forall i | r.lo < i < r.hi
        ensures SettledAt(c, entries', r, i)
      {
        assert SettledAt(c, entries, r, i);
      }
    }
  }

  lemma {:induction false} HalvesSettle<H>(c: Config<H>, entries: seq<H>, r: Range)
    requires r.lo + 1 < r.hi <= |c.chain| == |entries|
    requires SettledBelow(c, entries, r.Upper()) && SettledBelow(c, entries, r.Lower()) && entries[r.Mid()] == c.Value(r.Lower())
    ensures SettledBelow(c, entries, r)
  {
    forall i | r.lo < i < r.hi
      ensures SettledAt(c, entries, r, i)
    {
      if i < r.Mid() {
        assert SettledAt(c, entries, r.Upper(), i);
      } else if i > r.Mid() {
        assert SettledAt(c, entries, r.Lower(), i);
      }
    }
  }

  /**
    What the entries and goroutines under a task look like: a goroutine runs only after everything
    below has reported, and an entry holds the result of the highest task that has been placed there.
  */
  ghost predicate TreeInvariant<H>(c: Config<H>, entries: seq<H>, jobs: Jobs<H>, r: Range)
    requires r.lo < r.hi <= |c.chain| == |entries|
    decreases r.hi - r.lo
  {
    if r.IsLeaf() then entries[r.lo] == c.chain[r.lo]
    else if r !in jobs then
      TreeInvariant(c, entries, jobs, r.Lower()) && TreeInvariant(c, entries, jobs, r.Upper())
    else
      && AllReported(jobs, r.Lower()) && AllReported(jobs, r.Upper())
      && match jobs[r]
         case Running => TreeInvariant(c, entries, jobs, r.Lower()) && TreeInvariant(c, entries, jobs, r.Upper())
         case Computed(h) => h == c.Value(r) && SettledBelow(c, entries, r)
         case _ => entries[r.lo] == c.Value(r) && SettledBelow(c, entries, r)
  }

  /** Two states look the same to everything under a task. */
  ghost predicate SameUnder<H>(entries: seq<H>, jobs: Jobs<H>, entries': seq<H>, jobs': Jobs<H>, r: Range)
    requires r.lo < r.hi <= |entries| == |entries'|
  {
    && (forall i :: r.lo <= i < r.hi ==> entries[i] == entries'[i])
    && (forall x :: Inside(x, r) ==> (x in jobs <==> x in jobs') && (x in jobs ==> jobs[x] == jobs'[x]))
  }

  lemma {:induction false} TreeInvariantFrame<H>(c: Config<H>, entries: seq<H>, jobs: Jobs<H>, entries': seq<H>, jobs': Jobs<H>, r: Range)
    requires r.lo < r.hi <= |c.chain| == |entries| == |entries'|
    requires SameUnder(entries, jobs, entries', jobs', r)
    ensures TreeInvariant(c, entries, jobs, r) == TreeInvariant(c, entries', jobs', r)
    ensures AllReported(jobs, r) == AllReported(jobs', r)
    decreases r.hi - r.lo
  {
    if !r.IsLeaf() {
      assert Inside(r, r);
      TreeInvariantFrame(c, entries, jobs, entries', jobs', r.Lower());
      TreeInvariantFrame(c, entries, jobs, entries', jobs', r.Upper());
      SettledSame(c, entries, entries', r);
      SettledSame(c, entries', entries, r);
    }
  }

  /** A task that has reported has left its result in its entry. */
  lemma {:induction false} ReportedValue<H>(c: Config<H>, entries: seq<H>, jobs: Jobs<H>, r: Range)
    requires r.lo < r.hi <= |c.chain| == |entries|
    requires TreeInvariant(c, entries, jobs, r) && (r.IsLeaf() || (r in jobs && jobs[r].HasReported()))
    ensures entries[r.lo] == c.Value(r) && AllReported(jobs, r) && SettledBelow(c, entries, r)
  {
  }

  lemma {:induction false} AllReportedInside<H>(jobs: Jobs<H>, r: Range, p: Range)
    requires r.lo < r.hi && AllReported(jobs, r) && p in Order(r) && !p.IsLeaf()
    ensures p in jobs && jobs[p].HasReported()
    decreases r.hi - r.lo
  {
    if p != r && !r.IsLeaf() {
      ChildSide(r, p);
      if p in Order(r.Lower()) {
        AllReportedInside(jobs, r.Lower(), p);
      } else {
        AllReportedInside(jobs, r.Upper(), p);
      }
    }
  }

  /** A goroutine's next step keeps the invariant of every task above it. */
  ghost predicate JobStep<H>(c: Config<H>, entries: seq<H>, jobs: Jobs<H>, p: Range, entries': seq<H>, job: Job<H>)
    requires p.lo + 1 < p.hi <= |c.chain| == |entries|
  {
    && p in jobs
    && match jobs[p]
       case Running => job == Computed(c.merge(entries[p.Mid()], entries[p.lo])) && entries' == entries
       case Computed(h) => job == Written && entries' == entries[p.lo := h]
       case Written => job == Reported && entries' == entries
       case Reported => job == Released && entries' == entries
       case Released => false
  }

  lemma {:induction false} JobStepHere<H>(c: Config<H>, entries: seq<H>, jobs: Jobs<H>, p: Range, entries': seq<H>, job: Job<H>)
    requires p.lo + 1 < p.hi <= |c.chain| == |entries|
    requires TreeInvariant(c, entries, jobs, p) && JobStep(c, entries, jobs, p, entries', job)
    ensures TreeInvariant(c, entries', jobs[p := job], p)
  {
    TreeInvariantFrame(c, entries, jobs, entries, jobs[p := job], p.Lower());
    TreeInvariantFrame(c, entries, jobs, entries, jobs[p := job], p.Upper());
    if jobs[p].Running? {
      ReportedByInvariant(c, entries, jobs, p.Lower());
      ReportedByInvariant(c, entries, jobs, p.Upper());
      HalvesSettle(c, entries, p);
    }
    SettledSame(c, entries, entries', p);
  }

  lemma {:induction false} ReportedByInvariant<H>(c: Config<H>, entries: seq<H>, jobs: Jobs<H>, r: Range)
    requires r.lo < r.hi <= |c.chain| == |entries| && AllReported(jobs, r) && TreeInvariant(c, entries, jobs, r)
    ensures entries[r.lo] == c.Value(r) && SettledBelow(c, entries, r)
  {
  }

  lemma {:induction false} ReleaseKeepsReported<H>(jobs: Jobs<H>, r: Range, p: Range)
    requires r.lo < r.hi && AllReported(jobs, r) && p in jobs && jobs[p].Reported?
    ensures AllReported(jobs[p := Released], r)
    decreases r.hi - r.lo
  {
    if !r.IsLeaf() {
      ReleaseKeepsReported(jobs, r.Lower(), p);
      ReleaseKeepsReported(jobs, r.Upper(), p);
    }
  }

  /** Both children of a task keep the invariant when a goroutine below one of them takes a step. */
  lemma {:induction false} JobStepKeepsChildren<H>(c: Config<H>, entries: seq<H>, jobs: Jobs<H>, r: Range, p: Range, entries': seq<H>, job: Job<H>)
    requires r.lo + 1 < r.hi <= |c.chain| == |entries| && p in Order(r) && p != r && p.lo + 1 < p.hi <= |entries|
    requires TreeInvariant(c, entries, jobs, r.Lower()) && TreeInvariant(c, entries, jobs, r.Upper())
    requires JobStep(c, entries, jobs, p, entries', job)
    ensures TreeInvariant(c, entries', jobs[p := job], r.Lower()) && TreeInvariant(c, entries', jobs[p := job], r.Upper())
    decreases r.hi - r.lo, 0
  {
    ChildSide(r, p);
    if Inside(p, r.Lower()) {
      JobStepKeepsTree(c, entries, jobs, r.Lower(), p, entries', job);
      TreeInvariantFrame(c, entries, jobs, entries', jobs[p := job], r.Upper());
    } else {
      JobStepKeepsTree(c, entries, jobs, r.Upper(), p, entries', job);
      TreeInvariantFrame(c, entries, jobs, entries', jobs[p := job], r.Lower());
    }
  }

  lemma {:induction false} JobStepKeepsTree<H>(c: Config<H>, entries: seq<H>, jobs: Jobs<H>, r: Range, p: Range, entries': seq<H>, job: Job<H>)
    requires r.lo < r.hi <= |c.chain| == |entries| && p in Order(r) && p.lo + 1 < p.hi <= |entries|
    requires TreeInvariant(c, entries, jobs, r) && JobStep(c, entries, jobs, p, entries', job)
    ensures TreeInvariant(c, entries', jobs[p := job], r)
    decreases r.hi - r.lo, 1
  {
    if p == r {
      JobStepHere(c, entries, jobs, p, entries', job);
    } else if r in jobs {
      ChildSide(r, p);
      AllReportedInside(jobs, if p in Order(r.Lower()) then r.Lower() else r.Upper(), p);
      ReleaseKeepsReported(jobs, r.Lower(), p);
      ReleaseKeepsReported(jobs, r.Upper(), p);
      if jobs[r].Running? {
        JobStepKeepsChildren(c, entries, jobs, r, p, entries', job);
      }
    } else {
      JobStepKeepsChildren(c, entries, jobs, r, p, entries', job);
    }
  }

  lemma {:induction false} SpawnHere<H>(c: Config<H>, entries: seq<H>, jobs: Jobs<H>, p: Range)
    requires p.hi <= |c.chain| == |entries| && p.lo + 1 < p.hi && p !in jobs
    requires forall x :: IsChild(x, p) ==> x.IsLeaf() || (x in jobs && jobs[x].HasReported())
    requires TreeInvariant(c, entries, jobs, p)
    ensures TreeInvariant(c, entries, jobs[p := Running], p)
  {
    var jobs' := jobs[p := Running];
    assert IsChild(p.Lower(), p) && IsChild(p.Upper(), p);
    ReportedValue(c, entries, jobs, p.Lower());
    ReportedValue(c, entries, jobs, p.Upper());
    TreeInvariantFrame(c, entries, jobs, entries, jobs', p.Lower());
    TreeInvariantFrame(c, entries, jobs, entries, jobs', p.Upper());
  }

  /** Starting a goroutine for a task whose children have reported keeps the invariant. */
  lemma {:induction false} SpawnKeepsTree<H>(c: Config<H>, entries: seq<H>, jobs: Jobs<H>, r: Range, p: Range)
    requires r.lo < r.hi <= |c.chain| == |entries| && p in Order(r) && p.lo + 1 < p.hi && p !in jobs
    requires forall x :: IsChild(x, p) ==> x.IsLeaf() || (x in jobs && jobs[x].HasReported())
    requires TreeInvariant(c, entries, jobs, r)
    ensures TreeInvariant(c, entries, jobs[p := Running], r)
    decreases r.hi - r.lo
  {
    var jobs' := jobs[p := Running];
    if p == r {
      SpawnHere(c, entries, jobs, p);
    } else {
      ChildSide(r, p);
      if r in jobs {
        AllReportedInside(jobs, if p in Order(r.Lower()) then r.Lower() else r.Upper(), p);
        assert false;
      }
      if Inside(p, r.Lower()) {
        SpawnKeepsTree(c, entries, jobs, r.Lower(), p);
        TreeInvariantFrame(c, entries, jobs, entries, jobs', r.Upper());
      } else {
        SpawnKeepsTree(c, entries, jobs, r.Upper(), p);
        TreeInvariantFrame(c, entries, jobs, entries, jobs', r.Lower());
      }
    }
  }

  lemma {:induction false} InitialTree<H>(c: Config<H>, r: Range)
    requires r.lo < r.hi <= |c.chain|
    ensures TreeInvariant(c, c.chain, map[], r)
    decreases r.hi - r.lo
  {
    if !r.IsLeaf() {
      InitialTree(c, r.Lower());
      InitialTree(c, r.Upper());
    }
  }

  // ------------------------------------------------------------- invariant

  ghost predicate Walked<H>(c: Config<H>, s: State<H>)
    requires c.Valid()
  {
    && s.at <= |Order(c.Root())| && s.phase <= 2
    && (s.phase > 0 ==> AtInner(c, s, s.phase))
    && (s.finished ==> s.at == |Order(c.Root())|)
  }

  /** The walk has passed the task. */
  ghost predicate Passed<H>(c: Config<H>, s: State<H>, x: Range)
    requires c.Valid() && s.at <= |Order(c.Root())|
  {
    x in Order(c.Root())[..s.at]
  }

  /** The goroutines are those of the inner tasks that the walk has passed. */
  ghost predicate JobsFit<H>(c: Config<H>, s: State<H>)
    requires c.Valid() && s.at <= |Order(c.Root())|
  {
    forall x :: x in s.jobs <==> Passed(c, s, x) && !x.IsLeaf()
  }

  ghost predicate HasSent<H>(c: Config<H>, s: State<H>, x: Range)
    requires c.Valid() && s.at <= |Order(c.Root())|
  {
    (x.IsLeaf() && Passed(c, s, x)) || (x in s.jobs && s.jobs[x].HasReported())
  }

  /** The walk, or the caller at its end, has read the task's done channel. */
  ghost predicate HasReceived<H>(c: Config<H>, s: State<H>, x: Range)
    requires c.Valid() && s.at <= |Order(c.Root())|
  {
    || (x == c.Root() && s.finished)
    || (exists p :: Passed(c, s, p) && IsChild(x, p))
    || (s.phase > 0 && s.at < |Order(c.Root())| && IsChild(x, Order(c.Root())[s.at])
        && (x == Order(c.Root())[s.at].Lower() || s.phase == 2))
  }

  /** Every done channel has been written and read at most once, by the ones that should have. */
  ghost predicate ChannelsFit<H>(c: Config<H>, s: State<H>)
    requires c.Valid() && s.at <= |Order(c.Root())|
  {
    && (forall x :: s.sent[x] == if HasSent(c, s, x) then 1 else 0)
    && (forall x :: s.received[x] == if HasReceived(c, s, x) then 1 else 0)
    && (forall x :: s.received[x] <= s.sent[x])
  }

  ghost predicate SlotsFit<H>(c: Config<H>, s: State<H>) {
    |Holders(s.jobs)| <= c.limit && (c.limit == 0 ==> s.jobs == map[])
  }

  ghost predicate DataFits<H>(c: Config<H>, s: State<H>)
    requires c.Valid()
  {
    |s.entries| == |c.chain| && TreeInvariant(c, s.entries, s.jobs, c.Root())
  }

  ghost predicate Invariant<H>(c: Config<H>, s: State<H>)
    requires c.Valid()
  {
    Walked(c, s) && JobsFit(c, s) && ChannelsFit(c, s) && SlotsFit(c, s) && DataFits(c, s)
  }

  lemma {:induction false} InitInvariant<H>(c: Config<H>)
    requires c.Valid()
    ensures Invariant(c, c.Init())
  {
    InitialTree(c, c.Root());
    assert Holders(c.Init().jobs) == {};
  }

  lemma {:induction false} StepKeepsWalk<H>(c: Config<H>, s: State<H>, e: Event, s': State<H>)
    requires c.Valid() && Walked(c, s) && Step(c, s, e, s')
    ensures Walked(c, s')
  {
  }

  /** Passing a leaf starts no goroutine, passing an inner task starts its own. */
  lemma {:induction false} StepKeepsJob<H>(c: Config<H>, s: State<H>, e: Event, s': State<H>, x: Range)
    requires c.Valid() && Walked(c, s) && Step(c, s, e, s') && Walked(c, s')
    requires x in s.jobs <==> Passed(c, s, x) && !x.IsLeaf()
    ensures x in s'.jobs <==> Passed(c, s', x) && !x.IsLeaf()
  {
    if e.LeafDone? || e.Spawn? {
      OneMore(Order(c.Root()), s.at, x);
    }
  }

  lemma {:induction false} StepKeepsWalkAndJobs<H>(c: Config<H>, s: State<H>, e: Event, s': State<H>)
    requires c.Valid() && Walked(c, s) && JobsFit(c, s) && Step(c, s, e, s')
    ensures Walked(c, s') && JobsFit(c, s')
  {
    StepKeepsWalk(c, s, e, s');
    forall x
      ensures x in s'.jobs <==> Passed(c, s', x) && !x.IsLeaf()
    {
      StepKeepsJob(c, s, e, s', x);
    }
  }

  /** One goroutine's step takes at most its own slot, and a goroutine that is there already takes none. */
  lemma {:induction false} HoldersAfter<H>(jobs: map<Range, Job<H>>, r: Range, job: Job<H>)
    ensures |Holders(jobs[r := job])| <= |Holders(jobs)| + 1
    ensures r in jobs && (jobs[r].HoldsSlot() || !job.HoldsSlot()) ==> |Holders(jobs[r := job])| <= |Holders(jobs)|
  {
    var before, after := Holders(jobs), Holders(jobs[r := job]);
    if job.HoldsSlot() {
      assert after == before + {r};
    } else {
      assert after == before - {r};
    }
  }

  lemma {:induction false} StepKeepsSlots<H>(c: Config<H>, s: State<H>, e: Event, s': State<H>)
    requires c.Valid() && SlotsFit(c, s) && Step(c, s, e, s')
    ensures SlotsFit(c, s')
  {
    match e {
      case Spawn => HoldersAfter(s.jobs, Order(c.Root())[s.at], Running);
      case Compute(r) => HoldersAfter(s.jobs, r, s'.jobs[r]);
      case Place(r) => HoldersAfter(s.jobs, r, s'.jobs[r]);
      case Report(r) => HoldersAfter(s.jobs, r, s'.jobs[r]);
      case Release(r) => HoldersAfter(s.jobs, r, s'.jobs[r]);
      case _ =>
    }
  }

  /** The task that the walk is at has not been passed, and passing it adds nothing else. */
  lemma {:induction false} PassingOne<H>(c: Config<H>, s: State<H>, x: Range)
    requires c.Valid() && s.at < |Order(c.Root())|
    ensures x in Order(c.Root())[..s.at + 1] <==> x in Order(c.Root())[..s.at] || x == Order(c.Root())[s.at]
    ensures !Passed(c, s, Order(c.Root())[s.at])
  {
    OneMore(Order(c.Root()), s.at, x);
    NotPassedYet(c, s);
  }

  lemma {:induction false} OneMore(order: seq<Range>, at: nat, x: Range)
    requires at < |order|
    ensures x in order[..at + 1] <==> x in order[..at] || x == order[at]
  {
    assert order[..at + 1] == order[..at] + [order[at]];
  }

  lemma {:induction false} StepKeepsSent<H>(c: Config<H>, s: State<H>, e: Event, s': State<H>, x: Range)
    requires c.Valid() && Walked(c, s) && JobsFit(c, s) && Step(c, s, e, s') && Walked(c, s')
    requires s.sent[x] == if HasSent(c, s, x) then 1 else 0
    ensures s'.sent[x] == if HasSent(c, s', x) then 1 else 0
  {
    if e.LeafDone? || e.Spawn? {
      PassingOne(c, s, x);
    } else {
      StandingKeepsSent(c, s, e, s', x);
    }
  }

  lemma {:induction false} StandingKeepsSent<H>(c: Config<H>, s: State<H>, e: Event, s': State<H>, x: Range)
    requires c.Valid() && Walked(c, s) && JobsFit(c, s) && Step(c, s, e, s') && Walked(c, s')
    requires s'.at == s.at && s.sent[x] == if HasSent(c, s, x) then 1 else 0
    ensures s'.sent[x] == if HasSent(c, s', x) then 1 else 0
  {
    assert Passed(c, s', x) <==> Passed(c, s, x);
    if e.Report? {
      ReportSends(c, s, e.task, s', x);
    }
  }

  lemma {:induction false} ReportSends<H>(c: Config<H>, s: State<H>, p: Range, s': State<H>, x: Range)
    requires c.Valid() && Walked(c, s) && JobsFit(c, s) && Step(c, s, Report(p), s') && Walked(c, s')
    requires s.sent[x] == if HasSent(c, s, x) then 1 else 0
    ensures s'.sent[x] == if HasSent(c, s', x) then 1 else 0
  {
    if p == x {
      assert Passed(c, s, x);
    }
  }

  lemma {:induction false} NotPassedYet<H>(c: Config<H>, s: State<H>)
    requires c.Valid() && s.at < |Order(c.Root())|
    ensures !Passed(c, s, Order(c.Root())[s.at])
  {
    var order := Order(c.Root());
    if order[s.at] in order[..s.at] {
      var i :| 0 <= i < s.at && order[i] == order[s.at];
      OrderDistinct(c.Root(), i, s.at);
    }
  }

  /** Reading a channel that holds a value: exactly that task is received in addition. */
  lemma {:induction false} AwaitKeepsReceived<H>(c: Config<H>, s: State<H>, e: Event, s': State<H>, x: Range)
    requires c.Valid() && Walked(c, s) && Step(c, s, e, s') && Walked(c, s')
    requires e.AwaitLower? || e.AwaitUpper? || e.AwaitRoot?
    requires s.received[x] == (if HasReceived(c, s, x) then 1 else 0) && s.sent[x] <= 1
    ensures s'.received[x] == if HasReceived(c, s', x) then 1 else 0
  {
    assert forall p :: Passed(c, s', p) <==> Passed(c, s, p);
  }

  /** Moving on to the next task receives nothing: what the task waited for counts as received from then on. */
  lemma {:induction false} WalkKeepsReceived<H>(c: Config<H>, s: State<H>, e: Event, s': State<H>, x: Range)
    requires c.Valid() && Walked(c, s) && Step(c, s, e, s') && Walked(c, s')
    requires e.LeafDone? || e.Spawn?
    ensures HasReceived(c, s, x) <==> HasReceived(c, s', x)
  {
    var here := Order(c.Root())[s.at];
    forall p
      ensures Passed(c, s', p) <==> Passed(c, s, p) || p == here
    {
      PassingOne(c, s, p);
    }
    if IsChild(x, here) {
      assert Passed(c, s', here);
    }
  }

  lemma {:induction false} StepKeepsReceived<H>(c: Config<H>, s: State<H>, e: Event, s': State<H>, x: Range)
    requires c.Valid() && Walked(c, s) && Step(c, s, e, s') && Walked(c, s')
    requires s.received[x] == (if HasReceived(c, s, x) then 1 else 0) && s.sent[x] <= 1
    ensures s'.received[x] == if HasReceived(c, s', x) then 1 else 0
  {
    if e.LeafDone? || e.Spawn? {
      WalkKeepsReceived(c, s, e, s', x);
    } else if e.AwaitLower? || e.AwaitUpper? || e.AwaitRoot? {
      AwaitKeepsReceived(c, s, e, s', x);
    } else {
      assert forall p :: Passed(c, s', p) <==> Passed(c, s, p);
    }
  }

  lemma {:induction false} StepKeepsChannels<H>(c: Config<H>, s: State<H>, e: Event, s': State<H>)
    requires c.Valid() && Walked(c, s) && JobsFit(c, s) && ChannelsFit(c, s) && Step(c, s, e, s') && Walked(c, s')
    ensures ChannelsFit(c, s')
  {
    forall x
      ensures s'.sent[x] == if HasSent(c, s', x) then 1 else 0
      ensures s'.received[x] == if HasReceived(c, s', x) then 1 else 0
    {
      assert s.sent[x] == if HasSent(c, s, x) then 1 else 0;
      assert s.received[x] == if HasReceived(c, s, x) then 1 else 0;
      StepKeepsSent(c, s, e, s', x);
      StepKeepsReceived(c, s, e, s', x);
    }
    forall x
      ensures s'.received[x] <= s'.sent[x]
    {
      assert s.received[x] <= s.sent[x];
    }
  }

  /** Before a goroutine starts, both of its task's children have reported. */
  lemma {:induction false} ChildrenReported<H>(c: Config<H>, s: State<H>)
    requires c.Valid() && Walked(c, s) && ChannelsFit(c, s) && AtInner(c, s, 2)
    ensures forall x :: IsChild(x, Order(c.Root())[s.at]) ==> x.IsLeaf() || (x in s.jobs && s.jobs[x].HasReported())
  {
    forall x | IsChild(x, Order(c.Root())[s.at])
      ensures x.IsLeaf() || (x in s.jobs && s.jobs[x].HasReported())
    {
      assert s.received[x] == if HasReceived(c, s, x) then 1 else 0;
      assert s.sent[x] == if HasSent(c, s, x) then 1 else 0;
      assert s.received[x] <= s.sent[x];
    }
  }

  /** The goroutines are those of inner tasks of the chain. */
  lemma {:induction false} JobIsInOrder<H>(c: Config<H>, s: State<H>, p: Range)
    requires c.Valid() && Walked(c, s) && JobsFit(c, s) && p in s.jobs
    ensures p in Order(c.Root()) && p.lo + 1 < p.hi <= |c.chain|
  {
    assert Passed(c, s, p);
    OrderInside(c.Root(), p);
  }

  lemma {:induction false} JobKeepsData<H>(c: Config<H>, s: State<H>, e: Event, s': State<H>)
    requires c.Valid() && Invariant(c, s) && Step(c, s, e, s') && (e.Compute? || e.Place? || e.Report? || e.Release?)
    ensures DataFits(c, s')
  {
    JobIsInOrder(c, s, e.task);
    JobStepKeepsTree(c, s.entries, s.jobs, c.Root(), e.task, s'.entries, s'.jobs[e.task]);
  }

  lemma {:induction false} SpawnKeepsData<H>(c: Config<H>, s: State<H>, s': State<H>)
    requires c.Valid() && Invariant(c, s) && Step(c, s, Spawn, s')
    ensures DataFits(c, s')
  {
    var p := Order(c.Root())[s.at];
    OrderInside(c.Root(), p);
    ChildrenReported(c, s);
    NotPassedYet(c, s);
    SpawnKeepsTree(c, s.entries, s.jobs, c.Root(), p);
  }

  lemma {:induction false} StepKeepsData<H>(c: Config<H>, s: State<H>, e: Event, s': State<H>)
    requires c.Valid() && Invariant(c, s) && Step(c, s, e, s')
    ensures DataFits(c, s')
  {
    if e.Compute? || e.Place? || e.Report? || e.Release? {
      JobKeepsData(c, s, e, s');
    } else if e.Spawn? {
      SpawnKeepsData(c, s, s');
    }
  }

  lemma {:induction false} StepKeepsInvariant<H>(c: Config<H>, s: State<H>, e: Event, s': State<H>)
    requires c.Valid() && Invariant(c, s) && Step(c, s, e, s')
    ensures Invariant(c, s')
  {
    StepKeepsWalkAndJobs(c, s, e, s');
    StepKeepsSlots(c, s, e, s');
    StepKeepsChannels(c, s, e, s');
    StepKeepsData(c, s, e, s');
  }

  // ------------------------------------------------------------------ runs

  /** States from the initial one on, each the result of a step from the one before. */
  ghost predicate IsRun<H>(c: Config<H>, states: seq<State<H>>, events: seq<Event>)
    requires c.Valid()
  {
    && |states| == |events| + 1 && states[0] == c.Init()
    && forall i :: 0 < i < |states| ==> Step(c, states[i - 1], events[i - 1], states[i])
  }

  lemma {:induction false} StepOfRun<H>(c: Config<H>, s: State<H>, e: Event, s': State<H>)
    requires c.Valid() && Invariant(c, s)
    ensures Step(c, s, e, s') ==> Invariant(c, s')
  {
    if Step(c, s, e, s') {
      StepKeepsInvariant(c, s, e, s');
    }
  }

  lemma {:induction false} RunInvariant<H>(c: Config<H>, states: seq<State<H>>, events: seq<Event>, k: nat)
    requires c.Valid() && IsRun(c, states, events) && k < |states|
    ensures Invariant(c, states[k])
  {
    if k == 0 {
      InitInvariant(c);
    } else {
      RunInvariant(c, states, events, k - 1);
      StepOfRun(c, states[k - 1], events[k - 1], states[k]);
    }
  }

  /** In every reachable state at most `limit` merges run, and a merge runs only after both its inputs are finished. */
  lemma {:induction false} RunIsSafe<H>(c: Config<H>, states: seq<State<H>>, events: seq<Event>, k: nat)
    requires c.Valid() && IsRun(c, states, events) && k < |states|
    ensures var s := states[k];
            && |Holders(s.jobs)| <= c.limit
            && (forall r, x :: r in s.jobs && IsChild(x, r) ==> x.IsLeaf() || (x in s.jobs && s.jobs[x].HasReported()))
            && (forall x :: s.received[x] <= s.sent[x] <= 1)
  {
    var s := states[k];
    RunInvariant(c, states, events, k);
    forall x
      ensures s.received[x] <= s.sent[x] <= 1
    {
      assert s.sent[x] == if HasSent(c, s, x) then 1 else 0;
    }
    forall r, x | r in s.jobs && IsChild(x, r)
      ensures x.IsLeaf() || (x in s.jobs && s.jobs[x].HasReported())
    {
      assert Passed(c, s, r);
      assert HasReceived(c, s, x);
      assert s.received[x] == if HasReceived(c, s, x) then 1 else 0;
      assert s.sent[x] == if HasSent(c, s, x) then 1 else 0;
      assert s.received[x] <= s.sent[x];
    }
  }

  /**
    A finished run has merged the whole chain: its result stands in the first entry, every other entry
    holds what the highest task with that entry has left there, and every done channel was used once.
  */
  lemma {:induction false} FinishedRun<H>(c: Config<H>, states: seq<State<H>>, events: seq<Event>, k: nat)
    requires c.Valid() && IsRun(c, states, events) && k < |states| && states[k].finished
    ensures |states[k].entries| == |c.chain| && states[k].entries[0] == c.Value(c.Root())
    ensures forall i: nat :: i < |c.chain| ==> SettledAt(c, states[k].entries, c.Root(), i)
    ensures forall x :: x in Order(c.Root()) ==> states[k].sent[x] == 1 && states[k].received[x] == 1
    ensures c.limit >= 1 || |c.chain| == 1
  {
    var s, order := states[k], Order(c.Root());
    RunInvariant(c, states, events, k);
    OrderEndsWith(c.Root());
    assert order[..s.at] == order;
    assert s.received[c.Root()] == 1 && s.received[c.Root()] <= s.sent[c.Root()];
    assert s.sent[c.Root()] == if HasSent(c, s, c.Root()) then 1 else 0;
    ReportedValue(c, s.entries, s.jobs, c.Root());
    forall x | x in order
      ensures s.sent[x] == 1 && s.received[x] == 1
    {
      ParentOf(c.Root(), x);
      assert s.received[x] == if HasReceived(c, s, x) then 1 else 0;
      assert s.sent[x] == if HasSent(c, s, x) then 1 else 0;
      assert s.received[x] <= s.sent[x];
    }
  }

  lemma {:induction false} ParentOf(r: Range, x: Range)
    requires r.lo < r.hi && x in Order(r)
    ensures x == r || exists p :: p in Order(r) && IsChild(x, p)
    decreases r.hi - r.lo
  {
    if x != r && !r.IsLeaf() {
      OrderEndsWith(r);
      var side := if x in Order(r.Lower()) then r.Lower() else r.Upper();
      ParentOf(side, x);
      if x == side {
        assert IsChild(x, r);
      } else {
        var p :| p in Order(side) && IsChild(x, p);
        assert p in Order(r);
      }
    }
  }

  // -------------------------------------------------------------- progress

  ghost predicate CanStep<H(!new)>(c: Config<H>, s: State<H>)
    requires c.Valid()
  {
    exists e, s' :: Step(c, s, e, s')
  }

  /** A goroutine that has not released its slot can go on. */
  lemma {:induction false} HolderCanStep<H(!new)>(c: Config<H>, s: State<H>, r: Range)
    requires c.Valid() && Invariant(c, s) && r in s.jobs && s.jobs[r].HoldsSlot()
    ensures CanStep(c, s)
  {
    assert Passed(c, s, r);
    OrderInside(c.Root(), r);
    match s.jobs[r] {
      case Running =>
        assert Step(c, s, Compute(r), s.(jobs := s.jobs[r := Computed(c.merge(s.entries[r.Mid()], s.entries[r.lo]))]));
      case Computed(h) =>
        assert Step(c, s, Place(r), s.(jobs := s.jobs[r := Written], entries := s.entries[r.lo := h]));
      case Written =>
        assert Step(c, s, Report(r), s.(jobs := s.jobs[r := Reported], sent := s.sent + multiset{r}));
      case Reported =>
        assert Step(c, s, Release(r), s.(jobs := s.jobs[r := Released]));
    }
  }

  /** What the walk waits for has been sent and not yet read, or its goroutine can go on. */
  lemma {:induction false} AwaitedCanCome<H(!new)>(c: Config<H>, s: State<H>, x: Range)
    requires c.Valid() && Invariant(c, s) && Passed(c, s, x) && !HasReceived(c, s, x)
    ensures s.received[x] < s.sent[x] || CanStep(c, s)
  {
    assert s.received[x] == if HasReceived(c, s, x) then 1 else 0;
    assert s.sent[x] == if HasSent(c, s, x) then 1 else 0;
    if !HasSent(c, s, x) {
      assert x in s.jobs;
      HolderCanStep(c, s, x);
    }
  }

  /** What the task at hand waits for has not been received before. */
  lemma {:induction false} AwaitedNotReceived<H>(c: Config<H>, s: State<H>, x: Range)
    requires c.Valid() && Walked(c, s) && s.at < |Order(c.Root())| && IsChild(x, Order(c.Root())[s.at])
    requires s.phase == 0 || (s.phase == 1 && x == Order(c.Root())[s.at].Upper())
    ensures Passed(c, s, x) && !HasReceived(c, s, x)
  {
    var here := Order(c.Root())[s.at];
    ChildrenEarlier(c.Root(), s.at);
    OrderInside(c.Root(), here);
    NotPassedYet(c, s);
    forall p | Passed(c, s, p) && IsChild(x, p)
      ensures false
    {
      UniqueParent(c.Root(), p, here, x);
    }
  }

  lemma {:induction false} RootNotReceived<H>(c: Config<H>, s: State<H>)
    requires c.Valid() && Walked(c, s) && s.at == |Order(c.Root())| && !s.finished
    ensures Passed(c, s, c.Root()) && !HasReceived(c, s, c.Root())
  {
    OrderEndsWith(c.Root());
    assert Order(c.Root())[..s.at] == Order(c.Root());
    forall p | Passed(c, s, p) && IsChild(c.Root(), p)
      ensures false
    {
      OrderInside(c.Root(), p);
    }
  }

  /** With at least one slot, no state before completion is stuck. */
  lemma {:induction false} NeverStuck<H(!new)>(c: Config<H>, s: State<H>)
    requires c.Valid() && Invariant(c, s) && c.limit >= 1 && !s.finished
    ensures CanStep(c, s)
  {
    var order := Order(c.Root());
    if s.at == |order| {
      RootNotReceived(c, s);
      AwaitedCanCome(c, s, c.Root());
      if s.received[c.Root()] < s.sent[c.Root()] {
        assert Step(c, s, AwaitRoot, s.(finished := true, received := s.received + multiset{c.Root()}));
      }
    } else if order[s.at].IsLeaf() {
      assert Step(c, s, LeafDone, s.(at := s.at + 1, sent := s.sent + multiset{order[s.at]}));
    } else {
      InnerNotStuck(c, s);
    }
  }

  lemma {:induction false} InnerNotStuck<H(!new)>(c: Config<H>, s: State<H>)
    requires c.Valid() && Invariant(c, s) && c.limit >= 1 && AtInner(c, s, s.phase)
    ensures CanStep(c, s)
  {
    var here := Order(c.Root())[s.at];
    OrderInside(c.Root(), here);
    if s.phase == 2 {
      SpawnNotStuck(c, s, here);
    } else {
      ChildNotStuck(c, s, here, if s.phase == 0 then AwaitLower else AwaitUpper, if s.phase == 0 then here.Lower() else here.Upper());
    }
  }

  /** The walk waits for a child: it has reported, or its goroutine or another one can go on. */
  lemma {:induction false} ChildNotStuck<H(!new)>(c: Config<H>, s: State<H>, here: Range, e: Event, x: Range)
    requires c.Valid() && Invariant(c, s) && c.limit >= 1 && AtInner(c, s, s.phase) && s.phase < 2
    requires here == Order(c.Root())[s.at] && here.lo < here.hi
    requires if s.phase == 0 then e == AwaitLower && x == here.Lower() else e == AwaitUpper && x == here.Upper()
    ensures CanStep(c, s)
  {
    AwaitedNotReceived(c, s, x);
    AwaitedCanCome(c, s, x);
    if s.received[x] < s.sent[x] {
      assert Step(c, s, e, s.(phase := s.phase + 1, received := s.received + multiset{x}));
    }
  }

  /** The walk waits for a slot: one is free, or its holder can go on. */
  lemma {:induction false} SpawnNotStuck<H(!new)>(c: Config<H>, s: State<H>, here: Range)
    requires c.Valid() && Invariant(c, s) && c.limit >= 1 && AtInner(c, s, 2) && here == Order(c.Root())[s.at]
    ensures CanStep(c, s)
  {
    if |Holders(s.jobs)| < c.limit {
      assert Step(c, s, Spawn, s.(at := s.at + 1, phase := 0, jobs := s.jobs[here := Running]));
    } else {
      var r :| r in Holders(s.jobs);
      HolderCanStep(c, s, r);
    }
  }

  // ----------------------------------------------------------- termination

  function JobWork<H>(jobs: Jobs<H>, order: seq<Range>): nat {
    if order == [] then 0
    else
      var x := order[|order| - 1];
      JobWork(jobs, order[..|order| - 1]) +
      if x !in jobs then 4
      else match jobs[x]
           case Running => 4
           case Computed(_) => 3
           case Written => 2
           case Reported => 1
           case Released => 0
  }

  /** Steps that are left at most. */
  ghost function Work<H>(c: Config<H>, s: State<H>): int
    requires c.Valid()
  {
    4 * (|Order(c.Root())| - s.at) - s.phase + (if s.finished then 0 else 1) + JobWork(s.jobs, Order(c.Root()))
  }

  /** A job that moves on by one step makes the work less by at least one. */
  lemma {:induction false} JobWorkDrops<H>(jobs: Jobs<H>, p: Range, job: Job<H>, order: seq<Range>)
    requires p in jobs
    requires match jobs[p]
             case Running => job.Computed?
             case Computed(_) => job.Written?
             case Written => job.Reported?
             case Reported => job.Released?
             case Released => false
    ensures JobWork(jobs[p := job], order) <= JobWork(jobs, order) - if p in order then 1 else 0
  {
    if order != [] {
      JobWorkDrops(jobs, p, job, order[..|order| - 1]);
      assert p in order ==> p in order[..|order| - 1] || p == order[|order| - 1];
    }
  }

  lemma {:induction false} SpawnKeepsWork<H>(jobs: Jobs<H>, p: Range, order: seq<Range>)
    requires p !in jobs
    ensures JobWork(jobs[p := Running], order) == JobWork(jobs, order)
  {
    if order != [] {
      SpawnKeepsWork(jobs, p, order[..|order| - 1]);
    }
  }

  /** Every step uses up work, so every run ends; with `NeverStuck`, it ends finished. */
  lemma {:induction false} EveryRunEnds<H>(c: Config<H>, s: State<H>, e: Event, s': State<H>)
    requires c.Valid() && Invariant(c, s) && Step(c, s, e, s')
    ensures 0 <= Work(c, s') < Work(c, s)
  {
    StepKeepsWalkAndJobs(c, s, e, s');
    var order := Order(c.Root());
    match e {
      case Spawn =>
        NotPassedYet(c, s);
        SpawnKeepsWork(s.jobs, order[s.at], order);
      case Compute(p) => JobIsInOrder(c, s, p); JobWorkDrops(s.jobs, p, s'.jobs[p], order);
      case Place(p) => JobIsInOrder(c, s, p); JobWorkDrops(s.jobs, p, s'.jobs[p], order);
      case Report(p) => JobIsInOrder(c, s, p); JobWorkDrops(s.jobs, p, s'.jobs[p], order);
      case Release(p) => JobIsInOrder(c, s, p); JobWorkDrops(s.jobs, p, s'.jobs[p], order);
      case _ =>
    }
  }
}
