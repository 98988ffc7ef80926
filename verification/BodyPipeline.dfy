/**
  The pipeline that diff, merge and pack share (pkg/image/diff.go, merge.go, pack.go): one goroutine
  hands out tasks, workers compute their data, one writer lays the data out in the image body.
  Runs without errors, as steps over bounded channels.
*/
module BodyPipeline {
  import opened Results
  import opened DeltaOps

  datatype Worker = Idle | Busy(task: nat) | Ready(task: nat) | Exited

  /** The tasks are numbered; `data` is what a worker makes of one, or nothing for a file found unchanged. */
  datatype Config = Config(data: seq<Option<Bytes>>, workers: nat, inCapacity: nat, outCapacity: nat)
  {
    ghost predicate Valid() {
      workers > 0 && inCapacity > 0 && outCapacity > 0
    }

    /** A task whose data is written. */
    predicate Writes(t: nat) {
      t < |data| && data[t].Some?
    }

    function Data(t: nat): Bytes {
      if Writes(t) then data[t].value else []
    }
  }

  /**
    Tasks still to be handed out, in whatever order; the two channels and whether they are closed;
    the workers; the body so far; and, in the order of writing, the tasks written with the offsets
    their entries got.
  */
  datatype State = State(
    toSend: seq<nat>,
    inQueue: seq<nat>,
    inClosed: bool,
    workers: seq<Worker>,
    same: seq<nat>,
    outQueue: seq<nat>,
    outClosed: bool,
    body: Bytes,
    written: seq<nat>,
    offsets: map<nat, nat>,
    finished: bool)

  datatype Event =
    | Send
    | CloseIn
    | Take(w: nat)
    | Compute(w: nat)
    | Put(w: nat)
    | Exit(w: nat)
    | CloseOut
    | Write
    | WriterExit

  predicate AllExited(workers: seq<Worker>) {
    forall w :: 0 <= w < |workers| ==> workers[w] == Exited
  }

  /** The tasks are handed out in some order, each once. */
  ghost predicate Init(c: Config, s: State) {
    && multiset(s.toSend) == multiset(Numbers(|c.data|))
    && s == State(s.toSend, [], false, seq(c.workers, _ => Idle), [], [], false, [], [], map[], false)
  }

  function Numbers(n: nat): seq<nat> {
    seq(n, i requires 0 <= i < n => i)
  }

  predicate Step(c: Config, s: State, e: Event, s': State) {
    match e
    case Send =>
      && s.toSend != [] && |s.inQueue| < c.inCapacity
      && s' == s.(toSend := s.toSend[1..], inQueue := s.inQueue + [s.toSend[0]])
    case CloseIn =>
      s.toSend == [] && !s.inClosed && s' == s.(inClosed := true)
    case Take(w) =>
      && w < |s.workers| && s.workers[w] == Idle && s.inQueue != []
      && s' == s.(workers := s.workers[w := Busy(s.inQueue[0])], inQueue := s.inQueue[1..])
    case Compute(w) =>
      && w < |s.workers| && s.workers[w].Busy?
      && var t := s.workers[w].task;
         s' == if c.Writes(t) then s.(workers := s.workers[w := Ready(t)])
               else s.(workers := s.workers[w := Idle], same := s.same + [t])
    case Put(w) =>
      && w < |s.workers| && s.workers[w].Ready? && |s.outQueue| < c.outCapacity
      && s' == s.(workers := s.workers[w := Idle], outQueue := s.outQueue + [s.workers[w].task])
    case Exit(w) =>
      && w < |s.workers| && s.workers[w] == Idle && s.inQueue == [] && s.inClosed
      && s' == s.(workers := s.workers[w := Exited])
    case CloseOut =>
      AllExited(s.workers) && !s.outClosed && s' == s.(outClosed := true)
    case Write =>
      && s.outQueue != []
      && var t := s.outQueue[0];
         s' == s.(outQueue := s.outQueue[1..], body := s.body + c.Data(t), written := s.written + [t],
                  offsets := s.offsets[t := |s.body|])
    case WriterExit =>
      s.outQueue == [] && s.outClosed && !s.finished && s' == s.(finished := true)
  }

  // ------------------------------------------------------ where tasks are

  predicate Holds(w: Worker, t: nat) {
    w == Busy(t) || w == Ready(t)
  }

  /** How many workers are at a task. */
  function Holders(workers: seq<Worker>, t: nat): nat {
    if workers == [] then 0
    else Holders(workers[..|workers| - 1], t) + if Holds(workers[|workers| - 1], t) then 1 else 0
  }

  lemma {:induction false} HoldersUpdate(workers: seq<Worker>, w: nat, x: Worker, t: nat)
    requires w < |workers|
    ensures Holders(workers[w := x], t) + (if Holds(workers[w], t) then 1 else 0)
         == Holders(workers, t) + (if Holds(x, t) then 1 else 0)
  {
    var front, updated := workers[..|workers| - 1], workers[w := x];
    if w < |front| {
      HoldersUpdate(front, w, x, t);
      assert updated[..|updated| - 1] == front[w := x];
    } else {
      assert updated[..|updated| - 1] == front;
    }
  }

  lemma {:induction false} NoHolders(workers: seq<Worker>, t: nat)
    requires forall w :: 0 <= w < |workers| ==> !Holds(workers[w], t)
    ensures Holders(workers, t) == 0
  {
    if workers != [] {
      NoHolders(workers[..|workers| - 1], t);
    }
  }

  function Occurrences(s: seq<nat>, t: nat): (n: nat)
    ensures n > 0 <==> t in s
  {
    multiset(s)[t]
  }

  /** In how many places a task is: on its way, with a worker, found unchanged, or written. */
  function Places(s: State, t: nat): nat {
    Occurrences(s.toSend, t) + Occurrences(s.inQueue, t) + Holders(s.workers, t) +
    Occurrences(s.same, t) + Occurrences(s.outQueue, t) + Occurrences(s.written, t)
  }

  ghost predicate TaskFits(c: Config, s: State, t: nat) {
    Places(s, t) == if t < |c.data| then 1 else 0
  }

  ghost predicate TasksFit(c: Config, s: State) {
    forall t: nat {:trigger TaskFits(c, s, t)} :: TaskFits(c, s, t)
  }

  lemma {:induction false} HeadMoves(s: seq<nat>, t: nat)
    requires s != []
    ensures Occurrences(s, t) == (if s[0] == t then 1 else 0) + Occurrences(s[1..], t)
  {
    assert s == [s[0]] + s[1..];
  }

  lemma {:induction false} LastJoins(s: seq<nat>, x: nat, t: nat)
    ensures Occurrences(s + [x], t) == Occurrences(s, t) + if x == t then 1 else 0
  {
  }

  lemma {:induction false} EnqueueKeepsPlaces(c: Config, s: State, e: Event, s': State, t: nat)
    requires Step(c, s, e, s') && (e.Send? || e.Take?)
    ensures Places(s', t) == Places(s, t)
  {
    if e.Send? {
      HeadMoves(s.toSend, t);
      LastJoins(s.inQueue, s.toSend[0], t);
    } else {
      HeadMoves(s.inQueue, t);
      HoldersUpdate(s.workers, e.w, s'.workers[e.w], t);
    }
  }

  lemma {:induction false} ComputeKeepsPlaces(c: Config, s: State, w: nat, s': State, t: nat)
    requires Step(c, s, Compute(w), s')
    ensures Places(s', t) == Places(s, t)
  {
    HoldersUpdate(s.workers, w, s'.workers[w], t);
    LastJoins(s.same, s.workers[w].task, t);
  }

  lemma {:induction false} PutKeepsPlaces(c: Config, s: State, w: nat, s': State, t: nat)
    requires Step(c, s, Put(w), s')
    ensures Places(s', t) == Places(s, t)
  {
    HoldersUpdate(s.workers, w, s'.workers[w], t);
    LastJoins(s.outQueue, s.workers[w].task, t);
  }

  lemma {:induction false} ExitKeepsPlaces(c: Config, s: State, w: nat, s': State, t: nat)
    requires Step(c, s, Exit(w), s')
    ensures Places(s', t) == Places(s, t)
  {
    HoldersUpdate(s.workers, w, s'.workers[w], t);
  }

  lemma {:induction false} WriteKeepsPlaces(c: Config, s: State, s': State, t: nat)
    requires Step(c, s, Write, s')
    ensures Places(s', t) == Places(s, t)
  {
    HeadMoves(s.outQueue, t);
    LastJoins(s.written, s.outQueue[0], t);
  }

  /** No step loses or doubles a task. */
  lemma {:induction false} StepKeepsPlaces(c: Config, s: State, e: Event, s': State, t: nat)
    requires Step(c, s, e, s')
    ensures Places(s', t) == Places(s, t)
  {
    match e {
      case Send => EnqueueKeepsPlaces(c, s, e, s', t);
      case Take(_) => EnqueueKeepsPlaces(c, s, e, s', t);
      case Compute(w) => ComputeKeepsPlaces(c, s, w, s', t);
      case Put(w) => PutKeepsPlaces(c, s, w, s', t);
      case Exit(w) => ExitKeepsPlaces(c, s, w, s', t);
      case Write => WriteKeepsPlaces(c, s, s', t);
      case _ => assert s'.workers == s.workers && s'.toSend == s.toSend && s'.inQueue == s.inQueue;
    }
  }

  lemma {:induction false} StepKeepsTasks(c: Config, s: State, e: Event, s': State)
    requires TasksFit(c, s) && Step(c, s, e, s')
    ensures TasksFit(c, s')
  {
    forall t: nat
      ensures TaskFits(c, s', t)
    {
      assert TaskFits(c, s, t);
      StepKeepsPlaces(c, s, e, s', t);
    }
  }

  // -------------------------------------------------- channels and workers

  ghost predicate ChannelsFit(c: Config, s: State) {
    && |s.workers| == c.workers
    && (s.inClosed ==> s.toSend == [])
    && (forall w :: 0 <= w < |s.workers| && s.workers[w] == Exited ==> s.inClosed && s.inQueue == [])
    && (s.outClosed ==> AllExited(s.workers))
    && (s.finished ==> s.outClosed && s.outQueue == [])
  }

  ghost predicate DataFits(c: Config, s: State) {
    && (forall w :: 0 <= w < |s.workers| && s.workers[w].Ready? ==> c.Writes(s.workers[w].task))
    && (forall i :: 0 <= i < |s.outQueue| ==> c.Writes(s.outQueue[i]))
    && (forall i :: 0 <= i < |s.written| ==> c.Writes(s.written[i]))
    && (forall i :: 0 <= i < |s.same| ==> !c.Writes(s.same[i]))
  }

  lemma {:induction false} StepKeepsChannels(c: Config, s: State, e: Event, s': State)
    requires ChannelsFit(c, s) && Step(c, s, e, s')
    ensures ChannelsFit(c, s')
  {
  }

  /** What a worker has or passes on is in line with the task's outcome. */
  lemma {:induction false} WorkerKeepsData(c: Config, s: State, e: Event, s': State)
    requires DataFits(c, s) && Step(c, s, e, s') && (e.Take? || e.Compute? || e.Put? || e.Exit?)
    ensures DataFits(c, s')
  {
  }

  lemma {:induction false} StepKeepsData(c: Config, s: State, e: Event, s': State)
    requires DataFits(c, s) && Step(c, s, e, s')
    ensures DataFits(c, s')
  {
    if e.Take? || e.Compute? || e.Put? || e.Exit? {
      WorkerKeepsData(c, s, e, s');
    }
  }

  // ---------------------------------------------------------------- layout

  /** The data of the given tasks, one after the other. */
  function Laid(c: Config, tasks: seq<nat>): Bytes {
    if tasks == [] then [] else Laid(c, tasks[..|tasks| - 1]) + c.Data(tasks[|tasks| - 1])
  }

  /** The entry of the i-th task written got the offset at which its data starts. */
  ghost predicate Placed(c: Config, s: State, i: nat)
    requires i < |s.written|
  {
    s.written[i] in s.offsets && s.offsets[s.written[i]] == |Laid(c, s.written[..i])|
  }

  /** The tasks written fill the body in their order. */
  ghost predicate LaidOut(c: Config, s: State) {
    && s.body == Laid(c, s.written)
    && (forall i: nat {:trigger Placed(c, s, i)} :: i < |s.written| ==> Placed(c, s, i))
    && (forall t :: t in s.offsets ==> t in s.written)
  }

  lemma {:induction false} WriteKeepsLayout(c: Config, s: State, s': State)
    requires Step(c, s, Write, s') && LaidOut(c, s) && s.outQueue[0] !in s.written
    ensures LaidOut(c, s')
  {
    assert s'.written[..|s.written|] == s.written;
    forall i: nat | i < |s'.written|
      ensures Placed(c, s', i)
    {
      if i < |s.written| {
        assert s'.written[..i] == s.written[..i];
        assert Placed(c, s, i) && s.written[i] in s.written;
      }
    }
  }

  lemma {:induction false} OthersKeepLayout(c: Config, s: State, s': State)
    requires s'.body == s.body && s'.written == s.written && s'.offsets == s.offsets && LaidOut(c, s)
    ensures LaidOut(c, s')
  {
    forall i: nat | i < |s'.written|
      ensures Placed(c, s', i)
    {
      assert Placed(c, s, i);
    }
  }

  lemma {:induction false} NumbersOnce(n: nat, t: nat)
    ensures multiset(Numbers(n))[t] == if t < n then 1 else 0
  {
    if n > 0 {
      NumbersOnce(n - 1, t);
      assert Numbers(n) == Numbers(n - 1) + [n - 1];
    }
  }

  /** A task that waits for the writer has not been written. */
  lemma {:induction false} WaitingNotWritten(c: Config, s: State)
    requires TasksFit(c, s) && s.outQueue != []
    ensures s.outQueue[0] !in s.written
  {
    var t := s.outQueue[0];
    assert TaskFits(c, s, t);
  }

  // ------------------------------------------------------------- invariant

  ghost predicate Invariant(c: Config, s: State) {
    TasksFit(c, s) && ChannelsFit(c, s) && DataFits(c, s) && LaidOut(c, s)
  }

  lemma {:induction false} InitInvariant(c: Config, s: State)
    requires Init(c, s)
    ensures Invariant(c, s)
  {
    forall t: nat
      ensures TaskFits(c, s, t)
    {
      NumbersOnce(|c.data|, t);
      NoHolders(s.workers, t);
    }
  }

  lemma {:induction false} StepKeepsInvariant(c: Config, s: State, e: Event, s': State)
    requires Invariant(c, s) && Step(c, s, e, s')
    ensures Invariant(c, s')
  {
    StepKeepsTasks(c, s, e, s');
    StepKeepsChannels(c, s, e, s');
    StepKeepsData(c, s, e, s');
    if e.Write? {
      WaitingNotWritten(c, s);
      WriteKeepsLayout(c, s, s');
    } else {
      OthersKeepLayout(c, s, s');
    }
  }

  // ------------------------------------------------------------------ runs

  ghost predicate IsRun(c: Config, states: seq<State>, events: seq<Event>) {
    && |states| == |events| + 1 && Init(c, states[0])
    && forall i :: 0 < i < |states| ==> Step(c, states[i - 1], events[i - 1], states[i])
  }

  lemma {:induction false} StepOfRun(c: Config, s: State, e: Event, s': State)
    requires Invariant(c, s)
    ensures Step(c, s, e, s') ==> Invariant(c, s')
  {
    if Step(c, s, e, s') {
      StepKeepsInvariant(c, s, e, s');
    }
  }

  lemma {:induction false} RunInvariant(c: Config, states: seq<State>, events: seq<Event>, k: nat)
    requires IsRun(c, states, events) && k < |states|
    ensures Invariant(c, states[k])
  {
    if k == 0 {
      InitInvariant(c, states[0]);
    } else {
      RunInvariant(c, states, events, k - 1);
      StepOfRun(c, states[k - 1], events[k - 1], states[k]);
    }
  }

  /** In every reachable state: once the channel to the writer is closed no worker sends to it, and no task is written twice. */
  lemma {:induction false} RunIsSafe(c: Config, states: seq<State>, events: seq<Event>, k: nat)
    requires IsRun(c, states, events) && k < |states|
    ensures states[k].outClosed ==> forall w, s' :: !Step(c, states[k], Put(w), s')
    ensures forall t: nat :: Occurrences(states[k].written, t) <= 1
  {
    var s := states[k];
    RunInvariant(c, states, events, k);
    forall t: nat
      ensures Occurrences(s.written, t) <= 1
    {
      assert TaskFits(c, s, t);
    }
  }

  // ------------------------------------------------------- when it is done

  /** The part of the body that belongs to the entry of a task. */
  function From(s: State, t: nat): int {
    if t in s.offsets then s.offsets[t] else 0
  }

  function To(c: Config, s: State, t: nat): int {
    From(s, t) + |c.Data(t)|
  }

  /** The body from an entry's offset on holds the entry's data. */
  ghost predicate OwnData(c: Config, s: State, t: nat)
    requires c.Writes(t)
  {
    0 <= From(s, t) <= To(c, s, t) <= |s.body| && s.body[From(s, t)..To(c, s, t)] == c.data[t].value
  }

  ghost predicate Within(c: Config, s: State, t: nat, p: nat) {
    c.Writes(t) && From(s, t) <= p < To(c, s, t)
  }

  ghost predicate Owned(c: Config, s: State, p: nat) {
    exists t: nat :: Within(c, s, t, p)
  }

  lemma {:induction false} LaidPrefix(c: Config, tasks: seq<nat>, i: nat)
    requires i < |tasks|
    ensures var from := |Laid(c, tasks[..i])|;
            && from + |c.Data(tasks[i])| <= |Laid(c, tasks)|
            && Laid(c, tasks)[from..from + |c.Data(tasks[i])|] == c.Data(tasks[i])
  {
    var front := tasks[..|tasks| - 1];
    if i < |front| {
      LaidPrefix(c, front, i);
      assert front[..i] == tasks[..i];
    } else {
      assert tasks[..i] == front;
    }
  }

  /** Data laid earlier ends before data laid later begins. */
  lemma {:induction false} LaidApart(c: Config, tasks: seq<nat>, i: nat, j: nat)
    requires i < j < |tasks|
    ensures |Laid(c, tasks[..i])| + |c.Data(tasks[i])| <= |Laid(c, tasks[..j])|
  {
    LaidPrefix(c, tasks[..j], i);
    assert tasks[..j][..i] == tasks[..i];
  }

  /** Every position of the data laid belongs to one of the tasks. */
  lemma {:induction false} LaidCovers(c: Config, tasks: seq<nat>, p: nat) returns (i: nat)
    requires p < |Laid(c, tasks)|
    ensures i < |tasks| && |Laid(c, tasks[..i])| <= p < |Laid(c, tasks[..i])| + |c.Data(tasks[i])|
  {
    var front := tasks[..|tasks| - 1];
    if p < |Laid(c, front)| {
      i := LaidCovers(c, front, p);
      assert front[..i] == tasks[..i];
    } else {
      i := |front|;
      assert tasks[..i] == front;
    }
  }

  /** When the writer has finished, every task has been written or found unchanged. */
  lemma {:induction false} FinishedTasks(c: Config, s: State, t: nat)
    requires c.Valid() && Invariant(c, s) && s.finished
    ensures Occurrences(s.written, t) == if c.Writes(t) then 1 else 0
    ensures t in s.offsets <==> c.Writes(t)
  {
    assert s.workers[0] == Exited;
    NoHolders(s.workers, t);
    assert TaskFits(c, s, t);
    assert c.Writes(t) ==> t !in s.same;
    assert !c.Writes(t) ==> t !in s.written;
    if t in s.written {
      var i :| 0 <= i < |s.written| && s.written[i] == t;
      assert Placed(c, s, i);
    }
  }

  lemma {:induction false} IndexOf(c: Config, s: State, t: nat) returns (i: nat)
    requires c.Valid() && Invariant(c, s) && s.finished && c.Writes(t)
    ensures i < |s.written| && s.written[i] == t && From(s, t) == |Laid(c, s.written[..i])|
  {
    FinishedTasks(c, s, t);
    assert t in s.written;
    i :| 0 <= i < |s.written| && s.written[i] == t;
    assert Placed(c, s, i);
  }

  /**
    Whatever the order of the tasks and the interleaving: when the writer has finished, exactly the
    tasks with data have been written, each once; the body from an entry's offset on holds its own
    data; the parts of different entries do not overlap; and together they fill the body.
  */
  lemma {:induction false} FinishedLayout(c: Config, states: seq<State>, events: seq<Event>, k: nat)
    requires IsRun(c, states, events) && k < |states| && states[k].finished && c.Valid()
    ensures var s := states[k];
            && (forall t: nat :: Occurrences(s.written, t) == if c.Writes(t) then 1 else 0)
            && (forall t: nat :: t in s.offsets <==> c.Writes(t))
            && (forall t: nat :: c.Writes(t) ==> OwnData(c, s, t))
            && (forall t: nat, u: nat :: c.Writes(t) && c.Writes(u) && t != u ==>
                  To(c, s, t) <= From(s, u) || To(c, s, u) <= From(s, t))
            && (forall p: nat :: p < |s.body| ==> Owned(c, s, p))
  {
    var s := states[k];
    RunInvariant(c, states, events, k);
    forall t: nat
      ensures Occurrences(s.written, t) == if c.Writes(t) then 1 else 0
      ensures t in s.offsets <==> c.Writes(t)
    {
      FinishedTasks(c, s, t);
    }
    forall t: nat | c.Writes(t)
      ensures OwnData(c, s, t)
    {
      FinishedData(c, s, t);
    }
    forall t: nat, u: nat | c.Writes(t) && c.Writes(u) && t != u
      ensures To(c, s, t) <= From(s, u) || To(c, s, u) <= From(s, t)
    {
      FinishedApart(c, s, t, u);
    }
    forall p: nat | p < |s.body|
      ensures Owned(c, s, p)
    {
      FinishedOwned(c, s, p);
    }
  }

  lemma {:induction false} FinishedData(c: Config, s: State, t: nat)
    requires c.Valid() && Invariant(c, s) && s.finished && c.Writes(t)
    ensures OwnData(c, s, t)
  {
    var i := IndexOf(c, s, t);
    LaidPrefix(c, s.written, i);
  }

  lemma {:induction false} FinishedOwned(c: Config, s: State, p: nat)
    requires Invariant(c, s) && p < |s.body|
    ensures Owned(c, s, p)
  {
    var i := LaidCovers(c, s.written, p);
    assert Placed(c, s, i);
    assert Within(c, s, s.written[i], p);
  }

  lemma {:induction false} FinishedApart(c: Config, s: State, t: nat, u: nat)
    requires c.Valid() && Invariant(c, s) && s.finished && c.Writes(t) && c.Writes(u) && t != u
    ensures To(c, s, t) <= From(s, u) || To(c, s, u) <= From(s, t)
  {
    var i := IndexOf(c, s, t);
    var j := IndexOf(c, s, u);
    if i < j {
      LaidApart(c, s.written, i, j);
    } else {
      LaidApart(c, s.written, j, i);
    }
  }

  // -------------------------------------------------------------- progress

  ghost predicate CanStep(c: Config, s: State) {
    exists e, s' :: Step(c, s, e, s')
  }

  /** A worker that still runs can go on, or waits for a channel that another goroutine can serve. */
  lemma {:induction false} WorkerCanStep(c: Config, s: State, w: nat)
    requires c.Valid() && ChannelsFit(c, s) && w < |s.workers| && s.workers[w] != Exited
    ensures CanStep(c, s)
  {
    match s.workers[w] {
      case Busy(t) =>
        assert Step(c, s, Compute(w), if c.Writes(t) then s.(workers := s.workers[w := Ready(t)])
                                      else s.(workers := s.workers[w := Idle], same := s.same + [t]));
      case Ready(t) =>
        if |s.outQueue| < c.outCapacity {
          assert Step(c, s, Put(w), s.(workers := s.workers[w := Idle], outQueue := s.outQueue + [t]));
        } else {
          WriterCanStep(c, s);
        }
      case Idle =>
        if s.inQueue != [] {
          assert Step(c, s, Take(w), s.(workers := s.workers[w := Busy(s.inQueue[0])], inQueue := s.inQueue[1..]));
        } else if s.inClosed {
          assert Step(c, s, Exit(w), s.(workers := s.workers[w := Exited]));
        } else if s.toSend == [] {
          assert Step(c, s, CloseIn, s.(inClosed := true));
        } else {
          assert Step(c, s, Send, s.(toSend := s.toSend[1..], inQueue := s.inQueue + [s.toSend[0]]));
        }
    }
  }

  lemma {:induction false} WriterCanStep(c: Config, s: State)
    requires s.outQueue != []
    ensures CanStep(c, s)
  {
    var t := s.outQueue[0];
    assert Step(c, s, Write, s.(outQueue := s.outQueue[1..], body := s.body + c.Data(t), written := s.written + [t],
                                offsets := s.offsets[t := |s.body|]));
  }

  /** No state before the end is stuck: with a worker and room in the channels, someone can always go on. */
  lemma {:induction false} NeverStuck(c: Config, s: State)
    requires c.Valid() && Invariant(c, s) && !s.finished
    ensures CanStep(c, s)
  {
    if !AllExited(s.workers) {
      var w :| 0 <= w < |s.workers| && s.workers[w] != Exited;
      WorkerCanStep(c, s, w);
    } else if s.outQueue != [] {
      WriterCanStep(c, s);
    } else if !s.outClosed {
      assert Step(c, s, CloseOut, s.(outClosed := true));
    } else {
      assert Step(c, s, WriterExit, s.(finished := true));
    }
  }

  function WorkerLoad(w: Worker): nat {
    match w
    case Exited => 0
    case Idle => 1
    case Busy(_) => 5
    case Ready(_) => 4
  }

  function Loads(workers: seq<Worker>): nat {
    if workers == [] then 0 else Loads(workers[..|workers| - 1]) + WorkerLoad(workers[|workers| - 1])
  }

  lemma {:induction false} LoadsUpdate(workers: seq<Worker>, w: nat, x: Worker)
    requires w < |workers|
    ensures Loads(workers[w := x]) + WorkerLoad(workers[w]) == Loads(workers) + WorkerLoad(x)
  {
    var front, updated := workers[..|workers| - 1], workers[w := x];
    if w < |front| {
      LoadsUpdate(front, w, x);
      assert updated[..|updated| - 1] == front[w := x];
    } else {
      assert updated[..|updated| - 1] == front;
    }
  }

  /** Steps that are left at most. */
  function Work(s: State): nat {
    6 * |s.toSend| + 5 * |s.inQueue| + Loads(s.workers) + 2 * |s.outQueue| +
    (if s.inClosed then 0 else 1) + (if s.outClosed then 0 else 1) + (if s.finished then 0 else 1)
  }

  lemma {:induction false} WorkerUsesWork(c: Config, s: State, e: Event, s': State)
    requires Step(c, s, e, s') && (e.Take? || e.Compute? || e.Put? || e.Exit?)
    ensures Work(s') < Work(s)
  {
    LoadsUpdate(s.workers, e.w, s'.workers[e.w]);
  }

  /** Every step uses up work, so every run ends; with `NeverStuck`, it ends finished. */
  lemma {:induction false} EveryRunEnds(c: Config, s: State, e: Event, s': State)
    requires Step(c, s, e, s')
    ensures Work(s') < Work(s)
  {
    if e.Take? || e.Compute? || e.Put? || e.Exit? {
      WorkerUsesWork(c, s, e, s');
    }
  }
}
