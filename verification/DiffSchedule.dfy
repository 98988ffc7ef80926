/** The order in which size-ordered diff tasks reach the workers (pkg/image/diff.go, the scheduler goroutine). */
module DiffSchedule {

  datatype DiffTask = DiffTask(hasOld: bool, size: int, number: nat)

  function Those(tasks: seq<DiffTask>, hasOld: bool): seq<DiffTask> {
    if tasks == [] then []
    else
      var last := tasks[|tasks| - 1];
      Those(tasks[..|tasks| - 1], hasOld) + if last.hasOld == hasOld then [last] else []
  }

  ghost predicate LargestFirst(tasks: seq<DiffTask>) {
    forall i, j :: 0 <= i < j < |tasks| ==> tasks[i].size >= tasks[j].size
  }

  /** A larger task goes first among those that have an old file to be compared with, and among those that have none. */
  ghost predicate SendOrder(tasks: seq<DiffTask>) {
    forall i, j :: 0 <= i < j < |tasks| ==>
      if tasks[i].hasOld == tasks[j].hasOld then tasks[i].size >= tasks[j].size else tasks[i].hasOld
  }

  lemma {:induction false} ThoseMore(front: seq<DiffTask>, t: DiffTask, hasOld: bool)
    ensures Those(front + [t], hasOld) == Those(front, hasOld) + if t.hasOld == hasOld then [t] else []
  {
    assert (front + [t])[..|front|] == front;
  }

  /** All of the tasks are of one kind, none of them smaller than the given size. */
  ghost predicate OneKind(tasks: seq<DiffTask>, hasOld: bool, size: int) {
    forall i :: 0 <= i < |tasks| ==> tasks[i].hasOld == hasOld && tasks[i].size >= size
  }

  lemma {:induction false} ThoseOrdered(tasks: seq<DiffTask>, hasOld: bool, size: int)
    requires LargestFirst(tasks) && forall i :: 0 <= i < |tasks| ==> tasks[i].size >= size
    ensures LargestFirst(Those(tasks, hasOld)) && OneKind(Those(tasks, hasOld), hasOld, size)
  {
    if tasks != [] {
      var front, last := tasks[..|tasks| - 1], tasks[|tasks| - 1];
      assert tasks == front + [last];
      ThoseMore(front, last, hasOld);
      ThoseOrdered(front, hasOld, last.size);
    }
  }

  lemma {:induction false} ThoseKeepAll(tasks: seq<DiffTask>)
    ensures multiset(Those(tasks, true)) + multiset(Those(tasks, false)) == multiset(tasks)
  {
    if tasks != [] {
      var front, last := tasks[..|tasks| - 1], tasks[|tasks| - 1];
      assert tasks == front + [last];
      ThoseMore(front, last, true);
      ThoseMore(front, last, false);
      ThoseKeepAll(front);
    }
  }

  /** Insertion of one task into an ordered list; tasks of the same size may come in any order. */
  function Insert(t: DiffTask, tasks: seq<DiffTask>): seq<DiffTask> {
    if tasks == [] || t.size >= tasks[0].size then [t] + tasks else [tasks[0]] + Insert(t, tasks[1..])
  }

  lemma {:induction false} InsertKeepsAll(t: DiffTask, tasks: seq<DiffTask>)
    ensures multiset(Insert(t, tasks)) == multiset(tasks) + multiset{t}
  {
    if tasks != [] && t.size < tasks[0].size {
      assert tasks == [tasks[0]] + tasks[1..];
      InsertKeepsAll(t, tasks[1..]);
    }
  }

  ghost predicate AtMost(tasks: seq<DiffTask>, size: int) {
    forall i :: 0 <= i < |tasks| ==> tasks[i].size <= size
  }

  lemma {:induction false} LargestInFront(t: DiffTask, tasks: seq<DiffTask>, size: int)
    requires LargestFirst(tasks) && AtMost(tasks, t.size) && t.size <= size
    ensures LargestFirst([t] + tasks) && AtMost([t] + tasks, size)
  {
  }

  lemma {:induction false} InsertOrdered(t: DiffTask, tasks: seq<DiffTask>, size: int)
    requires LargestFirst(tasks) && AtMost(tasks, size) && t.size <= size
    ensures LargestFirst(Insert(t, tasks)) && AtMost(Insert(t, tasks), size)
  {
    if tasks == [] || t.size >= tasks[0].size {
      LargestInFront(t, tasks, size);
    } else {
      InsertOrdered(t, tasks[1..], tasks[0].size);
      LargestInFront(tasks[0], Insert(t, tasks[1..]), size);
    }
  }

  method SortBySize(taskArray: seq<DiffTask>) returns (sorted: seq<DiffTask>)
    ensures LargestFirst(sorted) && multiset(sorted) == multiset(taskArray)
  {
    sorted := [];
    for i := 0 to |taskArray|
      invariant LargestFirst(sorted) && multiset(sorted) == multiset(taskArray[..i])
    {
      var t := taskArray[i];
      InsertKeepsAll(t, sorted);
      InsertOrdered(t, sorted, if sorted == [] || t.size >= sorted[0].size then t.size else sorted[0].size);
      sorted := Insert(t, sorted);
      assert taskArray[..i + 1] == taskArray[..i] + [taskArray[i]];
    }
    assert taskArray[..|taskArray|] == taskArray;
  }

  /** One pass over the sorted tasks. */
  method SendThose(sorted: seq<DiffTask>, hasOld: bool) returns (sent: seq<DiffTask>)
    ensures sent == Those(sorted, hasOld)
  {
    sent := [];
    for i := 0 to |sorted|
      invariant sent == Those(sorted[..i], hasOld)
    {
      assert sorted[..i + 1][..i] == sorted[..i];
      if sorted[i].hasOld == hasOld {
        sent := sent + [sorted[i]];
      }
    }
    assert sorted[..|sorted|] == sorted;
  }

  lemma {:induction false} TwoPassesOrdered(sorted: seq<DiffTask>)
    requires LargestFirst(sorted)
    ensures SendOrder(Those(sorted, true) + Those(sorted, false))
  {
    var size := if sorted == [] then 0 else sorted[|sorted| - 1].size;
    ThoseOrdered(sorted, true, size);
    ThoseOrdered(sorted, false, size);
  }

  /** Sorts the queued tasks by size, then sends those with an old file, then the others: none is lost or sent twice. */
  method SendTasks(taskArray: seq<DiffTask>) returns (sent: seq<DiffTask>)
    ensures multiset(sent) == multiset(taskArray) && SendOrder(sent)
  {
    var sorted := SortBySize(taskArray);
    var first := SendThose(sorted, true);
    var second := SendThose(sorted, false);
    sent := first + second;
    ThoseKeepAll(sorted);
    TwoPassesOrdered(sorted);
  }
}
