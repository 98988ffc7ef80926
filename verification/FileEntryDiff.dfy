/**
  Making a delta image in place: the entries of the new image become the entries of the delta
  (pkg/image/diff.go).
*/
module FileEntryDiff {
  import opened Results
  import opened DeltaOps
  import opened ImageTree
  import opened ImageDiff
  import opened DiffPaths
  import opened FileEntries

  /** An entry of the old image, which a diff only reads. */
  ghost predicate Readable(e: FileEntry?, region: set<object>)
    reads e, ReprOf(e)
  {
    e != null ==> e.Valid() && BodiesRead(e.tree) && e.repr !! region
  }

  /** No task is made for the entry: its place is now one in the body of another image. */
  method LeaveBehind(e: FileEntry)
    requires e.Valid()
    modifies e.repr
    ensures e.Valid() && e.repr == old(e.repr) && e.tree == Skipped(old(e.tree))
    decreases e.tree, 1
  {
    e.TreeShowsType();
    if e.IsDir() {
      LeaveChildsBehind(e);
    } else if e.kind == FILE_NEW {
      e.Write(e.meta, FILE_NEW, Dangling, e.delta);
    }
  }

  method LeaveChildsBehind(e: FileEntry)
    requires e.Valid() && e.IsDir()
    modifies e.repr
    ensures e.Valid() && e.repr == old(e.repr) && e.tree == Skipped(old(e.tree))
    decreases e.tree, 0
  {
    e.TreeShowsType();
    ghost var before := e.tree;
    var rest := e.childs.Keys;
    while rest != {}
      invariant rest <= e.childs.Keys
      invariant e.ChildsValid() && e.repr == old(e.repr) && e.meta == old(e.meta) && e.kind == old(e.kind)
      invariant SkippedSoFar(before.childs, e.trees, rest)
    {
      var k :| k in rest;
      assert e.ChildValid(k);
      SkippedOne(before.childs, e.trees, rest, k);
      LeaveChildBehind(e, k);
      rest := rest - {k};
    }
    SkippedAll(before, e.trees);
    e.Refresh();
  }

  ghost predicate SkippedSoFar(before: map<string, Tree>, now: map<string, Tree>, rest: set<string>) {
    && now.Keys == before.Keys
    && forall k :: k in before ==> now[k] == if k in rest then before[k] else Skipped(before[k])
  }

  lemma {:induction false} SkippedOne(before: map<string, Tree>, now: map<string, Tree>, rest: set<string>, k: string)
    requires SkippedSoFar(before, now, rest) && k in rest && k in now
    ensures SkippedSoFar(before, now[k := Skipped(now[k])], rest - {k})
  {
  }

  lemma {:induction false} SkippedAll(before: Tree, now: map<string, Tree>)
    requires before.Dir? && SkippedSoFar(before.childs, now, {})
    ensures Skipped(before) == Dir(before.meta, before.allNew, now)
  {
  }

  method LeaveChildBehind(e: FileEntry, k: string)
    requires e.ChildsValid() && k in e.childs
    modifies e`childs, e`trees, e`repr, e.childs[k].repr
    ensures e.ChildsValid() && e.repr == old(e.repr) && e.childs == old(e.childs)
    ensures e.trees == old(e.trees)[k := Skipped(old(e.trees[k]))]
    decreases e.trees[k], 2
  {
    assert e.ChildValid(k);
    LeaveBehind(e.childs[k]);
    e.OthersKept(k);
    e.Replace(k, e.childs[k]);
  }

  // ------------------------------------------------------------- the diff

  /** The worker on a file that both images have. */
  method DiffFileEntry(gen: Generator, binary: bool, o: FileEntry, e: FileEntry)
    requires e.Valid() && e.kind == FILE_NEW && e.content.Stored?
    requires o.kind == FILE_NEW && o.content.Stored? && o != e
    modifies e
    ensures e.Valid() && e.repr == old(e.repr)
    ensures e.tree == DiffFile(gen, binary, o.content.bytes, old(e.meta), old(e.content.bytes))
    ensures FileEntryRight(gen, binary, Some(o.content.bytes), old(e.content.bytes), old(e.meta), true, e.tree)
  {
    var oldBytes, newBytes := o.content.bytes, e.content.bytes;
    if newBytes == oldBytes {
      e.Write(e.meta, FILE_SAME, e.content, e.delta);
    } else if |oldBytes| > 0 && binary {
      e.Write(e.meta, FILE_DIFF, e.content, gen(oldBytes, newBytes));
    } else {
      e.Write(e.meta, FILE_NEW, e.content, e.delta);
    }
  }

  /** The scan accepts the entry and what it enters below. */
  predicate Accepted(e: Tree) {
    !e.IsBaseRequired() && (e.Dir? && !IsSkipped(e) ==> Diffable(e))
  }

  /**
    One round of the loop of `enqueueDiffTaskToQueue`, with the work on the task it makes. An entry of
    a delta image is an error.
  */
  method DiffEntry(gen: Generator, binary: bool, o: FileEntry?, e: FileEntry) returns (ok: bool)
    requires e.Valid() && BodiesRead(e.tree) && Readable(o, e.repr)
    modifies e.repr
    ensures e.Valid() && e.repr == old(e.repr)
    ensures ok <==> Accepted(old(e.tree))
    ensures ok ==> e.tree == DiffChild(gen, binary, old(TreeOf(o)), old(e.tree))
    decreases e.tree, 3
  {
    e.TreeShowsType();
    if e.kind == FILE_SAME || e.kind == FILE_DIFF {
      return false;
    }
    if e.kind == SYMLINK || e.meta.size == 0 {
      LeaveBehind(e);
      return true;
    }
    if o != null {
      o.TreeShowsType();
    }
    if o == null || o.meta.name != e.meta.name || o.kind != e.kind {
      ok := true;
      if e.IsDir() {
        ok := EnqueueDiffTasks(gen, binary, null, e);
      }
    } else if e.IsDir() {
      ok := EnqueueDiffTasks(gen, binary, o, e);
    } else {
      ok := true;
      if e.kind == FILE_NEW {
        DiffFileEntry(gen, binary, o, e);
      }
    }
  }

  /** The old entry under a name, if there is an old directory with one. */
  method OldEntry(o: FileEntry?, k: string, ghost region: set<object>) returns (oldChild: FileEntry?)
    requires Readable(o, region)
    ensures Readable(oldChild, region) && TreeOf(oldChild) == ChildEntry(TreeOf(o), k)
    ensures o != null ==> o in o.repr
  {
    oldChild := null;
    if o != null {
      o.ChildsShown();
      assert o.ChildsValid() && o in o.repr;
      oldChild := if k in o.childs then o.childs[k] else null;
    }
  }

  /** The work on one child, which is changed in place; the others and the old image stay as they are. */
  method DiffTask(gen: Generator, binary: bool, o: FileEntry?, e: FileEntry, k: string, ghost oldTree: Option<Tree>) returns (ok: bool)
    requires e.ChildsValid() && k in e.childs && BodiesRead(e.trees[k]) && Readable(o, e.repr)
    requires oldTree == TreeOf(o) && (ChildEntry(oldTree, k).Some? ==> BodiesRead(ChildEntry(oldTree, k).value))
    modifies e.childs[k].repr
    ensures unchanged(e) && e.OthersValid(k) && e.childs[k] in e.childs[k].repr && e !in e.childs[k].repr
    ensures e.childs[k].Valid() && e.childs[k].repr == old(e.childs[k].repr) <= e.repr
    ensures forall j :: j in e.childs && j != k ==> e.childs[k].repr !! e.childs[j].repr
    ensures Readable(o, e.repr) && TreeOf(o) == oldTree
    ensures ok <==> Accepted(old(e.trees[k]))
    ensures ok ==> e.childs[k].tree == DiffChild(gen, binary, ChildEntry(oldTree, k), old(e.trees[k]))
    decreases e.trees[k], 4
  {
    assert e.ChildValid(k);
    var oldChild := OldEntry(o, k, e.repr);
    ok := DiffEntry(gen, binary, oldChild, e.childs[k]);
    e.OthersKept(k);
  }

  method DiffNamed(gen: Generator, binary: bool, o: FileEntry?, e: FileEntry, k: string, ghost oldTree: Option<Tree>) returns (ok: bool)
    requires e.ChildsValid() && k in e.childs && BodiesRead(e.trees[k]) && Readable(o, e.repr)
    requires oldTree == TreeOf(o) && (ChildEntry(oldTree, k).Some? ==> BodiesRead(ChildEntry(oldTree, k).value))
    modifies e`childs, e`trees, e`repr, e.childs[k].repr
    ensures e.ChildsValid() && e.repr == old(e.repr) && e.childs == old(e.childs)
    ensures Readable(o, e.repr) && TreeOf(o) == oldTree
    ensures ok <==> Accepted(old(e.trees[k]))
    ensures ok ==> e.trees == old(e.trees)[k := DiffChild(gen, binary, ChildEntry(oldTree, k), old(e.trees[k]))]
    decreases e.trees[k], 5
  {
    ok := DiffTask(gen, binary, o, e, k, oldTree);
    e.Replace(k, e.childs[k]);
  }

  /** What the scan makes of the children, and which of them it accepts. */
  datatype Plan = Plan(before: map<string, Tree>, after: map<string, Tree>, accepted: set<string>)
  {
    /** Every child outside `rest` has been accepted and has become its delta entry, the others are as before. */
    ghost predicate Done(now: map<string, Tree>, rest: set<string>) {
      && now.Keys == before.Keys == after.Keys
      && (forall k :: k in before && k !in rest ==> k in accepted)
      && forall k :: k in before ==> now[k] == if k in rest then before[k] else after[k]
    }

    ghost predicate Reached(now: map<string, Tree>, rest: set<string>, ok: bool, rejected: string) {
      rest <= before.Keys && if ok then Done(now, rest) else rejected in before && rejected !in accepted
    }
  }

  ghost predicate Planned(gen: Generator, binary: bool, o: Option<Tree>, p: Plan) {
    && (o.Some? ==> BodiesRead(o.value)) && (forall k :: k in p.before ==> BodiesRead(p.before[k]))
    && p.after.Keys == p.before.Keys
    && forall k :: k in p.before ==>
         (k in p.accepted <==> Accepted(p.before[k])) && p.after[k] == DiffChild(gen, binary, ChildEntry(o, k), p.before[k])
  }

  ghost function PlanOf(gen: Generator, binary: bool, o: Option<Tree>, before: Tree): Plan
    requires before.Dir? && BodiesRead(before) && (o.Some? ==> BodiesRead(o.value))
  {
    Plan(before.childs,
         map k | k in before.childs :: DiffChild(gen, binary, ChildEntry(o, k), before.childs[k]),
         set k | k in before.childs && Accepted(before.childs[k]))
  }

  /** The loop's state: `rest` is still to be scanned, or a child has been rejected. */
  ghost predicate Scanned(gen: Generator, binary: bool, o: FileEntry?, oldTree: Option<Tree>, e: FileEntry, own: (set<object>, Meta, EntryType),
                          p: Plan, rest: set<string>, ok: bool, rejected: string)
    reads o, ReprOf(o), e, e.repr
  {
    && Readable(o, e.repr) && TreeOf(o) == oldTree && Planned(gen, binary, oldTree, p)
    && e.ChildsValid() && (e.repr, e.meta, e.kind) == own
    && e.childs.Keys == p.before.Keys && p.Reached(e.trees, rest, ok, rejected)
  }

  lemma {:induction false} PlannedChild(gen: Generator, binary: bool, o: Option<Tree>, p: Plan, now: map<string, Tree>, rest: set<string>, k: string)
    requires Planned(gen, binary, o, p) && k in rest && p.Reached(now, rest, true, "")
    ensures k in p.before && k in now && now[k] == p.before[k] && BodiesRead(now[k])
    ensures ChildEntry(o, k).Some? ==> BodiesRead(ChildEntry(o, k).value)
  {
  }

  lemma {:induction false} NextReached(gen: Generator, binary: bool, o: Option<Tree>, p: Plan, now: map<string, Tree>, now': map<string, Tree>,
                                       rest: set<string>, k: string, ok: bool)
    requires Planned(gen, binary, o, p) && k in rest && p.Reached(now, rest, true, "")
    requires ok <==> Accepted(now[k])
    requires ok ==> now' == now[k := DiffChild(gen, binary, ChildEntry(o, k), now[k])]
    ensures p.Reached(now', rest - {k}, ok, k)
  {
  }

  /** One round of the loop. */
  method DiffNext(gen: Generator, binary: bool, o: FileEntry?, e: FileEntry, k: string,
                  ghost oldTree: Option<Tree>, ghost own: (set<object>, Meta, EntryType), ghost p: Plan, ghost rest: set<string>)
    returns (ok: bool)
    requires k in rest && k in p.before && Scanned(gen, binary, o, oldTree, e, own, p, rest, true, "")
    modifies e.repr
    ensures Scanned(gen, binary, o, oldTree, e, own, p, rest - {k}, ok, k)
    decreases p.before[k], 6
  {
    assert e.ChildValid(k);
    ghost var now := e.trees;
    PlannedChild(gen, binary, oldTree, p, now, rest, k);
    ok := DiffNamed(gen, binary, o, e, k, oldTree);
    NextReached(gen, binary, oldTree, p, now, e.trees, rest, k, ok);
  }

  lemma {:induction false} PlanStarts(gen: Generator, binary: bool, o: Option<Tree>, before: Tree)
    requires before.Dir? && BodiesRead(before) && (o.Some? ==> BodiesRead(o.value))
    ensures Planned(gen, binary, o, PlanOf(gen, binary, o, before))
    ensures PlanOf(gen, binary, o, before).Reached(before.childs, before.childs.Keys, true, "")
  {
  }

  lemma {:induction false} PlanDone(gen: Generator, binary: bool, o: Option<Tree>, before: Tree, now: map<string, Tree>)
    requires before.Dir? && BodiesRead(before) && (o.Some? ==> BodiesRead(o.value))
    requires PlanOf(gen, binary, o, before).Done(now, {})
    ensures Diffable(before) && DiffDir(gen, binary, o, before) == Dir(before.meta, before.allNew, now)
  {
    forall k | k in before.childs
      ensures Accepted(before.childs[k])
    {
      assert k in PlanOf(gen, binary, o, before).accepted;
    }
    assert PlanOf(gen, binary, o, before).after == now;
  }

  lemma {:induction false} RejectedChild(before: Tree, k: string)
    requires before.Dir? && k in before.childs && !Accepted(before.childs[k])
    ensures !Diffable(before)
  {
  }

  /** The loop of `enqueueDiffTaskToQueue`, in whatever order the names come up. A rejected child ends it. */
  method DiffChilds(gen: Generator, binary: bool, o: FileEntry?, e: FileEntry,
                    ghost oldTree: Option<Tree>, ghost own: (set<object>, Meta, EntryType), ghost p: Plan, ghost whole: Tree)
    returns (ok: bool, ghost rejected: string)
    requires Scanned(gen, binary, o, oldTree, e, own, p, e.childs.Keys, true, "")
    requires whole.Dir? && whole.childs == p.before
    modifies e.repr
    ensures Scanned(gen, binary, o, oldTree, e, own, p, {}, ok, rejected)
    decreases whole, 1
  {
    var rest := e.childs.Keys;
    ok, rejected := true, "";
    while ok && rest != {}
      invariant Scanned(gen, binary, o, oldTree, e, own, p, rest, ok, rejected)
    {
      var k :| k in rest;
      ok := DiffNext(gen, binary, o, e, k, oldTree, own, p, rest);
      rest, rejected := rest - {k}, k;
    }
  }

  /** `enqueueDiffTaskToQueue`, together with the work on each task. It fails exactly if it meets an entry of a delta image. */
  method EnqueueDiffTasks(gen: Generator, binary: bool, o: FileEntry?, e: FileEntry) returns (ok: bool)
    requires e.Valid() && e.IsDir() && BodiesRead(e.tree) && Readable(o, e.repr)
    modifies e.repr
    ensures old(e.tree).Dir?
    ensures e.Valid() && e.repr == old(e.repr) && e.IsDir()
    ensures ok <==> Diffable(old(e.tree))
    ensures ok ==> e.tree == DiffDir(gen, binary, old(TreeOf(o)), old(e.tree))
    decreases e.tree, 2
  {
    e.TreeShowsType();
    ghost var before, oldTree := e.tree, TreeOf(o);
    ghost var p := PlanOf(gen, binary, oldTree, before);
    PlanStarts(gen, binary, oldTree, before);
    ghost var rejected: string;
    ok, rejected := DiffChilds(gen, binary, o, e, oldTree, (e.repr, e.meta, e.kind), p, before);
    if ok {
      PlanDone(gen, binary, oldTree, before, e.trees);
    } else {
      RejectedChild(before, rejected);
    }
    e.Refresh();
  }

  /** `generateDiffMultithread`: all tasks, then the directory types. A scan error is logged, and only the types follow. */
  method GenerateDiff(gen: Generator, binary: bool, oldRoot: FileEntry, newRoot: FileEntry) returns (ok: bool)
    requires newRoot.Valid() && newRoot.IsDir() && BodiesRead(newRoot.tree) && Readable(oldRoot, newRoot.repr)
    modifies newRoot.repr
    ensures old(newRoot.tree).Dir?
    ensures newRoot.Valid() && DirTypesRight(newRoot.tree)
    ensures ok <==> Diffable(old(newRoot.tree))
    ensures ok ==> newRoot.tree == Diff(gen, binary, old(oldRoot.tree), old(newRoot.tree))
  {
    ok := EnqueueDiffTasks(gen, binary, oldRoot, newRoot);
    UpdateDirsRight(newRoot.tree);
    newRoot.UpdateDirFileEntry();
  }
}
