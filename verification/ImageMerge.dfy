/**
  Merging two delta images without their base (pkg/image/merge.go).
*/
module ImageMerge {
  import opened Results
  import opened DeltaOps
  import opened ImageTree

  /**
    Neither `enqueueMergeTaskToQueue` nor the worker for this entry fails. Two deltas are merged by the
    codec, which needs a lower one that is not empty and upper blocks that fit into its output.
  */
  predicate MergeableChild(lower: Option<Tree>, upper: Tree)
    decreases upper, 1
  {
    match upper
    case Dir(_, allNew, _) =>
      if allNew then MergeableDir(None, upper)
      else lower.Some? && lower.value.Dir? && MergeableDir(lower, upper)
    case FileSame(_) => lower.Some? && lower.value.IsFile()
    case FileDiff(_, delta) =>
      && lower.Some? && lower.value.IsFile()
      && (lower.value.FileNew? ==> lower.value.body.Stored? && InBounds(delta.ops, |lower.value.body.bytes|))
      && (lower.value.FileDiff? ==> lower.value.delta.ops != [] && delta.need.MetBy(|lower.value.delta.ops|))
    case _ => true
  }

  predicate MergeableDir(lower: Option<Tree>, upper: Tree)
    requires upper.Dir?
    decreases upper, 0
  {
    forall k :: k in upper.childs ==> MergeableChild(ChildEntry(lower, k), upper.childs[k])
  }

  /** A lower file put in place of an upper SAME entry takes over the upper metadata that may have changed. */
  function Graft(lower: Tree, m: Meta): Tree {
    var meta := lower.meta.(mode := m.mode, uid := m.uid, gid := m.gid, digest := m.digest);
    match lower
    case FileNew(_, body) => FileNew(meta, body)
    case FileDiff(_, delta) => FileDiff(meta, delta)
    case _ => lower
  }

  function MergedChild(lower: Option<Tree>, upper: Tree): (r: Tree)
    requires MergeableChild(lower, upper)
    ensures r.meta.digest == upper.meta.digest
    decreases upper, 1
  {
    match upper
    case Dir(_, allNew, _) => MergedDir(if allNew then None else lower, upper)
    case FileSame(m) => if lower.value.HasBody() then Graft(lower.value, m) else upper
    case FileDiff(m, delta) =>
      if lower.value.FileSame? then upper
      else if lower.value.FileNew? then FileNew(m, Stored(Patch(lower.value.body.bytes, delta.ops)))
      else FileDiff(m, ComposePatches(lower.value.delta, delta))
    case _ => upper
  }

  function MergedDir(lower: Option<Tree>, upper: Tree): (r: Tree)
    requires upper.Dir? && MergeableDir(lower, upper)
    ensures r.meta == upper.meta
    decreases upper, 0
  {
    Dir(upper.meta, upper.allNew, map k | k in upper.childs :: MergedChild(ChildEntry(lower, k), upper.childs[k]))
  }

  /** `mergeDiffDimgMultihread`: merge, then set the directory types. */
  function Merged(lower: Tree, upper: Tree): Tree
    requires upper.Dir? && MergeableDir(Some(lower), upper)
  {
    UpdateDirs(MergedDir(Some(lower), upper))
  }

  // ---------------------------------------------------------------- meaning

  /** What the lower entry leaves behind over the base; nothing where there is no lower entry. */
  ghost function Middle(base: Option<Node>, lower: Option<Tree>): Option<Node>
    requires lower.Some? ==> Applies(base, lower.value)
  {
    if lower.None? then None else Some(Applied(base, lower.value))
  }

  ghost predicate Usable(base: Option<Node>, lower: Option<Tree>) {
    lower.Some? ==> Applies(base, lower.value) && Consistent(base, lower.value)
  }

  lemma {:induction false} MiddleOfChild(base: Option<Node>, lower: Option<Tree>, k: string)
    requires Usable(base, lower)
    ensures Usable(ChildOf(base, k), ChildEntry(lower, k))
    ensures Middle(ChildOf(base, k), ChildEntry(lower, k)) == ChildOf(Middle(base, lower), k)
  {
    if lower.Some? && lower.value.Dir? {
      assert ChildsApply(base, lower.value);
      assert Middle(base, lower).value.childs == AppliedChilds(base, lower.value);
    }
  }

  /** What is new is merged to itself. */
  lemma {:induction false} MergedStandalone(lower: Option<Tree>, upper: Tree)
    requires Standalone(upper) && DirTypesRight(upper)
    ensures MergeableChild(lower, upper) && MergedChild(lower, upper) == upper
    decreases upper
  {
    if upper.Dir? {
      NewExactlyWhenStandalone(upper);
      forall k | k in upper.childs
        ensures MergeableChild(None, upper.childs[k]) && MergedChild(None, upper.childs[k]) == upper.childs[k]
      {
        MergedStandalone(None, upper.childs[k]);
      }
      assert MergedDir(None, upper).childs == upper.childs;
    }
  }

  /** A directory that is not new can only be applied over a folder. */
  lemma {:induction false} NeedsFolder(base: Option<Node>, e: Tree)
    requires e.Dir? && !Standalone(e) && Applies(base, e)
    ensures base.Some? && base.value.Folder?
    decreases e
  {
    var k :| k in e.childs && !Standalone(e.childs[k]);
    assert Applies(ChildOf(base, k), e.childs[k]);
    if e.childs[k].Dir? {
      NeedsFolder(ChildOf(base, k), e.childs[k]);
    }
  }

  /** An upper file that has not changed: the lower entry, with the upper metadata. */
  lemma {:induction false} MergeSameMeaning(base: Option<Node>, lower: Option<Tree>, upper: Tree)
    requires Usable(base, lower) && SameName(lower, upper) && upper.FileSame?
    requires Applies(Middle(base, lower), upper) && Consistent(Middle(base, lower), upper)
    ensures MergeableChild(lower, upper)
    ensures Preserved(base, lower, upper)
  {
    assert lower.value.HasBody() ==> MergedChild(lower, upper).meta == upper.meta;
  }

  ghost predicate SameName(lower: Option<Tree>, upper: Tree) {
    lower.Some? ==> lower.value.meta.name == upper.meta.name
  }

  /** The merged entry does over the base what the two entries do in turn. */
  ghost predicate Preserved(base: Option<Node>, lower: Option<Tree>, upper: Tree)
    requires Usable(base, lower) && MergeableChild(lower, upper) && Applies(Middle(base, lower), upper)
  {
    var r := MergedChild(lower, upper);
    && Applies(base, r) && Consistent(base, r) && r.meta == upper.meta
    && Applied(base, r) == Applied(Middle(base, lower), upper)
  }

  /** An upper delta: kept over SAME, applied to a new file, composed with a lower delta. */
  lemma {:induction false} MergeDiffMeaning(base: Option<Node>, lower: Option<Tree>, upper: Tree)
    requires Usable(base, lower) && upper.FileDiff?
    requires Applies(Middle(base, lower), upper) && Consistent(Middle(base, lower), upper)
    ensures MergeableChild(lower, upper)
    ensures Preserved(base, lower, upper)
  {
    var l := lower.value;
    if l.FileDiff? {
      ComposeMeansSequentialPatch(base.value.content, l.delta.ops, upper.delta.ops);
      ComposeInBounds(l.delta.ops, upper.delta.ops, |base.value.content|);
      InBoundsMeetsNeed(Compose(l.delta.ops, upper.delta.ops), |base.value.content|);
    }
  }

  /** The induction over the upper tree. */
  lemma {:induction false} MergeChildMeaning(base: Option<Node>, lower: Option<Tree>, upper: Tree)
    requires Usable(base, lower) && SameName(lower, upper) && WellFormedOver(Middle(base, lower), upper)
    ensures MergeableChild(lower, upper)
    ensures Preserved(base, lower, upper)
    decreases upper, 1
  {
    if Standalone(upper) {
      MergedStandalone(lower, upper);
      StandaloneIgnoresBase(base, Middle(base, lower), upper);
    } else if upper.Dir? {
      NeedsFolder(Middle(base, lower), upper);
      NewExactlyWhenStandalone(upper);
      MergeDirMeaning(base, lower, upper);
    } else if upper.FileSame? {
      MergeSameMeaning(base, lower, upper);
    } else {
      MergeDiffMeaning(base, lower, upper);
    }
  }

  lemma {:induction false} MergeDirMeaning(base: Option<Node>, lower: Option<Tree>, upper: Tree)
    requires upper.Dir? && Usable(base, lower) && WellFormedOver(Middle(base, lower), upper)
    ensures MergeableDir(lower, upper)
    ensures Applies(base, MergedDir(lower, upper)) && Consistent(base, MergedDir(lower, upper))
    ensures Applied(base, MergedDir(lower, upper)) == Applied(Middle(base, lower), upper)
    decreases upper, 0
  {
    assert ChildsApply(Middle(base, lower), upper);
    forall k | k in upper.childs
      ensures ChildPreserved(base, lower, upper, k)
    {
      MiddleOfChild(base, lower, k);
      MergeChildMeaning(ChildOf(base, k), ChildEntry(lower, k), upper.childs[k]);
    }
    AssembleDir(base, lower, upper);
  }

  ghost predicate ChildPreserved(base: Option<Node>, lower: Option<Tree>, upper: Tree, k: string)
    requires upper.Dir? && k in upper.childs
    requires Usable(base, lower) && ChildsApply(Middle(base, lower), upper)
  {
    && Usable(ChildOf(base, k), ChildEntry(lower, k))
    && MergeableChild(ChildEntry(lower, k), upper.childs[k])
    && Middle(ChildOf(base, k), ChildEntry(lower, k)) == ChildOf(Middle(base, lower), k)
    && Preserved(ChildOf(base, k), ChildEntry(lower, k), upper.childs[k])
  }

  /** Every child of the merged directory has the digest of the upper child, so the upper directory digest stays right. */
  lemma {:induction false} MergedDirDigests(lower: Option<Tree>, upper: Tree)
    requires upper.Dir? && MergeableDir(lower, upper)
    ensures ChildDigests(MergedDir(lower, upper).childs) == ChildDigests(upper.childs)
  {
    var r := ChildDigests(MergedDir(lower, upper).childs);
    forall k | k in r
      ensures k in upper.childs && r[k] == upper.childs[k].meta.digest
    {
    }
  }

  /** Every directory at or below the entry carries the digest of its children. */
  ghost predicate DirsVerify(e: Tree) {
    e.Dir? ==> VerifyDir(e.meta, ChildDigests(e.childs)) && forall k :: k in e.childs ==> DirsVerify(e.childs[k])
  }

  /** What `Verify` sees of directories survives every merge, whatever the lower image is. */
  lemma {:induction false} MergeKeepsDirDigests(lower: Option<Tree>, upper: Tree)
    requires MergeableChild(lower, upper) && DirsVerify(upper)
    ensures DirsVerify(MergedChild(lower, upper))
    decreases upper
  {
    if upper.Dir? {
      var below := if upper.allNew then None else lower;
      MergedDirDigests(below, upper);
      forall k | k in upper.childs
        ensures DirsVerify(MergedChild(ChildEntry(below, k), upper.childs[k]))
      {
        MergeKeepsDirDigests(ChildEntry(below, k), upper.childs[k]);
      }
    }
  }

  lemma {:induction false} UpdateDirsKeepsDirDigests(e: Tree)
    requires DirsVerify(e)
    ensures DirsVerify(UpdateDirs(e))
    decreases e
  {
    if e.Dir? {
      forall k | k in e.childs
        ensures DirsVerify(UpdateDirs(e).childs[k])
      {
        UpdateDirsKeepsDirDigests(e.childs[k]);
      }
      assert ChildDigests(UpdateDirs(e).childs) == ChildDigests(e.childs);
    }
  }

  lemma {:induction false} AssembleDir(base: Option<Node>, lower: Option<Tree>, upper: Tree)
    requires upper.Dir? && Usable(base, lower) && WellFormedOver(Middle(base, lower), upper)
    requires forall k :: k in upper.childs ==> ChildPreserved(base, lower, upper, k)
    ensures MergeableDir(lower, upper)
    ensures Applies(base, MergedDir(lower, upper)) && Consistent(base, MergedDir(lower, upper))
    ensures Applied(base, MergedDir(lower, upper)) == Applied(Middle(base, lower), upper)
  {
    assert forall k :: k in upper.childs ==> ChildPreserved(base, lower, upper, k);
    var r := MergedDir(lower, upper);
    MergedDirDigests(lower, upper);
    SameChildsSameResult(base, r, Middle(base, lower), upper);
  }

  /**
    The merge of two delta images means both of them: for every base that suits the lower one, and
    every upper one that suits what the lower one makes of it, merging succeeds, the result suits
    the base, and applying it gives the same metadata and content at every path.
  */
  lemma {:induction false} MergeMeansBoth(base: Option<Node>, lower: Tree, upper: Tree)
    requires WellFormedOver(base, lower) && upper.Dir? && WellFormedOver(Some(Applied(base, lower)), upper)
    ensures MergeableDir(Some(lower), upper)
    ensures WellFormedOver(base, Merged(lower, upper))
    ensures Applied(base, Merged(lower, upper)) == Applied(Some(Applied(base, lower)), upper)
  {
    MergeDirMeaning(base, Some(lower), upper);
    var raw := MergedDir(Some(lower), upper);
    UpdateDirsRight(raw);
    UpdateDirsKeepsMeaning(base, raw);
    UpdateDirsKeepsConsistent(base, raw);
  }

  /** Merging keeps the names of the upper tree and the digests at all of them. */
  lemma {:induction false} MergedChildAt(lower: Option<Tree>, upper: Tree, path: Path)
    requires MergeableChild(lower, upper)
    ensures SameDigestAt(MergedChild(lower, upper), upper, path)
    decreases |path|
  {
    if path != [] && upper.Dir? && path[0] in upper.childs {
      MergedChildAt(ChildEntry(if upper.allNew then None else lower, path[0]), upper.childs[path[0]], path[1..]);
    }
  }

  ghost predicate SameDigestAt(a: Tree, b: Tree, path: Path) {
    && (EntryAt(a, path).Some? <==> EntryAt(b, path).Some?)
    && (EntryAt(a, path).Some? ==> EntryAt(a, path).value.meta.digest == EntryAt(b, path).value.meta.digest)
  }

  /**
    If all directory digests of the upper image are right, so are those of the merged one, and at
    every path the merged image has an entry exactly where the upper one has, with the same digest.
  */
  lemma {:induction false} MergedVerifies(lower: Tree, upper: Tree, path: Path)
    requires upper.Dir? && MergeableDir(Some(lower), upper)
    ensures DirsVerify(upper) ==> DirsVerify(Merged(lower, upper))
    ensures SameDigestAt(Merged(lower, upper), upper, path)
  {
    var raw := MergedDir(Some(lower), upper);
    if DirsVerify(upper) {
      MergedDirDigests(Some(lower), upper);
      forall k | k in upper.childs
        ensures DirsVerify(raw.childs[k])
      {
        MergeKeepsDirDigests(ChildEntry(Some(lower), k), upper.childs[k]);
      }
      UpdateDirsKeepsDirDigests(raw);
    }
    UpdateDirsAt(raw, path);
    if path != [] && path[0] in upper.childs {
      MergedChildAt(ChildEntry(Some(lower), path[0]), upper.childs[path[0]], path[1..]);
    }
  }

  /** Over a lower image that suits the base, all metadata of the merged image are those of the upper one, at every path. */
  lemma {:induction false} MergedMetadata(base: Option<Node>, lower: Tree, upper: Tree, path: Path)
    requires WellFormedOver(base, lower) && upper.Dir? && WellFormedOver(Some(Applied(base, lower)), upper)
    ensures MergeableDir(Some(lower), upper)
    ensures EntryAt(Merged(lower, upper), path).Some? <==> EntryAt(upper, path).Some?
    ensures EntryAt(upper, path).Some? ==> EntryAt(Merged(lower, upper), path).value.meta == EntryAt(upper, path).value.meta
  {
    MergeMeansBoth(base, lower, upper);
    SameResultSameMeta(base, Merged(lower, upper), Some(Applied(base, lower)), upper, path);
  }
}
