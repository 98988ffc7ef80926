/**
  Merging two delta images, path by path (pkg/image/merge.go): what the two images need to have at every
  path for the merge to succeed, and the entry that it makes there. This holds for any two trees,
  whether or not the upper one was made for the lower one.
*/
module MergePaths {
  import opened Results
  import opened DeltaOps
  import opened ImageTree
  import opened ImageMerge

  /** A directory on the way, below the root and above the end of the path, is new, so that no lower entry is looked up. */
  predicate UnderNew(e: Tree, path: Path)
    decreases |path|
  {
    && |path| > 1 && e.Dir? && path[0] in e.childs
    && ((e.childs[path[0]].Dir? && e.childs[path[0]].allNew) || UnderNew(e.childs[path[0]], path[1..]))
  }

  /** The lower entry that the upper entry at the path is merged with. */
  function LowerAt(lower: Option<Tree>, upper: Tree, path: Path): Option<Tree> {
    if lower.None? || UnderNew(upper, path) then None else EntryAt(lower.value, path)
  }

  /** The two entries can be merged. */
  predicate Fits(lower: Option<Tree>, e: Tree) {
    && (e.Dir? && !e.allNew ==> lower.Some? && lower.value.Dir?)
    && (e.IsBaseRequired() ==> lower.Some? && lower.value.IsFile())
    && (e.FileDiff? && lower.value.FileNew? ==> lower.value.body.Stored? && InBounds(e.delta.ops, |lower.value.body.bytes|))
    && (e.FileDiff? && lower.value.FileDiff? ==> lower.value.delta.ops != [] && e.delta.need.MetBy(|lower.value.delta.ops|))
  }

  /** Name, size and link target of one entry, mode, owner and digest of another. */
  ghost predicate GraftedMeta(m: Meta, lower: Meta, upper: Meta) {
    && m.name == lower.name && m.size == lower.size && m.realPath == lower.realPath
    && m.mode == upper.mode && m.uid == upper.uid && m.gid == upper.gid && m.digest == upper.digest
  }

  /**
    The merged entry: what is new is taken over; SAME and DIFF over SAME stay; SAME over a file with a
    body becomes that file; DIFF over a new file is applied to it, and over another DIFF composed with it.
  */
  ghost predicate MergesTo(lower: Option<Tree>, e: Tree, r: Tree)
    requires Fits(lower, e)
  {
    match e
    case Dir(m, _, _) => r.Dir? && r.meta == m
    case FileSame(m) =>
      if lower.value.FileSame? then r == e
      else
        && GraftedMeta(r.meta, lower.value.meta, m)
        && (lower.value.FileNew? <==> r.FileNew?) && (lower.value.FileDiff? <==> r.FileDiff?)
        && (r.FileNew? ==> r.body == lower.value.body) && (r.FileDiff? ==> r.delta == lower.value.delta)
    case FileDiff(m, delta) =>
      if lower.value.FileSame? then r == e
      else if lower.value.FileNew? then r == FileNew(m, Stored(Patch(lower.value.body.bytes, delta.ops)))
      else r == FileDiff(m, ComposePatches(lower.value.delta, delta))
    case _ => r == e
  }

  /** The lookup seen from a child of the root: a new directory hides everything below it. */
  function LowerInside(lower: Option<Tree>, e: Tree, path: Path): Option<Tree> {
    if path != [] && e.Dir? && e.allNew then None else LowerAt(lower, e, path)
  }

  lemma {:induction false} LowerOfChild(lower: Option<Tree>, upper: Tree, path: Path)
    requires path != [] && upper.Dir? && path[0] in upper.childs
    ensures LowerAt(lower, upper, path) == LowerInside(ChildEntry(lower, path[0]), upper.childs[path[0]], path[1..])
  {
  }

  ghost predicate FitsAt(lower: Option<Tree>, upper: Tree, path: Path) {
    EntryAt(upper, path).Some? ==> Fits(LowerAt(lower, upper, path), EntryAt(upper, path).value)
  }

  ghost predicate FitsInside(lower: Option<Tree>, e: Tree, path: Path) {
    EntryAt(e, path).Some? ==> Fits(LowerInside(lower, e, path), EntryAt(e, path).value)
  }

  /** All paths below the root. */
  ghost predicate AllFit(lower: Option<Tree>, upper: Tree) {
    forall path: Path {:trigger FitsAt(lower, upper, path)} :: path != [] ==> FitsAt(lower, upper, path)
  }

  ghost predicate AllFitInside(lower: Option<Tree>, e: Tree) {
    forall path: Path {:trigger FitsInside(lower, e, path)} :: FitsInside(lower, e, path)
  }

  lemma {:induction false} FitsChild(lower: Option<Tree>, upper: Tree, path: Path)
    requires path != [] && upper.Dir? && path[0] in upper.childs
    ensures FitsAt(lower, upper, path) <==> FitsInside(ChildEntry(lower, path[0]), upper.childs[path[0]], path[1..])
  {
    LowerOfChild(lower, upper, path);
  }

  lemma {:induction false} DirFits(lower: Option<Tree>, upper: Tree)
    requires upper.Dir?
    ensures AllFit(lower, upper) <==> forall k :: k in upper.childs ==> AllFitInside(ChildEntry(lower, k), upper.childs[k])
  {
    if AllFit(lower, upper) {
      forall k, path: Path | k in upper.childs
        ensures FitsInside(ChildEntry(lower, k), upper.childs[k], path)
      {
        FitsChild(lower, upper, [k] + path);
        assert ([k] + path)[1..] == path;
      }
    }
    if forall k :: k in upper.childs ==> AllFitInside(ChildEntry(lower, k), upper.childs[k]) {
      forall path: Path | path != []
        ensures FitsAt(lower, upper, path)
      {
        if path[0] in upper.childs {
          FitsChild(lower, upper, path);
          assert AllFitInside(ChildEntry(lower, path[0]), upper.childs[path[0]]);
        }
      }
    }
  }

  /** From the child's own entry and everything below it. */
  lemma {:induction false} ChildFits(lower: Option<Tree>, e: Tree)
    ensures AllFitInside(lower, e) <==> Fits(lower, e) && (e.Dir? ==> AllFit(if e.allNew then None else lower, e))
  {
    assert FitsInside(lower, e, []) <==> Fits(lower, e);
    var below := if e.Dir? && e.allNew then None else lower;
    forall path: Path | path != []
      ensures FitsInside(lower, e, path) <==> FitsAt(below, e, path)
    {
    }
    if AllFitInside(lower, e) {
      forall path: Path | path != []
        ensures FitsAt(below, e, path)
      {
        assert FitsInside(lower, e, path);
      }
    }
    if Fits(lower, e) && AllFit(below, e) {
      forall path: Path
        ensures FitsInside(lower, e, path)
      {
        assert path != [] ==> FitsAt(below, e, path);
      }
    }
    if !e.Dir? {
      NothingInside(below, e);
    }
  }

  lemma {:induction false} NothingInside(lower: Option<Tree>, e: Tree)
    requires !e.Dir?
    ensures AllFit(lower, e)
  {
    forall path: Path | path != []
      ensures FitsAt(lower, e, path)
    {
    }
  }

  lemma {:induction false} MergeableFits(lower: Option<Tree>, e: Tree)
    ensures MergeableChild(lower, e) <==> AllFitInside(lower, e)
    decreases e, 1
  {
    ChildFits(lower, e);
    if e.Dir? {
      MergeableDirFits(if e.allNew then None else lower, e);
    }
  }

  lemma {:induction false} MergeableDirFits(lower: Option<Tree>, e: Tree)
    requires e.Dir?
    ensures MergeableDir(lower, e) <==> AllFit(lower, e)
    decreases e, 0
  {
    DirFits(lower, e);
    forall k | k in e.childs
      ensures MergeableChild(ChildEntry(lower, k), e.childs[k]) <==> AllFitInside(ChildEntry(lower, k), e.childs[k])
    {
      MergeableFits(ChildEntry(lower, k), e.childs[k]);
    }
  }

  /** A merge succeeds exactly if the two images fit at every path. */
  lemma {:induction false} MergeableExactly(lower: Tree, upper: Tree)
    requires upper.Dir?
    ensures MergeableDir(Some(lower), upper) <==> AllFit(Some(lower), upper)
  {
    MergeableDirFits(Some(lower), upper);
  }

  ghost predicate MergedRight(lower: Option<Tree>, e: Tree, r: Option<Tree>) {
    r.Some? && Fits(lower, e) && MergesTo(lower, e, r.value)
  }

  lemma {:induction false} MergedInside(lower: Option<Tree>, e: Tree, path: Path)
    requires MergeableChild(lower, e)
    ensures EntryAt(MergedChild(lower, e), path).Some? <==> EntryAt(e, path).Some?
    ensures EntryAt(e, path).Some? ==> MergedRight(LowerInside(lower, e, path), EntryAt(e, path).value, EntryAt(MergedChild(lower, e), path))
    decreases |path|, 1
  {
    if path != [] && e.Dir? {
      MergedBelow(if e.allNew then None else lower, e, path);
    }
  }

  lemma {:induction false} MergedBelow(lower: Option<Tree>, e: Tree, path: Path)
    requires e.Dir? && MergeableDir(lower, e) && path != []
    ensures EntryAt(MergedDir(lower, e), path).Some? <==> EntryAt(e, path).Some?
    ensures EntryAt(e, path).Some? ==> MergedRight(LowerAt(lower, e, path), EntryAt(e, path).value, EntryAt(MergedDir(lower, e), path))
    decreases |path|, 0
  {
    if path[0] in e.childs {
      LowerOfChild(lower, e, path);
      MergedInside(ChildEntry(lower, path[0]), e.childs[path[0]], path[1..]);
    }
  }

  /** The merged image has an entry exactly where the upper one has, and it is what merging the two entries there makes. */
  lemma {:induction false} MergedEntryAt(lower: Tree, upper: Tree, path: Path)
    requires upper.Dir? && MergeableDir(Some(lower), upper) && path != []
    ensures EntryAt(Merged(lower, upper), path).Some? <==> EntryAt(upper, path).Some?
    ensures EntryAt(upper, path).Some? ==>
              MergedRight(LowerAt(Some(lower), upper, path), EntryAt(upper, path).value, EntryAt(Merged(lower, upper), path))
  {
    MergedBelow(Some(lower), upper, path);
    UpdateDirsAt(MergedDir(Some(lower), upper), path);
  }
}
