/**
  The delta image path by path (pkg/image/diff.go): which entries become SAME, DIFF or NEW, and
  which are left behind.
*/
module DiffPaths {
  import opened Results
  import opened DeltaOps
  import opened ImageTree
  import opened ImageDiff

  /** The content of the file at a path, if there is one. */
  function FileAt(e: Tree, path: Path): Option<Bytes> {
    ContentOf(EntryAt(e, path))
  }

  function ContentOf(e: Option<Tree>): Option<Bytes> {
    if e.Some? && e.value.FileNew? && e.value.body.Stored? then Some(e.value.body.bytes) else None
  }

  /** Every entry on the way, the last one included, is scanned: none is a symbolic link or has its size recorded as zero. */
  predicate Scanned(e: Tree, path: Path)
    decreases |path|
  {
    path != [] ==>
      && e.Dir? && path[0] in e.childs
      && !e.childs[path[0]].Symlink? && e.childs[path[0]].meta.size != 0
      && Scanned(e.childs[path[0]], path[1..])
  }

  /** Two entries have the same name and are of the same type; a new directory and one that is not are of different types. */
  predicate Comparable(o: Tree, e: Tree) {
    && o.meta.name == e.meta.name
    && (o.FileNew? <==> e.FileNew?) && (o.FileSame? <==> e.FileSame?) && (o.FileDiff? <==> e.FileDiff?)
    && (o.Dir? <==> e.Dir?) && (o.Dir? && e.Dir? ==> o.allNew == e.allNew)
    && (o.Symlink? <==> e.Symlink?) && (o.Hardlink? <==> e.Hardlink?)
  }

  /** The old entry at a path, if all entries on the way, the last one included, can be compared. */
  function OldAt(o: Option<Tree>, e: Tree, path: Path): Option<Tree>
    decreases |path|
  {
    if path == [] then o
    else if o.Some? && o.value.Dir? && e.Dir? && path[0] in o.value.childs && path[0] in e.childs
            && Comparable(o.value.childs[path[0]], e.childs[path[0]])
    then OldAt(Some(o.value.childs[path[0]]), e.childs[path[0]], path[1..])
    else None
  }

  /** Between full images that is the old entry, wherever both have a file. */
  lemma {:induction false} FullComparable(o: Tree, e: Tree, path: Path)
    requires Full(o) && Full(e) && FileAt(e, path).Some?
    ensures ContentOf(OldAt(Some(o), e, path)) == FileAt(o, path)
    decreases |path|
  {
    if path != [] && o.Dir? && path[0] in o.childs {
      var o', e' := o.childs[path[0]], e.childs[path[0]];
      FullComparable(o', e', path[1..]);
      if !Comparable(o', e') {
        assert FileAt(o', path[1..]) == None;
      }
    }
  }

  /**
    The entry that the delta image has for a file. If the scan comes to it: SAME exactly if the old
    image has a file with this content there; DIFF, with the generated delta, exactly if it has another
    one that is not empty and the mode is binary; else NEW with the whole content. If not: NEW, but
    without the content.
  */
  ghost predicate FileEntryRight(gen: Generator, binary: bool, o: Option<Bytes>, n: Bytes, m: Meta, scanned: bool, d: Tree) {
    && d.meta == m
    && (d.FileSame? <==> scanned && o == Some(n))
    && (d.FileDiff? <==> scanned && o.Some? && o.value != n && o.value != [] && binary)
    && (d.FileNew? <==> !d.FileSame? && !d.FileDiff?)
    && (d.FileDiff? ==> d.delta == gen(o.value, n))
    && (d.FileNew? ==> d.body == if scanned then Stored(n) else Dangling)
  }

  /** A directory stays a directory with its metadata; every other entry stays as it is. */
  ghost predicate EntryRight(gen: Generator, binary: bool, o: Option<Tree>, e: Tree, scanned: bool, d: Option<Tree>)
    requires BodiesRead(e)
  {
    && d.Some?
    && if e.FileNew? then FileEntryRight(gen, binary, ContentOf(o), e.body.bytes, e.meta, scanned, d.value)
       else if e.Dir? then d.value.Dir? && d.value.meta == e.meta
       else d.value == e
  }

  lemma {:induction false} SkippedAt(gen: Generator, binary: bool, o: Option<Tree>, e: Tree, path: Path)
    requires BodiesRead(e) && EntryAt(e, path).Some?
    ensures BodiesRead(EntryAt(e, path).value)
    ensures EntryRight(gen, binary, o, EntryAt(e, path).value, false, EntryAt(Skipped(e), path))
    decreases |path|
  {
    if path != [] {
      SkippedAt(gen, binary, o, e.childs[path[0]], path[1..]);
    }
  }

  /** The comparison seen from a child of the root. */
  function OldInside(o: Option<Tree>, e: Tree, path: Path): Option<Tree> {
    if o.Some? && Comparable(o.value, e) then OldAt(o, e, path) else None
  }

  lemma {:induction false} ChildAt(gen: Generator, binary: bool, o: Option<Tree>, e: Tree, path: Path)
    requires BodiesRead(e) && (o.Some? ==> BodiesRead(o.value)) && EntryAt(e, path).Some?
    ensures BodiesRead(EntryAt(e, path).value)
    ensures EntryRight(gen, binary, OldInside(o, e, path), EntryAt(e, path).value, !IsSkipped(e) && Scanned(e, path),
                       EntryAt(DiffChild(gen, binary, o, e), path))
    decreases |path|, 1
  {
    if IsSkipped(e) {
      SkippedAt(gen, binary, OldInside(o, e, path), e, path);
    } else if e.Dir? {
      if o.Some? && Comparable(o.value, e) {
        DirAt(gen, binary, o, e, path);
      } else {
        NothingOld(e, path);
        DirAt(gen, binary, None, e, path);
      }
    }
  }

  lemma {:induction false} NothingOld(e: Tree, path: Path)
    ensures OldAt(None, e, path) == None
  {
  }

  lemma {:induction false} DirAt(gen: Generator, binary: bool, o: Option<Tree>, e: Tree, path: Path)
    requires e.Dir? && BodiesRead(e) && (o.Some? ==> BodiesRead(o.value)) && EntryAt(e, path).Some?
    ensures BodiesRead(EntryAt(e, path).value)
    ensures EntryRight(gen, binary, OldAt(o, e, path), EntryAt(e, path).value, Scanned(e, path), EntryAt(DiffDir(gen, binary, o, e), path))
    decreases |path|, 0
  {
    if path != [] {
      ChildAt(gen, binary, ChildEntry(o, path[0]), e.childs[path[0]], path[1..]);
    }
  }

  /**
    The delta image of two images, at every path: it has an entry exactly where the new image has one.
    A file that the scan comes to is SAME exactly if the old image has one with the same content at the
    path, with entries of the same types on the way to it; DIFF with the generated delta exactly if
    that one is different and not empty, in binary mode; and otherwise NEW with its whole content.
  */
  lemma {:induction false} DeltaEntryAt(gen: Generator, binary: bool, old': Tree, new': Tree, path: Path)
    requires BodiesRead(old') && BodiesRead(new') && new'.Dir?
    ensures EntryAt(Diff(gen, binary, old', new'), path).Some? <==> EntryAt(new', path).Some?
    ensures EntryAt(new', path).Some? ==>
              && BodiesRead(EntryAt(new', path).value)
              && EntryRight(gen, binary, OldAt(Some(old'), new', path), EntryAt(new', path).value, Scanned(new', path),
                            EntryAt(Diff(gen, binary, old', new'), path))
  {
    var raw := DiffDir(gen, binary, Some(old'), new');
    UpdateDirsAt(raw, path);
    NoMoreEntries(gen, binary, Some(old'), new', path);
    if EntryAt(new', path).Some? {
      DirAt(gen, binary, Some(old'), new', path);
    }
  }

  lemma {:induction false} SkippedKeepsEntries(e: Tree, path: Path)
    ensures EntryAt(Skipped(e), path).Some? <==> EntryAt(e, path).Some?
    decreases |path|
  {
    if path != [] && e.Dir? && path[0] in e.childs {
      SkippedKeepsEntries(e.childs[path[0]], path[1..]);
    }
  }

  lemma {:induction false} NoMoreEntries(gen: Generator, binary: bool, o: Option<Tree>, e: Tree, path: Path)
    requires e.Dir? && BodiesRead(e) && (o.Some? ==> BodiesRead(o.value))
    ensures EntryAt(DiffDir(gen, binary, o, e), path).Some? <==> EntryAt(e, path).Some?
    decreases |path|
  {
    if path != [] && path[0] in e.childs {
      var child := e.childs[path[0]];
      if IsSkipped(child) {
        SkippedKeepsEntries(child, path[1..]);
      } else if child.Dir? {
        NoMoreEntries(gen, binary, None, child, path[1..]);
        NoMoreEntries(gen, binary, ChildEntry(o, path[0]), child, path[1..]);
      }
    }
  }

  // ------------------------------------------------------- what is refused

  /** The scan comes to the entry at the path, and it is SAME or DIFF. */
  predicate RefusedAt(e: Tree, path: Path) {
    && path != [] && Scanned(e, path[..|path| - 1])
    && EntryAt(e, path).Some? && (EntryAt(e, path).value.FileSame? || EntryAt(e, path).value.FileDiff?)
  }

  lemma {:induction false} RefusedBelow(e: Tree, path: Path)
    requires e.Dir? && |path| > 1 && path[0] in e.childs
    ensures var child := e.childs[path[0]];
            RefusedAt(e, path) <==> !child.Symlink? && child.meta.size != 0 && RefusedAt(child, path[1..])
  {
    var front := path[..|path| - 1];
    assert front[0] == path[0] && front[1..] == path[1..][..|path| - 2];
  }

  /** A diff is refused exactly if the scan comes to an entry that only a delta image has. */
  lemma {:induction false} DiffableExactly(e: Tree)
    requires e.Dir?
    ensures Diffable(e) <==> forall path: Path {:trigger RefusedAt(e, path)} :: !RefusedAt(e, path)
    decreases e
  {
    if Diffable(e) {
      forall path: Path
        ensures !RefusedAt(e, path)
      {
        NotRefused(e, path);
      }
    } else {
      var k :| k in e.childs && !(!e.childs[k].IsBaseRequired() && (e.childs[k].Dir? && !IsSkipped(e.childs[k]) ==> Diffable(e.childs[k])));
      var child := e.childs[k];
      if child.IsBaseRequired() {
        assert RefusedAt(e, [k]);
      } else {
        DiffableExactly(child);
        var path: Path :| RefusedAt(child, path);
        assert ([k] + path)[1..] == path;
        RefusedBelow(e, [k] + path);
      }
    }
  }

  lemma {:induction false} NotRefused(e: Tree, path: Path)
    requires e.Dir? && Diffable(e)
    ensures !RefusedAt(e, path)
    decreases |path|
  {
    if path != [] && path[0] in e.childs {
      var child := e.childs[path[0]];
      assert !child.IsBaseRequired();
      if |path| > 1 {
        RefusedBelow(e, path);
        if child.Dir? && !IsSkipped(child) {
          NotRefused(child, path[1..]);
        }
      } else {
        assert EntryAt(child, path[1..]) == Some(child);
      }
    }
  }
}
