/**
  Making the delta image between two full images (pkg/image/diff.go).
*/
module ImageDiff {
  import opened Results
  import opened DeltaOps
  import opened ImageTree

  /** A generator of file patches, for an old and a new content. */
  type Generator = (Bytes, Bytes) -> FilePatch

  /** The generated patch reads inside the old file, its blocks fit into it, and it makes the new file of it. */
  ghost predicate Generates(gen: Generator) {
    forall o, n :: o != [] && o != n ==>
      InBounds(gen(o, n).ops, |o|) && gen(o, n).need.MetBy(|o|) && Patch(o, gen(o, n).ops) == n
  }

  /** The bodies of the new files can be read. */
  predicate BodiesRead(e: Tree) {
    match e
    case FileNew(_, body) => body.Stored?
    case Dir(_, _, childs) => forall k :: k in childs ==> BodiesRead(childs[k])
    case _ => true
  }

  /** A full image as packing makes it: everything is new, files have their size, links have none. */
  predicate Full(e: Tree): (full: bool)
    ensures full ==> BodiesRead(e)
  {
    match e
    case FileNew(m, body) => body.Stored? && m.size == |body.bytes| && m.realPath == ""
    case FileSame(_) => false
    case FileDiff(_, _) => false
    case Dir(_, allNew, childs) => allNew && forall k :: k in childs ==> childs[k].meta.name == k && Full(childs[k])
    case Symlink(m) => m.size == 0
    case Hardlink(m) => m.size == 0
  }

  predicate SameType(a: Tree, b: Tree) {
    match b
    case FileNew(_, _) => a.FileNew?
    case FileSame(_) => a.FileSame?
    case FileDiff(_, _) => a.FileDiff?
    case Dir(_, allNew, _) => a.Dir? && a.allNew == allNew
    case Symlink(_) => a.Symlink?
    case Hardlink(_) => a.Hardlink?
  }

  /** Entries of recorded size zero and symbolic links get no task, and directories among them are not entered. */
  predicate IsSkipped(e: Tree) {
    e.IsLink() || e.meta.size == 0
  }

  /** The scan meets no entry of a delta image. */
  predicate Diffable(d: Tree)
    requires d.Dir?
  {
    forall k :: k in d.childs ==>
      !d.childs[k].IsBaseRequired() && (d.childs[k].Dir? && !IsSkipped(d.childs[k]) ==> Diffable(d.childs[k]))
  }

  /** An entry for which no task is made keeps its type and its place, but its image's body is left behind. */
  function Skipped(e: Tree): (r: Tree)
    ensures r.meta == e.meta
  {
    match e
    case FileNew(m, _) => FileNew(m, Dangling)
    case Dir(m, allNew, childs) => Dir(m, allNew, map k | k in childs :: Skipped(childs[k]))
    case _ => e
  }

  /** The diff worker on a file that both images have. */
  function DiffFile(gen: Generator, binary: bool, o: Bytes, m: Meta, n: Bytes): Tree {
    if n == o then FileSame(m)
    else if |o| > 0 && binary then FileDiff(m, gen(o, n))
    else FileNew(m, Stored(n))
  }

  /** What becomes of one entry of the new image; `old'` is the old image's entry of the same name. */
  function DiffChild(gen: Generator, binary: bool, old': Option<Tree>, new': Tree): (r: Tree)
    requires BodiesRead(new') && (old'.Some? ==> BodiesRead(old'.value))
    ensures r.meta == new'.meta
    decreases new', 1
  {
    if IsSkipped(new') then Skipped(new')
    else if old'.None? || old'.value.meta.name != new'.meta.name || !SameType(old'.value, new') then
      if new'.Dir? then DiffDir(gen, binary, None, new') else new'
    else if new'.Dir? then DiffDir(gen, binary, old', new')
    else if new'.FileNew? then DiffFile(gen, binary, old'.value.body.bytes, new'.meta, new'.body.bytes)
    else new'
  }

  function DiffDir(gen: Generator, binary: bool, old': Option<Tree>, new': Tree): (r: Tree)
    requires new'.Dir? && BodiesRead(new') && (old'.Some? ==> BodiesRead(old'.value))
    ensures r.Dir? && r.meta == new'.meta
    decreases new', 0
  {
    Dir(new'.meta, new'.allNew, map k | k in new'.childs :: DiffChild(gen, binary, ChildEntry(old', k), new'.childs[k]))
  }

  /** `generateDiffMultithread`: the delta image from the old to the new root. */
  function Diff(gen: Generator, binary: bool, old': Tree, new': Tree): Tree
    requires new'.Dir? && BodiesRead(new') && BodiesRead(old')
  {
    UpdateDirs(DiffDir(gen, binary, Some(old'), new'))
  }

  lemma {:induction false} FullIsDiffable(e: Tree)
    requires Full(e)
    ensures e.Dir? ==> Diffable(e)
  {
    if e.Dir? {
      forall k | k in e.childs
        ensures e.childs[k].Dir? ==> Diffable(e.childs[k])
      {
        FullIsDiffable(e.childs[k]);
      }
    }
  }

  // ------------------------------------------------------- what is left behind

  /** What a reader of the delta image finds at the place that a skipped file had in the body of its own image. */
  type Leftovers = Path -> Body

  /** The tree as a reader sees it. */
  function Resolve(d: Tree, at: Path, left: Leftovers): (r: Tree)
    ensures r.meta == d.meta && (r.Dir? <==> d.Dir?)
    decreases d
  {
    match d
    case FileNew(m, Dangling) => FileNew(m, left(at))
    case Dir(m, allNew, childs) => Dir(m, allNew, map k | k in childs :: Resolve(childs[k], at + [k], left))
    case _ => d
  }

  /** Every skipped file of the new image reads back as its own content. */
  predicate ReadsBack(d: Tree, new': Tree, at: Path, left: Leftovers)
    decreases new'
  {
    match new'
    case FileNew(_, body) => d.FileNew? && d.body.Dangling? ==> left(at) == body
    case Dir(_, _, childs) =>
      d.Dir? ==> forall k :: k in childs && k in d.childs ==> ReadsBack(d.childs[k], childs[k], at + [k], left)
    case _ => true
  }

  /** An empty file reads back as empty, wherever its place is. */
  ghost predicate EmptyFilesReadBack(e: Tree, at: Path, left: Leftovers)
    decreases e
  {
    match e
    case FileNew(_, body) => body == Stored([]) ==> left(at) == body
    case Dir(_, _, childs) => forall k :: k in childs ==> EmptyFilesReadBack(childs[k], at + [k], left)
    case _ => true
  }

  lemma {:induction false} UpdateDirsResolve(d: Tree, at: Path, left: Leftovers)
    ensures Resolve(UpdateDirs(d), at, left) == UpdateDirs(Resolve(d, at, left))
    decreases d
  {
    if d.Dir? {
      forall k | k in d.childs
        ensures Resolve(UpdateDirs(d.childs[k]), at + [k], left) == UpdateDirs(Resolve(d.childs[k], at + [k], left))
      {
        UpdateDirsResolve(d.childs[k], at + [k], left);
      }
      ResolvedDirs(d, at, left);
    }
  }

  lemma {:induction false} ResolvedDirs(d: Tree, at: Path, left: Leftovers)
    requires d.Dir?
    requires forall k :: k in d.childs ==>
               Resolve(UpdateDirs(d.childs[k]), at + [k], left) == UpdateDirs(Resolve(d.childs[k], at + [k], left))
    ensures Resolve(UpdateDirs(d), at, left) == UpdateDirs(Resolve(d, at, left))
  {
    var a, b := Resolve(UpdateDirs(d), at, left), UpdateDirs(Resolve(d, at, left));
    forall k | k in d.childs
      ensures k in a.childs && k in b.childs && a.childs[k] == b.childs[k]
      ensures k in UpdateDirs(d).childs && UpdateDirs(d).childs[k].IsNew() == b.childs[k].IsNew()
    {
      ResolvedChild(d, at, left, k);
    }
    AllNewMeans(d);
    AllNewMeans(Resolve(d, at, left));
    SameDirs(a, b, UpdateDirs(d));
  }

  /** Directories with the same children, new exactly if all of these are. */
  lemma {:induction false} SameDirs(a: Tree, b: Tree, updated: Tree)
    requires a.Dir? && b.Dir? && updated.Dir? && a.meta == b.meta && a.allNew == updated.allNew
    requires a.childs.Keys == b.childs.Keys == updated.childs.Keys
    requires forall k :: k in a.childs ==> a.childs[k] == b.childs[k] && updated.childs[k].IsNew() == b.childs[k].IsNew()
    requires AllNewRight(updated) && AllNewRight(b)
    ensures a == b
  {
    assert a.childs == b.childs;
    assert AllNewRight(a) by {
      assert forall k :: k in a.childs ==> a.childs[k].IsNew() == updated.childs[k].IsNew();
    }
  }

  predicate AllNewRight(d: Tree) {
    d.Dir? ==> (d.allNew <==> forall k :: k in d.childs ==> d.childs[k].IsNew())
  }

  lemma {:induction false} ResolvedChild(d: Tree, at: Path, left: Leftovers, k: string)
    requires d.Dir? && k in d.childs
    requires Resolve(UpdateDirs(d.childs[k]), at + [k], left) == UpdateDirs(Resolve(d.childs[k], at + [k], left))
    ensures var a, b := Resolve(UpdateDirs(d), at, left), UpdateDirs(Resolve(d, at, left));
            && k in a.childs && k in b.childs && a.childs[k] == b.childs[k]
            && k in UpdateDirs(d).childs && UpdateDirs(d).childs[k].IsNew() == b.childs[k].IsNew()
  {
    ResolveKeepsType(UpdateDirs(d.childs[k]), at + [k], left);
  }

  lemma {:induction false} AllNewMeans(d: Tree)
    requires d.Dir?
    ensures AllNewRight(UpdateDirs(d))
    ensures UpdateDirs(d).childs.Keys == d.childs.Keys
  {
  }

  lemma {:induction false} ResolveKeepsType(d: Tree, at: Path, left: Leftovers)
    ensures Resolve(d, at, left).IsNew() == d.IsNew()
  {
  }

  lemma {:induction false} UpdateDirsReadsBack(d: Tree, new': Tree, at: Path, left: Leftovers)
    ensures ReadsBack(UpdateDirs(d), new', at, left) <==> ReadsBack(d, new', at, left)
    decreases new'
  {
    if new'.Dir? && d.Dir? {
      forall k | k in new'.childs && k in d.childs
        ensures ReadsBack(UpdateDirs(d.childs[k]), new'.childs[k], at + [k], left) <==>
                ReadsBack(d.childs[k], new'.childs[k], at + [k], left)
      {
        UpdateDirsReadsBack(d.childs[k], new'.childs[k], at + [k], left);
      }
    }
  }

  /** Entries with bodies of their own are seen as they are. */
  lemma {:induction false} ResolveRead(e: Tree, at: Path, left: Leftovers)
    requires BodiesRead(e)
    ensures Resolve(e, at, left) == e
    decreases e
  {
    if e.Dir? {
      forall k | k in e.childs
        ensures Resolve(e.childs[k], at + [k], left) == e.childs[k]
      {
        ResolveRead(e.childs[k], at + [k], left);
      }
      assert Resolve(e, at, left).childs == e.childs;
    }
  }

  // --------------------------------------------------------------- coverage

  /** No file at or below the entry has content. */
  predicate NoContent(e: Tree) {
    match e
    case FileNew(_, body) => body == Stored([])
    case Dir(_, _, childs) => forall k :: k in childs ==> NoContent(childs[k])
    case _ => true
  }

  /** Directories that the scan does not enter, because their size is recorded as zero, hold no content. */
  predicate Covered(e: Tree)
    decreases e, 1
  {
    if IsSkipped(e) then NoContent(e)
    else e.Dir? ==> CoveredDir(e)
  }

  predicate CoveredDir(e: Tree)
    requires e.Dir?
    decreases e, 0
  {
    forall k :: k in e.childs ==> Covered(e.childs[k])
  }

  lemma {:induction false} EmptyReadsBack(e: Tree, at: Path, left: Leftovers)
    requires NoContent(e) && EmptyFilesReadBack(e, at, left)
    ensures ReadsBack(Skipped(e), e, at, left)
    decreases e
  {
    if e.Dir? {
      forall k | k in e.childs
        ensures ReadsBack(Skipped(e.childs[k]), e.childs[k], at + [k], left)
      {
        EmptyReadsBack(e.childs[k], at + [k], left);
      }
    }
  }

  /** When no directory of recorded size zero holds content, everything skipped reads back, in every body. */
  lemma {:induction false} CoveredReadsBack(gen: Generator, binary: bool, o: Option<Tree>, e: Tree, at: Path, left: Leftovers)
    requires Full(e) && (o.Some? ==> BodiesRead(o.value)) && Covered(e) && EmptyFilesReadBack(e, at, left)
    ensures ReadsBack(DiffChild(gen, binary, o, e), e, at, left)
    decreases e, 1
  {
    if IsSkipped(e) {
      EmptyReadsBack(e, at, left);
    } else if e.Dir? {
      CoveredDirReadsBack(gen, binary, None, e, at, left);
      CoveredDirReadsBack(gen, binary, o, e, at, left);
    }
  }

  lemma {:induction false} CoveredDirReadsBack(gen: Generator, binary: bool, o: Option<Tree>, e: Tree, at: Path, left: Leftovers)
    requires e.Dir? && Full(e) && (o.Some? ==> BodiesRead(o.value)) && CoveredDir(e) && EmptyFilesReadBack(e, at, left)
    ensures ReadsBack(DiffDir(gen, binary, o, e), e, at, left)
    decreases e, 0
  {
    forall k | k in e.childs
      ensures ReadsBack(DiffDir(gen, binary, o, e).childs[k], e.childs[k], at + [k], left)
    {
      CoveredReadsBack(gen, binary, ChildEntry(o, k), e.childs[k], at + [k], left);
    }
  }

  /** The view of a full image. */
  ghost function View(e: Option<Tree>): Option<Node>
    requires e.Some? ==> Applies(None, e.value)
  {
    if e.None? then None else Some(Applied(None, e.value))
  }

  lemma {:induction false} FullStandalone(e: Tree)
    requires Full(e)
    ensures Standalone(e) && DirTypesRight(e)
    ensures forall base :: Consistent(base, e)
  {
    if e.Dir? {
      forall k | k in e.childs
        ensures Standalone(e.childs[k]) && DirTypesRight(e.childs[k])
        ensures forall base :: Consistent(base, e.childs[k])
      {
        FullStandalone(e.childs[k]);
      }
    }
  }

  // ---------------------------------------------------------------- meaning

  /** A full image whose digests are right. */
  ghost predicate Sealed(e: Option<Tree>) {
    e.Some? ==> Full(e.value) && Applies(None, e.value)
  }

  /** Over the base, an entry gives the new one exactly if the condition holds. */
  ghost predicate Restores(base: Option<Node>, r: Tree, new': Tree, covered: bool)
    requires Applies(None, new')
  {
    && (Applies(base, r) <==> covered)
    && (covered ==> Applied(base, r) == Applied(None, new') && Consistent(base, r))
  }

  lemma {:induction false} ViewOfChild(o: Option<Tree>, k: string)
    requires Sealed(o)
    ensures Sealed(ChildEntry(o, k)) && ChildOf(View(o), k) == View(ChildEntry(o, k))
    ensures ChildEntry(o, k).Some? ==> ChildEntry(o, k).value.meta.name == k
  {
    if o.Some? && o.value.Dir? {
      assert ChildsApply(None, o.value);
      assert View(o).value.childs == AppliedChilds(None, o.value);
      assert ChildOf(None, k) == None;
    }
  }

  /** The base has at every name what the old entry shows there. */
  ghost predicate Shows(base: Option<Node>, o: Option<Tree>) {
    forall k :: Sealed(ChildEntry(o, k)) && ChildOf(base, k) == View(ChildEntry(o, k))
  }

  lemma {:induction false} ShowsItself(o: Option<Tree>)
    requires Sealed(o)
    ensures Shows(View(o), o)
  {
    forall k
      ensures Sealed(ChildEntry(o, k)) && ChildOf(View(o), k) == View(ChildEntry(o, k))
    {
      ViewOfChild(o, k);
    }
  }

  lemma {:induction false} DiffFileMeaning(gen: Generator, binary: bool, o: Tree, new': Tree)
    requires Generates(gen) && Sealed(Some(o)) && Sealed(Some(new')) && o.FileNew? && new'.FileNew?
    ensures Restores(View(Some(o)), DiffFile(gen, binary, o.body.bytes, new'.meta, new'.body.bytes), new', true)
  {
  }

  /** A skipped entry gives the new one exactly if it reads back. */
  lemma {:induction false} SkippedMeaning(base: Option<Node>, e: Tree, at: Path, left: Leftovers)
    requires Sealed(Some(e))
    ensures Restores(base, Resolve(Skipped(e), at, left), e, ReadsBack(Skipped(e), e, at, left))
    decreases e
  {
    if e.Dir? {
      assert ChildsApply(None, e);
      forall k | k in e.childs
        ensures Applies(None, e.childs[k])
        ensures Restores(ChildOf(base, k), Resolve(Skipped(e.childs[k]), at + [k], left), e.childs[k],
                         ReadsBack(Skipped(e.childs[k]), e.childs[k], at + [k], left))
      {
        assert ChildOf(None, k) == None;
        SkippedMeaning(ChildOf(base, k), e.childs[k], at + [k], left);
      }
      AssembleDiff(base, Skipped(e), e, at, left);
    }
  }

  lemma {:induction false} DiffChildMeaning(gen: Generator, binary: bool, o: Option<Tree>, new': Tree, at: Path, left: Leftovers)
    requires Generates(gen) && Sealed(o) && Sealed(Some(new'))
    requires o.Some? ==> o.value.meta.name == new'.meta.name
    ensures Restores(View(o), Resolve(DiffChild(gen, binary, o, new'), at, left), new',
                     ReadsBack(DiffChild(gen, binary, o, new'), new', at, left))
    decreases new', 1
  {
    if IsSkipped(new') {
      SkippedMeaning(View(o), new', at, left);
    } else if new'.Dir? {
      ShowsItself(o);
      if o.Some? && !SameType(o.value, new') {
        assert Shows(View(o), None);
        DiffDirMeaning(gen, binary, View(o), None, new', at, left);
      } else {
        DiffDirMeaning(gen, binary, View(o), o, new', at, left);
      }
    } else if o.Some? && SameType(o.value, new') && new'.FileNew? {
      DiffFileMeaning(gen, binary, o.value, new');
    } else {
      FullStandalone(new');
      StandaloneIgnoresBase(View(o), None, new');
    }
  }

  lemma {:induction false} DiffDirMeaning(gen: Generator, binary: bool, base: Option<Node>, o: Option<Tree>, new': Tree, at: Path, left: Leftovers)
    requires Generates(gen) && Sealed(o) && Sealed(Some(new')) && new'.Dir?
    requires Shows(base, o)
    ensures Restores(base, Resolve(DiffDir(gen, binary, o, new'), at, left), new', ReadsBack(DiffDir(gen, binary, o, new'), new', at, left))
    decreases new', 0
  {
    var d := DiffDir(gen, binary, o, new');
    assert ChildsApply(None, new');
    forall k | k in new'.childs
      ensures Applies(None, new'.childs[k])
      ensures Restores(ChildOf(base, k), Resolve(d.childs[k], at + [k], left), new'.childs[k],
                       ReadsBack(d.childs[k], new'.childs[k], at + [k], left))
    {
      assert ChildOf(None, k) == None;
      ViewOfChild(o, k);
      DiffChildMeaning(gen, binary, ChildEntry(o, k), new'.childs[k], at + [k], left);
    }
    AssembleDiff(base, d, new', at, left);
  }

  lemma {:induction false} AssembleDiff(base: Option<Node>, d: Tree, new': Tree, at: Path, left: Leftovers)
    requires new'.Dir? && Full(new') && Applies(None, new')
    requires d.Dir? && d.meta == new'.meta && d.childs.Keys == new'.childs.Keys
    requires forall k :: k in new'.childs ==> d.childs[k].meta == new'.childs[k].meta && Applies(None, new'.childs[k])
    requires forall k :: k in new'.childs ==>
               Restores(ChildOf(base, k), Resolve(d.childs[k], at + [k], left), new'.childs[k],
                        ReadsBack(d.childs[k], new'.childs[k], at + [k], left))
    ensures Restores(base, Resolve(d, at, left), new', ReadsBack(d, new', at, left))
  {
    var r, good := Resolve(d, at, left), set k | k in new'.childs && ReadsBack(d.childs[k], new'.childs[k], at + [k], left);
    assert ReadsBack(d, new', at, left) <==> good == new'.childs.Keys;
    AssembleRestored(base, r, new', good);
  }

  lemma {:induction false} AssembleRestored(base: Option<Node>, r: Tree, new': Tree, good: set<string>)
    requires new'.Dir? && Full(new') && Applies(None, new') && good <= new'.childs.Keys
    requires r.Dir? && r.meta == new'.meta && r.childs.Keys == new'.childs.Keys
    requires forall k :: k in new'.childs ==> r.childs[k].meta == new'.childs[k].meta && Applies(None, new'.childs[k])
    requires forall k :: k in new'.childs ==> Restores(ChildOf(base, k), r.childs[k], new'.childs[k], k in good)
    ensures Restores(base, r, new', good == new'.childs.Keys)
  {
    assert ChildDigests(r.childs) == ChildDigests(new'.childs);
    assert ChildsApply(base, r) <==> good == new'.childs.Keys;
    if good == new'.childs.Keys {
      forall k | k in new'.childs
        ensures Applied(ChildOf(base, k), r.childs[k]) == Applied(ChildOf(None, k), new'.childs[k])
        ensures Consistent(ChildOf(base, k), r.childs[k])
      {
        assert ChildOf(None, k) == None;
      }
      SameChildsSameResult(base, r, None, new');
    }
  }

  /**
    The round trip. Whatever a reader finds where skipped files had their places: applied to the old
    image, the delta image gives the new one, metadata and contents, exactly if every skipped file
    reads back as its own content; and exactly then it is a well-formed delta image over the old one,
    as merging needs it.
  */
  lemma {:induction false} DiffApplyRoundTrip(gen: Generator, binary: bool, old': Tree, new': Tree, left: Leftovers)
    requires Generates(gen) && Full(old') && Full(new') && new'.Dir?
    requires Applies(None, old') && Applies(None, new')
    ensures var base := Some(Applied(None, old'));
            var made := Diff(gen, binary, old', new');
            var delta := Resolve(made, [], left);
            && (Applies(base, delta) <==> ReadsBack(made, new', [], left))
            && (ReadsBack(made, new', [], left) ==> WellFormedOver(base, delta) && Applied(base, delta) == Applied(None, new'))
  {
    var base := Some(Applied(None, old'));
    var raw := DiffDir(gen, binary, Some(old'), new');
    ShowsItself(Some(old'));
    DiffDirMeaning(gen, binary, base, Some(old'), new', [], left);
    UpdateDirsResolve(raw, [], left);
    UpdateDirsReadsBack(raw, new', [], left);
    var resolved := Resolve(raw, [], left);
    UpdateDirsKeepsMeaning(base, resolved);
    UpdateDirsRight(resolved);
    if ReadsBack(raw, new', [], left) {
      UpdateDirsKeepsConsistent(base, resolved);
    }
  }

  /** With every directory that holds content recorded at its size, the round trip does not depend on what is left where. */
  lemma {:induction false} CoveredRoundTrip(gen: Generator, binary: bool, old': Tree, new': Tree, left: Leftovers)
    requires Generates(gen) && Full(old') && Full(new') && new'.Dir?
    requires Applies(None, old') && Applies(None, new') && CoveredDir(new') && EmptyFilesReadBack(new', [], left)
    ensures var base, delta := Some(Applied(None, old')), Resolve(Diff(gen, binary, old', new'), [], left);
            WellFormedOver(base, delta) && Applied(base, delta) == Applied(None, new')
  {
    CoveredDirReadsBack(gen, binary, Some(old'), new', [], left);
    UpdateDirsReadsBack(DiffDir(gen, binary, Some(old'), new'), new', [], left);
    DiffApplyRoundTrip(gen, binary, old', new', left);
  }

  // ------------------------------------------------- a zero-sized directory

  ghost function FileNamed(name: string, content: Bytes): Tree {
    var m := Meta(name, |content|, 0, 0, 0, "", NoDigest);
    FileNew(m.(digest := GenerateDigest(m, [], content)), Stored(content))
  }

  ghost function DirNamed(name: string, childs: map<string, Tree>): Tree {
    var m := Meta(name, 0, 0, 0, 0, "", NoDigest);
    Dir(m.(digest := GenerateDigest(m, DigestsInOrder(ChildDigests(childs)), [])), true, childs)
  }

  ghost function EtcOfLayer(): Tree {
    DirNamed("etc", map["hosts" := FileNamed("hosts", [1])])
  }

  /** An image packed from a layer archive, whose headers give directories the size zero. */
  ghost function LayerImage(): Tree {
    DirNamed("/", map["etc" := EtcOfLayer()])
  }

  lemma {:induction false} DirNamedIsSealed(name: string, childs: map<string, Tree>)
    requires forall k :: k in childs ==> childs[k].meta.name == k && Full(childs[k]) && Applies(None, childs[k])
    ensures Full(DirNamed(name, childs)) && Applies(None, DirNamed(name, childs))
  {
    assert forall k :: ChildOf(None, k) == None;
  }

  /**
    Such an image is a proper full image, but the delta image towards it can be applied only if the
    place that `etc/hosts` had in the body of its own image happens to hold its content in the body
    of the delta image.
  */
  lemma {:induction false} LayerDirectoryIsLost(gen: Generator, binary: bool, left: Leftovers)
    requires Generates(gen)
    ensures var empty, layer := DirNamed("/", map[]), LayerImage();
            && Full(empty) && Full(layer) && Applies(None, empty) && Applies(None, layer)
            && (Applies(Some(Applied(None, empty)), Resolve(Diff(gen, binary, empty, layer), [], left)) <==>
                left(["etc", "hosts"]) == Stored([1]))
  {
    var empty, layer := DirNamed("/", map[]), LayerImage();
    LayerImageIsSealed();
    DiffApplyRoundTrip(gen, binary, empty, layer, left);
    LayerNeedsHosts(gen, binary, left);
  }

  lemma {:induction false} LayerNeedsHosts(gen: Generator, binary: bool, left: Leftovers)
    requires Full(DirNamed("/", map[])) && Full(LayerImage())
    ensures ReadsBack(Diff(gen, binary, DirNamed("/", map[]), LayerImage()), LayerImage(), [], left) <==> left(["etc", "hosts"]) == Stored([1])
  {
    var empty, layer := DirNamed("/", map[]), LayerImage();
    UpdateDirsReadsBack(DiffDir(gen, binary, Some(empty), layer), layer, [], left);
    LayerReadsBack(gen, binary, empty, left);
  }

  lemma {:induction false} LayerReadsBack(gen: Generator, binary: bool, empty: Tree, left: Leftovers)
    requires Full(empty) && Full(LayerImage()) && empty.Dir? && empty.childs == map[]
    ensures ReadsBack(DiffDir(gen, binary, Some(empty), LayerImage()), LayerImage(), [], left) <==> left(["etc", "hosts"]) == Stored([1])
  {
    var d := LayerDelta(gen, binary, empty);
    EtcReadsBack(left);
    OneChildReadsBack(d, LayerImage(), "etc", [], left);
    RootChild("etc");
  }

  lemma {:induction false} RootChild(name: string)
    ensures [] + [name] == [name]
  {
  }

  lemma {:induction false} LayerDelta(gen: Generator, binary: bool, empty: Tree) returns (d: Tree)
    requires Full(empty) && Full(LayerImage()) && empty.Dir? && empty.childs == map[]
    ensures d == DiffDir(gen, binary, Some(empty), LayerImage())
    ensures d.Dir? && d.childs.Keys == {"etc"} && d.childs["etc"] == Skipped(EtcOfLayer())
    ensures LayerImage().childs.Keys == {"etc"} && LayerImage().childs["etc"] == EtcOfLayer()
  {
    d := DiffDir(gen, binary, Some(empty), LayerImage());
  }

  lemma {:induction false} OneChildReadsBack(d: Tree, n: Tree, name: string, at: Path, left: Leftovers)
    requires d.Dir? && n.Dir? && n.childs.Keys == {name} == d.childs.Keys
    ensures ReadsBack(d, n, at, left) <==> ReadsBack(d.childs[name], n.childs[name], at + [name], left)
  {
  }

  lemma {:induction false} EtcReadsBack(left: Leftovers)
    ensures ReadsBack(Skipped(EtcOfLayer()), EtcOfLayer(), ["etc"], left) <==> left(["etc", "hosts"]) == Stored([1])
  {
    OneChildReadsBack(Skipped(EtcOfLayer()), EtcOfLayer(), "hosts", ["etc"], left);
    assert ["etc"] + ["hosts"] == ["etc", "hosts"];
  }

  lemma {:induction false} LayerImageIsSealed()
    ensures var empty, layer := DirNamed("/", map[]), LayerImage();
            Full(empty) && Full(layer) && Applies(None, empty) && Applies(None, layer)
    ensures LayerImage().childs["etc"] == EtcOfLayer() && EtcOfLayer().childs["hosts"] == FileNamed("hosts", [1])
  {
    DirNamedIsSealed("/", map[]);
    DirNamedIsSealed("etc", map["hosts" := FileNamed("hosts", [1])]);
    DirNamedIsSealed("/", map["etc" := EtcOfLayer()]);
  }
}
