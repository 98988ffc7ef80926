/**
  The delta image as it is stored (pkg/image/diff.go): entries with tasks get places in the new body,
  skipped files keep the places that they had in the body of the new image.
*/
module DiffStorage {
  import opened Results
  import opened DeltaOps
  import opened ImageTree
  import opened ImageDiff
  import opened DiffPaths
  import opened StoredImage
  import opened BodyPipeline
  import opened ImageStorage

  /** What reading the old place of a skipped file in the given body yields. */
  function LeftIn(c: Codec, image: Stored, body: Bytes): Leftovers {
    path =>
      match EntryAt(image, path)
      case None => Dangling
      case Some(e) =>
        if !e.FileNew? then Dangling
        else
          match ReadNew(c, e, body)
          case None => Dangling
          case Some(data) => ImageTree.Stored(data)
  }

  /** Where entries of the delta image have their bodies: where the writer put them, or where they were. */
  function DiffPlace(d: Tree, image: Stored, written: Path -> Loc): Path -> Loc {
    path =>
      if EntryAt(d, path).Some? && LeftBehind(EntryAt(d, path).value) && EntryAt(image, path).Some?
      then LocOf(EntryAt(image, path).value)
      else written(path)
  }

  /** Skipped files of the delta tree are files of the new image. */
  ghost predicate LeavesFiles(d: Tree, image: Stored, at: Path)
  {
    forall p: Path {:trigger EntryAt(d, p)} :: EntryAt(d, p).Some? && LeftBehind(EntryAt(d, p).value) ==>
      EntryAt(image, at + p).Some? && EntryAt(image, at + p).value.FileNew?
  }

  // ------------------------------------------------------------ skipped files

  lemma {:induction false} SkippedLeaves(e: Tree, p: Path)
    ensures EntryAt(Skipped(e), p).Some? && LeftBehind(EntryAt(Skipped(e), p).value) ==>
              EntryAt(e, p).Some? && EntryAt(e, p).value.FileNew?
    decreases |p|
  {
    if p != [] && e.Dir? && p[0] in e.childs {
      SkippedLeaves(e.childs[p[0]], p[1..]);
    }
  }

  lemma {:induction false} NothingLeft(e: Tree, p: Path)
    requires BodiesRead(e)
    ensures EntryAt(e, p).Some? ==> !LeftBehind(EntryAt(e, p).value)
    decreases |p|
  {
    if p != [] && e.Dir? && p[0] in e.childs {
      NothingLeft(e.childs[p[0]], p[1..]);
    }
  }

  /** Only files of the new image are left behind. */
  lemma {:induction false} DiffChildLeaves(gen: Generator, binary: bool, o: Option<Tree>, e: Tree, p: Path)
    requires BodiesRead(e) && (o.Some? ==> BodiesRead(o.value))
    ensures var d := EntryAt(DiffChild(gen, binary, o, e), p);
            d.Some? && LeftBehind(d.value) ==> EntryAt(e, p).Some? && EntryAt(e, p).value.FileNew?
    decreases |p|, 1
  {
    if IsSkipped(e) {
      SkippedLeaves(e, p);
    } else if e.Dir? {
      DiffDirLeaves(gen, binary, None, e, p);
      DiffDirLeaves(gen, binary, o, e, p);
    } else {
      NothingLeft(e, p);
    }
  }

  lemma {:induction false} DiffDirLeaves(gen: Generator, binary: bool, o: Option<Tree>, e: Tree, p: Path)
    requires e.Dir? && BodiesRead(e) && (o.Some? ==> BodiesRead(o.value))
    ensures var d := EntryAt(DiffDir(gen, binary, o, e), p);
            d.Some? && LeftBehind(d.value) ==> EntryAt(e, p).Some? && EntryAt(e, p).value.FileNew?
    decreases |p|, 0
  {
    if p != [] && p[0] in e.childs {
      DiffChildLeaves(gen, binary, ChildEntry(o, p[0]), e.childs[p[0]], p[1..]);
    }
  }

  lemma {:induction false} UpdateDirsLeaves(d: Tree, p: Path)
    ensures EntryAt(UpdateDirs(d), p).Some? ==>
              EntryAt(d, p).Some? && (LeftBehind(EntryAt(UpdateDirs(d), p).value) <==> LeftBehind(EntryAt(d, p).value))
    decreases |p|
  {
    if p != [] && d.Dir? && p[0] in d.childs {
      UpdateDirsLeaves(d.childs[p[0]], p[1..]);
    }
  }

  lemma {:induction false} DiffLeavesFiles(c: Codec, gen: Generator, binary: bool, old': Tree, new': Tree, image: Stored, body: Bytes)
    requires new'.Dir? && BodiesRead(new') && BodiesRead(old') && Represents(c, image, body, new')
    ensures LeavesFiles(Diff(gen, binary, old', new'), image, [])
  {
    var raw, d := DiffDir(gen, binary, Some(old'), new'), Diff(gen, binary, old', new');
    forall p: Path | EntryAt(d, p).Some? && LeftBehind(EntryAt(d, p).value)
      ensures EntryAt(image, [] + p).Some? && EntryAt(image, [] + p).value.FileNew?
    {
      UpdateDirsLeaves(raw, p);
      DiffDirLeaves(gen, binary, Some(old'), new', p);
      RepresentsAt(c, image, body, new', p);
      assert [] + p == p;
    }
  }

  // -------------------------------------------------------- what is stored

  /** The body holds every entry that has one of its own at its place, and skipped files are placed where the new image had them. */
  ghost predicate Holding(c: Codec, d: Tree, at: Path, place: Path -> Loc, image: Stored, body: Bytes) {
    && HoldsOwn(c, d, at, place, body)
    && forall p: Path {:trigger EntryAt(d, p)} :: EntryAt(d, p).Some? && LeftBehind(EntryAt(d, p).value) ==>
         EntryAt(image, at + p).Some? && EntryAt(image, at + p).value == FileNew(EntryAt(image, at + p).value.meta, place(at + p))
  }

  ghost predicate HoldsOwn(c: Codec, d: Tree, at: Path, place: Path -> Loc, body: Bytes) {
    forall p: Path {:trigger EntryAt(d, p)} :: EntryAt(d, p).Some? && !LeftBehind(EntryAt(d, p).value) ==>
      HoldsBody(c, EntryAt(d, p).value, at + p, place, body)
  }

  lemma {:induction false} HoldingChild(c: Codec, d: Tree, at: Path, place: Path -> Loc, image: Stored, body: Bytes, k: string)
    requires Holding(c, d, at, place, image, body) && d.Dir? && k in d.childs
    ensures Holding(c, d.childs[k], at + [k], place, image, body)
  {
    forall p: Path | EntryAt(d.childs[k], p).Some?
      ensures !LeftBehind(EntryAt(d.childs[k], p).value) ==> HoldsBody(c, EntryAt(d.childs[k], p).value, at + [k] + p, place, body)
      ensures LeftBehind(EntryAt(d.childs[k], p).value) ==>
                EntryAt(image, at + [k] + p).Some? &&
                EntryAt(image, at + [k] + p).value == FileNew(EntryAt(image, at + [k] + p).value.meta, place(at + [k] + p))
    {
      assert ([k] + p)[1..] == p && EntryAt(d, [k] + p) == EntryAt(d.childs[k], p);
      assert at + ([k] + p) == at + [k] + p;
    }
  }

  /** A tree that the stored delta image stands for can only be the delta tree as a reader sees it. */
  lemma {:induction false} RepresentsResolved(c: Codec, d: Tree, at: Path, place: Path -> Loc, image: Stored, body: Bytes, t: Tree)
    requires Holding(c, d, at, place, image, body) && Represents(c, Located(d, at, place), body, t)
    ensures t == Resolve(d, at, LeftIn(c, image, body))
    decreases d
  {
    assert EntryAt(d, []) == Some(d) && at + [] == at;
    if d.Dir? {
      forall k | k in d.childs
        ensures t.childs[k] == Resolve(d.childs[k], at + [k], LeftIn(c, image, body))
      {
        HoldingChild(c, d, at, place, image, body, k);
        RepresentsResolved(c, d.childs[k], at + [k], place, image, body, t.childs[k]);
      }
      assert t.childs == Resolve(d, at, LeftIn(c, image, body)).childs;
    }
  }

  /** Where everything can be read, the stored delta image does stand for that tree. */
  lemma {:induction false} ResolvedRepresents(c: Codec, d: Tree, at: Path, place: Path -> Loc, image: Stored, body: Bytes)
    requires Holding(c, d, at, place, image, body) && BodiesRead(Resolve(d, at, LeftIn(c, image, body)))
    ensures Represents(c, Located(d, at, place), body, Resolve(d, at, LeftIn(c, image, body)))
    decreases d
  {
    assert EntryAt(d, []) == Some(d) && at + [] == at;
    var r := Resolve(d, at, LeftIn(c, image, body));
    if d.Dir? {
      forall k | k in d.childs
        ensures Represents(c, Located(d.childs[k], at + [k], place), body, Resolve(d.childs[k], at + [k], LeftIn(c, image, body)))
      {
        assert r.childs[k] == Resolve(d.childs[k], at + [k], LeftIn(c, image, body));
        HoldingChild(c, d, at, place, image, body, k);
        ResolvedRepresents(c, d.childs[k], at + [k], place, image, body);
      }
    }
  }

  lemma {:induction false} AppliesReads(base: Option<Node>, t: Tree)
    requires Applies(base, t)
    ensures BodiesRead(t)
    decreases t
  {
    if t.Dir? {
      assert ChildsApply(base, t);
      forall k | k in t.childs
        ensures BodiesRead(t.childs[k])
      {
        AppliesReads(ChildOf(base, k), t.childs[k]);
      }
    }
  }

  /** The stored delta image can be installed over the base. */
  ghost predicate Installable(c: Codec, e: Stored, body: Bytes, base: Option<Node>) {
    exists t :: Represents(c, e, body, t) && Applies(base, t)
  }

  /** A delta tree that suits the old image and makes the new one of it. */
  ghost predicate Reproduces(old': Tree, new': Tree, delta: Tree)
    requires Applies(None, old') && Applies(None, new')
  {
    var base := Some(Applied(None, old'));
    WellFormedOver(base, delta) && Applied(base, delta) == Applied(None, new')
  }

  /** One diff: the two images, the stored form of the new one, and the tasks of the pipeline. */
  datatype DiffJob = DiffJob(gen: Generator, binary: bool, old': Tree, new': Tree, image: Stored, body: Bytes, task: Path -> nat, run: Config)
  {
    ghost predicate Proper(c: Codec) {
      && Generates(gen) && Full(old') && Full(new') && new'.Dir? && Applies(None, old') && Applies(None, new')
      && Represents(c, image, body, new') && run.Valid() && TasksEncode(c, Diff(gen, binary, old', new'), run, task)
    }

    /** The delta tree, with skipped files left behind. */
    function Made(): Tree
      requires Full(old') && Full(new') && new'.Dir?
    {
      Diff(gen, binary, old', new')
    }

    /** The entries as they are stored next to the body that the writer wrote. */
    function Entries(s: State): Stored
      requires Full(old') && Full(new') && new'.Dir?
    {
      Located(Made(), [], DiffPlace(Made(), image, PlaceIn(run, s, task)))
    }

    ghost predicate Finished(states: seq<State>, events: seq<Event>, k: nat) {
      IsRun(run, states, events) && k < |states| && states[k].finished
    }
  }

  /**
    The stored round trip. For every run of the pipeline over the tasks of a diff, the delta image it
    stores can be installed over the old image exactly if every skipped file reads back, at the place
    it had in the new image's body, as its own content; and then installing gives the new image.
  */
  lemma {:induction false} StoredDiffRoundTrip(c: Codec, j: DiffJob, states: seq<State>, events: seq<Event>, k: nat)
    requires j.Proper(c) && j.Finished(states, events, k)
    ensures var s, left := states[k], LeftIn(c, j.image, states[k].body);
            && (Installable(c, j.Entries(s), s.body, Some(Applied(None, j.old'))) <==> ReadsBack(j.Made(), j.new', [], left))
            && (ReadsBack(j.Made(), j.new', [], left) ==>
                  && Represents(c, j.Entries(s), s.body, Resolve(j.Made(), [], left))
                  && Reproduces(j.old', j.new', Resolve(j.Made(), [], left)))
  {
    var base, d, s := Some(Applied(None, j.old')), j.Made(), states[k];
    var left, place := LeftIn(c, j.image, s.body), DiffPlace(d, j.image, PlaceIn(j.run, s, j.task));
    DiffLeavesFiles(c, j.gen, j.binary, j.old', j.new', j.image, j.body);
    DiffHolding(c, d, j.image, j.task, j.run, states, events, k);
    DiffApplyRoundTrip(j.gen, j.binary, j.old', j.new', left);
    if ReadsBack(d, j.new', [], left) {
      AppliesReads(base, Resolve(d, [], left));
      ResolvedRepresents(c, d, [], place, j.image, s.body);
    }
    if Installable(c, Located(d, [], place), s.body, base) {
      var t :| Represents(c, Located(d, [], place), s.body, t) && Applies(base, t);
      RepresentsResolved(c, d, [], place, j.image, s.body, t);
    }
  }

  /** After a finished run everything is where the delta image says. */
  lemma {:induction false} DiffHolding(c: Codec, d: Tree, image: Stored,
                                       task: Path -> nat, run: Config, states: seq<State>, events: seq<Event>, k: nat)
    requires LeavesFiles(d, image, []) && TasksEncode(c, d, run, task)
    requires IsRun(run, states, events) && k < |states| && states[k].finished && run.Valid()
    ensures Holding(c, d, [], DiffPlace(d, image, PlaceIn(run, states[k], task)), image, states[k].body)
  {
    var s := states[k];
    var place := DiffPlace(d, image, PlaceIn(run, s, task));
    forall p: Path | EntryAt(d, p).Some?
      ensures !LeftBehind(EntryAt(d, p).value) ==> HoldsBody(c, EntryAt(d, p).value, [] + p, place, s.body)
      ensures LeftBehind(EntryAt(d, p).value) ==>
                EntryAt(image, [] + p).Some? && EntryAt(image, [] + p).value == FileNew(EntryAt(image, [] + p).value.meta, place([] + p))
    {
      var at: Path := [];
      assert at + p == p;
      if LeftBehind(EntryAt(d, p).value) {
        assert EntryAt(image, at + p).Some? && EntryAt(image, at + p).value.FileNew?;
        assert place(p) == LocOf(EntryAt(image, p).value);
      } else if EntryAt(d, p).value.HasBody() {
        WrittenBody(c, d, task, run, states, events, k, p);
      }
    }
  }

  /** A full image has no entries of a delta image. */
  lemma {:induction false} FullImageAt(e: Tree, path: Path)
    requires Full(e) && EntryAt(e, path).Some?
    ensures Full(EntryAt(e, path).value)
    decreases |path|
  {
    if path != [] {
      FullImageAt(e.childs[path[0]], path[1..]);
    }
  }

  /**
    Each byte of a delta image's body belongs to a file that the scan came to and that the old image
    does not have, with this content, at the same path. An unchanged file takes no place at all.
  */
  lemma {:induction false} BodyHoldsChanges(c: Codec, j: DiffJob, states: seq<State>, events: seq<Event>, k: nat, pos: nat) returns (p: Path)
    requires j.Proper(c) && j.Finished(states, events, k) && TasksOnly(j.Made(), j.run, j.task) && pos < |states[k].body|
    ensures InPlace(PlaceIn(j.run, states[k], j.task)(p), pos)
    ensures FileAt(j.new', p).Some? && Scanned(j.new', p) && FileAt(j.old', p) != FileAt(j.new', p)
  {
    p := BodyOnlyOwn(j.Made(), j.task, j.run, states, events, k, pos);
    DeltaEntryAt(j.gen, j.binary, j.old', j.new', p);
    FullImageAt(j.new', p);
    FullComparable(j.old', j.new', p);
  }

  // ------------------------------------------------------------ empty files

  /** Packing compresses an empty file to nothing, and nothing decompresses to an empty file. */
  ghost predicate EmptyFilesStoredEmpty(c: Codec, new': Tree, image: Stored) {
    && c.unzip([]) == Some([])
    && forall p: Path {:trigger EntryAt(new', p)} :: IsEmptyFile(EntryAt(new', p)) ==>
         && EntryAt(image, p).Some? && EntryAt(image, p).value.FileNew?
         && EntryAt(image, p).value.body.size == 0 && EntryAt(image, p).value.body.offset >= 0
  }

  predicate IsEmptyFile(e: Option<Tree>) {
    e.Some? && e.value.FileNew? && e.value.body == ImageTree.Stored([])
  }

  /** Skipped empty files read back as empty in every body. */
  lemma {:induction false} EmptyFilesReadBackIn(c: Codec, new': Tree, image: Stored, other: Bytes)
    requires EmptyFilesStoredEmpty(c, new', image)
    ensures EmptyFilesReadBack(new', [], LeftIn(c, image, other))
  {
    forall p: Path
      ensures EmptyAt(new', p, LeftIn(c, image, other), [] + p)
    {
      assert [] + p == p;
    }
    EmptyFilesByPath(new', [], LeftIn(c, image, other));
  }

  ghost predicate EmptyAt(e: Tree, p: Path, left: Leftovers, place: Path) {
    IsEmptyFile(EntryAt(e, p)) ==> left(place) == ImageTree.Stored([])
  }

  lemma {:induction false} EmptyFilesByPath(e: Tree, at: Path, left: Leftovers)
    requires forall p: Path {:trigger EmptyAt(e, p, left, at + p)} :: EmptyAt(e, p, left, at + p)
    ensures EmptyFilesReadBack(e, at, left)
    decreases e
  {
    assert EmptyAt(e, [], left, at + []) && at + [] == at;
    if e.Dir? {
      forall k | k in e.childs
        ensures EmptyFilesReadBack(e.childs[k], at + [k], left)
      {
        forall p: Path
          ensures EmptyAt(e.childs[k], p, left, at + [k] + p)
        {
          assert EmptyAt(e, [k] + p, left, at + ([k] + p));
          assert ([k] + p)[1..] == p && at + ([k] + p) == at + [k] + p;
        }
        EmptyFilesByPath(e.childs[k], at + [k], left);
      }
    }
  }

  /** With directories recorded at their size, as packing a directory does, the stored delta image always gives the new image. */
  lemma {:induction false} CoveredStoredRoundTrip(c: Codec, j: DiffJob, states: seq<State>, events: seq<Event>, k: nat)
    requires j.Proper(c) && j.Finished(states, events, k)
    requires CoveredDir(j.new') && EmptyFilesStoredEmpty(c, j.new', j.image)
    ensures var s, delta := states[k], Resolve(j.Made(), [], LeftIn(c, j.image, states[k].body));
            Represents(c, j.Entries(s), s.body, delta) && Reproduces(j.old', j.new', delta)
  {
    var left := LeftIn(c, j.image, states[k].body);
    EmptyFilesReadBackIn(c, j.new', j.image, states[k].body);
    CoveredDirReadsBack(j.gen, j.binary, Some(j.old'), j.new', [], left);
    UpdateDirsReadsBack(DiffDir(j.gen, j.binary, Some(j.old'), j.new'), j.new', [], left);
    StoredDiffRoundTrip(c, j, states, events, k);
  }

  // ------------------------------------------------- a zero-sized directory

  /** The diff towards the layer image makes no task, so the delta body is empty, and `etc/hosts` cannot be installed. */
  lemma {:induction false} StoredLayerIsLost(c: Codec, j: DiffJob, states: seq<State>, events: seq<Event>, k: nat)
    requires j.Proper(c) && j.Finished(states, events, k) && j.old' == DirNamed("/", map[]) && j.new' == LayerImage() && j.run.data == []
    requires EntryAt(j.image, ["etc", "hosts"]).Some? && LocOf(EntryAt(j.image, ["etc", "hosts"]).value).size > 0
    ensures !Installable(c, j.Entries(states[k]), states[k].body, Some(Applied(None, j.old')))
  {
    NoTaskNoBody(j.run, states, events, k);
    HostsUnreadable(c, j.image);
    LayerNeedsHosts(j.gen, j.binary, LeftIn(c, j.image, []));
    StoredDiffRoundTrip(c, j, states, events, k);
  }

  lemma {:induction false} NoTaskNoBody(run: Config, states: seq<State>, events: seq<Event>, k: nat)
    requires run.data == [] && IsRun(run, states, events) && k < |states| && states[k].finished && run.Valid()
    ensures states[k].body == []
  {
    var s := states[k];
    RunInvariant(run, states, events, k);
    forall t: nat
      ensures multiset(s.written)[t] == 0
    {
      FinishedTasks(run, s, t);
    }
    assert multiset(s.written) == multiset{} && |multiset(s.written)| == |s.written|;
  }

  lemma {:induction false} HostsUnreadable(c: Codec, image: Stored)
    requires EntryAt(image, ["etc", "hosts"]).Some? && LocOf(EntryAt(image, ["etc", "hosts"]).value).size > 0
    ensures LeftIn(c, image, [])(["etc", "hosts"]) == Dangling
  {
  }
}
