/**
  From a tree to a stored image: the entries of the tree with the offsets that the pipeline gave
  them, next to the body that its writer wrote (pkg/image/diff.go, merge.go).
*/
module ImageStorage {
  import opened Results
  import opened DeltaOps
  import opened ImageTree
  import opened StoredImage
  import opened BodyPipeline

  /** The tree with places for bodies; `place` is asked with full paths. */
  function Located(t: Tree, at: Path, place: Path -> Loc): Stored
    decreases t
  {
    match t
    case FileNew(m, _) => FileNew(m, place(at))
    case FileSame(m) => FileSame(m)
    case FileDiff(m, _) => FileDiff(m, place(at))
    case Dir(m, allNew, childs) => Dir(m, allNew, map k | k in childs :: Located(childs[k], at + [k], place))
    case Symlink(m) => Symlink(m)
    case Hardlink(m) => Hardlink(m)
  }

  /** Data that decodes to what the entry's body holds. */
  ghost predicate Encodes(c: Codec, data: Bytes, t: Tree) {
    && (t.FileNew? ==> t.body.Stored? && c.unzip(data) == Some(t.body.bytes))
    && (t.FileDiff? ==> c.parse(data) == Some(t.delta))
  }

  /** What stands at a place of the image decodes to the entry's body. */
  ghost predicate HoldsBody(c: Codec, t: Tree, at: Path, place: Path -> Loc, image: Bytes) {
    t.HasBody() ==> ReadAt(image, place(at)).Some? && Encodes(c, ReadAt(image, place(at)).value, t)
  }

  ghost predicate HoldsBodies(c: Codec, t: Tree, at: Path, place: Path -> Loc, image: Bytes) {
    forall p: Path {:trigger EntryAt(t, p)} :: EntryAt(t, p).Some? ==> HoldsBody(c, EntryAt(t, p).value, at + p, place, image)
  }

  lemma {:induction false} LocatedRepresents(c: Codec, t: Tree, at: Path, place: Path -> Loc, image: Bytes)
    requires HoldsBodies(c, t, at, place, image)
    ensures Represents(c, Located(t, at, place), image, t)
    decreases t
  {
    assert EntryAt(t, []) == Some(t) && at + [] == at;
    if t.Dir? {
      forall k | k in t.childs
        ensures Represents(c, Located(t, at, place).childs[k], image, t.childs[k])
      {
        forall p: Path | EntryAt(t.childs[k], p).Some?
          ensures HoldsBody(c, EntryAt(t.childs[k], p).value, at + [k] + p, place, image)
        {
          assert ([k] + p)[1..] == p && EntryAt(t, [k] + p) == EntryAt(t.childs[k], p);
          assert at + ([k] + p) == at + [k] + p;
        }
        LocatedRepresents(c, t.childs[k], at + [k], place, image);
      }
    }
  }

  /** A skipped file: its place is in the body of another image. */
  predicate LeftBehind(t: Tree) {
    t.FileNew? && t.body.Dangling?
  }

  /** Each entry with a body of its own has a task, which makes data that decodes to it. */
  ghost predicate TasksEncode(c: Codec, t: Tree, run: Config, task: Path -> nat) {
    forall p: Path {:trigger EntryAt(t, p)} :: EntryAt(t, p).Some? && EntryAt(t, p).value.HasBody() && !LeftBehind(EntryAt(t, p).value) ==>
      run.Writes(task(p)) && Encodes(c, run.data[task(p)].value, EntryAt(t, p).value)
  }

  /** The offset and the compressed size that the writer and the worker leave in the entry. */
  function PlaceIn(run: Config, s: State, task: Path -> nat): Path -> Loc {
    p => Loc(From(s, task(p)), |run.Data(task(p))|)
  }

  /**
    After any error-free run of the pipeline over the tasks of a tree, the entries with their offsets
    and the body written are a stored image of that tree, whatever the interleaving was.
  */
  lemma {:induction false} PipelineStoresTree(c: Codec, t: Tree, task: Path -> nat, run: Config, states: seq<State>, events: seq<Event>, k: nat)
    requires TasksEncode(c, t, run, task) && forall p: Path :: EntryAt(t, p).Some? ==> !LeftBehind(EntryAt(t, p).value)
    requires IsRun(run, states, events) && k < |states| && states[k].finished && run.Valid()
    ensures Represents(c, Located(t, [], PlaceIn(run, states[k], task)), states[k].body, t)
  {
    var s, place := states[k], PlaceIn(run, states[k], task);
    forall p: Path | EntryAt(t, p).Some?
      ensures HoldsBody(c, EntryAt(t, p).value, [] + p, place, s.body)
    {
      assert [] + p == p;
      if EntryAt(t, p).value.HasBody() {
        WrittenBody(c, t, task, run, states, events, k, p);
      }
    }
    LocatedRepresents(c, t, [], place, s.body);
  }

  /** What the pipeline wrote for an entry is found at its place. */
  lemma {:induction false} WrittenBody(c: Codec, t: Tree, task: Path -> nat, run: Config, states: seq<State>, events: seq<Event>, k: nat, p: Path)
    requires TasksEncode(c, t, run, task)
    requires IsRun(run, states, events) && k < |states| && states[k].finished && run.Valid()
    requires EntryAt(t, p).Some? && EntryAt(t, p).value.HasBody() && !LeftBehind(EntryAt(t, p).value)
    ensures ReadAt(states[k].body, PlaceIn(run, states[k], task)(p)).Some?
    ensures Encodes(c, ReadAt(states[k].body, PlaceIn(run, states[k], task)(p)).value, EntryAt(t, p).value)
  {
    FinishedLayout(run, states, events, k);
    assert run.Writes(task(p)) && OwnData(run, states[k], task(p));
    OwnDataRead(run, states[k], task, p);
  }

  lemma {:induction false} OwnDataRead(run: Config, s: State, task: Path -> nat, p: Path)
    requires run.Writes(task(p)) && task(p) in s.offsets && OwnData(run, s, task(p))
    ensures ReadAt(s.body, PlaceIn(run, s, task)(p)) == Some(run.data[task(p)].value)
  {
  }

  /** The entry has a body of its own. */
  predicate OwnsBody(t: Tree, p: Path) {
    EntryAt(t, p).Some? && EntryAt(t, p).value.HasBody() && !LeftBehind(EntryAt(t, p).value)
  }

  /** Data is made for entries with a body of their own only. */
  ghost predicate TasksOnly(t: Tree, run: Config, task: Path -> nat) {
    forall n: nat {:trigger run.Writes(n)} :: run.Writes(n) ==> exists p: Path :: OwnsBody(t, p) && task(p) == n
  }

  ghost predicate InPlace(loc: Loc, pos: nat) {
    loc.offset <= pos < loc.offset + loc.size
  }

  /** The body holds nothing else: each of its bytes lies in the place of such an entry. */
  lemma {:induction false} BodyOnlyOwn(t: Tree, task: Path -> nat, run: Config, states: seq<State>, events: seq<Event>, k: nat, pos: nat)
    returns (p: Path)
    requires TasksOnly(t, run, task) && IsRun(run, states, events) && k < |states| && states[k].finished && run.Valid()
    requires pos < |states[k].body|
    ensures OwnsBody(t, p) && InPlace(PlaceIn(run, states[k], task)(p), pos)
  {
    FinishedLayout(run, states, events, k);
    assert Owned(run, states[k], pos);
    var n: nat :| Within(run, states[k], n, pos);
    assert run.Writes(n);
    p :| OwnsBody(t, p) && task(p) == n;
  }
}
