/**
  Images as they are stored (pkg/image/dimg.go, fs.go): entries refer to places in the body of their
  image, where new files are kept compressed and deltas as patches.
*/
module StoredImage {
  import opened Results
  import opened DeltaOps
  import opened ImageTree

  datatype Loc = Loc(offset: int, size: int)

  type Stored = Entry<Loc, Loc>

  /** How bodies are decompressed, and the delta that a patch stands for. */
  datatype Codec = Codec(unzip: Bytes -> Option<Bytes>, parse: Bytes -> Option<FilePatch>)

  function LocOf(e: Stored): Loc {
    match e
    case FileNew(_, loc) => loc
    case FileDiff(_, loc) => loc
    case _ => Loc(0, 0)
  }

  /** Reading nothing succeeds at any offset. */
  function ReadAt(image: Bytes, loc: Loc): Option<Bytes> {
    if 0 <= loc.offset && loc.size == 0 then Some([])
    else if 0 <= loc.offset && 0 <= loc.size && loc.offset + loc.size <= |image|
    then Some(image[loc.offset..loc.offset + loc.size])
    else None
  }

  function ReadNew(c: Codec, e: Stored, image: Bytes): Option<Bytes> {
    match ReadAt(image, LocOf(e))
    case None => None
    case Some(zipped) => c.unzip(zipped)
  }

  function ReadPatch(c: Codec, e: Stored, image: Bytes): Option<FilePatch> {
    match ReadAt(image, LocOf(e))
    case None => None
    case Some(patch) => c.parse(patch)
  }

  function PatchWith(c: Codec, data: Bytes, e: Stored, image: Bytes): Option<Bytes> {
    match ReadPatch(c, e, image)
    case None => None
    case Some(delta) => if InBounds(delta.ops, |data|) then Some(Patch(data, delta.ops)) else None
  }

  /** An entry and its image's body stand for a tree. */
  ghost predicate Represents(c: Codec, e: Stored, image: Bytes, t: Tree)
    decreases e
  {
    match e
    case FileNew(m, _) => t.FileNew? && t.meta == m && t.body.Stored? && ReadNew(c, e, image) == Some(t.body.bytes)
    case FileSame(m) => t == FileSame(m)
    case FileDiff(m, _) => t.FileDiff? && t.meta == m && ReadPatch(c, e, image) == Some(t.delta)
    case Dir(m, allNew, childs) =>
      && t.Dir? && t.meta == m && t.allNew == allNew && t.childs.Keys == childs.Keys
      && forall k :: k in childs ==> Represents(c, childs[k], image, t.childs[k])
    case Symlink(m) => t == Symlink(m)
    case Hardlink(m) => t == Hardlink(m)
  }

  lemma {:induction false} RepresentsStandalone(c: Codec, e: Stored, image: Bytes, t: Tree)
    requires Represents(c, e, image, t)
    ensures Standalone(e) <==> Standalone(t)
    decreases e
  {
    if e.Dir? {
      forall k | k in e.childs
        ensures Standalone(e.childs[k]) <==> Standalone(t.childs[k])
      {
        RepresentsStandalone(c, e.childs[k], image, t.childs[k]);
      }
    }
  }

  lemma {:induction false} RepresentsAt(c: Codec, e: Stored, image: Bytes, t: Tree, p: Path)
    requires Represents(c, e, image, t)
    ensures EntryAt(e, p).Some? <==> EntryAt(t, p).Some?
    ensures EntryAt(t, p).Some? ==> Represents(c, EntryAt(e, p).value, image, EntryAt(t, p).value)
    decreases |p|
  {
    if p != [] && e.Dir? && p[0] in e.childs {
      RepresentsAt(c, e.childs[p[0]], image, t.childs[p[0]], p[1..]);
    }
  }

  /** A stored image stands for one tree only. */
  lemma {:induction false} RepresentsOneTree(c: Codec, e: Stored, image: Bytes, t: Tree, t': Tree)
    requires Represents(c, e, image, t) && Represents(c, e, image, t')
    ensures t == t'
    decreases e
  {
    if e.Dir? {
      forall k | k in e.childs
        ensures t.childs[k] == t'.childs[k]
      {
        RepresentsOneTree(c, e.childs[k], image, t.childs[k], t'.childs[k]);
      }
      assert t.childs == t'.childs;
    }
  }
}
