/**
  Image trees and what they mean: file entries with their digests (pkg/image/fs.go), and the files
  that applying a delta image to a base produces (pkg/image/patch.go).
*/
module ImageTree {
  import opened Results
  import opened DeltaOps
  import NameOrder

  // ---------------------------------------------------------------- entries

  /**
    The digest of an entry's fields, the digests of its children in name order, and its content.
    The hash function is taken to be injective; `NoDigest` is the empty digest string.
  */
  datatype Digest =
    | NoDigest
    | Digest(name: string, size: int, mode: int, uid: int, gid: int, realPath: string, childs: seq<Digest>, body: Bytes)

  datatype Meta = Meta(name: string, size: int, mode: int, uid: int, gid: int, realPath: string, digest: Digest)

  /**
    A file entry. What a new file or a delta refers to in the body of its image is of type `N` or
    `D`: the stored content itself, or its place in the body.
  */
  datatype Entry<N, D> =
    | FileNew(meta: Meta, body: N)
    | FileSame(meta: Meta)
    | FileDiff(meta: Meta, delta: D)
    | Dir(meta: Meta, allNew: bool, childs: map<string, Entry<N, D>>)
    | Symlink(meta: Meta)
    | Hardlink(meta: Meta)
  {
    /** The entry does not depend on any other image. */
    predicate IsNew() {
      FileNew? || (Dir? && allNew) || Symlink? || Hardlink?
    }

    predicate IsFile() {
      FileNew? || FileSame? || FileDiff?
    }

    /** Only symbolic links count here. */
    predicate IsLink() {
      Symlink?
    }

    predicate IsBaseRequired() {
      FileSame? || FileDiff?
    }

    predicate HasBody() {
      FileNew? || FileDiff?
    }
  }

  /** The entry of the given name, if there is a directory with one. */
  function ChildEntry<N, D>(e: Option<Entry<N, D>>, name: string): Option<Entry<N, D>> {
    if e.Some? && e.value.Dir? && name in e.value.childs then Some(e.value.childs[name]) else None
  }

  /** `lookupImpl`: the entry at a path below `e`. */
  function EntryAt<N, D>(e: Entry<N, D>, path: Path): Option<Entry<N, D>>
    decreases |path|
  {
    if path == [] then Some(e)
    else if e.Dir? && path[0] in e.childs then EntryAt(e.childs[path[0]], path[1..])
    else None
  }

  /** The content of a new file: in the image's body, or at a place that belongs to another image. */
  datatype Body = Stored(bytes: Bytes) | Dangling

  type Tree = Entry<Body, FilePatch>

  type Path = seq<string>

  // ---------------------------------------------------------------- digests

  /** `GenerateDigest`: a child without a digest makes the result empty. */
  function GenerateDigest(m: Meta, childDigests: seq<Digest>, body: Bytes): Digest {
    if NoDigest in childDigests then NoDigest
    else Digest(m.name, m.size, m.mode, m.uid, m.gid, m.realPath, childDigests, body)
  }

  /** The digest is that of exactly these fields, child digests and bytes; it is empty exactly if some child has an empty one. */
  ghost predicate Covers(digest: Digest, m: Meta, childDigests: seq<Digest>, body: Bytes) {
    if NoDigest in childDigests then digest.NoDigest?
    else
      && digest.Digest? && digest.name == m.name && digest.size == m.size && digest.mode == m.mode && digest.uid == m.uid
      && digest.gid == m.gid && digest.realPath == m.realPath && digest.childs == childDigests && digest.body == body
  }

  lemma {:induction false} GeneratedCovers(m: Meta, childDigests: seq<Digest>, body: Bytes, digest: Digest)
    ensures digest == GenerateDigest(m, childDigests, body) <==> Covers(digest, m, childDigests, body)
  {
  }

  /** Two entries with one digest, unless it is the empty one, agree in every field, in the digests of their children and in their content. */
  lemma {:induction false} DigestInjective(m: Meta, childDigests: seq<Digest>, body: Bytes, m': Meta, childDigests': seq<Digest>, body': Bytes)
    requires GenerateDigest(m, childDigests, body) == GenerateDigest(m', childDigests', body') != NoDigest
    ensures m == m'.(digest := m.digest) && childDigests == childDigests' && body == body'
  {
    var digest := GenerateDigest(m, childDigests, body);
    GeneratedCovers(m, childDigests, body, digest);
    GeneratedCovers(m', childDigests', body', digest);
  }

  ghost function DigestsInOrder(digests: map<string, Digest>): seq<Digest> {
    var names := NameOrder.Sorted(digests.Keys);
    seq(|names|, i requires 0 <= i < |names| => assert names[i] in names; digests[names[i]])
  }

  function ChildDigests<N, D>(childs: map<string, Entry<N, D>>): map<string, Digest> {
    map k | k in childs :: childs[k].meta.digest
  }

  predicate VerifyLeaf(m: Meta, body: Bytes) {
    GenerateDigest(m, [], body) == m.digest
  }

  /** A verified file or link of which anything has been changed but its digest no longer verifies. */
  lemma {:induction false} ChangedLeafFails(m: Meta, body: Bytes, m': Meta, body': Bytes)
    requires VerifyLeaf(m, body) && m'.digest == m.digest
    ensures VerifyLeaf(m', body') <==> m' == m && body' == body
  {
    if VerifyLeaf(m', body') {
      DigestInjective(m, [], body, m', [], body');
    }
  }

  /** Nor does a directory, unless it has the empty digest. */
  lemma {:induction false} ChangedDirFails(m: Meta, childDigests: map<string, Digest>, m': Meta, childDigests': map<string, Digest>)
    requires VerifyDir(m, childDigests) && m'.digest == m.digest != NoDigest
    ensures VerifyDir(m', childDigests') <==> m' == m && DigestsInOrder(childDigests') == DigestsInOrder(childDigests)
  {
    if VerifyDir(m', childDigests') {
      DigestInjective(m, DigestsInOrder(childDigests), [], m', DigestsInOrder(childDigests'), []);
    }
  }

  /** `feForDigest`: the digests of the children, by sorted names. */
  method CollectDigests(childs: map<string, Digest>) returns (digests: seq<Digest>)
    ensures digests == DigestsInOrder(childs)
  {
    var names := NameOrder.Sort(childs.Keys);
    digests := [];
    for i := 0 to |names|
      invariant |digests| == i
      invariant forall j :: 0 <= j < i ==> names[j] in childs && digests[j] == childs[names[j]]
    {
      assert names[i] in names;
      digests := digests + [childs[names[i]]];
    }
  }

  ghost predicate VerifyDir(m: Meta, childDigests: map<string, Digest>) {
    GenerateDigest(m, DigestsInOrder(childDigests), []) == m.digest
  }

  // ------------------------------------------------------------------ views

  /** An installed image: the metadata of its entries and the content of its files. */
  datatype Node =
    | File(meta: Meta, content: Bytes)
    | Folder(meta: Meta, childs: map<string, Node>)
    | LinkTo(meta: Meta, hard: bool)

  /** A directory is installed as a folder, a file as a file, a symbolic or hard link as a link of that kind. */
  predicate SameKind<N, D>(e: Entry<N, D>, n: Node) {
    && (n.Folder? <==> e.Dir?) && (n.File? <==> e.IsFile())
    && (n.LinkTo? && n.hard <==> e.Hardlink?) && (n.LinkTo? && !n.hard <==> e.Symlink?)
  }

  function ChildOf(base: Option<Node>, name: string): Option<Node> {
    if base.Some? && base.value.Folder? && name in base.value.childs then Some(base.value.childs[name]) else None
  }

  /** The node at a path below the image's root. */
  function NodeAt(image: Option<Node>, path: Path): Option<Node>
    decreases |path|
  {
    if path == [] then image else NodeAt(ChildOf(image, path[0]), path[1..])
  }

  lemma {:induction false} NothingBelow(path: Path)
    ensures NodeAt(None, path) == None
    decreases |path|
  {
    if path != [] {
      NothingBelow(path[1..]);
    }
  }

  /** `applyPatchImpl` succeeds: what the entry needs from the base is there, and every digest is right. */
  ghost predicate Applies(base: Option<Node>, e: Tree)
    decreases e, 1
  {
    match e
    case FileNew(m, body) => body.Stored? && VerifyLeaf(m, body.bytes)
    case FileSame(m) => base.Some? && base.value.File? && VerifyLeaf(m, base.value.content)
    case FileDiff(m, delta) =>
      && base.Some? && base.value.File? && InBounds(delta.ops, |base.value.content|)
      && VerifyLeaf(m, Patch(base.value.content, delta.ops))
    case Dir(m, _, childs) => ChildsApply(base, e) && VerifyDir(m, ChildDigests(childs))
    case Symlink(m) => VerifyLeaf(m, [])
    case Hardlink(m) => VerifyLeaf(m, [])
  }

  ghost predicate ChildsApply(base: Option<Node>, e: Tree)
    requires e.Dir?
    decreases e, 0
  {
    forall k :: k in e.childs ==> Applies(ChildOf(base, k), e.childs[k])
  }

  /** What `applyPatchImpl` leaves behind. What the base has and the entry does not name is gone. */
  ghost function Applied(base: Option<Node>, e: Tree): Node
    requires Applies(base, e)
    decreases e, 1
  {
    match e
    case FileNew(m, body) => File(m, body.bytes)
    case FileSame(m) => File(m, base.value.content)
    case FileDiff(m, delta) => File(m, Patch(base.value.content, delta.ops))
    case Dir(m, _, _) => Folder(m, AppliedChilds(base, e))
    case Symlink(m) => LinkTo(m, false)
    case Hardlink(m) => LinkTo(m, true)
  }

  ghost function AppliedChilds(base: Option<Node>, e: Tree): map<string, Node>
    requires e.Dir? && ChildsApply(base, e)
    decreases e, 0
  {
    map k | k in e.childs :: Applied(ChildOf(base, k), e.childs[k])
  }

  /** Child by child, two directories come out the same. */
  ghost predicate SameChilds(base: Option<Node>, d: Tree, base': Option<Node>, d': Tree)
    requires d.Dir? && d'.Dir? && ChildsApply(base, d) && ChildsApply(base', d')
  {
    && d.childs.Keys == d'.childs.Keys
    && forall k :: k in d.childs ==> Applied(ChildOf(base, k), d.childs[k]) == Applied(ChildOf(base', k), d'.childs[k])
  }

  lemma {:induction false} SameChildsSameResult(base: Option<Node>, d: Tree, base': Option<Node>, d': Tree)
    requires d.Dir? && d'.Dir? && ChildsApply(base, d) && ChildsApply(base', d') && SameChilds(base, d, base', d')
    ensures AppliedChilds(base, d) == AppliedChilds(base', d')
  {
  }

  /** What is left behind in a directory: what its entries leave behind. */
  lemma {:induction false} ChildOfApplied(below: Option<Node>, t: Tree, name: string)
    requires Applies(below, t)
    ensures t.Dir? && name in t.childs ==>
              && Applies(ChildOf(below, name), t.childs[name])
              && ChildOf(Some(Applied(below, t)), name) == Some(Applied(ChildOf(below, name), t.childs[name]))
    ensures !t.Dir? || name !in t.childs ==> ChildOf(Some(Applied(below, t)), name) == None
  {
    if t.Dir? {
      assert ChildsApply(below, t);
      assert Applied(below, t) == Folder(t.meta, AppliedChilds(below, t));
    }
  }

  /** Two trees that leave the same behind have the same metadata at every path. */
  lemma {:induction false} SameResultSameMeta(base: Option<Node>, t: Tree, base': Option<Node>, t': Tree, path: Path)
    requires Applies(base, t) && Applies(base', t') && Applied(base, t) == Applied(base', t')
    ensures EntryAt(t, path).Some? <==> EntryAt(t', path).Some?
    ensures EntryAt(t, path).Some? ==> EntryAt(t, path).value.meta == EntryAt(t', path).value.meta
    decreases |path|
  {
    if path != [] {
      ChildOfApplied(base, t, path[0]);
      ChildOfApplied(base', t', path[0]);
      if t.Dir? && path[0] in t.childs {
        SameResultSameMeta(ChildOf(base, path[0]), t.childs[path[0]], ChildOf(base', path[0]), t'.childs[path[0]], path[1..]);
      }
    }
  }

  // --------------------------------------------------------- directory types

  /** `updateDirFileEntry`: a directory is new when all that is below it is. */
  function UpdateDirs<N, D>(e: Entry<N, D>): (r: Entry<N, D>)
    ensures r.meta == e.meta && (e.Dir? <==> r.Dir?)
  {
    match e
    case Dir(m, _, childs) =>
      var updated := map k | k in childs :: UpdateDirs(childs[k]);
      Dir(m, forall k :: k in updated ==> updated[k].IsNew(), updated)
    case _ => e
  }

  /** The type of every directory says whether all its children are new. */
  ghost predicate DirTypesRight<N, D>(e: Entry<N, D>) {
    e.Dir? ==>
      && (e.allNew <==> forall k :: k in e.childs ==> e.childs[k].IsNew())
      && forall k :: k in e.childs ==> DirTypesRight(e.childs[k])
  }

  /** Nothing below the entry needs another image. */
  ghost predicate Standalone<N, D>(e: Entry<N, D>) {
    !e.IsBaseRequired() && (e.Dir? ==> forall k :: k in e.childs ==> Standalone(e.childs[k]))
  }

  lemma {:induction false} UpdateDirsRight<N, D>(e: Entry<N, D>)
    ensures DirTypesRight(UpdateDirs(e))
  {
    if e.Dir? {
      forall k | k in e.childs
        ensures DirTypesRight(UpdateDirs(e).childs[k])
      {
        UpdateDirsRight(e.childs[k]);
      }
    }
  }

  /** With right types, being new means that no descendant is a SAME or DIFF file. */
  lemma {:induction false} NewExactlyWhenStandalone<N, D>(e: Entry<N, D>)
    requires DirTypesRight(e)
    ensures e.IsNew() <==> Standalone(e)
  {
    if e.Dir? {
      forall k | k in e.childs
        ensures e.childs[k].IsNew() <==> Standalone(e.childs[k])
      {
        NewExactlyWhenStandalone(e.childs[k]);
      }
    }
  }

  /** Directory types play no part in applying an image. */
  lemma {:induction false} UpdateDirsKeepsMeaning(base: Option<Node>, e: Tree)
    ensures Applies(base, UpdateDirs(e)) <==> Applies(base, e)
    ensures Applies(base, e) ==> Applied(base, UpdateDirs(e)) == Applied(base, e)
    decreases e
  {
    if e.Dir? {
      var u := UpdateDirs(e);
      forall k | k in e.childs
        ensures Applies(ChildOf(base, k), u.childs[k]) <==> Applies(ChildOf(base, k), e.childs[k])
        ensures Applies(ChildOf(base, k), e.childs[k]) ==>
                  Applied(ChildOf(base, k), u.childs[k]) == Applied(ChildOf(base, k), e.childs[k])
      {
        UpdateDirsKeepsMeaning(ChildOf(base, k), e.childs[k]);
      }
      assert ChildDigests(u.childs) == ChildDigests(e.childs);
      assert ChildsApply(base, u) <==> ChildsApply(base, e);
      if ChildsApply(base, e) {
        SameChildsSameResult(base, u, base, e);
      }
    }
  }

  /** Updating directory types comes to the same at every path. */
  lemma {:induction false} UpdateDirsAt<N, D>(e: Entry<N, D>, path: Path)
    ensures EntryAt(UpdateDirs(e), path).Some? <==> EntryAt(e, path).Some?
    ensures EntryAt(e, path).Some? ==> EntryAt(UpdateDirs(e), path).value == UpdateDirs(EntryAt(e, path).value)
    decreases |path|
  {
    if path != [] && e.Dir? && path[0] in e.childs {
      UpdateDirsAt(e.childs[path[0]], path[1..]);
    }
  }

  // -------------------------------------------------------- well-formedness

  /**
    Entries are kept under their names, file sizes are content sizes, files have no link target, and
    the blocks of deltas fit into the file below, which is not empty.
  */
  ghost predicate Consistent(base: Option<Node>, e: Tree)
    decreases e
  {
    match e
    case FileNew(m, body) => body.Stored? && m.size == |body.bytes| && m.realPath == ""
    case FileSame(m) => base.Some? && base.value.File? && m.size == |base.value.content| && m.realPath == ""
    case FileDiff(m, delta) =>
      && base.Some? && base.value.File? && |base.value.content| > 0 && delta.need.MetBy(|base.value.content|)
      && m.size == |delta.ops| && m.realPath == ""
    case Dir(_, _, childs) => forall k :: k in childs ==> childs[k].meta.name == k && Consistent(ChildOf(base, k), childs[k])
    case Symlink(_) => true
    case Hardlink(_) => true
  }

  /** A delta image that suits the given base. */
  ghost predicate WellFormedOver(base: Option<Node>, e: Tree) {
    Applies(base, e) && Consistent(base, e) && DirTypesRight(e)
  }

  lemma {:induction false} UpdateDirsKeepsConsistent(base: Option<Node>, e: Tree)
    requires Consistent(base, e)
    ensures Consistent(base, UpdateDirs(e))
    decreases e
  {
    if e.Dir? {
      forall k | k in e.childs
        ensures Consistent(ChildOf(base, k), UpdateDirs(e).childs[k])
      {
        UpdateDirsKeepsConsistent(ChildOf(base, k), e.childs[k]);
      }
    }
  }

  /** An entry that needs no other image means the same over every base. */
  lemma {:induction false} StandaloneIgnoresBase(base: Option<Node>, other: Option<Node>, e: Tree)
    requires Standalone(e)
    ensures Applies(base, e) <==> Applies(other, e)
    ensures Applies(base, e) ==> Applied(base, e) == Applied(other, e)
    ensures Consistent(base, e) <==> Consistent(other, e)
    decreases e
  {
    if e.Dir? {
      forall k | k in e.childs
        ensures Applies(ChildOf(base, k), e.childs[k]) <==> Applies(ChildOf(other, k), e.childs[k])
        ensures Applies(ChildOf(base, k), e.childs[k]) ==>
                  Applied(ChildOf(base, k), e.childs[k]) == Applied(ChildOf(other, k), e.childs[k])
        ensures Consistent(ChildOf(base, k), e.childs[k]) <==> Consistent(ChildOf(other, k), e.childs[k])
      {
        StandaloneIgnoresBase(ChildOf(base, k), ChildOf(other, k), e.childs[k]);
      }
      assert ChildsApply(base, e) <==> ChildsApply(other, e);
      if ChildsApply(base, e) {
        SameChildsSameResult(base, e, other, e);
      }
    }
  }

  // ---------------------------------------------------------------- sealing

  /** `generateDigestDir`: writes the digests of all directories, bottom up. */
  ghost function GenerateDigestDir(e: Tree): (r: Tree)
    ensures e.Dir? <==> r.Dir?
    ensures r.meta == e.meta.(digest := r.meta.digest)
  {
    match e
    case Dir(m, allNew, childs) =>
      var done := map k | k in childs :: GenerateDigestDir(childs[k]);
      Dir(m.(digest := GenerateDigest(m, DigestsInOrder(ChildDigests(done)), [])), allNew, done)
    case _ => e
  }

  /** Every file and link below the entry can be installed on its own, with the digest it carries. */
  ghost predicate LeavesVerify(e: Tree) {
    match e
    case FileNew(m, body) => body.Stored? && VerifyLeaf(m, body.bytes)
    case Dir(_, _, childs) => forall k :: k in childs ==> LeavesVerify(childs[k])
    case Symlink(m) => VerifyLeaf(m, [])
    case Hardlink(m) => VerifyLeaf(m, [])
    case _ => false
  }

  /** After the digests of the directories have been generated, the whole image verifies. */
  lemma {:induction false} GeneratedDigestsVerify(base: Option<Node>, e: Tree)
    requires LeavesVerify(e)
    ensures Applies(base, GenerateDigestDir(e))
    decreases e
  {
    if e.Dir? {
      forall k | k in e.childs
        ensures Applies(ChildOf(base, k), GenerateDigestDir(e).childs[k])
      {
        GeneratedDigestsVerify(ChildOf(base, k), e.childs[k]);
      }
    }
  }
}
