/**
  Installing an image, path by path (pkg/image/patch.go, fs.go): what has to hold at every path for the
  installation to succeed, what stands at every path afterwards, and what a digest says about it.
*/
module AppliedPaths {
  import opened Results
  import opened DeltaOps
  import opened ImageTree
  import NameOrder

  /** The file that an entry asks for, over what the base has at its path; nothing if it cannot be made. */
  function FileOver(below: Option<Node>, e: Tree): Option<Bytes> {
    match e
    case FileNew(_, body) => if body.Stored? then Some(body.bytes) else None
    case FileSame(_) => if below.Some? && below.value.File? then Some(below.value.content) else None
    case FileDiff(_, delta) =>
      if below.Some? && below.value.File? && InBounds(delta.ops, |below.value.content|)
      then Some(Patch(below.value.content, delta.ops)) else None
    case _ => None
  }

  /** The entry can be installed at its path, and its digest covers what is installed there. */
  ghost predicate Suits(below: Option<Node>, e: Tree) {
    if e.Dir? then Covers(e.meta.digest, e.meta, DigestsInOrder(ChildDigests(e.childs)), [])
    else if e.IsFile() then FileOver(below, e).Some? && Covers(e.meta.digest, e.meta, [], FileOver(below, e).value)
    else Covers(e.meta.digest, e.meta, [], [])
  }

  ghost predicate SuitsAt(base: Option<Node>, t: Tree, path: Path) {
    EntryAt(t, path).Some? ==> Suits(NodeAt(base, path), EntryAt(t, path).value)
  }

  lemma {:induction false} SuitsLeaf(base: Option<Node>, t: Tree)
    requires !t.Dir?
    ensures Applies(base, t) <==> Suits(base, t)
  {
    if t.IsFile() {
      var file := FileOver(base, t);
      if file.Some? {
        GeneratedCovers(t.meta, [], file.value, t.meta.digest);
      }
    } else {
      GeneratedCovers(t.meta, [], [], t.meta.digest);
    }
  }

  lemma {:induction false} SuitsFolder(base: Option<Node>, t: Tree)
    requires t.Dir?
    ensures Applies(base, t) <==> Suits(base, t) && ChildsApply(base, t)
  {
    GeneratedCovers(t.meta, DigestsInOrder(ChildDigests(t.childs)), [], t.meta.digest);
  }

  lemma {:induction false} AppliesSuits(base: Option<Node>, t: Tree, path: Path)
    requires Applies(base, t)
    ensures SuitsAt(base, t, path)
    decreases |path|
  {
    if t.Dir? {
      SuitsFolder(base, t);
      if path != [] && path[0] in t.childs {
        AppliesSuits(ChildOf(base, path[0]), t.childs[path[0]], path[1..]);
      }
    } else {
      SuitsLeaf(base, t);
    }
  }

  lemma {:induction false} SuitsApplies(base: Option<Node>, t: Tree)
    requires forall path: Path {:trigger SuitsAt(base, t, path)} :: SuitsAt(base, t, path)
    ensures Applies(base, t)
    decreases t
  {
    assert SuitsAt(base, t, []);
    if t.Dir? {
      forall k | k in t.childs
        ensures Applies(ChildOf(base, k), t.childs[k])
      {
        forall path: Path
          ensures SuitsAt(ChildOf(base, k), t.childs[k], path)
        {
          assert SuitsAt(base, t, [k] + path) && ([k] + path)[1..] == path;
        }
        SuitsApplies(ChildOf(base, k), t.childs[k]);
      }
      SuitsFolder(base, t);
    } else {
      SuitsLeaf(base, t);
    }
  }

  /**
    An image can be installed exactly if at every path its entry suits what the base has there: a SAME
    or DIFF file has a file below it, with room for the delta, and every digest covers the entry's
    fields, its children's digests and its content.
  */
  lemma {:induction false} AppliesExactly(base: Option<Node>, t: Tree)
    ensures Applies(base, t) <==> forall path: Path {:trigger SuitsAt(base, t, path)} :: SuitsAt(base, t, path)
  {
    if Applies(base, t) {
      forall path: Path
        ensures SuitsAt(base, t, path)
      {
        AppliesSuits(base, t, path);
      }
    } else if forall path: Path {:trigger SuitsAt(base, t, path)} :: SuitsAt(base, t, path) {
      SuitsApplies(base, t);
    }
  }

  /** What stands where an entry has been installed: its metadata, its kind, and for a file what it asks for. */
  ghost predicate IsInstalled(below: Option<Node>, e: Tree, n: Node) {
    && n.meta == e.meta && SameKind(e, n)
    && (n.File? ==> Some(n.content) == FileOver(below, e))
  }

  /** At every path there is afterwards what the image has there, and nothing where it has nothing. */
  lemma {:induction false} InstalledAt(base: Option<Node>, t: Tree, path: Path)
    requires Applies(base, t)
    ensures NodeAt(Some(Applied(base, t)), path).Some? <==> EntryAt(t, path).Some?
    ensures EntryAt(t, path).Some? ==> IsInstalled(NodeAt(base, path), EntryAt(t, path).value, NodeAt(Some(Applied(base, t)), path).value)
    decreases |path|
  {
    if path != [] {
      ChildOfApplied(base, t, path[0]);
      if t.Dir? && path[0] in t.childs {
        InstalledAt(ChildOf(base, path[0]), t.childs[path[0]], path[1..]);
      } else {
        NothingBelow(path[1..]);
      }
    }
  }

  // ----------------------------------------------- one digest, one image

  /** The bytes that a node's digest covers. */
  function BytesOf(n: Node): Bytes {
    if n.File? then n.content else []
  }

  /** The same metadata and the same bytes; whether it is a file, a folder or a link is not in the digest. */
  ghost predicate SameSeen(a: Option<Node>, b: Option<Node>) {
    && (a.Some? <==> b.Some?)
    && (a.Some? ==> a.value.meta == b.value.meta && BytesOf(a.value) == BytesOf(b.value))
  }

  /** What the digest of an installed image covers. */
  lemma {:induction false} DigestOfInstalled(base: Option<Node>, t: Tree) returns (childs: seq<Digest>)
    requires Applies(base, t)
    ensures childs == if t.Dir? then DigestsInOrder(ChildDigests(t.childs)) else []
    ensures GenerateDigest(t.meta, childs, BytesOf(Applied(base, t))) == t.meta.digest
  {
    childs := if t.Dir? then DigestsInOrder(ChildDigests(t.childs)) else [];
  }

  lemma {:induction false} ChildDigestListed(childs: map<string, Tree>, k: string)
    requires k in childs
    ensures childs[k].meta.digest in DigestsInOrder(ChildDigests(childs))
  {
    var digests := ChildDigests(childs);
    var names := NameOrder.Sorted(digests.Keys);
    assert k in names;
    var i :| 0 <= i < |names| && names[i] == k;
    assert DigestsInOrder(digests)[i] == childs[k].meta.digest;
  }

  lemma {:induction false} ListedChildDigest(childs: map<string, Tree>, d: Digest) returns (k: string)
    requires d in DigestsInOrder(ChildDigests(childs))
    ensures k in childs && childs[k].meta.digest == d
  {
    var digests := ChildDigests(childs);
    var names := NameOrder.Sorted(digests.Keys);
    var i :| 0 <= i < |names| && DigestsInOrder(digests)[i] == d;
    assert names[i] in names;
    k := names[i];
  }

  /** Entries are kept under their names. */
  predicate WellNamed(t: Tree) {
    t.Dir? ==> forall k :: k in t.childs ==> t.childs[k].meta.name == k && WellNamed(t.childs[k])
  }

  ghost predicate Named(base: Option<Node>, t: Tree) {
    Applies(base, t) && WellNamed(t)
  }

  /** A child of one image is a child of every image with the same digest, under the same digest. */
  lemma {:induction false} ChildOfBoth(base: Option<Node>, t: Tree, base': Option<Node>, t': Tree, k: string)
    requires Named(base, t) && Named(base', t') && t.meta.digest == t'.meta.digest != NoDigest
    requires t.Dir? && k in t.childs
    ensures t'.Dir? && k in t'.childs && t'.childs[k].meta.digest == t.childs[k].meta.digest != NoDigest
  {
    var listed := DigestOfInstalled(base, t);
    var listed' := DigestOfInstalled(base', t');
    DigestInjective(t.meta, listed, BytesOf(Applied(base, t)), t'.meta, listed', BytesOf(Applied(base', t')));
    ChildDigestListed(t.childs, k);
    var k' := ListedChildDigest(t'.childs, t.childs[k].meta.digest);
    assert ChildsApply(base, t) && ChildsApply(base', t');
    NameInDigest(ChildOf(base, k), t.childs[k]);
    NameInDigest(ChildOf(base', k'), t'.childs[k']);
  }

  lemma {:induction false} NameInDigest(base: Option<Node>, t: Tree)
    requires Applies(base, t)
    ensures t.meta.digest.Digest? ==> t.meta.digest.name == t.meta.name
  {
    var childs := DigestOfInstalled(base, t);
    GeneratedCovers(t.meta, childs, BytesOf(Applied(base, t)), t.meta.digest);
  }

  /**
    The digest of its root determines an installed image: whatever the delta images were made of and
    whatever they were installed over, if their root digests are the same, and not the empty one, then
    at every path there is the same, with the same metadata and the same content.
  */
  lemma {:induction false} DigestDeterminesImage(base: Option<Node>, t: Tree, base': Option<Node>, t': Tree, path: Path)
    requires Named(base, t) && Named(base', t') && t.meta.digest == t'.meta.digest != NoDigest
    ensures SameSeen(NodeAt(Some(Applied(base, t)), path), NodeAt(Some(Applied(base', t')), path))
    decreases |path|
  {
    if path == [] {
      var listed := DigestOfInstalled(base, t);
      var listed' := DigestOfInstalled(base', t');
      DigestInjective(t.meta, listed, BytesOf(Applied(base, t)), t'.meta, listed', BytesOf(Applied(base', t')));
    } else {
      var k := path[0];
      ChildOfApplied(base, t, k);
      ChildOfApplied(base', t', k);
      if t.Dir? && k in t.childs {
        ChildOfBoth(base, t, base', t', k);
        DigestDeterminesImage(ChildOf(base, k), t.childs[k], ChildOf(base', k), t'.childs[k], path[1..]);
      } else if t'.Dir? && k in t'.childs {
        ChildOfBoth(base', t', base, t, k);
      } else {
        NothingBelow(path[1..]);
      }
    }
  }

  /** A file with content is a file under its digest, and a directory with children a directory. */
  lemma {:induction false} DigestDeterminesKind(base: Option<Node>, t: Tree, base': Option<Node>, t': Tree)
    requires Named(base, t) && Named(base', t') && t.meta.digest == t'.meta.digest != NoDigest
    ensures BytesOf(Applied(base, t)) != [] ==> t.IsFile() && t'.IsFile()
    ensures t.Dir? && t.childs != map[] ==> t'.Dir? && t'.childs != map[]
  {
    DigestDeterminesImage(base, t, base', t', []);
    if t.Dir? && t.childs != map[] {
      var k :| k in t.childs;
      ChildOfBoth(base, t, base', t', k);
    }
  }

  /** All other entries share their digest with those of another type: it does not say which of them was meant. */
  lemma {:induction false} EmptyEntriesShareDigest(base: Option<Node>, m: Meta)
    ensures Applies(base, Symlink(m)) <==> Applies(base, Hardlink(m))
    ensures Applies(base, Symlink(m)) <==> Applies(base, FileNew(m, Stored([])))
    ensures Applies(base, Symlink(m)) <==> Applies(base, Dir(m, true, map[]))
  {
    var d: Tree := Dir(m, true, map[]);
    assert ChildDigests(d.childs).Keys == {};
    assert DigestsInOrder(ChildDigests(d.childs)) == [];
    assert ChildsApply(base, d);
  }
}
