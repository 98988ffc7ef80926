/** Installing a stored delta image on top of a base (pkg/image/patch.go). */
module ImagePatch {
  import opened Results
  import opened DeltaOps
  import opened ImageTree
  import opened StoredImage
  import opened AppliedPaths

  /** `Verify`: the digest of a directory covers the digests of its children in name order. */
  method Verify(e: Stored, data: Bytes) returns (ok: bool)
    ensures ok <==> if e.Dir? then VerifyDir(e.meta, ChildDigests(e.childs)) else VerifyLeaf(e.meta, if e.IsFile() then data else [])
    ensures ok <==> Covers(e.meta.digest, e.meta, if e.Dir? then DigestsInOrder(ChildDigests(e.childs)) else [], if e.IsFile() then data else [])
  {
    if !e.Dir? {
      return VerifyLeaf(e.meta, if e.IsFile() then data else []);
    }
    var digests := CollectDigests(ChildDigests(e.childs));
    return GenerateDigest(e.meta, digests, []) == e.meta.digest;
  }

  /** What the installation of an entry must come to; the tree is the one its image stands for. */
  ghost predicate Installs(c: Codec, base: Option<Node>, e: Stored, image: Bytes, isBase: bool, t: Tree, n: Node) {
    Represents(c, e, image, t) && Applies(base, t) && n == Applied(base, t) && (isBase ==> Standalone(e))
  }

  ghost predicate CannotInstall(c: Codec, base: Option<Node>, e: Stored, image: Bytes, isBase: bool) {
    forall t :: Represents(c, e, image, t) && Applies(base, t) ==> isBase && !Standalone(e)
  }

  /**
    `applyPatchImpl`: it succeeds exactly when the image can be read, its parts suit the base, every
    digest is right and, for a base image, no entry needs another image. What it leaves behind is
    the meaning of the tree that the image stands for.
  */
  method ApplyPatchImpl(c: Codec, base: Option<Node>, e: Stored, image: Bytes, isBase: bool) returns (r: Result<Node>, ghost t: Tree)
    ensures r.Success? ==> Installs(c, base, e, image, isBase, t, r.value)
    ensures r.Failure? ==> CannotInstall(c, base, e, image, isBase)
    decreases e
  {
    t := FileSame(e.meta);
    if isBase && e.IsBaseRequired() {
      return Failure("invalid base image"), t;
    }
    if e.Dir? {
      r, t := ApplyDir(c, base, e, image, isBase);
      return;
    }
    r, t := ApplyLeaf(c, base, e, image, isBase);
  }

  /** Files and links. */
  method ApplyLeaf(c: Codec, base: Option<Node>, e: Stored, image: Bytes, isBase: bool) returns (r: Result<Node>, ghost t: Tree)
    requires !e.Dir? && !(isBase && e.IsBaseRequired())
    ensures r.Success? ==> Installs(c, base, e, image, isBase, t, r.value)
    ensures r.Failure? ==> CannotInstall(c, base, e, image, isBase)
  {
    t := FileSame(e.meta);
    var data: Bytes := [];
    match e {
      case Symlink(m) =>
        t := Symlink(m);
      case Hardlink(m) =>
        t := Hardlink(m);
      case FileSame(m) =>
        if base.None? || !base.value.File? {
          return Failure("failed to copy"), t;
        }
        data := base.value.content;
      case FileNew(m, _) =>
        var read := ReadNew(c, e, image);
        if read.None? {
          return Failure("failed to read from image"), t;
        }
        data := read.value;
        t := FileNew(m, Stored(data));
      case FileDiff(m, _) =>
        var delta := ReadPatch(c, e, image);
        if base.None? || !base.value.File? || delta.None? || !InBounds(delta.value.ops, |base.value.content|) {
          return Failure("failed to patch"), t;
        }
        data := Patch(base.value.content, delta.value.ops);
        t := FileDiff(m, delta.value);
      case Dir(_, _, _) =>
    }
    var ok := Verify(e, data);
    if !ok {
      return Failure("failed to verify"), t;
    }
    r := Success(if e.Symlink? then LinkTo(e.meta, false) else if e.Hardlink? then LinkTo(e.meta, true) else File(e.meta, data));
  }

  /**
    At every path a successful installation leaves a node of the stored entry's kind, with its metadata,
    and nothing where the image has no entry.
  */
  lemma {:induction false} InstalledKinds(c: Codec, base: Option<Node>, e: Stored, image: Bytes, isBase: bool, t: Tree, n: Node, path: Path)
    requires Installs(c, base, e, image, isBase, t, n)
    ensures NodeAt(Some(n), path).Some? <==> EntryAt(e, path).Some?
    ensures EntryAt(e, path).Some? ==>
              NodeAt(Some(n), path).value.meta == EntryAt(e, path).value.meta && SameKind(EntryAt(e, path).value, NodeAt(Some(n), path).value)
  {
    RepresentsAt(c, e, image, t, path);
    InstalledAt(base, t, path);
  }

  /** A child that cannot be installed keeps the directory from being installed. */
  lemma {:induction false} ChildCannotInstall(c: Codec, base: Option<Node>, e: Stored, image: Bytes, isBase: bool, k: string)
    requires e.Dir? && k in e.childs && CannotInstall(c, ChildOf(base, k), e.childs[k], image, isBase)
    ensures CannotInstall(c, base, e, image, isBase)
  {
    forall t | Represents(c, e, image, t) && Applies(base, t)
      ensures isBase && !Standalone(e)
    {
      assert ChildsApply(base, t);
      assert Represents(c, e.childs[k], image, t.childs[k]) && Applies(ChildOf(base, k), t.childs[k]);
    }
  }

  lemma {:induction false} WrongDirDigest(c: Codec, base: Option<Node>, e: Stored, image: Bytes, isBase: bool)
    requires e.Dir? && !VerifyDir(e.meta, ChildDigests(e.childs))
    ensures CannotInstall(c, base, e, image, isBase)
  {
    forall t | Represents(c, e, image, t) && Applies(base, t)
      ensures false
    {
      RepresentsSameDigests(c, e, image, t);
    }
  }

  lemma {:induction false} RepresentsSameMeta(c: Codec, e: Stored, image: Bytes, t: Tree)
    requires Represents(c, e, image, t)
    ensures t.meta == e.meta
  {
  }

  lemma {:induction false} RepresentsSameDigests(c: Codec, e: Stored, image: Bytes, t: Tree)
    requires Represents(c, e, image, t) && e.Dir?
    ensures t.Dir? && ChildDigests(t.childs) == ChildDigests(e.childs)
  {
    forall k | k in e.childs
      ensures t.childs[k].meta == e.childs[k].meta
    {
      RepresentsSameMeta(c, e.childs[k], image, t.childs[k]);
    }
  }

  /** Installed children and the right digest make an installed directory. */
  lemma {:induction false} ChildsInstall(c: Codec, base: Option<Node>, e: Stored, image: Bytes, isBase: bool, t: Tree, nodes: map<string, Node>)
    requires e.Dir? && t.Dir? && t.meta == e.meta && t.allNew == e.allNew && nodes.Keys == t.childs.Keys == e.childs.Keys
    requires forall k :: k in e.childs ==> Installs(c, ChildOf(base, k), e.childs[k], image, isBase, t.childs[k], nodes[k])
    ensures VerifyDir(e.meta, ChildDigests(e.childs)) ==> Installs(c, base, e, image, isBase, t, Folder(e.meta, nodes))
  {
    forall k | k in e.childs
      ensures Represents(c, e.childs[k], image, t.childs[k]) && Applies(ChildOf(base, k), t.childs[k])
      ensures nodes[k] == Applied(ChildOf(base, k), t.childs[k]) && (isBase ==> Standalone(e.childs[k]))
    {
      assert Installs(c, ChildOf(base, k), e.childs[k], image, isBase, t.childs[k], nodes[k]);
    }
    RepresentsSameDigests(c, e, image, t);
    FolderOfNodes(base, t, nodes);
  }

  lemma {:induction false} FolderOfNodes(base: Option<Node>, t: Tree, nodes: map<string, Node>)
    requires t.Dir? && nodes.Keys == t.childs.Keys
    requires forall k :: k in t.childs ==> Applies(ChildOf(base, k), t.childs[k]) && nodes[k] == Applied(ChildOf(base, k), t.childs[k])
    ensures ChildsApply(base, t) && AppliedChilds(base, t) == nodes
  {
  }

  /** A directory: its children in any order, then its digest. */
  method ApplyDir(c: Codec, base: Option<Node>, e: Stored, image: Bytes, isBase: bool) returns (r: Result<Node>, ghost t: Tree)
    requires e.Dir?
    ensures r.Success? ==> Installs(c, base, e, image, isBase, t, r.value)
    ensures r.Failure? ==> CannotInstall(c, base, e, image, isBase)
    decreases e, 0
  {
    var rest := e.childs.Keys;
    var nodes: map<string, Node> := map[];
    ghost var trees: map<string, Tree> := map[];
    while rest != {}
      invariant rest <= e.childs.Keys
      invariant nodes.Keys == trees.Keys == e.childs.Keys - rest
      invariant forall k :: k in nodes ==> Installs(c, ChildOf(base, k), e.childs[k], image, isBase, trees[k], nodes[k])
    {
      var k :| k in rest;
      var child, childTree := ApplyPatchImpl(c, ChildOf(base, k), e.childs[k], image, isBase);
      if child.Failure? {
        ChildCannotInstall(c, base, e, image, isBase, k);
        return Failure(child.reason), FileSame(e.meta);
      }
      nodes, trees, rest := nodes[k := child.value], trees[k := childTree], rest - {k};
    }
    t := Dir(e.meta, e.allNew, trees);
    ChildsInstall(c, base, e, image, isBase, t, nodes);
    var ok := Verify(e, []);
    if !ok {
      WrongDirDigest(c, base, e, image, isBase);
      return Failure("failed to verify"), t;
    }
    r := Success(Folder(e.meta, nodes));
  }
}
