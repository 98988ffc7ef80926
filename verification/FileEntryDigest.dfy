/** Writing the digests of directories in place, bottom up (pkg/image/pack.go). */
module FileEntryDigest {
  import opened ImageTree
  import opened FileEntries

  /** Every child outside `rest` has its digests, the others are as before. */
  ghost predicate SealedSoFar(before: map<string, Tree>, now: map<string, Tree>, rest: set<string>) {
    && now.Keys == before.Keys
    && forall k :: k in before ==> now[k] == if k in rest then before[k] else GenerateDigestDir(before[k])
  }

  ghost function SealedChilds(childs: map<string, Tree>): map<string, Tree> {
    map k | k in childs :: GenerateDigestDir(childs[k])
  }

  lemma {:induction false} SealedStep(before: map<string, Tree>, now: map<string, Tree>, rest: set<string>, k: string)
    requires SealedSoFar(before, now, rest) && k in before && k in rest
    ensures SealedSoFar(before, now[k := GenerateDigestDir(before[k])], rest - {k})
  {
  }

  lemma {:induction false} SealedAll(before: map<string, Tree>, now: map<string, Tree>)
    requires SealedSoFar(before, now, {})
    ensures now == SealedChilds(before)
  {
  }

  method SealChild(e: FileEntry, k: string)
    requires e.ChildsValid() && k in e.childs
    modifies e`childs, e`trees, e`repr, e.childs[k].repr
    ensures e.ChildsValid() && e.repr == old(e.repr) && e.childs == old(e.childs)
    ensures e.trees == old(e.trees)[k := GenerateDigestDir(old(e.trees[k]))]
    decreases e.trees[k], 2
  {
    assert e.ChildValid(k);
    SealEntry(e.childs[k]);
    e.OthersKept(k);
    e.Replace(k, e.childs[k]);
  }

  /** The digests that the children carry. */
  method ReadDigests(e: FileEntry) returns (digests: map<string, Digest>)
    requires e.ChildsValid()
    ensures digests == ChildDigests(e.trees)
  {
    digests := map[];
    var rest := e.childs.Keys;
    while rest != {}
      invariant rest <= e.childs.Keys && digests.Keys == e.childs.Keys - rest
      invariant forall k :: k in digests ==> digests[k] == e.trees[k].meta.digest
    {
      var k :| k in rest;
      assert e.ChildValid(k);
      e.childs[k].TreeShowsMeta();
      digests, rest := digests[k := e.childs[k].meta.digest], rest - {k};
    }
  }

  /** The loop of `generateDigestDir`, in whatever order the names come up. */
  method SealChilds(e: FileEntry)
    requires e.Valid() && e.IsDir() && e.tree.Dir?
    modifies e.repr
    ensures e.ChildsValid() && e.repr == old(e.repr) && e.meta == old(e.meta) && e.kind == old(e.kind)
    ensures e.trees == SealedChilds(old(e.tree).childs)
    decreases e.tree, 0
  {
    ghost var before := e.tree;
    var rest := e.childs.Keys;
    while rest != {}
      invariant rest <= e.childs.Keys
      invariant e.ChildsValid() && e.repr == old(e.repr) && e.meta == old(e.meta) && e.kind == old(e.kind)
      invariant SealedSoFar(before.childs, e.trees, rest)
    {
      var k :| k in rest;
      assert e.ChildValid(k);
      SealedStep(before.childs, e.trees, rest, k);
      SealChild(e, k);
      rest := rest - {k};
    }
    SealedAll(before.childs, e.trees);
  }

  /** `generateDigestDir`. */
  method SealEntry(e: FileEntry)
    requires e.Valid()
    modifies e.repr
    ensures e.Valid() && e.repr == old(e.repr) && e.tree == GenerateDigestDir(old(e.tree))
    decreases e.tree, 1
  {
    e.TreeShowsType();
    if !e.IsDir() {
      return;
    }
    SealChilds(e);
    var childs := ReadDigests(e);
    var digests := CollectDigests(childs);
    e.Write(e.meta.(digest := GenerateDigest(e.meta, digests, [])), e.kind, e.content, e.delta);
    SealedDir(old(e.tree), e.tree);
  }

  lemma {:induction false} SealedDir(before: Tree, after: Tree)
    requires before.Dir? && after.Dir? && after.childs == SealedChilds(before.childs) && after.allNew == before.allNew
    requires after.meta == before.meta.(digest := GenerateDigest(before.meta, DigestsInOrder(ChildDigests(after.childs)), []))
    ensures after == GenerateDigestDir(before)
  {
  }
}
