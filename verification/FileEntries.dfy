/**
  File entries as the source keeps them: objects that a diff and a merge change in place
  (pkg/image/fs.go, pkg/image/diff.go, pkg/image/merge.go).
*/
module FileEntries {
  import opened Results
  import opened DeltaOps
  import opened ImageTree
  import opened ImageMerge

  datatype EntryType = FILE_NEW | FILE_SAME | FILE_DIFF | DIR | DIR_NEW | SYMLINK | HARDLINK

  /** The children outside `rest` have been updated, and the flag says whether these are all new. */
  ghost predicate UpdatedSoFar(before: map<string, Tree>, now: map<string, Tree>, rest: set<string>, entireNew: bool) {
    && now.Keys == before.Keys
    && (forall k :: k in before ==> now[k] == if k in rest then before[k] else UpdateDirs(before[k]))
    && (entireNew <==> forall k :: k in now && k !in rest ==> now[k].IsNew())
  }

  lemma {:induction false} UpdatedOne(before: map<string, Tree>, now: map<string, Tree>, rest: set<string>, k: string, entireNew: bool)
    requires UpdatedSoFar(before, now, rest, entireNew) && k in rest && k in now
    ensures UpdatedSoFar(before, now[k := UpdateDirs(now[k])], rest - {k}, entireNew && UpdateDirs(now[k]).IsNew())
  {
  }

  lemma {:induction false} UpdatedAll(before: map<string, Tree>, now: map<string, Tree>, entireNew: bool)
    requires UpdatedSoFar(before, now, {}, entireNew)
    ensures now == UpdatedTrees(before) && (entireNew <==> AllNew(now))
  {
  }

  lemma {:induction false} UpdatedDir(m: Meta, allNew: bool, trees: map<string, Tree>)
    ensures UpdateDirs(Tree.Dir(m, allNew, trees)) == Tree.Dir(m, AllNew(UpdatedTrees(trees)), UpdatedTrees(trees))
  {
  }

  class FileEntry {
    var meta: Meta
    var kind: EntryType
    var childs: map<string, FileEntry>
    /** What the entry's place in the image body holds: the content of a new file or a delta. */
    var content: Body
    var delta: FilePatch

    /** The tree that the entry stands for, the trees of its children, and the entries it consists of. */
    ghost var tree: Tree
    ghost var trees: map<string, Tree>
    ghost var repr: set<object>

    function IsDir(): bool
      reads this
    {
      kind == DIR || kind == DIR_NEW
    }

    function IsNew(): bool
      reads this
    {
      kind == FILE_NEW || kind == DIR_NEW || kind == SYMLINK || kind == HARDLINK
    }

    /** The tree that the fields and the children's trees make up. */
    ghost function Shape(childTrees: map<string, Tree>): Tree
      reads this
    {
      match kind
      case FILE_NEW => FileNew(meta, content)
      case FILE_SAME => FileSame(meta)
      case FILE_DIFF => FileDiff(meta, delta)
      case DIR => Dir(meta, false, childTrees)
      case DIR_NEW => Dir(meta, true, childTrees)
      case SYMLINK => Symlink(meta)
      case HARDLINK => Hardlink(meta)
    }

    /** The entry owns the child, which is valid itself. */
    ghost predicate ChildValid(k: string)
      requires k in childs
      reads this, childs[k], childs[k].repr
      decreases repr, 0
    {
      && this in repr && childs[k] in repr && childs[k].repr <= repr && this !in childs[k].repr
      && childs[k] in childs[k].repr && childs[k].Valid()
      && k in trees && trees[k] == childs[k].tree
    }

    /** Two children have nothing in common. */
    ghost predicate Apart(j: string, k: string)
      requires j in childs && k in childs
      reads this, childs[j], childs[k]
    {
      childs[j].repr !! childs[k].repr
    }

    ghost predicate ChildsValid()
      reads this, repr
      decreases repr, 1
    {
      && this in repr && trees.Keys == childs.Keys
      && (forall k :: k in childs ==> childs[k] in repr && childs[k].repr <= repr)
      && (forall k {:trigger ChildValid(k)} :: k in childs ==> ChildValid(k))
      && (forall j, k {:trigger Apart(j, k)} :: j in childs && k in childs && j != k ==> Apart(j, k))
    }

    ghost predicate Valid()
      reads this, repr
      decreases repr, 2
    {
      ChildsValid() && (IsDir() || childs == map[]) && tree == Shape(trees)
    }

    lemma {:induction false} TreeShowsType()
      requires Valid()
      ensures (IsNew() <==> tree.IsNew()) && (IsDir() <==> tree.Dir?)
    {
    }

    lemma {:induction false} DirShape()
      requires Valid() && IsDir()
      ensures tree == Dir(meta, kind == DIR_NEW, trees)
    {
    }

    lemma {:induction false} TreeShowsMeta()
      requires Valid()
      ensures tree.meta == meta
    {
    }

    /** One child of `updateDirFileEntry`; the others are left alone. */
    method UpdateChild(k: string)
      requires ChildsValid() && k in childs
      modifies this`trees, childs[k].repr
      ensures ChildsValid()
      ensures trees == old(trees)[k := UpdateDirs(old(trees[k]))]
      ensures forall j :: j in childs ==> childs[j].repr == old(childs[j].repr)
      decreases repr, 3
    {
      ghost var child := childs[k];
      assert ChildValid(k);
      child.TreeShowsType();
      if childs[k].IsDir() {
        childs[k].UpdateDirFileEntry();
      }
      trees := trees[k := child.tree];
      forall j | j in childs && j != k
        ensures ChildValid(j) && childs[j].repr == old(childs[j].repr)
      {
        assert old(ChildValid(j)) && old(Apart(j, k));
      }
      forall i, j | i in childs && j in childs && i != j
        ensures Apart(i, j)
      {
        assert old(Apart(i, j)) && childs[i].repr == old(childs[i].repr) && childs[j].repr == old(childs[j].repr);
      }
    }

    /** The loop of `updateDirFileEntry`, in whatever order the names come up. */
    method UpdateChilds() returns (entireNew: bool)
      requires ChildsValid()
      modifies repr
      ensures ChildsValid() && repr == old(repr)
      ensures childs == old(childs) && meta == old(meta) && kind == old(kind)
      ensures trees == UpdatedTrees(old(trees))
      ensures entireNew <==> AllNew(trees)
      decreases repr, 4
    {
      ghost var before := trees;
      entireNew := true;
      var rest := childs.Keys;
      while rest != {}
        invariant rest <= childs.Keys
        invariant ChildsValid() && repr == old(repr)
        invariant childs == old(childs) && meta == old(meta) && kind == old(kind)
        invariant UpdatedSoFar(before, trees, rest, entireNew)
      {
        var k :| k in rest;
        UpdatedOne(before, trees, rest, k, entireNew);
        rest := rest - {k};
        assert ChildValid(k);
        UpdateChild(k);
        assert ChildValid(k);
        childs[k].TreeShowsType();
        if !childs[k].IsNew() {
          entireNew := false;
        }
      }
      UpdatedAll(before, trees, entireNew);
    }

    /** Writes the entry's own fields; its children stay as they are. */
    method Write(meta: Meta, kind: EntryType, content: Body, delta: FilePatch)
      requires ChildsValid() && (kind == DIR || kind == DIR_NEW || childs == map[])
      modifies this`meta, this`kind, this`content, this`delta, this`tree
      ensures Valid()
      ensures this.meta == meta && this.kind == kind && this.content == content && this.delta == delta
    {
      this.meta := meta;
      this.kind := kind;
      this.content := content;
      this.delta := delta;
      tree := Shape(trees);
      forall k | k in childs
        ensures ChildValid(k)
      {
        assert old(ChildValid(k));
      }
      forall i, j | i in childs && j in childs && i != j
        ensures Apart(i, j)
      {
        assert old(Apart(i, j));
      }
    }

    /** After the work on its children, a directory stands for the trees that they stand for. */
    ghost method Refresh()
      requires ChildsValid() && IsDir()
      modifies this`tree
      ensures Valid() && tree == Dir(meta, kind == DIR_NEW, trees)
    {
      tree := Shape(trees);
      forall k | k in childs
        ensures ChildValid(k)
      {
        assert old(ChildValid(k));
      }
      forall i, j | i in childs && j in childs && i != j
        ensures Apart(i, j)
      {
        assert old(Apart(i, j));
      }
    }

    /** `updateDirFileEntry`. */
    method UpdateDirFileEntry()
      requires Valid()
      modifies repr
      ensures Valid() && repr == old(repr)
      ensures tree == UpdateDirs(old(tree))
      decreases repr, 5
    {
      if IsDir() {
        DirShape();
        UpdatedDir(meta, kind == DIR_NEW, trees);
        var entireNew := UpdateChilds();
        Write(meta, if entireNew then DIR_NEW else DIR, content, delta);
        DirShape();
      }
    }

    // ------------------------------------------------------------- merging

    /** An entry that is valid and has nothing in common with this one. */
    ghost predicate Free(c: FileEntry)
      reads this, c, c.repr
    {
      c in c.repr && c.Valid() && c.repr !! repr
    }

    /** Everything that `ChildsValid` says, except about the child with the given name. */
    ghost predicate OthersValid(k: string)
      reads this, repr
    {
      && this in repr && trees.Keys == childs.Keys && k in childs
      && (forall j :: j in childs && j != k ==> childs[j] in repr && childs[j].repr <= repr)
      && (forall j {:trigger ChildValid(j)} :: j in childs && j != k ==> ChildValid(j))
      && (forall i, j {:trigger Apart(i, j)} :: i in childs && j in childs && i != j && i != k && j != k ==> Apart(i, j))
    }

    /** When only what one child owns has changed, the others are as they were. */
    twostate lemma {:induction false} OthersKept(k: string)
      requires old(ChildsValid()) && k in childs && unchanged(this)
      requires unchanged(old(repr) - old(childs[k].repr))
      ensures OthersValid(k)
      ensures forall j :: j in childs && j != k ==> childs[j].repr !! old(childs[k].repr)
    {
      forall j | j in childs && j != k
        ensures ChildValid(j) && childs[j].repr == old(childs[j].repr) && childs[j].repr !! old(childs[k].repr)
      {
        assert old(ChildValid(j)) && old(Apart(j, k));
      }
      forall i, j | i in childs && j in childs && i != j && i != k && j != k
        ensures Apart(i, j)
      {
        assert old(Apart(i, j));
      }
    }

    /** Puts an entry in the place of a child. */
    method Replace(k: string, c: FileEntry)
      requires OthersValid(k) && c in c.repr && this !in c.repr && c.Valid()
      requires forall j :: j in childs && j != k ==> c.repr !! childs[j].repr
      modifies this`childs, this`trees, this`repr
      ensures ChildsValid()
      ensures childs == old(childs)[k := c] && trees == old(trees)[k := c.tree] && repr == old(repr) + c.repr
    {
      childs := childs[k := c];
      trees := trees[k := c.tree];
      repr := repr + c.repr;
      forall j | j in childs
        ensures ChildValid(j)
      {
        assert j != k ==> old(ChildValid(j));
      }
      forall i, j | i in childs && j in childs && i != j
        ensures Apart(i, j)
      {
        assert i != k && j != k ==> old(Apart(i, j));
      }
    }

    function HasBody(): bool
      reads this
    {
      kind == FILE_NEW || kind == FILE_DIFF
    }

    /** An upper SAME entry: the lower file takes its place, if it has a body. */
    method MergeSame(lower: FileEntry) returns (ok: bool, merged: FileEntry)
      requires Valid() && kind == FILE_SAME && lower.Valid()
      modifies lower`meta, lower`kind, lower`content, lower`delta, lower`tree
      ensures ok <==> MergeableChild(Some(old(lower.tree)), old(tree))
      ensures ok ==> merged.Valid() && merged.tree == MergedChild(Some(old(lower.tree)), old(tree))
      ensures merged == this || merged == lower
    {
      lower.TreeShowsType();
      if lower.HasBody() {
        var m := lower.meta.(mode := meta.mode, uid := meta.uid, gid := meta.gid, digest := meta.digest);
        lower.Write(m, lower.kind, lower.content, lower.delta);
        return true, lower;
      }
      return lower.kind == FILE_SAME, this;
    }

    /** An upper DIFF entry: kept, applied to the lower content, or composed with the lower delta. */
    method MergeDiff(lower: FileEntry) returns (ok: bool)
      requires Valid() && kind == FILE_DIFF && lower.Valid() && lower != this
      modifies this`meta, this`kind, this`content, this`delta, this`tree
      ensures ok <==> MergeableChild(Some(old(lower.tree)), old(tree))
      ensures ok ==> Valid() && tree == MergedChild(Some(old(lower.tree)), old(tree))
    {
      lower.TreeShowsType();
      if lower.kind == FILE_SAME {
        return true;
      } else if lower.kind == FILE_NEW {
        if lower.content.Dangling? || !InBounds(delta.ops, |lower.content.bytes|) {
          return false;
        }
        Write(meta, FILE_NEW, Stored(Patch(lower.content.bytes, delta.ops)), delta);
        return true;
      } else if lower.kind == FILE_DIFF {
        if lower.delta.ops == [] || !delta.need.MetBy(|lower.delta.ops|) {
          return false;
        }
        Write(meta, FILE_DIFF, content, ComposePatches(lower.delta, delta));
        return true;
      }
      return false;
    }

    /** What this entry shares with its parent's other children before a child is merged: nothing. */
    ghost predicate ReadyToMerge(k: string, lower: FileEntry?)
      reads this, repr, lower, ReprOf(lower)
    {
      ChildsValid() && k in childs && (lower != null ==> Free(lower))
    }

    method MergeChildSame(k: string, lower: FileEntry) returns (ok: bool)
      requires ReadyToMerge(k, lower) && childs[k].kind == FILE_SAME
      modifies this`childs, this`trees, this`repr, lower
      ensures ok <==> MergeableChild(Some(old(lower.tree)), old(trees[k]))
      ensures ok ==> ChildsValid() && trees == old(trees)[k := MergedChild(Some(old(lower.tree)), old(trees[k]))]
      ensures ok ==> repr <= old(repr) + old(lower.repr)
    {
      assert ChildValid(k);
      var merged;
      ok, merged := childs[k].MergeSame(lower);
      if ok {
        forall j | j in childs && j != k
          ensures ChildValid(j) && merged.repr !! childs[j].repr
        {
          assert old(ChildValid(j)) && old(Apart(j, k));
        }
        Replace(k, merged);
      }
    }

    method MergeChildDiff(k: string, lower: FileEntry) returns (ok: bool)
      requires ReadyToMerge(k, lower) && childs[k].kind == FILE_DIFF
      modifies this`childs, this`trees, this`repr, childs[k]
      ensures ok <==> MergeableChild(Some(old(lower.tree)), old(trees[k]))
      ensures ok ==> ChildsValid() && trees == old(trees)[k := MergedChild(Some(old(lower.tree)), old(trees[k]))]
      ensures ok ==> repr <= old(repr)
    {
      assert ChildValid(k);
      ok := childs[k].MergeDiff(lower);
      if ok {
        forall j | j in childs && j != k
          ensures ChildValid(j) && childs[k].repr !! childs[j].repr
        {
          assert old(ChildValid(j)) && old(Apart(j, k));
        }
        Replace(k, childs[k]);
      }
    }

    method MergeChildDir(k: string, lower: FileEntry?) returns (ok: bool)
      requires ReadyToMerge(k, lower) && childs[k].IsDir()
      modifies this`childs, this`trees, this`repr, childs[k].repr, ReprOf(lower)
      ensures ok <==> old(trees[k]).Dir? && MergeableDir(old(TreeOf(lower)), old(trees[k]))
      ensures ok ==> ChildsValid() && trees == old(trees)[k := MergedDir(old(TreeOf(lower)), old(trees[k]))]
      ensures ok ==> repr <= old(repr) + old(ReprOf(lower))
      decreases trees[k], 4
    {
      assert ChildValid(k);
      childs[k].TreeShowsType();
      ok := childs[k].EnqueueMergeTasks(lower);
      if ok {
        forall j | j in childs && j != k
          ensures ChildValid(j) && childs[k].repr !! childs[j].repr
        {
          assert old(ChildValid(j)) && old(Apart(j, k));
        }
        forall i, j | i in childs && j in childs && i != j && i != k && j != k
          ensures Apart(i, j)
        {
          assert old(Apart(i, j)) && old(ChildValid(i)) && old(ChildValid(j)) && old(Apart(i, k)) && old(Apart(j, k));
        }
        Replace(k, childs[k]);
      }
    }

    /** One round of the loop of `enqueueMergeTaskToQueue`, with the work on the task it makes. */
    method MergeChild(k: string, lower: FileEntry?) returns (ok: bool)
      requires ReadyToMerge(k, lower)
      modifies this`childs, this`trees, this`repr, childs[k].repr, ReprOf(lower)
      ensures ok <==> MergeableChild(old(TreeOf(lower)), old(trees[k]))
      ensures ok ==> ChildsValid() && trees == old(trees)[k := MergedChild(old(TreeOf(lower)), old(trees[k]))]
      ensures ok ==> repr <= old(repr) + old(ReprOf(lower))
      decreases trees[k], 5
    {
      assert ChildValid(k);
      var upper := childs[k];
      upper.TreeShowsType();
      match upper.kind {
        case DIR_NEW =>
          ok := MergeChildDir(k, null);
        case FILE_NEW =>
          ok := true;
        case SYMLINK =>
          ok := true;
        case HARDLINK =>
          ok := true;
        case DIR =>
          if lower == null || lower.kind == SYMLINK || !lower.IsDir() {
            if lower != null {
              lower.TreeShowsType();
            }
            return false;
          }
          lower.TreeShowsType();
          ok := MergeChildDir(k, lower);
        case FILE_SAME =>
          if lower == null {
            return false;
          }
          ok := MergeChildSame(k, lower);
        case FILE_DIFF =>
          if lower == null {
            return false;
          }
          ok := MergeChildDiff(k, lower);
      }
    }

    /**
      `enqueueMergeTaskToQueue`, together with the work on each task: this entry becomes the merge of
      itself with the lower one, lower entries are moved into it, and it fails exactly where the
      merge of the two trees is undefined. After a failure the entries are not used any more.
    */
    method EnqueueMergeTasks(lower: FileEntry?) returns (ok: bool)
      requires Valid() && IsDir()
      requires lower != null ==> Free(lower)
      modifies repr, ReprOf(lower)
      ensures old(tree).Dir?
      ensures ok <==> MergeableDir(old(TreeOf(lower)), old(tree))
      ensures ok ==> Valid() && tree == MergedDir(old(TreeOf(lower)), old(tree))
      ensures ok ==> repr <= old(repr) + old(ReprOf(lower))
      decreases tree, 3
    {
      TreeShowsType();
      ok := MergeChilds(lower);
      if ok {
        Write(meta, kind, content, delta);
      }
    }

    /** `mergeDiffDimgMultihread`: all tasks, then the directory types. */
    method MergeDiffDimg(lower: FileEntry) returns (ok: bool)
      requires Valid() && IsDir() && Free(lower)
      modifies repr, lower.repr
      ensures old(tree).Dir?
      ensures ok <==> MergeableDir(Some(old(lower.tree)), old(tree))
      ensures ok ==> Valid() && tree == Merged(old(lower.tree), old(tree))
    {
      ok := EnqueueMergeTasks(lower);
      if ok {
        UpdateDirFileEntry();
      }
    }

    /** A lower child that has not been used yet: still what it was, and apart from this entry. */
    ghost predicate Offered(offers: map<string, FileEntry>, k: string, lowerTree: Option<Tree>, region: set<object>)
      reads this, offers.Values, if k in offers then offers[k].repr else {}
    {
      if k in offers then
        Free(offers[k]) && offers[k].repr <= region && ChildEntry(lowerTree, k) == Some(offers[k].tree)
      else
        ChildEntry(lowerTree, k) == None
    }

    /** The lower children with the given names have not been used yet, and share nothing. */
    ghost predicate AllOffered(offers: map<string, FileEntry>, names: set<string>, lowerTree: Option<Tree>, region: set<object>)
      reads this, offers.Values, set e, o | e in offers.Values && o in e.repr :: o
    {
      && (forall k {:trigger Offered(offers, k, lowerTree, region)} :: k in names ==> Offered(offers, k, lowerTree, region))
      && (forall j, k {:trigger Distinct(offers, j, k)} :: j in names && k in names && j != k ==> Distinct(offers, j, k))
    }

    /** Merges the child with the given name; the other lower children stay available. */
    method MergeNamed(k: string, offers: map<string, FileEntry>, ghost others: set<string>,
                      ghost lowerTree: Option<Tree>, ghost region: set<object>) returns (ok: bool)
      requires ChildsValid() && k in childs && k !in others
      requires AllOffered(offers, others + {k}, lowerTree, region)
      modifies this`childs, this`trees, this`repr, childs[k].repr, if k in offers then offers[k].repr else {}
      ensures ok <==> MergeableChild(ChildEntry(lowerTree, k), old(trees[k]))
      ensures ok ==> ChildsValid() && trees == old(trees)[k := MergedChild(ChildEntry(lowerTree, k), old(trees[k]))]
      ensures ok ==> repr <= old(repr) + region
      ensures ok ==> AllOffered(offers, others, lowerTree, region)
      decreases trees[k], 6
    {
      var lowerChild := if k in offers then offers[k] else null;
      assert Offered(offers, k, lowerTree, region);
      ok := MergeChild(k, lowerChild);
      if ok {
        forall j | j in others
          ensures Offered(offers, j, lowerTree, region)
          ensures j in offers ==> offers[j].repr == old(offers[j].repr)
        {
          assert old(Offered(offers, j, lowerTree, region)) && old(Distinct(offers, j, k));
        }
        forall i, j | i in others && j in others && i != j
          ensures Distinct(offers, i, j)
        {
          assert old(Distinct(offers, i, j));
        }
      }
    }

    /** The loop of `enqueueMergeTaskToQueue`, in whatever order the names come up. */
    method MergeAll(offers: map<string, FileEntry>, ghost lowerTree: Option<Tree>, ghost region: set<object>) returns (ok: bool)
      requires Valid() && IsDir() && AllOffered(offers, childs.Keys, lowerTree, region)
      modifies this`childs, this`trees, this`repr, repr - {this}, region
      ensures old(tree).Dir?
      ensures ok <==> MergeableDir(lowerTree, old(tree))
      ensures ok ==> ChildsValid() && trees == MergedDir(lowerTree, old(tree)).childs && repr <= old(repr) + region
      decreases tree, 1
    {
      TreeShowsType();
      ghost var upper := tree;
      var rest := childs.Keys;
      while rest != {}
        invariant rest <= childs.Keys && ChildsValid() && repr <= old(repr) + region
        invariant AllOffered(offers, rest, lowerTree, region)
        invariant MergedSoFar(lowerTree, upper.childs, trees, rest)
      {
        var k :| k in rest;
        TakeOut(rest, k);
        ghost var names, before := rest, trees;
        rest := rest - {k};
        assert ChildValid(k) && Offered(offers, k, lowerTree, region);
        ok := MergeNamed(k, offers, rest, lowerTree, region);
        if !ok {
          return;
        }
        MergedStep(lowerTree, upper.childs, before, names, k);
      }
      ok := true;
      MergedAll(lowerTree, upper, trees);
    }

    method MergeChilds(lower: FileEntry?) returns (ok: bool)
      requires Valid() && IsDir()
      requires lower != null ==> Free(lower)
      modifies this`childs, this`trees, this`repr, repr - {this}, ReprOf(lower)
      ensures old(tree).Dir?
      ensures ok <==> MergeableDir(old(TreeOf(lower)), old(tree))
      ensures ok ==> ChildsValid() && trees == MergedDir(old(TreeOf(lower)), old(tree)).childs
      ensures ok ==> repr <= old(repr) + old(ReprOf(lower))
      decreases tree, 2
    {
      var offers: map<string, FileEntry> := if lower == null then map[] else lower.childs;
      OffersOfLower(lower, offers);
      ok := MergeAll(offers, TreeOf(lower), ReprOf(lower));
    }

    lemma {:induction false} OffersOfLower(lower: FileEntry?, offers: map<string, FileEntry>)
      requires Valid()
      requires lower != null ==> Free(lower)
      requires offers == if lower == null then map[] else lower.childs
      ensures AllOffered(offers, childs.Keys, TreeOf(lower), ReprOf(lower))
    {
      if lower != null {
        lower.ChildsShown();
      }
    }

    /** A valid entry shows its children in its tree. */
    lemma {:induction false} ChildsShown()
      requires Valid()
      ensures forall k :: if k in childs then
                ChildValid(k) && ChildEntry(Some(tree), k) == Some(childs[k].tree) else ChildEntry(Some(tree), k) == None
      ensures forall j, k :: j in childs && k in childs && j != k ==> childs[j].repr !! childs[k].repr
    {
      forall k
        ensures if k in childs then
                  ChildValid(k) && ChildEntry(Some(tree), k) == Some(childs[k].tree) else ChildEntry(Some(tree), k) == None
      {
        assert k in childs ==> ChildValid(k);
      }
      forall j, k | j in childs && k in childs && j != k
        ensures childs[j].repr !! childs[k].repr
      {
        assert Apart(j, k);
      }
    }
  }

  ghost function ReprOf(e: FileEntry?): set<object>
    reads e
  {
    if e == null then {} else e.repr
  }

  /** Every child outside `rest` has been merged, the others are as before. */
  ghost predicate MergedSoFar(lower: Option<Tree>, before: map<string, Tree>, now: map<string, Tree>, rest: set<string>) {
    && now.Keys == before.Keys
    && (forall k :: k in before && k in rest ==> now[k] == before[k])
    && (forall k :: k in before && k !in rest ==>
          MergeableChild(ChildEntry(lower, k), before[k]) && now[k] == MergedChild(ChildEntry(lower, k), before[k]))
  }

  ghost predicate Distinct(offers: map<string, FileEntry>, j: string, k: string)
    reads offers.Values
  {
    j in offers && k in offers ==> offers[j].repr !! offers[k].repr
  }

  lemma {:induction false} TakeOut(names: set<string>, k: string)
    requires k in names
    ensures names - {k} + {k} == names
  {
  }

  lemma {:induction false} MergedStep(lower: Option<Tree>, before: map<string, Tree>, now: map<string, Tree>, rest: set<string>, k: string)
    requires MergedSoFar(lower, before, now, rest) && k in rest && k in before && MergeableChild(ChildEntry(lower, k), before[k])
    ensures MergedSoFar(lower, before, now[k := MergedChild(ChildEntry(lower, k), before[k])], rest - {k})
  {
  }

  lemma {:induction false} MergedAll(lower: Option<Tree>, upper: Tree, now: map<string, Tree>)
    requires upper.Dir? && MergedSoFar(lower, upper.childs, now, {})
    ensures MergeableDir(lower, upper) && now == MergedDir(lower, upper).childs
  {
  }

  ghost function TreeOf(e: FileEntry?): Option<Tree>
    reads e
  {
    if e == null then None else Some(e.tree)
  }

  ghost function UpdatedTrees(trees: map<string, Tree>): map<string, Tree> {
    map k | k in trees :: UpdateDirs(trees[k])
  }

  ghost predicate AllNew(trees: map<string, Tree>) {
    forall k :: k in trees ==> trees[k].IsNew()
  }
}
