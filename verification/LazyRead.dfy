/**
  Reading files of a mounted stack of delta images on demand (pkg/di3fs/di3fs.go): an entry refers to
  a place in the body of its own image, and a node keeps the entries of the images below under the
  same name.
*/
module LazyRead {
  import opened Results
  import opened DeltaOps
  import opened ImageTree
  import opened StoredImage
  import opened ChainMerge
  import ImageMerge
  import Store
  import EndToEnd
  import SearchHistory

  /**
    What a node with these entries, newest first, reads: the first new file, patched by the deltas
    above it. The i-th entry is read from the i-th image, whether or not it came from there.
  */
  function Lazy(c: Codec, entries: seq<Stored>, images: seq<Bytes>): Option<Bytes> {
    if entries == [] || images == [] then None
    else if entries[0].FileSame? then Lazy(c, entries[1..], images[1..])
    else if entries[0].IsNew() then ReadNew(c, entries[0], images[0])
    else
      match Lazy(c, entries[1..], images[1..])
      case None => None
      case Some(data) => PatchWith(c, data, entries[0], images[0])
  }

  // ---------------------------------------------------------------- readers

  predicate WithinList(idxs: seq<nat>, n: nat) {
    forall i :: 0 <= i < |idxs| ==> idxs[i] < n
  }

  /** The patches of the listed entries, the last one first. */
  function PatchBack(c: Codec, entries: seq<Stored>, images: seq<Bytes>, idxs: seq<nat>, data: Bytes): Option<Bytes>
    requires |entries| <= |images| && WithinList(idxs, |entries|)
  {
    if idxs == [] then Some(data)
    else
      var i := idxs[|idxs| - 1];
      match PatchWith(c, data, entries[i], images[i])
      case None => None
      case Some(patched) => PatchBack(c, entries, images, idxs[..|idxs| - 1], patched)
  }

  /** What has been skipped and collected so far, on top of what the rest reads. */
  function Resumed(c: Codec, entries: seq<Stored>, images: seq<Bytes>, idxs: seq<nat>, i: nat): Option<Bytes>
    requires i <= |entries| <= |images| && WithinList(idxs, |entries|)
  {
    match Lazy(c, entries[i..], images[i..])
    case None => None
    case Some(data) => PatchBack(c, entries, images, idxs, data)
  }

  lemma {:induction false} ResumeLater(c: Codec, entries: seq<Stored>, images: seq<Bytes>, idxs: seq<nat>, i: nat)
    requires i < |entries| <= |images| && WithinList(idxs, |entries|)
    ensures entries[i].FileSame? ==> Resumed(c, entries, images, idxs, i) == Resumed(c, entries, images, idxs, i + 1)
    ensures !entries[i].FileSame? && !entries[i].IsNew() ==>
              Resumed(c, entries, images, idxs, i) == Resumed(c, entries, images, idxs + [i], i + 1)
    ensures entries[i].IsNew() ==> Lazy(c, entries[i..], images[i..]) == ReadNew(c, entries[i], images[i])
  {
    assert entries[i..][1..] == entries[i + 1..] && images[i..][1..] == images[i + 1..];
    assert (idxs + [i])[..|idxs|] == idxs;
  }

  class Di3fsNode {
    const codec: Codec
    const meta: Stored
    const image: Bytes
    const baseMeta: seq<Stored>
    const baseImages: seq<Bytes>

    var openCount: int
    /** The content of the temporary file, while it is open, and once it has been written. */
    var patchedFile: Option<Bytes>
    var patchedFilePath: Option<Bytes>

    function Content(): Option<Bytes> {
      Lazy(codec, [meta] + baseMeta, [image] + baseImages)
    }

    /** The node's content can be read and verified. */
    predicate Readable() {
      Content().Some? && VerifyLeaf(meta.meta, Content().value)
    }

    /** The node is a file; what is open and what has been written is its content, and nothing is if it cannot be read. */
    ghost predicate Valid()
      reads this
    {
      && |baseMeta| <= |baseImages| && meta.IsFile() && openCount >= 0
      && patchedFile == (if openCount > 0 && Readable() then Content() else None)
      && (patchedFilePath.Some? ==> Readable() && patchedFilePath == Content())
      && (openCount > 0 && Readable() ==> patchedFilePath.Some?)
    }

    constructor (codec: Codec, meta: Stored, image: Bytes, baseMeta: seq<Stored>, baseImages: seq<Bytes>)
      ensures this.codec == codec && this.meta == meta && this.image == image
      ensures this.baseMeta == baseMeta && this.baseImages == baseImages
      ensures openCount == 0
      ensures |baseMeta| <= |baseImages| && meta.IsFile() ==> Valid()
    {
      this.codec, this.meta, this.image, this.baseMeta, this.baseImages := codec, meta, image, baseMeta, baseImages;
      openCount, patchedFile, patchedFilePath := 0, None, None;
    }

    /** `readBaseFiles`: down to the first new file, then back up along the deltas. */
    method ReadBaseFiles() returns (r: Result<Bytes>)
      requires |baseMeta| <= |baseImages|
      ensures r.Success? <==> Lazy(codec, baseMeta, baseImages).Some?
      ensures r.Success? ==> Some(r.value) == Lazy(codec, baseMeta, baseImages)
    {
      var diffIdxs: seq<nat> := [];
      assert baseMeta[0..] == baseMeta && baseImages[0..] == baseImages;
      for i := 0 to |baseMeta|
        invariant WithinList(diffIdxs, |baseMeta|)
        invariant Resumed(codec, baseMeta, baseImages, diffIdxs, i) == Lazy(codec, baseMeta, baseImages)
      {
        ResumeLater(codec, baseMeta, baseImages, diffIdxs, i);
        if baseMeta[i].FileSame? {
          continue;
        }
        if baseMeta[i].IsNew() {
          var data := ReadNew(codec, baseMeta[i], baseImages[i]);
          if data.None? {
            return Failure("failed to read from image");
          }
          r := PatchUp(diffIdxs, data.value);
          return;
        }
        diffIdxs := diffIdxs + [i];
      }
      return Failure("not implemented");
    }

    /** The inner loop of `readBaseFiles`: oldest delta first. */
    method PatchUp(diffIdxs: seq<nat>, start: Bytes) returns (r: Result<Bytes>)
      requires |baseMeta| <= |baseImages| && WithinList(diffIdxs, |baseMeta|)
      ensures r.Success? <==> PatchBack(codec, baseMeta, baseImages, diffIdxs, start).Some?
      ensures r.Success? ==> Some(r.value) == PatchBack(codec, baseMeta, baseImages, diffIdxs, start)
    {
      var data := start;
      var j := |diffIdxs|;
      assert diffIdxs[..j] == diffIdxs;
      while j > 0
        invariant 0 <= j <= |diffIdxs|
        invariant PatchBack(codec, baseMeta, baseImages, diffIdxs[..j], data) == PatchBack(codec, baseMeta, baseImages, diffIdxs, start)
      {
        j := j - 1;
        assert diffIdxs[..j + 1][..j] == diffIdxs[..j];
        var diffIdx := diffIdxs[j];
        var newBytes := PatchWith(codec, data, baseMeta[diffIdx], baseImages[diffIdx]);
        if newBytes.None? {
          return Failure("failed to patch");
        }
        data := newBytes.value;
      }
      return Success(data);
    }

    /** The content selection of `openFileInImage`. */
    method ReadFile() returns (r: Result<Bytes>)
      requires |baseMeta| <= |baseImages|
      ensures r.Success? <==> Content().Some?
      ensures r.Success? ==> Some(r.value) == Content()
    {
      var entries, images := [meta] + baseMeta, [image] + baseImages;
      assert entries[1..] == baseMeta && images[1..] == baseImages;
      if meta.IsNew() {
        var data := ReadNew(codec, meta, image);
        return if data.Some? then Success(data.value) else Failure("failed to read from diffImage");
      }
      var base :- ReadBaseFiles();
      if meta.FileSame? {
        return Success(base);
      }
      var patched := PatchWith(codec, base, meta, image);
      return if patched.Some? then Success(patched.value) else Failure("Open failed(bsdiff)");
    }

    method OpenFileInImage() returns (ok: bool)
      requires Valid()
      modifies this`patchedFile, this`patchedFilePath
      ensures ok <==> Readable()
      ensures ok <==> Content().Some? && Covers(meta.meta.digest, meta.meta, [], Content().value)
      ensures if ok then patchedFile == patchedFilePath == Content() else patchedFile == None && patchedFilePath == old(patchedFilePath)
    {
      if patchedFile.Some? {
        return true;
      }
      if patchedFilePath.Some? {
        patchedFile := patchedFilePath;
        return true;
      }
      var data := ReadFile();
      if data.Failure? || !VerifyLeaf(meta.meta, data.value) {
        return false;
      }
      patchedFile, patchedFilePath := Some(data.value), Some(data.value);
      return true;
    }

    /** Only the first of several opens reads the file, so that later ones do not report a failure. */
    method Open() returns (ok: bool)
      requires Valid()
      modifies this
      ensures Valid() && openCount == old(openCount) + 1
      ensures ok <==> Readable() || old(openCount) > 0
      ensures old(patchedFilePath).Some? ==> patchedFilePath == old(patchedFilePath)
    {
      ok := true;
      if openCount == 0 {
        ok := OpenFileInImage();
      }
      openCount := openCount + 1;
    }

    method Release()
      requires Valid() && openCount > 0
      modifies this
      ensures Valid() && openCount == old(openCount) - 1 && patchedFilePath == old(patchedFilePath)
    {
      openCount := openCount - 1;
      if openCount == 0 {
        patchedFile := None;
      }
    }

    /** As long as the node is open, reads see its content, or fail if it cannot be read. */
    method Read(off: nat, length: nat) returns (r: Result<Bytes>)
      requires Valid() && openCount > 0
      ensures r.Success? <==> Readable()
      ensures r.Success? && off <= |Content().value| ==>
                && r.value <= Content().value[off..] && |r.value| <= length
                && (|r.value| == length || off + |r.value| == |Content().value|)
      ensures r.Success? && off > |Content().value| ==> r.value == []
    {
      if patchedFile.None? {
        return Failure("invalid file");
      }
      var file := patchedFile.value;
      var from := if off < |file| then off else |file|;
      var to := if from + length < |file| then from + length else |file|;
      return Success(file[from..to]);
    }
  }

  // --------------------------------------------------------------- mounting

  /** The entries under a name in the directories among the given entries; the others are dropped. */
  function ChildsNamed<N, D>(entries: seq<Entry<N, D>>, name: string): seq<Entry<N, D>> {
    if entries == [] then []
    else
      var last := entries[|entries| - 1];
      ChildsNamed(entries[..|entries| - 1], name)
      + if last.Dir? && name in last.childs then [last.childs[name]] else []
  }

  /** The loop of `OnAdd` that collects a child's entries in the images below. */
  method ChildBases(baseMeta: seq<Stored>, name: string) returns (childBaseFEs: seq<Stored>)
    ensures childBaseFEs == ChildsNamed(baseMeta, name)
    ensures |childBaseFEs| <= |baseMeta|
  {
    childBaseFEs := [];
    for i := 0 to |baseMeta|
      invariant childBaseFEs == ChildsNamed(baseMeta[..i], name) && |childBaseFEs| <= i
    {
      assert baseMeta[..i + 1][..i] == baseMeta[..i];
      if baseMeta[i].Dir? && name in baseMeta[i].childs {
        childBaseFEs := childBaseFEs + [baseMeta[i].childs[name]];
      }
    }
    assert baseMeta[..|baseMeta|] == baseMeta;
  }

  lemma {:induction false} ChildsNamedFront<N, D>(entries: seq<Entry<N, D>>, name: string)
    requires entries != []
    ensures ChildsNamed(entries, name) ==
              (if entries[0].Dir? && name in entries[0].childs then [entries[0].childs[name]] else []) + ChildsNamed(entries[1..], name)
  {
    if |entries| > 1 {
      var front := entries[..|entries| - 1];
      ChildsNamedFront(front, name);
      assert front[1..] == entries[1..][..|entries| - 2];
    }
  }

  /** The entries of the node at a path of the mounted tree. */
  function MountAt(entries: seq<Stored>, path: seq<string>): Option<seq<Stored>>
    requires entries != []
    decreases |path|
  {
    if path == [] then Some(entries)
    else if entries[0].Dir? && path[0] in entries[0].childs then
      ChildsNamedFront(entries, path[0]);
      MountAt(ChildsNamed(entries, path[0]), path[1..])
    else None
  }

  // -------------------------------------------------------------- agreement

  /** An entry stands for a tree that makes one content out of the one below. */
  ghost predicate Fits(c: Codec, e: Stored, image: Bytes, t: Tree, content: Option<Node>, below: Option<Node>) {
    Represents(c, e, image, t) && Applies(below, t) && content == Some(Applied(below, t))
  }

  /**
    Entries and images agree with the contents at their path, newest first, down to the first entry
    that needs nothing below it. Further down anything may stand.
  */
  ghost predicate Aligned(c: Codec, entries: seq<Stored>, images: seq<Bytes>, trees: seq<Tree>, contents: seq<Option<Node>>)
    decreases |entries|
  {
    && entries != [] && images != [] && trees != [] && |contents| > 1
    && Fits(c, entries[0], images[0], trees[0], contents[0], contents[1])
    && (Standalone(trees[0]) || Aligned(c, entries[1..], images[1..], trees[1..], contents[1..]))
  }

  /** An entry that depends on another image has something below it. */
  lemma {:induction false} NeedsBelow(below: Option<Node>, t: Tree)
    requires Applies(below, t) && !Standalone(t)
    ensures below.Some?
  {
    if t.Dir? {
      ImageMerge.NeedsFolder(below, t);
    }
  }

  /** Reading on demand gives the content of the file. */
  lemma {:induction false} AlignedReads(c: Codec, entries: seq<Stored>, images: seq<Bytes>, trees: seq<Tree>, contents: seq<Option<Node>>)
    requires Aligned(c, entries, images, trees, contents) && contents[0].value.File?
    ensures Lazy(c, entries, images) == Some(contents[0].value.content)
    decreases |entries|
  {
    if !entries[0].FileNew? {
      AlignedReads(c, entries[1..], images[1..], trees[1..], contents[1..]);
    }
  }

  function ChildContents(contents: seq<Option<Node>>, name: string): seq<Option<Node>> {
    seq(|contents|, i requires 0 <= i < |contents| => ChildOf(contents[i], name))
  }

  /** What holds for a directory's entry holds for the entries in it. */
  lemma {:induction false} ChildFits(c: Codec, e: Stored, image: Bytes, t: Tree, content: Option<Node>, below: Option<Node>, name: string)
    requires Fits(c, e, image, t, content, below) && e.Dir? && name in e.childs
    ensures t.Dir? && name in t.childs
    ensures Fits(c, e.childs[name], image, t.childs[name], ChildOf(content, name), ChildOf(below, name))
    ensures Standalone(t) ==> Standalone(t.childs[name])
  {
    ChildOfApplied(below, t, name);
  }

  lemma {:induction false} DirBelow(c: Codec, e: Stored, image: Bytes, t: Tree, content: Option<Node>, below: Option<Node>, name: string)
    requires Fits(c, e, image, t, content, below)
    ensures ChildOf(content, name).Some? <==> e.Dir? && name in e.childs
  {
    ChildOfApplied(below, t, name);
  }

  /** Going down to a child keeps the lists aligned, although `OnAdd` drops images that lack the child. */
  lemma {:induction false} ChildAligned(c: Codec, entries: seq<Stored>, images: seq<Bytes>, trees: seq<Tree>,
                                        contents: seq<Option<Node>>, name: string)
    requires Aligned(c, entries, images, trees, contents)
    requires entries[0].Dir? && name in entries[0].childs
    ensures Aligned(c, ChildsNamed(entries, name), images, ChildsNamed(trees, name), ChildContents(contents, name))
    decreases |entries|
  {
    ChildFits(c, entries[0], images[0], trees[0], contents[0], contents[1], name);
    var child := trees[0].childs[name];
    if !Standalone(child) {
      NeedsBelow(ChildOf(contents[1], name), child);
      DirBelow(c, entries[1], images[1], trees[1], contents[1], contents[2], name);
      ChildAligned(c, entries[1..], images[1..], trees[1..], contents[1..], name);
    }
    ChildsNamedFront(entries, name);
    ChildsNamedFront(trees, name);
    ChildContentsFront(contents, name);
    OneMoreAligned(c, ChildsNamed(entries, name), images, ChildsNamed(trees, name), ChildContents(contents, name),
                   ChildsNamed(entries[1..], name), ChildsNamed(trees[1..], name), ChildContents(contents[1..], name));
  }

  lemma {:induction false} ChildContentsFront(contents: seq<Option<Node>>, name: string)
    requires contents != []
    ensures ChildContents(contents, name) == [ChildOf(contents[0], name)] + ChildContents(contents[1..], name)
  {
  }

  lemma {:induction false} OneMoreAligned(c: Codec, entries: seq<Stored>, images: seq<Bytes>, trees: seq<Tree>, contents: seq<Option<Node>>,
                       entries': seq<Stored>, trees': seq<Tree>, contents': seq<Option<Node>>)
    requires entries != [] && images != [] && trees != [] && |contents| > 1
    requires Fits(c, entries[0], images[0], trees[0], contents[0], contents[1])
    requires entries == [entries[0]] + entries' && trees == [trees[0]] + trees' && contents == [contents[0]] + contents'
    requires Standalone(trees[0]) || Aligned(c, entries', images[1..], trees', contents')
    ensures Aligned(c, entries, images, trees, contents)
  {
    assert entries[1..] == entries' && trees[1..] == trees' && contents[1..] == contents';
  }

  /**
    At every path the mounted tree shows what the image has there: the same entries, the same
    metadata, and for files the same content.
  */
  lemma {:induction false} MountShowsContents(c: Codec, entries: seq<Stored>, images: seq<Bytes>, trees: seq<Tree>, contents: seq<Option<Node>>,
                                              path: seq<string>)
    requires Aligned(c, entries, images, trees, contents)
    ensures MountAt(entries, path).Some? <==> NodeAt(contents[0], path).Some?
    ensures MountAt(entries, path).Some? ==> Shows(c, MountAt(entries, path).value, images, NodeAt(contents[0], path).value)
    decreases |path|
  {
    if path == [] {
      if contents[0].value.File? {
        AlignedReads(c, entries, images, trees, contents);
      }
    } else if entries[0].Dir? && path[0] in entries[0].childs {
      ChildAligned(c, entries, images, trees, contents, path[0]);
      MountShowsContents(c, ChildsNamed(entries, path[0]), images, ChildsNamed(trees, path[0]), ChildContents(contents, path[0]), path[1..]);
    } else {
      DirBelow(c, entries[0], images[0], trees[0], contents[0], contents[1], path[0]);
      NothingBelow(path[1..]);
    }
  }

  ghost predicate Shows(c: Codec, entries: seq<Stored>, images: seq<Bytes>, n: Node) {
    && entries != [] && entries[0].meta == n.meta && SameKind(entries[0], n)
    && (n.File? ==> Lazy(c, entries, images) == Some(n.content) && VerifyLeaf(n.meta, n.content))
  }

  /** A node made from the entries of a path can be opened, and its reads see the file of the image. */
  lemma {:induction false} ShownNodeReads(node: Di3fsNode, entries: seq<Stored>, images: seq<Bytes>, n: Node)
    requires Shows(node.codec, entries, images, n) && n.File? && |entries| <= |images|
    requires [node.meta] + node.baseMeta == entries && [node.image] + node.baseImages == images
    ensures node.Readable() && node.Content() == Some(n.content)
  {
    assert entries[0] == node.meta;
  }

  lemma {:induction false} MountAtLength(entries: seq<Stored>, path: seq<string>)
    requires entries != []
    ensures MountAt(entries, path).Some? ==> 0 < |MountAt(entries, path).value| <= |entries|
    decreases |path|
  {
    if path != [] && entries[0].Dir? && path[0] in entries[0].childs {
      ChildsNamedFront(entries, path[0]);
      ChildsNamedLength(entries, path[0]);
      MountAtLength(ChildsNamed(entries, path[0]), path[1..]);
    }
  }

  lemma {:induction false} ChildsNamedLength<N, D>(entries: seq<Entry<N, D>>, name: string)
    ensures |ChildsNamed(entries, name)| <= |entries|
  {
    if entries != [] {
      ChildsNamedLength(entries[..|entries| - 1], name);
    }
  }

  // ----------------------------------------------------------------- stacks

  /** A file of a delta image: its header's ids and entries, and its body. */
  datatype Image = Image(id: string, parentId: string, root: Stored, body: Bytes)

  ghost predicate Holds(c: Codec, image: Image, h: DimgHeader) {
    image.id == h.id && image.parentId == h.parentId && Represents(c, image.root, image.body, h.image)
  }

  function Roots(images: seq<Image>): seq<Stored> {
    seq(|images|, i requires 0 <= i < |images| => images[i].root)
  }

  function Bodies(images: seq<Image>): seq<Bytes> {
    seq(|images|, i requires 0 <= i < |images| => images[i].body)
  }

  function Trees(chain: seq<DimgHeader>): seq<Tree> {
    seq(|chain|, i requires 0 <= i < |chain| => chain[i].image)
  }

  /** `Do` opens images from the first one on until one needs no parent. */
  method LoadImages(files: seq<Image>) returns (r: Result<seq<Image>>)
    ensures r.Success? ==>
              && r.value != [] && r.value <= files && r.value[|r.value| - 1].parentId == ""
              && forall i :: 0 <= i < |r.value| - 1 ==> r.value[i].parentId != ""
    ensures r.Failure? ==> forall i :: 0 <= i < |files| ==> files[i].parentId != ""
  {
    if |files| == 0 {
      return Failure("panic: index out of range");
    }
    var images, parentId := [files[0]], files[0].parentId;
    var idx := 1;
    while parentId != ""
      invariant 1 <= idx <= |files| && images == files[..idx] && parentId == files[idx - 1].parentId
      invariant forall i :: 0 <= i < idx - 1 ==> files[i].parentId != ""
      decreases |files| - idx
    {
      if idx >= |files| {
        return Failure("panic: index out of range");
      }
      images, parentId, idx := images + [files[idx]], files[idx].parentId, idx + 1;
    }
    return Success(images);
  }

  /** A chain that the store selects for an image without a base is loaded completely. */
  lemma {:induction false} BestChainIsLoaded(headers: seq<DimgHeader>, chain: seq<DimgHeader>, start: string,
                                             blocked: set<string>, loaded: seq<DimgHeader>)
    requires Store.IsBestChain(headers, chain, start, [""], blocked) && loaded != [] && loaded <= chain
    requires loaded[|loaded| - 1].parentId == ""
    ensures loaded == chain
  {
    forall i | 0 <= i < |chain| - 1
      ensures chain[i].parentId != ""
    {
      assert chain[i + 1].id == chain[i].parentId && "" in [""];
    }
    assert loaded[|loaded| - 1] == chain[|loaded| - 1];
  }

  /** The topmost delta suits what the ones below it leave behind. */
  lemma {:induction false} TopOfChain(chain: seq<DimgHeader>)
    requires chain != [] && ChainOver(None, chain)
    ensures ChainOver(None, chain[1..])
    ensures var below := ApplyChain(None, chain[1..]);
            Applies(below, chain[0].image) && ApplyChain(None, chain) == Some(Applied(below, chain[0].image))
  {
    assert chain == [chain[0]] + chain[1..];
    ChainSplit(None, [chain[0]], chain[1..]);
    SingleStandsForItself(ApplyChain(None, chain[1..]), chain[0]);
  }

  /** The contents after applying each delta and all below it, eagerly. */
  ghost function Stages(chain: seq<DimgHeader>): (r: seq<Option<Node>>)
    requires ChainOver(None, chain)
    ensures |r| == |chain| + 1 && r[0] == ApplyChain(None, chain)
  {
    if chain == [] then [None]
    else
      TopOfChain(chain);
      [ApplyChain(None, chain)] + Stages(chain[1..])
  }

  lemma {:induction false} ListsFront(images: seq<Image>, chain: seq<DimgHeader>)
    requires chain != [] && images != []
    ensures Roots(images) == [images[0].root] + Roots(images[1..])
    ensures Bodies(images) == [images[0].body] + Bodies(images[1..])
    ensures Trees(chain) == [chain[0].image] + Trees(chain[1..])
  {
  }

  lemma {:induction false} StackAligned(c: Codec, images: seq<Image>, chain: seq<DimgHeader>)
    requires chain != [] && |images| == |chain| && ChainOver(None, chain)
    requires forall i :: 0 <= i < |chain| ==> Holds(c, images[i], chain[i])
    ensures Aligned(c, Roots(images), Bodies(images), Trees(chain), Stages(chain))
    decreases |chain|
  {
    TopOfChain(chain);
    var tree, below := chain[0].image, Stages(chain[1..]);
    if !Standalone(tree) {
      NeedsBelow(below[0], tree);
      StackAligned(c, images[1..], chain[1..]);
    }
    ListsFront(images, chain);
    assert Holds(c, images[0], chain[0]);
    OneMoreAligned(c, Roots(images), Bodies(images), Trees(chain), [ApplyChain(None, chain)] + below,
                   Roots(images[1..]), Trees(chain[1..]), below);
  }

  /**
    Mounting is installing: for every stack of delta images, the mounted tree shows at every path
    exactly what applying the images one after the other, bottom first, leaves there.
  */
  lemma {:induction false} MountIsEagerApply(c: Codec, images: seq<Image>, chain: seq<DimgHeader>, path: seq<string>)
    requires chain != [] && |images| == |chain| && ChainOver(None, chain)
    requires forall i :: 0 <= i < |chain| ==> Holds(c, images[i], chain[i])
    ensures MountAt(Roots(images), path).Some? <==> NodeAt(ApplyChain(None, chain), path).Some?
    ensures MountAt(Roots(images), path).Some? ==>
              && |MountAt(Roots(images), path).value| <= |Bodies(images)|
              && Shows(c, MountAt(Roots(images), path).value, Bodies(images), NodeAt(ApplyChain(None, chain), path).value)
  {
    MountAtLength(Roots(images), path);
    StackAligned(c, images, chain);
    MountShowsContents(c, Roots(images), Bodies(images), Trees(chain), Stages(chain), path);
  }

  /** From a store of faithful deltas, the mounted chain for an image shows that image. */
  lemma {:induction false} MountShowsRequestedImage(c: Codec, headers: seq<DimgHeader>, content: EndToEnd.Contents, images: seq<Image>,
                                 chain: seq<DimgHeader>, start: string, blocked: set<string>, path: seq<string>)
    requires EndToEnd.Faithful(headers, content) && content("") == None
    requires Store.IsBestChain(headers, chain, start, [""], blocked) && chain != []
    requires |images| == |chain| && forall i :: 0 <= i < |chain| ==> Holds(c, images[i], chain[i])
    ensures MountAt(Roots(images), path).Some? <==> NodeAt(content(start), path).Some?
    ensures MountAt(Roots(images), path).Some? ==>
              Shows(c, MountAt(Roots(images), path).value, Bodies(images), NodeAt(content(start), path).value)
  {
    EndToEnd.ChainTurnsContent(headers, content, chain, start, "");
    MountIsEagerApply(c, images, chain, path);
  }

  // --------------------------------------------------------------- requests

  /** The files of a directory, by their paths. */
  type Disk = string -> Image

  /** The path of the entry that a digest leads to. */
  ghost function PathAt(ds: Store.DimgStore, digest: string): Option<string>
    reads ds`dimgDigests, ds.dimgDigests.Values`path
  {
    if digest in ds.dimgDigests then Some(ds.dimgDigests[digest].path) else None
  }

  /** The file of the header's entry is the delta image that the entry was added for. */
  ghost predicate FileHolds(c: Codec, ds: Store.DimgStore, disk: Disk, h: DimgHeader)
    reads ds`dimgDigests, ds.dimgDigests.Values`path
  {
    PathAt(ds, ds.digestOf(h)).Some? ==> Holds(c, disk(PathAt(ds, ds.digestOf(h)).value), h)
  }

  ghost predicate OnDisk(c: Codec, ds: Store.DimgStore, disk: Disk)
    reads ds`added, ds`dimgDigests, ds.dimgDigests.Values`path
  {
    forall h {:trigger FileHolds(c, ds, disk, h)} :: h in ds.added ==> FileHolds(c, ds, disk, h)
  }

  /** The files stand for the deltas of the chain, one by one. */
  ghost predicate HoldAll(c: Codec, files: seq<Image>, chain: seq<DimgHeader>) {
    |files| == |chain| && forall i :: 0 <= i < |chain| ==> Holds(c, files[i], chain[i])
  }

  /** `GetDimgPathsWithDimgId`, down to the empty id, and the files at these paths. */
  method GetDimgFiles(c: Codec, ds: Store.DimgStore, disk: Disk, start: string) returns (r: Result<seq<Image>>, ghost chain: seq<DimgHeader>)
    requires ds.Linked() && OnDisk(c, ds, disk)
    modifies ds.dimgGraph`marks, ds.dimgGraph.nodes.Values
    ensures ds.Linked() && ds.added == old(ds.added) && ds.Situation() == old(ds.Situation()).Next(SearchHistory.Searched(start, [""]))
    ensures FilesFor(c, r, chain, ds.added, start, old(ds.Blocked()))
  {
    ghost var blocked := ds.Blocked();
    var dimgs;
    dimgs, chain := ds.GetDimgEntriesWithDimgIds(start, [""]);
    r := ReadFiles(c, ds, disk, dimgs, chain, start, blocked);
  }

  /** The files of a best chain down to the empty id, if there is a chain at all. */
  ghost predicate FilesFor(c: Codec, r: Result<seq<Image>>, chain: seq<DimgHeader>, headers: seq<DimgHeader>, start: string, blocked: set<string>) {
    && (r.Success? <==> Store.Updatable(headers, blocked, start, [""]))
    && (r.Success? ==> Store.IsBestChain(headers, chain, start, [""], blocked) && HoldAll(c, r.value, chain))
  }

  method ReadFiles(c: Codec, ds: Store.DimgStore, disk: Disk, dimgs: Result<seq<DimgEntry>>, ghost chain: seq<DimgHeader>,
                   ghost start: string, ghost blocked: set<string>)
    returns (r: Result<seq<Image>>)
    requires OnDisk(c, ds, disk) && ds.Selected(dimgs, chain, start, [""], blocked)
    ensures FilesFor(c, r, chain, ds.added, start, blocked)
  {
    if dimgs.Failure? {
      return Failure("failed to get dimgs");
    }
    var files := [];
    for i := 0 to |dimgs.value|
      invariant HoldAll(c, files, chain[..i])
    {
      assert chain[i] in ds.added && FileHolds(c, ds, disk, chain[i]);
      files := files + [disk(dimgs.value[i].path)];
    }
    assert chain[..|dimgs.value|] == chain;
    return Success(files);
  }

  lemma {:induction false} MountStep(entries: seq<Stored>, path: seq<string>, i: nat)
    requires entries != [] && i < |path|
    ensures MountAt(entries, path[i..]) ==
              if entries[0].Dir? && path[i] in entries[0].childs
              then MountAt([entries[0].childs[path[i]]] + ChildsNamed(entries[1..], path[i]), path[i + 1..])
              else None
  {
    assert path[i..][0] == path[i] && path[i..][1..] == path[i + 1..];
    ChildsNamedFront(entries, path[i]);
  }

  /** `OnAdd` for every directory on the way to a path. */
  method EntriesFor(images: seq<Image>, path: seq<string>) returns (r: Option<seq<Stored>>)
    requires images != []
    ensures r == MountAt(Roots(images), path)
  {
    var entries := Roots(images);
    assert path[0..] == path;
    for i := 0 to |path|
      invariant entries != [] && MountAt(entries, path[i..]) == MountAt(Roots(images), path)
    {
      MountStep(entries, path, i);
      if !entries[0].Dir? || path[i] !in entries[0].childs {
        return None;
      }
      var childBaseFEs := ChildBases(entries[1..], path[i]);
      entries := [entries[0].childs[path[i]]] + childBaseFEs;
    }
    assert path[|path|..] == [];
    return Some(entries);
  }

  lemma {:induction false} HeadAndRest<T>(s: seq<T>)
    requires s != []
    ensures [s[0]] + s[1..] == s
  {
  }

  /** The node at a path: `newNode` on its entries. */
  method NodeFor(c: Codec, images: seq<Image>, path: seq<string>) returns (node: Option<Di3fsNode>)
    requires images != []
    ensures node.Some? <==> MountAt(Roots(images), path).Some?
    ensures node.Some? ==> fresh(node.value) && node.value.codec == c && node.value.openCount == 0
    ensures node.Some? ==> [node.value.meta] + node.value.baseMeta == MountAt(Roots(images), path).value
    ensures node.Some? ==> [node.value.image] + node.value.baseImages == Bodies(images)
    ensures node.Some? && node.value.meta.IsFile() ==> node.value.Valid()
  {
    var found := EntriesFor(images, path);
    if found == None {
      return None;
    }
    var entries, bodies := found.value, Bodies(images);
    MountAtLength(Roots(images), path);
    HeadAndRest(entries);
    HeadAndRest(bodies);
    var n := new Di3fsNode(c, entries[0], bodies[0], entries[1..], bodies[1..]);
    return Some(n);
  }

  /** The node shows what an image has at its path: the metadata, and for a file its content. */
  ghost predicate NodeShows(node: Di3fsNode, n: Node)
    reads node
  {
    && node.meta.meta == n.meta && SameKind(node.meta, n)
    && (n.File? ==> node.Valid() && node.Readable() && node.Content() == Some(n.content))
  }

  lemma {:induction false} MountedNodeShows(node: Di3fsNode, entries: seq<Stored>, images: seq<Bytes>, n: Node)
    requires Shows(node.codec, entries, images, n) && |entries| <= |images|
    requires [node.meta] + node.baseMeta == entries && [node.image] + node.baseImages == images
    requires node.meta.IsFile() ==> node.Valid()
    ensures NodeShows(node, n)
  {
    assert entries[0] == node.meta;
    if n.File? {
      ShownNodeReads(node, entries, images, n);
    }
  }

  /** `Do` on the files of a chain that the store has selected: all of them are opened, and every path shows the image. */
  method Do(c: Codec, files: seq<Image>, path: seq<string>, ghost headers: seq<DimgHeader>, ghost content: EndToEnd.Contents,
            ghost chain: seq<DimgHeader>, ghost start: string, ghost blocked: set<string>)
    returns (r: Result<Option<Di3fsNode>>)
    requires EndToEnd.Faithful(headers, content) && content("") == None
    requires Store.IsBestChain(headers, chain, start, [""], blocked) && HoldAll(c, files, chain)
    ensures r.Success? <==> start != ""
    ensures r.Success? ==> (r.value.Some? <==> NodeAt(content(start), path).Some?)
    ensures r.Success? && r.value.Some? ==> fresh(r.value.value) && NodeShows(r.value.value, NodeAt(content(start), path).value)
  {
    EndToEnd.OneDeltaChain(headers, chain, start, [""], blocked);
    if chain != [] {
      LastParentIsEmpty(c, files, chain, start);
    }
    var images := LoadImages(files);
    if images.Failure? {
      return Failure(images.reason);
    }
    LoadedAll(c, files, images.value, headers, chain, start, blocked);
    MountShowsRequestedImage(c, headers, content, files, chain, start, blocked, path);
    var node := NodeFor(c, files, path);
    if node.Some? {
      MountAtLength(Roots(files), path);
      MountedNodeShows(node.value, MountAt(Roots(files), path).value, Bodies(files), NodeAt(content(start), path).value);
    }
    return Success(node);
  }

  lemma {:induction false} LastParentIsEmpty(c: Codec, files: seq<Image>, chain: seq<DimgHeader>, start: string)
    requires HoldAll(c, files, chain) && chain != [] && Store.EndOf(chain, start) == ""
    ensures files[|files| - 1].parentId == ""
  {
    assert Holds(c, files[|chain| - 1], chain[|chain| - 1]);
  }

  /** Opening images up to the first without a parent opens the whole chain. */
  lemma {:induction false} LoadedAll(c: Codec, files: seq<Image>, images: seq<Image>, headers: seq<DimgHeader>,
                                     chain: seq<DimgHeader>, start: string, blocked: set<string>)
    requires HoldAll(c, files, chain) && Store.IsBestChain(headers, chain, start, [""], blocked)
    requires images != [] && images <= files && images[|images| - 1].parentId == ""
    ensures images == files
  {
    var k := |images| - 1;
    assert images[k] == files[k] && Holds(c, files[k], chain[k]);
    BestChainIsLoaded(headers, chain, start, blocked, chain[..|images|]);
    assert images == files[..|images|];
  }

  /** The second half of a request: mount the files that have been found, if they have. */
  method MountFiles(c: Codec, files: Result<seq<Image>>, path: seq<string>, ghost headers: seq<DimgHeader>, ghost content: EndToEnd.Contents,
                    ghost chain: seq<DimgHeader>, ghost start: string, ghost blocked: set<string>)
    returns (r: Result<Option<Di3fsNode>>)
    requires EndToEnd.Faithful(headers, content) && content("") == None && FilesFor(c, files, chain, headers, start, blocked)
    ensures r.Success? <==> start != "" && Store.Updatable(headers, blocked, start, [""])
    ensures r.Success? ==> (r.value.Some? <==> NodeAt(content(start), path).Some?)
    ensures r.Success? && r.value.Some? ==> fresh(r.value.value) && NodeShows(r.value.value, NodeAt(content(start), path).value)
  {
    if files.Success? {
      r := Do(c, files.value, path, headers, content, chain, start, blocked);
    } else {
      r := Failure(files.reason);
    }
  }

  /**
    From a request for an image to its files: for every store of faithful deltas, every image id and
    every path, the mount succeeds exactly when a chain clear of blocked ids leads from the id down to
    the empty base, and then a node is found at the path exactly if the image has one there, with the
    same metadata and, for files, readable with the same content.
  */
  method MountRequested(c: Codec, ds: Store.DimgStore, disk: Disk, start: string, path: seq<string>, ghost content: EndToEnd.Contents)
    returns (r: Result<Option<Di3fsNode>>)
    requires ds.Linked() && OnDisk(c, ds, disk) && EndToEnd.Faithful(ds.added, content) && content("") == None
    modifies ds.dimgGraph`marks, ds.dimgGraph.nodes.Values
    ensures ds.Linked() && ds.added == old(ds.added) && ds.Situation() == old(ds.Situation()).Next(SearchHistory.Searched(start, [""]))
    ensures r.Success? <==> start != "" && Store.Updatable(ds.added, old(ds.Blocked()), start, [""])
    ensures r.Success? ==> (r.value.Some? <==> NodeAt(content(start), path).Some?)
    ensures r.Success? && r.value.Some? ==> fresh(r.value.value) && NodeShows(r.value.value, NodeAt(content(start), path).value)
  {
    ghost var blocked := ds.Blocked();
    var files;
    ghost var chain;
    files, chain := GetDimgFiles(c, ds, disk, start);
    r := MountFiles(c, files, path, ds.added, content, chain, start, blocked);
  }

  /** Adding an image leaves the paths under all other digests as they are. */
  method AddImage(ds: Store.DimgStore, header: DimgHeader, file: string)
    requires ds.Linked()
    modifies ds`dimgDigests, ds`added, ds.dimgGraph, ds.dimgGraph.nodes.Values`edges
    ensures ds.Linked() && ds.dimgGraph.Grown()
    ensures ds.added == old(ds.added) + [header] && ds.Situation() == old(ds.Situation()).Next(Store.AddedHeader(ds.digestOf, header))
    ensures forall d {:trigger PathAt(ds, d)} :: PathAt(ds, d) == if d == ds.digestOf(header) then Some(file) else old(PathAt(ds, d))
  {
    ds.AddDimg(header, file);
  }

  /** An added file joins the others. */
  method StoreFile(c: Codec, ds: Store.DimgStore, disk: Disk, header: DimgHeader, file: string)
    requires ds.Linked() && OnDisk(c, ds, disk) && Holds(c, disk(file), header)
    modifies ds`dimgDigests, ds`added, ds.dimgGraph, ds.dimgGraph.nodes.Values`edges
    ensures ds.Linked() && OnDisk(c, ds, disk) && ds.dimgGraph.Grown()
    ensures ds.added == old(ds.added) + [header] && ds.Situation() == old(ds.Situation()).Next(Store.AddedHeader(ds.digestOf, header))
  {
    AddImage(ds, header, file);
    forall h | h in ds.added
      ensures FileHolds(c, ds, disk, h)
    {
      if h != header {
        assert old(FileHolds(c, ds, disk, h)) && ds.digestOf(h) != ds.digestOf(header);
      }
    }
  }

  /**
    The snapshotter's `Mount`: the delta image that comes with the snapshot is stored, and the image
    that the snapshot refers to is mounted. Its success depends on what failed requests have left.
  */
  method Mount(c: Codec, ds: Store.DimgStore, disk: Disk, header: DimgHeader, file: string, dimgId: string, path: seq<string>,
               ghost content: EndToEnd.Contents)
    returns (r: Result<Option<Di3fsNode>>)
    requires ds.Linked() && OnDisk(c, ds, disk) && Holds(c, disk(file), header)
    requires EndToEnd.Faithful(ds.added + [header], content) && content("") == None
    modifies ds`dimgDigests, ds`added, ds.dimgGraph, ds.dimgGraph.nodes.Values
    ensures ds.Linked() && ds.added == old(ds.added) + [header]
    ensures ds.Situation() == old(ds.Situation()).Next(Store.AddedHeader(ds.digestOf, header)).Next(SearchHistory.Searched(dimgId, [""]))
    ensures r.Success? <==> dimgId != "" && Store.Updatable(ds.added, old(ds.Blocked()), dimgId, [""])
    ensures r.Success? ==> (r.value.Some? <==> NodeAt(content(dimgId), path).Some?)
    ensures r.Success? && r.value.Some? ==> NodeShows(r.value.value, NodeAt(content(dimgId), path).value)
  {
    StoreFile(c, ds, disk, header, file);
    r := MountRequested(c, ds, disk, dimgId, path, content);
  }
}
