/**
  From a store of delta images to the requested image: the chain that the store selects, merged and
  applied to the image at hand (pkg/server/server.go on top of pkg/image/store.go and merge.go).
*/
module EndToEnd {
  import opened Results
  import opened ImageTree
  import opened ChainMerge
  import opened Store
  import MergeSchedule

  /** The image that belongs to each id; none for the empty id. */
  type Contents = string -> Option<Node>

  /** Every delta in the store turns the image of its parent id into that of its own id. */
  ghost predicate Faithful(headers: seq<DimgHeader>, content: Contents) {
    forall h :: h in headers ==>
      && h.image.Dir? && WellFormedOver(content(h.parentId), h.image)
      && content(h.id) == Some(Applied(content(h.parentId), h.image))
  }

  /** A chain of faithful deltas turns the image where it ends into the one where it starts. */
  lemma {:induction false} ChainTurnsContent(headers: seq<DimgHeader>, content: Contents, chain: seq<DimgHeader>, start: string, goal: string)
    requires Faithful(headers, content) && IsChain(headers, chain, start, goal)
    ensures ChainOver(content(goal), chain) && ApplyChain(content(goal), chain) == content(start)
  {
    if chain != [] {
      var front, bottom := chain[..|chain| - 1], chain[|chain| - 1];
      ChainAboveBottom(headers, chain, start, goal);
      ChainTurnsContent(headers, content, front, start, bottom.id);
      OneMoreDelta(content(goal), chain, content(bottom.id), front);
    }
  }

  lemma {:induction false} ChainAboveBottom(headers: seq<DimgHeader>, chain: seq<DimgHeader>, start: string, goal: string)
    requires IsChain(headers, chain, start, goal) && chain != []
    ensures var bottom := chain[|chain| - 1];
            bottom in headers && bottom.parentId == goal && IsChain(headers, chain[..|chain| - 1], start, bottom.id)
  {
  }

  lemma {:induction false} OneMoreDelta(base: Option<Node>, chain: seq<DimgHeader>, above: Option<Node>, rest: seq<DimgHeader>)
    requires chain != [] && rest == chain[..|chain| - 1] && ChainOver(above, rest)
    requires var bottom := chain[|chain| - 1].image;
             bottom.Dir? && WellFormedOver(base, bottom) && above == Some(Applied(base, bottom))
    ensures ChainOver(base, chain) && ApplyChain(base, chain) == ApplyChain(above, rest)
  {
  }

  /** A store with a single packed image is faithful, and the image's chain down to the empty base is the image itself. */
  lemma {:induction false} PackedImageIsChain(h: DimgHeader)
    requires h.image.Dir? && WellFormedOver(None, h.image) && h.id != "" && h.parentId == ""
    ensures Faithful([h], id => if id == h.id && WellFormedOver(None, h.image) then Some(Applied(None, h.image)) else None)
    ensures IsBestChain([h], [h], h.id, [""], {})
  {
    assert Mentioned([h], h.id);
    forall goal, other | goal in [""] && IsChain([h], other, h.id, goal)
      ensures 1 <= |other|
    {
      assert other == [] ==> h.id == goal;
    }
  }

  /** A header that does what an update from one image to another must do. */
  ghost predicate Updates(h: DimgHeader, content: Contents, start: string, goal: string) {
    && h.id == start && h.parentId == goal
    && WellFormedOver(content(goal), h.image) && Some(Applied(content(goal), h.image)) == content(start)
  }

  /** A header that turns one of the images at hand into the one wanted. */
  ghost predicate IsUpdate(h: DimgHeader, content: Contents, start: string, goals: seq<string>) {
    h.parentId in goals && Updates(h, content, start, h.parentId)
  }

  // ---------------------------------------------------------------- requests

  /** A single stored delta leads from the image wanted to an image at hand. */
  ghost predicate OneDeltaLeads(headers: seq<DimgHeader>, blocked: set<string>, start: string, goals: seq<string>) {
    start !in blocked && exists h :: h in headers && h.id == start && h.parentId in goals && h.parentId !in blocked
  }

  /** Then, and only then, the selected chain is that delta, or one like it. */
  lemma {:induction false} OneDeltaChain(headers: seq<DimgHeader>, chain: seq<DimgHeader>, start: string, goals: seq<string>, blocked: set<string>)
    requires IsBestChain(headers, chain, start, goals, blocked)
    ensures chain == [] <==> start in goals
    ensures chain != [] ==> (|chain| == 1 <==> OneDeltaLeads(headers, blocked, start, goals))
  {
    if OneDeltaLeads(headers, blocked, start, goals) {
      var h :| h in headers && h.id == start && h.parentId in goals && h.parentId !in blocked;
      assert IsChain(headers, [h], start, h.parentId) && ClearOf(blocked, [h], start);
    }
    if |chain| == 1 {
      assert chain[0] in headers && chain[0].parentId in goals;
    }
  }

  /** A delta of a selected chain does not lead to where a longer stretch that starts with it leads. */
  lemma {:induction false} StretchLeadsElsewhere(headers: seq<DimgHeader>, chain: seq<DimgHeader>, start: string, goals: seq<string>,
                                                 blocked: set<string>, i: nat, end: nat)
    requires IsBestChain(headers, chain, start, goals, blocked) && i + 1 < end <= |chain|
    ensures chain[i].parentId != chain[end - 1].parentId
  {
    assert chain[i + 1].id == chain[i].parentId;
    if end < |chain| {
      assert chain[end].id == chain[end - 1].parentId;
      BestChainIsSimple(headers, chain, start, goals, blocked, i + 1, end);
    }
  }

  /** The entries of a best chain are different objects. */
  lemma {:induction false} BestChainEntriesDistinct(headers: seq<DimgHeader>, dimgs: seq<DimgEntry>, start: string,
                                                    goals: seq<string>, blocked: set<string>)
    requires IsBestChain(headers, Headers(dimgs), start, goals, blocked)
    ensures Distinct(dimgs)
  {
    forall i, j | 0 <= i < j < |dimgs|
      ensures dimgs[i] != dimgs[j]
    {
      BestChainIsSimple(headers, Headers(dimgs), start, goals, blocked, i, j);
    }
  }

  /** A stretch of a chain is a chain. */
  lemma {:induction false} StretchIsChain(headers: seq<DimgHeader>, chain: seq<DimgHeader>, start: string, goal: string, i: nat, end: nat)
    requires IsChain(headers, chain, start, goal) && i < end <= |chain|
    ensures IsChain(headers, chain[i..end], chain[i].id, chain[end - 1].parentId)
  {
    assert Mentioned(headers, chain[i].id);
  }

  /** Merging a stretch of a selected chain gives a delta from where it ends to where it starts. */
  lemma {:induction false} StretchUpdates(headers: seq<DimgHeader>, content: Contents, chain: seq<DimgHeader>, start: string, goal: string,
                                          i: nat, end: nat)
    requires Faithful(headers, content) && IsChain(headers, chain, start, goal) && i < end <= |chain|
    ensures BuildMergeTask(i, end).Within(|chain|) && TaskResult(chain, BuildMergeTask(i, end)).Success?
    ensures Updates(TaskResult(chain, BuildMergeTask(i, end)).value, content, chain[i].id, chain[end - 1].parentId)
    ensures end == i + 1 ==> TaskResult(chain, BuildMergeTask(i, end)).value == chain[i]
  {
    StretchIsChain(headers, chain, start, goal, i, end);
    ChainTurnsContent(headers, content, chain[i..end], chain[i].id, chain[end - 1].parentId);
    BuiltTreeLeaves(i, end);
    EveryBracketing(content(chain[end - 1].parentId), chain, BuildMergeTask(i, end), i, end);
  }

  /**
    What has become of a delta's entry after the merge of a chain: it carries the update over the
    largest stretch that the tree merged into it, in the file of that merge; if no merge wrote it, it
    carries the delta as before.
  */
  ghost predicate IsStretch(h: DimgHeader, path: string, content: Contents, chain: seq<DimgHeader>, mergedPath: MergedPaths, i: nat, end: nat)
    requires i < end <= |chain|
  {
    && Updates(h, content, chain[i].id, chain[end - 1].parentId)
    && if end == i + 1 then h == chain[i] else path == mergedPath(i, end) && h.parentId != chain[i].parentId
  }

  /** An entry that holds the merge of a stretch, in terms of images. */
  lemma {:induction false} HeldIsStretch(headers: seq<DimgHeader>, content: Contents, now: Carried, before: Carried, start: string,
                                         goals: seq<string>, blocked: set<string>, mergedPath: MergedPaths, i: nat, end: nat)
    requires Faithful(headers, content) && IsBestChain(headers, before.headers, start, goals, blocked)
    requires i < end <= |now.headers| == |now.paths| == |before.headers| == |before.paths|
    requires now.HoldsStretch(before, mergedPath, i, end)
    ensures IsStretch(now.headers[i], now.paths[i], content, before.headers, mergedPath, i, end)
  {
    var chain := before.headers;
    StretchUpdates(headers, content, chain, start, EndOf(chain, start), i, end);
    if i + 1 < end {
      StretchLeadsElsewhere(headers, chain, start, goals, blocked, i, end);
    }
  }

  ghost predicate StretchIn(dimgs: seq<DimgEntry>, content: Contents, chain: seq<DimgHeader>, mergedPath: MergedPaths, i: nat)
    requires i < |dimgs| == |chain|
    reads dimgs
  {
    IsStretch(dimgs[i].header, dimgs[i].path, content, chain, mergedPath, i, StretchEnd(0, |chain|, i))
  }

  ghost predicate AllStretches(dimgs: seq<DimgEntry>, content: Contents, chain: seq<DimgHeader>, mergedPath: MergedPaths)
    reads dimgs
  {
    && |dimgs| == |chain|
    && forall i {:trigger StretchIn(dimgs, content, chain, mergedPath, i)} :: 0 <= i < |dimgs| ==> StretchIn(dimgs, content, chain, mergedPath, i)
  }

  /** Merges the selected entries; the tree settles what becomes of each of them. */
  method MergeSelected(dimgs: seq<DimgEntry>, start: string, goals: seq<string>, mergedPath: MergedPaths,
                       ghost headers: seq<DimgHeader>, ghost chain: seq<DimgHeader>, ghost blocked: set<string>, ghost content: Contents)
    returns (r: Result<DimgEntry>)
    requires Faithful(headers, content) && IsBestChain(headers, chain, start, goals, blocked) && Headers(dimgs) == chain
    modifies dimgs
    ensures r.Success? <==> dimgs != []
    ensures r.Success? ==> r.value == dimgs[0]
    ensures AllStretches(dimgs, content, chain, mergedPath)
  {
    ghost var before := CarriedBy(dimgs);
    BestChainEntriesDistinct(headers, dimgs, start, goals, blocked);
    if dimgs != [] {
      StretchUpdates(headers, content, chain, start, EndOf(chain, start), 0, |dimgs|);
    }
    r := MergeDimgsWithBisect(dimgs, mergedPath);
    forall i | 0 <= i < |dimgs|
      ensures StretchIn(dimgs, content, chain, mergedPath, i)
    {
      var end := StretchEnd(0, |dimgs|, i);
      assert CarriedBy(dimgs).HoldsStretch(before, mergedPath, i, end);
      HeldIsStretch(headers, content, CarriedBy(dimgs), before, start, goals, blocked, mergedPath, i, end);
    }
  }

  /** The entry that a delta's digest leads to, after the merge of a chain with the delta. */
  ghost predicate StretchStored(ds: DimgStore, content: Contents, chain: seq<DimgHeader>, mergedPath: MergedPaths, i: nat)
    requires i < |chain|
    reads ds`dimgDigests, ds.dimgDigests.Values
  {
    && ds.digestOf(chain[i]) in ds.dimgDigests
    && var entry := ds.dimgDigests[ds.digestOf(chain[i])];
       IsStretch(entry.header, entry.path, content, chain, mergedPath, i, StretchEnd(0, |chain|, i))
  }

  /** What the merge of a chain leaves in the store: the entries of its deltas as settled, all others as they were. */
  ghost predicate AfterMerge(ds: DimgStore, content: Contents, chain: seq<DimgHeader>, mergedPath: MergedPaths)
    reads ds`added, ds`dimgDigests, ds.dimgDigests.Values
  {
    && (forall i {:trigger StretchStored(ds, content, chain, mergedPath, i)} :: 0 <= i < |chain| ==> StretchStored(ds, content, chain, mergedPath, i))
    && OthersStored(ds, chain)
  }

  ghost predicate OthersStored(ds: DimgStore, chain: seq<DimgHeader>)
    reads ds`added, ds`dimgDigests, ds.dimgDigests.Values
  {
    forall h {:trigger ds.StoresHeader(h)} :: h in ds.added && h !in chain ==> ds.StoresHeader(h)
  }

  lemma {:induction false} StretchesStored(ds: DimgStore, dimgs: seq<DimgEntry>, content: Contents, chain: seq<DimgHeader>, mergedPath: MergedPaths)
    requires ds.Holds(dimgs, chain) && AllStretches(dimgs, content, chain, mergedPath) && OthersStored(ds, chain)
    ensures AfterMerge(ds, content, chain, mergedPath)
  {
    forall i: nat | i < |chain|
      ensures StretchStored(ds, content, chain, mergedPath, i)
    {
      assert ds.dimgDigests[ds.digestOf(chain[i])] == dimgs[i] && StretchIn(dimgs, content, chain, mergedPath, i);
    }
  }

  /** The tree overwrites exactly the entries at which one of its inner tasks starts; they are the ones that are lost. */
  lemma {:induction false} StoredExactly(ds: DimgStore, content: Contents, chain: seq<DimgHeader>, mergedPath: MergedPaths, i: nat)
    requires AfterMerge(ds, content, chain, mergedPath) && i < |chain|
    ensures ds.StoresHeader(chain[i]) <==> StretchEnd(0, |chain|, i) == i + 1
  {
    assert StretchStored(ds, content, chain, mergedPath, i);
  }

  /** The store agrees with itself after the merge of at most one delta, and only then. */
  lemma {:induction false} AgreesAfterMerge(ds: DimgStore, content: Contents, chain: seq<DimgHeader>, mergedPath: MergedPaths)
    requires ds.Linked() && AfterMerge(ds, content, chain, mergedPath) && forall i :: 0 <= i < |chain| ==> chain[i] in ds.added
    ensures ds.Valid() <==> |chain| <= 1
  {
    if |chain| >= 2 {
      StoredExactly(ds, content, chain, mergedPath, 0);
      assert chain[0] in ds.added;
    } else {
      forall h | h in ds.added
        ensures ds.StoresHeader(h)
      {
        if h in chain {
          StoredExactly(ds, content, chain, mergedPath, 0);
        }
      }
    }
  }

  /** In a store that agrees with itself, the entries of a chain carry the chain. */
  lemma {:induction false} HeldHeaders(ds: DimgStore, dimgs: seq<DimgEntry>, chain: seq<DimgHeader>)
    requires ds.Valid() && ds.Holds(dimgs, chain) && forall i :: 0 <= i < |chain| ==> chain[i] in ds.added
    ensures Headers(dimgs) == chain
  {
    forall i | 0 <= i < |chain|
      ensures dimgs[i].header == chain[i]
    {
      assert ds.StoresHeader(chain[i]);
    }
  }

  /** Headers outside a chain have entries of their own. */
  lemma {:induction false} OtherEntries(ds: DimgStore, dimgs: seq<DimgEntry>, chain: seq<DimgHeader>)
    requires Headers(dimgs) == chain
    ensures forall h :: ds.StoresHeader(h) && h !in chain ==> ds.dimgDigests[ds.digestOf(h)] !in dimgs
  {
    forall h | ds.StoresHeader(h) && ds.dimgDigests[ds.digestOf(h)] in dimgs
      ensures h in chain
    {
      var i :| 0 <= i < |dimgs| && dimgs[i] == ds.dimgDigests[ds.digestOf(h)];
      assert chain[i] == h;
    }
  }

  /** Merging the entries of a chain leaves them settled, and the rest of the store as it was. */
  method MergeStored(ds: DimgStore, dimgs: seq<DimgEntry>, start: string, goals: seq<string>, mergedPath: MergedPaths,
                     ghost chain: seq<DimgHeader>, ghost blocked: set<string>, ghost content: Contents)
    returns (r: Result<DimgEntry>)
    requires ds.Valid() && Faithful(ds.added, content) && IsBestChain(ds.added, chain, start, goals, blocked)
    requires ds.Holds(dimgs, chain) && Headers(dimgs) == chain
    modifies dimgs
    ensures ds.Linked() && AllStretches(dimgs, content, chain, mergedPath) && OthersStored(ds, chain)
    ensures r.Success? <==> chain != []
    ensures r.Success? ==> r.value == dimgs[0]
  {
    OtherEntries(ds, dimgs, chain);
    r := MergeSelected(dimgs, start, goals, mergedPath, ds.added, chain, blocked, content);
    forall h | h in ds.added && h !in chain
      ensures ds.StoresHeader(h)
    {
      assert old(ds.StoresHeader(h));
    }
  }

  /** What an answer to an update request is, and what it leaves in the store. */
  ghost predicate Answered(ds: DimgStore, r: Result<DimgEntry>, chain: seq<DimgHeader>, start: string, goals: seq<string>,
                           mergedPath: MergedPaths, blocked: set<string>, content: Contents)
    reads ds, ds.dimgGraph, ds.dimgGraph.nodes.Values, ds.dimgDigests.Values, if r.Success? then {r.value} else {}
  {
    && ds.Linked()
    && (r.Success? <==> Updatable(ds.added, blocked, start, goals) && start !in goals)
    && (r.Success? ==> IsUpdate(r.value.header, content, start, goals))
    && (ds.Valid() <==> r.Failure? || OneDeltaLeads(ds.added, blocked, start, goals))
    && (r.Success? ==>
          && IsBestChain(ds.added, chain, start, goals, blocked) && chain != [] && AfterMerge(ds, content, chain, mergedPath)
          && ds.dimgDigests[ds.digestOf(chain[0])] == r.value)
  }

  /**
    A later request whose chain uses a delta of the merged chain is handed what the delta's entry holds
    by now. If a merge has overwritten it, that is the file of the merge, and a delta from another
    image than the one that the rest of the chain yields.
  */
  lemma {:induction false} LaterRequestGetsMerged(ds: DimgStore, content: Contents, merged: seq<DimgHeader>, mergedPath: MergedPaths, i: nat,
                                                  again: Result<seq<DimgEntry>>, chain: seq<DimgHeader>, start: string,
                                                  goals: seq<string>, blocked: set<string>, j: nat)
    requires AfterMerge(ds, content, merged, mergedPath) && i < |merged|
    requires ds.Selected(again, chain, start, goals, blocked) && again.Success? && j < |chain| && chain[j] == merged[i]
    ensures var end := StretchEnd(0, |merged|, i);
            && |again.value| == |chain|
            && Updates(again.value[j].header, content, merged[i].id, merged[end - 1].parentId)
            && (end == i + 1 ==> again.value[j].header == chain[j])
            && (end > i + 1 ==> again.value[j].path == mergedPath(i, end)
                                && again.value[j].header.parentId != (if j + 1 < |chain| then chain[j + 1].id else EndOf(chain, start)))
  {
    assert StretchStored(ds, content, merged, mergedPath, i);
    assert j + 1 < |chain| ==> chain[j + 1].id == chain[j].parentId;
  }

  /** What is known after the merge of a selected chain is what a request promises. */
  lemma {:induction false} MergedIsAnswer(ds: DimgStore, dimgs: seq<DimgEntry>, r: Result<DimgEntry>, chain: seq<DimgHeader>, start: string,
                                          goals: seq<string>, mergedPath: MergedPaths, blocked: set<string>, content: Contents)
    requires ds.Linked() && IsBestChain(ds.added, chain, start, goals, blocked) && ds.Holds(dimgs, chain)
    requires AllStretches(dimgs, content, chain, mergedPath) && OthersStored(ds, chain)
    requires (r.Success? <==> chain != []) && (r.Success? ==> r.value == dimgs[0])
    ensures Answered(ds, r, chain, start, goals, mergedPath, blocked, content)
  {
    StretchesStored(ds, dimgs, content, chain, mergedPath);
    OneDeltaChain(ds.added, chain, start, goals, blocked);
    assert LeadsTo(ds.added, blocked, start, EndOf(chain, start));
    AgreesAfterMerge(ds, content, chain, mergedPath);
    if chain != [] {
      assert StretchStored(ds, content, chain, mergedPath, 0);
    }
  }

  lemma {:induction false} RefusedIsAnswer(ds: DimgStore, r: Result<DimgEntry>, chain: seq<DimgHeader>, start: string,
                       goals: seq<string>, mergedPath: MergedPaths, blocked: set<string>, content: Contents)
    requires ds.Valid() && r.Failure? && !Updatable(ds.added, blocked, start, goals)
    ensures Answered(ds, r, chain, start, goals, mergedPath, blocked, content)
  {
  }

  /** The second half of a request: merge the entries that the store has selected, if it has. */
  method AnswerWith(ds: DimgStore, selected: Result<seq<DimgEntry>>, start: string, goals: seq<string>, mergedPath: MergedPaths,
                    ghost chain: seq<DimgHeader>, ghost blocked: set<string>, ghost content: Contents)
    returns (r: Result<DimgEntry>)
    requires ds.Valid() && Faithful(ds.added, content) && ds.Selected(selected, chain, start, goals, blocked)
    modifies ds.dimgDigests.Values
    ensures ds.added == old(ds.added)
    ensures Answered(ds, r, chain, start, goals, mergedPath, blocked, content)
  {
    if selected.Failure? {
      r := Failure(selected.reason);
      RefusedIsAnswer(ds, r, chain, start, goals, mergedPath, blocked, content);
    } else {
      HeldAreStored(ds, selected.value, chain);
      r := AnswerWithEntries(ds, selected.value, start, goals, mergedPath, chain, blocked, content);
    }
  }

  /** The entries of a chain are entries of the store. */
  lemma {:induction false} HeldAreStored(ds: DimgStore, dimgs: seq<DimgEntry>, chain: seq<DimgHeader>)
    requires ds.Holds(dimgs, chain)
    ensures forall d :: d in dimgs ==> d in ds.dimgDigests.Values
  {
    forall i | 0 <= i < |dimgs|
      ensures dimgs[i] in ds.dimgDigests.Values
    {
      assert ds.digestOf(chain[i]) in ds.dimgDigests;
    }
  }

  method AnswerWithEntries(ds: DimgStore, dimgs: seq<DimgEntry>, start: string, goals: seq<string>, mergedPath: MergedPaths,
                           ghost chain: seq<DimgHeader>, ghost blocked: set<string>, ghost content: Contents)
    returns (r: Result<DimgEntry>)
    requires ds.Valid() && Faithful(ds.added, content) && IsBestChain(ds.added, chain, start, goals, blocked) && ds.Holds(dimgs, chain)
    modifies dimgs
    ensures Answered(ds, r, chain, start, goals, mergedPath, blocked, content)
  {
    HeldHeaders(ds, dimgs, chain);
    r := MergeStored(ds, dimgs, start, goals, mergedPath, chain, blocked, content);
    MergedIsAnswer(ds, dimgs, r, chain, start, goals, mergedPath, blocked, content);
  }

  /** The first half of a request. Selecting leaves the entries alone. */
  method SelectDeltas(ds: DimgStore, start: string, goals: seq<string>) returns (r: Result<seq<DimgEntry>>, ghost chain: seq<DimgHeader>)
    requires ds.Valid()
    modifies ds.dimgGraph`marks, ds.dimgGraph.nodes.Values
    ensures ds.Valid() && ds.added == old(ds.added) && ds.Selected(r, chain, start, goals, old(ds.Blocked()))
    ensures ds.dimgDigests == old(ds.dimgDigests)
  {
    r, chain := ds.GetDimgEntriesWithDimgIds(start, goals);
  }

  /**
    What the server does on an update request: select the deltas and merge them. With faithful deltas
    it succeeds exactly when a chain, clear of ids that failed requests have blocked, leads to an image
    at hand and the image wanted is not one of these itself. The delta it returns turns the image at
    hand into the one wanted. The store agrees with itself afterwards exactly if the request fails or
    a single stored delta leads to an image at hand. Otherwise the digest of the chain's first delta
    leads, for every later request, to the merged header and the merged file.
  */
  method SelectAndMerge(ds: DimgStore, start: string, goals: seq<string>, mergedPath: MergedPaths, ghost content: Contents)
    returns (r: Result<DimgEntry>, ghost chain: seq<DimgHeader>)
    requires ds.Valid() && Faithful(ds.added, content)
    modifies ds.dimgGraph`marks, ds.dimgGraph.nodes.Values, ds.dimgDigests.Values
    ensures ds.added == old(ds.added)
    ensures Answered(ds, r, chain, start, goals, mergedPath, old(ds.Blocked()), content)
  {
    ghost var blocked := ds.Blocked();
    var selected;
    selected, chain := SelectDeltas(ds, start, goals);
    r := AnswerWith(ds, selected, start, goals, mergedPath, chain, blocked, content);
  }

  // ------------------------------------------------------ a two-delta store

  function PackedA(image: Tree): DimgHeader {
    DimgHeader("a", "", image)
  }

  function DeltaB(image: Tree): DimgHeader {
    DimgHeader("b", "a", image)
  }

  /** The image of both ids: what the tree leaves behind on its own. */
  ghost function BothIds(image: Tree): Contents {
    id => if (id == "a" || id == "b") && Applies(None, image) then Some(Applied(None, image)) else None
  }

  function TwoDeltas(image: Tree): seq<DimgHeader> {
    [PackedA(image), DeltaB(image)]
  }

  lemma {:induction false} TwoDeltasFaithful(image: Tree)
    requires image.Dir? && Standalone(image) && WellFormedOver(None, image)
    ensures Faithful(TwoDeltas(image), BothIds(image))
  {
    var content := BothIds(image);
    StandaloneIgnoresBase(None, content("a"), image);
    assert content("") == None;
  }

  /** A chain from "b" to the empty id has both deltas. */
  lemma {:induction false} TwoDeltasNeeded(image: Tree, other: seq<DimgHeader>)
    requires IsChain(TwoDeltas(image), other, "b", "")
    ensures 2 <= |other|
  {
    assert other != [];
    assert other[0] in TwoDeltas(image);
  }

  lemma {:induction false} TwoDeltasChain(image: Tree)
    ensures IsChain(TwoDeltas(image), [DeltaB(image), PackedA(image)], "b", "")
  {
    assert DeltaB(image) in TwoDeltas(image) && PackedA(image) in TwoDeltas(image);
  }

  /**
    A faithful store in which no single delta leads from "b" to the empty base: a request for "b" is
    answered by merging two deltas, and leaves the store in disagreement with itself.
  */
  lemma {:induction false} TwoDeltaStore(image: Tree)
    requires image.Dir? && Standalone(image) && WellFormedOver(None, image)
    ensures Faithful(TwoDeltas(image), BothIds(image))
    ensures IsBestChain(TwoDeltas(image), [DeltaB(image), PackedA(image)], "b", [""], {})
    ensures !OneDeltaLeads(TwoDeltas(image), {}, "b", [""])
  {
    TwoDeltasFaithful(image);
    TwoDeltasChain(image);
    forall goal, other | goal in [""] && IsChain(TwoDeltas(image), other, "b", goal)
      ensures 2 <= |other|
    {
      TwoDeltasNeeded(image, other);
    }
  }

  // ------------------------------------------------------ concurrent merges

  /** `MergeDimg` in a run without errors. */
  function MergeStep(lower: DimgHeader, upper: DimgHeader): DimgHeader {
    var merged := MergeHeaders(lower, upper);
    if merged.Success? then merged.value else lower
  }

  function Schedule(chain: seq<DimgHeader>, limit: nat): MergeSchedule.Config<DimgHeader> {
    MergeSchedule.Config(chain, MergeStep, limit)
  }

  /** A task and its stretch of the chain: the concurrent run and the task tree halve it alike. */
  ghost predicate Shaped(t: MergeTask, r: MergeSchedule.Range)
    requires r.lo < r.hi
    decreases t
  {
    match t
    case Leaf(i) => i == r.lo && r.IsLeaf()
    case Merge(u, l) => !r.IsLeaf() && Shaped(u, r.Upper()) && Shaped(l, r.Lower())
  }

  lemma {:induction false} BuiltShaped(lo: nat, hi: nat)
    requires lo < hi
    ensures Shaped(BuildMergeTask(lo, hi), MergeSchedule.Range(lo, hi))
    decreases hi - lo
  {
    if hi - lo > 1 {
      var upper, lower := BuiltHalves(lo, hi);
      BuiltShaped(lo, lo + (hi - lo) / 2);
      BuiltShaped(lo + (hi - lo) / 2, hi);
    }
  }

  /** The concurrent tree computes what its tasks do one by one. */
  lemma {:induction false} ScheduleComputesTask(chain: seq<DimgHeader>, limit: nat, t: MergeTask, r: MergeSchedule.Range)
    requires r.lo < r.hi <= |chain| && t.Within(|chain|) && Shaped(t, r) && TaskResult(chain, t).Success?
    ensures Schedule(chain, limit).Value(r) == TaskResult(chain, t).value
    decreases t
  {
    if t.Merge? {
      MergeOfTasks(chain, t.upper, t.lower);
      ScheduleComputesTask(chain, limit, t.lower, r.Lower());
      ScheduleComputesTask(chain, limit, t.upper, r.Upper());
    }
  }

  lemma {:induction false} MergeOfTasks(chain: seq<DimgHeader>, upper: MergeTask, lower: MergeTask)
    requires Merge(upper, lower).Within(|chain|) && TaskResult(chain, Merge(upper, lower)).Success?
    ensures TaskResult(chain, upper).Success? && TaskResult(chain, lower).Success?
    ensures TaskResult(chain, Merge(upper, lower)).value == MergeStep(TaskResult(chain, lower).value, TaskResult(chain, upper).value)
  {
  }

  /** No merge of the tree fails, so that a run is indeed one without errors. */
  lemma {:induction false} NoMergeFails(headers: seq<DimgHeader>, content: Contents, chain: seq<DimgHeader>, start: string,
                                        goal: string, lo: nat, hi: nat)
    requires Faithful(headers, content) && IsChain(headers, chain, start, goal) && lo < hi <= |chain|
    ensures BuildMergeTask(lo, hi).Within(|chain|) && TaskResult(chain, BuildMergeTask(lo, hi)).Success?
  {
    ChainTurnsContent(headers, content, chain, start, goal);
    var base := StretchBase(content(goal), chain, lo, hi);
    BuiltTreeLeaves(lo, hi);
    EveryBracketing(base, chain, BuildMergeTask(lo, hi), lo, hi);
  }

  /** Every stretch of a chain suits what the deltas below it leave behind. */
  lemma {:induction false} StretchBase(base: Option<Node>, chain: seq<DimgHeader>, lo: nat, hi: nat) returns (below: Option<Node>)
    requires ChainOver(base, chain) && lo < hi <= |chain|
    ensures ChainOver(below, chain[lo..hi])
  {
    assert chain[0..|chain|] == chain;
    StretchSplit(base, chain, 0, hi, |chain|);
    below := ApplyChain(base, chain[hi..|chain|]);
    StretchSplit(below, chain, 0, lo, hi);
  }

  /** The concurrent run and the tree agree on which merge is the last to write an entry. */
  lemma {:induction false} TopTaskIsStretch(r: MergeSchedule.Range, i: nat)
    requires r.lo <= i < r.hi
    ensures MergeSchedule.TopTask(r, i) == MergeSchedule.Range(i, StretchEnd(r.lo, r.hi, i))
    decreases r.hi - r.lo
  {
    if i != r.lo {
      TopTaskIsStretch(if i < r.Mid() then r.Upper() else r.Lower(), i);
    }
  }

  /** An entry carries the update over the largest stretch that the tree merges into it, its own delta exactly if that is all of it. */
  ghost predicate CarriesStretch(entries: seq<DimgHeader>, content: Contents, chain: seq<DimgHeader>, i: nat, end: nat)
    requires i < end <= |chain| == |entries|
  {
    Updates(entries[i], content, chain[i].id, chain[end - 1].parentId) && (entries[i] == chain[i] <==> end == i + 1)
  }

  ghost predicate EntrySettled(entries: seq<DimgHeader>, content: Contents, chain: seq<DimgHeader>, i: nat)
    requires i < |chain| == |entries|
  {
    CarriesStretch(entries, content, chain, i, StretchEnd(0, |chain|, i))
  }

  /** The largest stretch merged into the top entry is the whole chain. */
  lemma {:induction false} TopEntryUpdates(headers: seq<DimgHeader>, entries: seq<DimgHeader>, content: Contents, chain: seq<DimgHeader>,
                                           start: string, goals: seq<string>, blocked: set<string>)
    requires IsBestChain(headers, chain, start, goals, blocked) && chain != [] && |entries| == |chain|
    requires EntrySettled(entries, content, chain, 0)
    ensures IsUpdate(entries[0], content, start, goals)
  {
    var end := StretchEnd(0, |chain|, 0);
    assert CarriesStretch(entries, content, chain, 0, end);
  }

  /**
    End to end: for every store, every chain it selects, every limit on concurrent merges and every
    interleaving, a finished run of the merge tree leaves in the top entry a delta from the image at
    hand to the image wanted: applied to the one it gives the other. Every other entry carries the
    update over the largest stretch that was merged into it, or its own delta as before.
  */
  lemma {:induction false} ConcurrentMergeUpdates(headers: seq<DimgHeader>, content: Contents, chain: seq<DimgHeader>, start: string,
                                                  goals: seq<string>, blocked: set<string>, limit: nat,
                                                  states: seq<MergeSchedule.State<DimgHeader>>, events: seq<MergeSchedule.Event>, k: nat)
    requires Faithful(headers, content) && IsBestChain(headers, chain, start, goals, blocked) && chain != []
    requires MergeSchedule.IsRun(Schedule(chain, limit), states, events) && k < |states| && states[k].finished
    ensures |states[k].entries| == |chain|
    ensures IsUpdate(states[k].entries[0], content, start, goals)
    ensures forall i {:trigger EntrySettled(states[k].entries, content, chain, i)} :: 0 <= i < |chain| ==>
              EntrySettled(states[k].entries, content, chain, i)
  {
    var entries := states[k].entries;
    MergeSchedule.FinishedRun(Schedule(chain, limit), states, events, k);
    forall i: nat | i < |chain|
      ensures EntrySettled(entries, content, chain, i)
    {
      assert MergeSchedule.SettledAt(Schedule(chain, limit), entries, MergeSchedule.Range(0, |chain|), i);
      var end := StretchEnd(0, |chain|, i);
      EntryOfRun(headers, content, chain, start, goals, blocked, limit, entries, i, end);
    }
    TopEntryUpdates(headers, entries, content, chain, start, goals, blocked);
  }

  lemma {:induction false} EntryOfRun(headers: seq<DimgHeader>, content: Contents, chain: seq<DimgHeader>, start: string, goals: seq<string>,
                                      blocked: set<string>, limit: nat, entries: seq<DimgHeader>, i: nat, end: nat)
    requires Faithful(headers, content) && IsBestChain(headers, chain, start, goals, blocked) && i < |chain| == |entries|
    requires MergeSchedule.SettledAt(Schedule(chain, limit), entries, MergeSchedule.Range(0, |chain|), i) && end == StretchEnd(0, |chain|, i)
    ensures CarriesStretch(entries, content, chain, i, end)
  {
    TopTaskIsStretch(MergeSchedule.Range(0, |chain|), i);
    RunValueUpdates(headers, content, chain, start, goals, blocked, limit, i, end, entries[i]);
  }

  /** What a concurrent run computes for a stretch. */
  lemma {:induction false} RunValueUpdates(headers: seq<DimgHeader>, content: Contents, chain: seq<DimgHeader>, start: string, goals: seq<string>,
                                           blocked: set<string>, limit: nat, i: nat, end: nat, h: DimgHeader)
    requires Faithful(headers, content) && IsBestChain(headers, chain, start, goals, blocked) && i < end <= |chain|
    requires h == Schedule(chain, limit).Value(MergeSchedule.Range(i, end))
    ensures Updates(h, content, chain[i].id, chain[end - 1].parentId) && (h == chain[i] <==> end == i + 1)
  {
    var t := BuildMergeTask(i, end);
    StretchUpdates(headers, content, chain, start, EndOf(chain, start), i, end);
    BuiltShaped(i, end);
    ScheduleComputesTask(chain, limit, t, MergeSchedule.Range(i, end));
    if i + 1 < end {
      StretchLeadsElsewhere(headers, chain, start, goals, blocked, i, end);
    }
  }
}
