/**
  Merging a chain of delta images: one after the other, or along a tree that halves the chain
  (pkg/image/merge.go).
*/
module ChainMerge {
  import opened Results
  import opened ImageTree
  import opened ImageMerge

  datatype DimgHeader = DimgHeader(id: string, parentId: string, image: Tree)

  /** `MergeDimg` on the two headers; it panics when the images cannot be merged. */
  function MergeHeaders(lower: DimgHeader, upper: DimgHeader): Result<DimgHeader> {
    if upper.image.Dir? && MergeableDir(Some(lower.image), upper.image) then
      Success(DimgHeader(upper.id, lower.parentId, Merged(lower.image, upper.image)))
    else
      Failure("failed to merge")
  }

  // ----------------------------------------------------------------- chains

  /** Each delta image, from the last one up to the first, suits what the ones after it leave behind. */
  ghost predicate ChainOver(base: Option<Node>, chain: seq<DimgHeader>)
    decreases |chain|
  {
    chain != [] ==>
      var bottom := chain[|chain| - 1].image;
      bottom.Dir? && WellFormedOver(base, bottom)
      && ChainOver(Some(Applied(base, bottom)), chain[..|chain| - 1])
  }

  /** The chain applied delta by delta, bottom first. */
  ghost function ApplyChain(base: Option<Node>, chain: seq<DimgHeader>): Option<Node>
    requires ChainOver(base, chain)
    decreases |chain|
  {
    if chain == [] then base
    else ApplyChain(Some(Applied(base, chain[|chain| - 1].image)), chain[..|chain| - 1])
  }

  lemma {:induction false} ApplyChainStep(base: Option<Node>, chain: seq<DimgHeader>, above: Option<Node>, rest: seq<DimgHeader>)
    requires ChainOver(base, chain) && chain != [] && rest == chain[..|chain| - 1]
    requires above == Some(Applied(base, chain[|chain| - 1].image))
    ensures ChainOver(above, rest) && ApplyChain(base, chain) == ApplyChain(above, rest)
  {
  }

  lemma {:induction false} ChainSplit(base: Option<Node>, front: seq<DimgHeader>, back: seq<DimgHeader>)
    requires ChainOver(base, front + back)
    ensures ChainOver(base, back) && ChainOver(ApplyChain(base, back), front)
    ensures ApplyChain(base, front + back) == ApplyChain(ApplyChain(base, back), front)
    decreases |back|
  {
    if back == [] {
      assert front + back == front;
    } else {
      var rest := back[..|back| - 1];
      assert (front + back)[|front + back| - 1] == back[|back| - 1];
      var above := Some(Applied(base, back[|back| - 1].image));
      ChainOfBoth(base, front, back, above, rest);
      ChainSplit(above, front, rest);
    }
  }

  /** The bottom delta of the longer chain is that of its lower part. */
  lemma {:induction false} ChainOfBoth(base: Option<Node>, front: seq<DimgHeader>, back: seq<DimgHeader>, above: Option<Node>, rest: seq<DimgHeader>)
    requires ChainOver(base, front + back) && back != [] && rest == back[..|back| - 1]
    requires Applies(base, back[|back| - 1].image) && above == Some(Applied(base, back[|back| - 1].image))
    ensures ChainOver(above, front + rest)
    ensures ApplyChain(base, front + back) == ApplyChain(above, front + rest)
    ensures ChainOver(above, rest) ==> ChainOver(base, back) && ApplyChain(base, back) == ApplyChain(above, rest)
  {
    var all := front + back;
    assert all[|all| - 1] == back[|back| - 1] && all[..|all| - 1] == front + rest;
    ApplyChainStep(base, all, above, front + rest);
  }

  /** A header that does over the base what the whole chain does. */
  ghost predicate StandsFor(h: DimgHeader, base: Option<Node>, chain: seq<DimgHeader>)
    requires ChainOver(base, chain)
  {
    && chain != [] && h.id == chain[0].id && h.parentId == chain[|chain| - 1].parentId
    && h.image.Dir? && WellFormedOver(base, h.image)
    && Some(Applied(base, h.image)) == ApplyChain(base, chain)
  }

  /** Two stretches of a chain, each merged to one header, can be merged, and the result stands for both. */
  lemma {:induction false} MergeStretches(base: Option<Node>, front: seq<DimgHeader>, back: seq<DimgHeader>, upper: DimgHeader, lower: DimgHeader)
    requires ChainOver(base, front + back) && ChainOver(base, back) && ChainOver(ApplyChain(base, back), front)
    requires StandsFor(lower, base, back) && StandsFor(upper, ApplyChain(base, back), front)
    ensures MergeHeaders(lower, upper).Success?
    ensures StandsFor(MergeHeaders(lower, upper).value, base, front + back)
  {
    ChainSplit(base, front, back);
    MergeMeansBoth(base, lower.image, upper.image);
  }

  lemma {:induction false} SingleStandsForItself(base: Option<Node>, h: DimgHeader)
    requires ChainOver(base, [h])
    ensures StandsFor(h, base, [h])
  {
    assert [h][..0] == [];
  }

  // ------------------------------------------------------------ merge trees

  /** The tasks of `buildMergeDimgTask`; a leaf is an index into the chain. */
  datatype MergeTask = Leaf(index: nat) | Merge(upper: MergeTask, lower: MergeTask)
  {
    function Leaves(): seq<nat> {
      match this
      case Leaf(i) => [i]
      case Merge(u, l) => u.Leaves() + l.Leaves()
    }

    predicate Within(n: nat) {
      match this
      case Leaf(i) => i < n
      case Merge(u, l) => u.Within(n) && l.Within(n)
    }

    function Merges(): nat {
      match this
      case Leaf(_) => 0
      case Merge(u, l) => u.Merges() + l.Merges() + 1
    }

    function Depth(): nat {
      match this
      case Leaf(_) => 0
      case Merge(u, l) => 1 + if u.Depth() > l.Depth() then u.Depth() else l.Depth()
    }
  }

  /** `buildMergeDimgTask` on the stretch from `lo` up to, but not including, `hi`. */
  function BuildMergeTask(lo: nat, hi: nat): MergeTask
    requires lo < hi
    decreases hi - lo
  {
    var len := hi - lo;
    if len == 1 then Leaf(lo)
    else Merge(BuildMergeTask(lo, lo + len / 2), BuildMergeTask(lo + len / 2, hi))
  }

  function Indices(lo: nat, hi: nat): seq<nat>
    requires lo <= hi
  {
    seq(hi - lo, i requires 0 <= i < hi - lo => lo + i)
  }

  function Power2(n: nat): nat {
    if n == 0 then 1 else 2 * Power2(n - 1)
  }

  lemma {:induction false} Power2Monotone(m: nat, n: nat)
    requires m <= n
    ensures Power2(m) <= Power2(n)
    decreases n - m
  {
    if m < n {
      Power2Monotone(m + 1, n);
    }
  }

  lemma {:induction false} BuiltHalves(lo: nat, hi: nat) returns (upper: MergeTask, lower: MergeTask)
    requires lo + 1 < hi
    ensures var mid := lo + (hi - lo) / 2; upper == BuildMergeTask(lo, mid) && lower == BuildMergeTask(mid, hi)
    ensures BuildMergeTask(lo, hi) == Merge(upper, lower)
  {
    upper, lower := BuildMergeTask(lo, lo + (hi - lo) / 2), BuildMergeTask(lo + (hi - lo) / 2, hi);
  }

  /** The tree's leaves are the chain in order, with one merge less than leaves. */
  lemma {:induction false} BuiltTreeLeaves(lo: nat, hi: nat)
    requires lo < hi
    ensures BuildMergeTask(lo, hi).Leaves() == Indices(lo, hi)
    ensures BuildMergeTask(lo, hi).Merges() == hi - lo - 1
    decreases hi - lo
  {
    if hi - lo > 1 {
      var upper, lower := BuiltHalves(lo, hi);
      var mid := lo + (hi - lo) / 2;
      BuiltTreeLeaves(lo, mid);
      BuiltTreeLeaves(mid, hi);
      IndicesSplit(lo, mid, hi);
    }
  }

  lemma {:induction false} IndicesSplit(lo: nat, mid: nat, hi: nat)
    requires lo <= mid <= hi
    ensures Indices(lo, mid) + Indices(mid, hi) == Indices(lo, hi)
  {
  }

  /** The tree is as shallow as a binary tree over the chain can be. */
  lemma {:induction false} BuiltTreeDepth(lo: nat, hi: nat)
    requires lo < hi
    ensures var d := BuildMergeTask(lo, hi).Depth(); hi - lo <= Power2(d) && (d > 0 ==> Power2(d - 1) < hi - lo)
    decreases hi - lo
  {
    if hi - lo > 1 {
      var mid := lo + (hi - lo) / 2;
      BuiltTreeDepth(lo, mid);
      BuiltTreeDepth(mid, hi);
      var u, l := BuildMergeTask(lo, mid).Depth(), BuildMergeTask(mid, hi).Depth();
      if u > l {
        Power2Monotone(l, u - 1);
        assert false;
      }
      Power2Monotone(u, l);
    }
  }

  /** The header that a task ends with. */
  function TaskResult(chain: seq<DimgHeader>, t: MergeTask): Result<DimgHeader>
    requires t.Within(|chain|)
  {
    match t
    case Leaf(i) => Success(chain[i])
    case Merge(u, l) =>
      var lower :- TaskResult(chain, l);
      var upper :- TaskResult(chain, u);
      MergeHeaders(lower, upper)
  }

  /** Along every tree over a stretch of the chain, the merge succeeds and stands for the stretch. */
  lemma {:induction false} EveryBracketing(base: Option<Node>, chain: seq<DimgHeader>, t: MergeTask, lo: nat, hi: nat)
    requires lo < hi <= |chain| && t.Leaves() == Indices(lo, hi)
    requires ChainOver(base, chain[lo..hi])
    ensures t.Within(|chain|) && TaskResult(chain, t).Success?
    ensures StandsFor(TaskResult(chain, t).value, base, chain[lo..hi])
    decreases t
  {
    match t {
      case Leaf(i) =>
        assert t.Leaves()[0] == i;
        assert chain[lo..hi] == [chain[i]];
        SingleStandsForItself(base, chain[i]);
      case Merge(u, l) =>
        var mid := LeavesSplit(t, u, l, lo, hi);
        var front, back := chain[lo..mid], chain[mid..hi];
        StretchSplit(base, chain, lo, mid, hi);
        EveryBracketing(base, chain, l, mid, hi);
        EveryBracketing(ApplyChain(base, back), chain, u, lo, mid);
        MergeResults(base, chain, u, l, front, back);
    }
  }

  /** A stretch of a chain, cut in two. */
  lemma {:induction false} StretchSplit(base: Option<Node>, chain: seq<DimgHeader>, lo: nat, mid: nat, hi: nat)
    requires lo <= mid <= hi <= |chain| && ChainOver(base, chain[lo..hi])
    ensures chain[lo..hi] == chain[lo..mid] + chain[mid..hi]
    ensures ChainOver(base, chain[mid..hi]) && ChainOver(ApplyChain(base, chain[mid..hi]), chain[lo..mid])
  {
    var front, back := CutStretch(chain, lo, mid, hi);
    ChainSplit(base, front, back);
  }

  lemma {:induction false} CutStretch<T>(s: seq<T>, lo: nat, mid: nat, hi: nat) returns (front: seq<T>, back: seq<T>)
    requires lo <= mid <= hi <= |s|
    ensures front == s[lo..mid] && back == s[mid..hi] && s[lo..hi] == front + back
  {
    front, back := s[lo..mid], s[mid..hi];
  }

  lemma {:induction false} MergeResults(base: Option<Node>, chain: seq<DimgHeader>, u: MergeTask, l: MergeTask,
                     front: seq<DimgHeader>, back: seq<DimgHeader>)
    requires u.Within(|chain|) && l.Within(|chain|) && TaskResult(chain, u).Success? && TaskResult(chain, l).Success?
    requires ChainOver(base, front + back) && ChainOver(base, back) && ChainOver(ApplyChain(base, back), front)
    requires StandsFor(TaskResult(chain, l).value, base, back)
    requires StandsFor(TaskResult(chain, u).value, ApplyChain(base, back), front)
    ensures TaskResult(chain, Merge(u, l)).Success?
    ensures StandsFor(TaskResult(chain, Merge(u, l)).value, base, front + back)
  {
    MergeStretches(base, front, back, TaskResult(chain, u).value, TaskResult(chain, l).value);
  }

  lemma {:induction false} LeavesNotEmpty(t: MergeTask)
    ensures t.Leaves() != []
    decreases t
  {
    if t.Merge? {
      LeavesNotEmpty(t.upper);
    }
  }

  lemma {:induction false} LeavesSplit(t: MergeTask, u: MergeTask, l: MergeTask, lo: nat, hi: nat) returns (mid: nat)
    requires t == Merge(u, l) && lo < hi && t.Leaves() == Indices(lo, hi)
    ensures lo < mid < hi && u.Leaves() == Indices(lo, mid) && l.Leaves() == Indices(mid, hi)
  {
    LeavesNotEmpty(u);
    LeavesNotEmpty(l);
    mid := lo + |u.Leaves()|;
    var all := Indices(lo, hi);
    assert u.Leaves() == all[..|u.Leaves()|] && l.Leaves() == all[|u.Leaves()|..];
  }

  // ---------------------------------------------------------------- linear

  /** The order of `MergeDimgsWithLinear`: the chain below first, then the delta on top of it. */
  function LinearTask(lo: nat, hi: nat): MergeTask
    requires lo < hi
    decreases hi - lo
  {
    if lo + 1 == hi then Leaf(lo) else Merge(Leaf(lo), LinearTask(lo + 1, hi))
  }

  lemma {:induction false} LinearTaskLeaves(lo: nat, hi: nat)
    requires lo < hi
    ensures LinearTask(lo, hi).Leaves() == Indices(lo, hi)
    decreases hi - lo
  {
    if lo + 1 < hi {
      LinearTaskLeaves(lo + 1, hi);
      assert [lo] + Indices(lo + 1, hi) == Indices(lo, hi);
    }
  }

  lemma {:induction false} LeavesWithin(t: MergeTask, lo: nat, hi: nat)
    requires lo < hi && t.Leaves() == Indices(lo, hi)
    ensures t.Within(hi)
    decreases t
  {
    match t {
      case Leaf(i) => assert t.Leaves()[0] == i;
      case Merge(u, l) =>
        var mid := LeavesSplit(t, u, l, lo, hi);
        LeavesWithin(u, lo, mid);
        LeavesWithin(l, mid, hi);
        WithinMore(u, mid, hi);
    }
  }

  lemma {:induction false} WithinMore(t: MergeTask, m: nat, n: nat)
    requires m <= n && t.Within(m)
    ensures t.Within(n)
    decreases t
  {
    if t.Merge? {
      WithinMore(t.upper, m, n);
      WithinMore(t.lower, m, n);
    }
  }

  /** Both ways of merging a chain give a delta with the same ids and the same effect, on every base the chain suits. */
  lemma {:induction false} LinearAndBisectAgree(base: Option<Node>, chain: seq<DimgHeader>)
    requires chain != [] && ChainOver(base, chain)
    ensures LinearTask(0, |chain|).Within(|chain|) && BuildMergeTask(0, |chain|).Within(|chain|)
    ensures var linear, bisect := TaskResult(chain, LinearTask(0, |chain|)), TaskResult(chain, BuildMergeTask(0, |chain|));
            && linear.Success? && bisect.Success?
            && StandsFor(linear.value, base, chain) && StandsFor(bisect.value, base, chain)
            && Applied(base, linear.value.image) == Applied(base, bisect.value.image)
  {
    LinearTaskLeaves(0, |chain|);
    BuiltTreeLeaves(0, |chain|);
    assert chain[0..|chain|] == chain;
    EveryBracketing(base, chain, LinearTask(0, |chain|), 0, |chain|);
    EveryBracketing(base, chain, BuildMergeTask(0, |chain|), 0, |chain|);
  }

  // ---------------------------------------------------------------- entries

  /** A delta image in a store: the header of the file at `path`. Merging a chain overwrites such entries. */
  class DimgEntry {
    var header: DimgHeader
    var path: string

    constructor (header: DimgHeader, path: string)
      ensures this.header == header && this.path == path
    {
      this.header, this.path := header, path;
    }
  }

  function Headers(entries: seq<DimgEntry>): seq<DimgHeader>
    reads entries
  {
    seq(|entries|, i requires 0 <= i < |entries| reads entries => entries[i].header)
  }

  /** The file for the merge of each stretch of a chain; the source makes up a name for every merge. */
  type MergedPaths = (nat, nat) -> string

  ghost predicate Distinct(dimgs: seq<DimgEntry>) {
    forall i, j :: 0 <= i < j < |dimgs| ==> dimgs[i] != dimgs[j]
  }

  /** The bottom entry after the merges down from `n` to `done`: their result and the last one's file, or what it was. */
  ghost predicate LinearDone(chain: seq<DimgHeader>, path: string, mergedPath: MergedPaths, done: nat, header: DimgHeader, now: string)
    requires done < |chain|
  {
    var n := |chain|;
    && LinearTask(done, n).Within(n) && TaskResult(chain, LinearTask(done, n)) == Success(header)
    && now == if done == n - 1 then path else mergedPath(done, n)
  }

  /**
    `MergeDimgsWithLinear`: the last entry is overwritten in every round and is the result. It ends as
    the merge of all, in the last merge's file; or, when one fails, as the merge of those below it.
  */
  method MergeDimgsWithLinear(dimgs: seq<DimgEntry>, mergedPath: MergedPaths) returns (r: Result<DimgEntry>, ghost done: nat)
    requires Distinct(dimgs)
    modifies dimgs
    ensures dimgs == [] ==> r.Failure?
    ensures dimgs != [] ==> CarriedBy(dimgs).Agrees(old(CarriedBy(dimgs)), 0, |dimgs| - 1)
    ensures dimgs != [] ==> LinearTask(0, |dimgs|).Within(|dimgs|)
    ensures dimgs != [] ==> (r.Success? <==> TaskResult(old(Headers(dimgs)), LinearTask(0, |dimgs|)).Success?)
    ensures dimgs != [] ==> done < |dimgs| && (r.Success? <==> done == 0)
    ensures dimgs != [] ==>
              var last := |dimgs| - 1;
              LinearDone(old(Headers(dimgs)), old(dimgs[last].path), mergedPath, done, dimgs[last].header, dimgs[last].path)
    ensures r.Success? ==> r.value == dimgs[|dimgs| - 1]
    ensures r.Success? ==> TaskResult(old(Headers(dimgs)), LinearTask(0, |dimgs|)) == Success(r.value.header)
    ensures r.Success? ==> r.value.path == if |dimgs| == 1 then old(dimgs[0].path) else mergedPath(0, |dimgs|)
  {
    done := 0;
    if |dimgs| == 0 {
      return Failure("panic: index out of range"), done;
    }
    ghost var chain, path := Headers(dimgs), dimgs[|dimgs| - 1].path;
    var n := |dimgs|;
    LinearWithin(0, n);
    LinearWithin(n - 1, n);
    var lowerDimg := dimgs[n - 1];
    var idx := n - 1;
    while idx > 0
      invariant 0 <= idx < n && LinearDone(chain, path, mergedPath, idx, lowerDimg.header, lowerDimg.path)
      invariant CarriedBy(dimgs).Agrees(old(CarriedBy(dimgs)), 0, n - 1)
    {
      var ok := LinearRound(dimgs, mergedPath, idx, chain, path);
      if !ok {
        return Failure("failed to merge dimgs"), idx;
      }
      idx := idx - 1;
    }
    return Success(lowerDimg), 0;
  }

  /** One round: the next delta is merged on top of the last entry. */
  method LinearRound(dimgs: seq<DimgEntry>, mergedPath: MergedPaths, idx: nat, ghost chain: seq<DimgHeader>, ghost path: string) returns (ok: bool)
    requires 0 < idx < |dimgs| == |chain| && Distinct(dimgs) && dimgs[idx - 1].header == chain[idx - 1]
    requires LinearDone(chain, path, mergedPath, idx, dimgs[|dimgs| - 1].header, dimgs[|dimgs| - 1].path)
    modifies dimgs[|dimgs| - 1]
    ensures var done, last := if ok then idx - 1 else idx, dimgs[|dimgs| - 1];
            LinearDone(chain, path, mergedPath, done, last.header, last.path)
    ensures !ok ==> LinearTask(0, |dimgs|).Within(|dimgs|) && TaskResult(chain, LinearTask(0, |dimgs|)).Failure?
  {
    var lowerDimg, upperDimg := dimgs[|dimgs| - 1], dimgs[idx - 1];
    LinearStep(chain, path, mergedPath, idx, lowerDimg.header, lowerDimg.path);
    var header := MergeHeaders(lowerDimg.header, upperDimg.header);
    ok := header.Success?;
    if ok {
      lowerDimg.header := header.value;
      lowerDimg.path := mergedPath(idx - 1, |dimgs|);
    }
  }

  /** One more merge. If it fails, merging everything above fails too. */
  lemma {:induction false} LinearStep(chain: seq<DimgHeader>, path: string, mergedPath: MergedPaths, idx: nat, lower: DimgHeader, now: string)
    requires 0 < idx < |chain| && LinearDone(chain, path, mergedPath, idx, lower, now)
    ensures var r := MergeHeaders(lower, chain[idx - 1]);
            if r.Success? then LinearDone(chain, path, mergedPath, idx - 1, r.value, mergedPath(idx - 1, |chain|))
            else LinearTask(0, |chain|).Within(|chain|) && TaskResult(chain, LinearTask(0, |chain|)).Failure?
  {
    var t := LinearTask(idx - 1, |chain|);
    LinearWithin(idx - 1, |chain|);
    LinearResult(chain, idx - 1, lower, t);
    if MergeHeaders(lower, chain[idx - 1]).Failure? {
      LinearFailure(chain, idx - 1, |chain|);
    } else {
      LinearDoneTo(chain, path, mergedPath, idx - 1, t, MergeHeaders(lower, chain[idx - 1]).value);
    }
  }

  lemma {:induction false} LinearDoneTo(chain: seq<DimgHeader>, path: string, mergedPath: MergedPaths, idx: nat, t: MergeTask, header: DimgHeader)
    requires idx + 1 < |chain| && t == LinearTask(idx, |chain|)
    requires t.Within(|chain|) && TaskResult(chain, t) == Success(header)
    ensures LinearDone(chain, path, mergedPath, idx, header, mergedPath(idx, |chain|))
  {
  }

  lemma {:induction false} LinearResult(chain: seq<DimgHeader>, idx: nat, lower: DimgHeader, t: MergeTask)
    requires idx + 1 < |chain| && LinearTask(idx + 1, |chain|).Within(|chain|) && t == LinearTask(idx, |chain|)
    requires TaskResult(chain, LinearTask(idx + 1, |chain|)) == Success(lower)
    ensures t.Within(|chain|) && TaskResult(chain, t) == MergeHeaders(lower, chain[idx])
  {
  }

  lemma {:induction false} LinearWithin(lo: nat, hi: nat)
    requires lo < hi
    ensures LinearTask(lo, hi).Within(hi)
  {
    LinearTaskLeaves(lo, hi);
    LeavesWithin(LinearTask(lo, hi), lo, hi);
  }

  /** When merging fails at one delta, merging everything above it fails too. */
  lemma {:induction false} LinearFailure(chain: seq<DimgHeader>, idx: nat, n: nat)
    requires idx < n == |chain| && LinearTask(idx, n).Within(n) && TaskResult(chain, LinearTask(idx, n)).Failure?
    ensures LinearTask(0, n).Within(n) && TaskResult(chain, LinearTask(0, n)).Failure?
    decreases idx
  {
    if idx > 0 {
      LinearWithin(idx - 1, n);
      LinearFailure(chain, idx - 1, n);
    }
  }

  // ---------------------------------------------------------------- bisect

  /** Where the largest task ends whose stretch starts with the given delta; its merge is the last to write the delta's entry. */
  function StretchEnd(lo: nat, hi: nat, i: nat): (end: nat)
    requires lo <= i < hi
    ensures i < end <= hi
    decreases hi - lo
  {
    if i == lo then hi
    else
      var mid := lo + (hi - lo) / 2;
      if i < mid then StretchEnd(lo, mid, i) else StretchEnd(mid, hi, i)
  }

  /** The tree over a stretch has a task for the stretch from i to end. */
  ghost predicate HasTask(lo: nat, hi: nat, i: nat, end: nat)
    requires lo < hi
    decreases hi - lo
  {
    || (i == lo && end == hi)
    || (hi - lo > 1 && var mid := lo + (hi - lo) / 2; HasTask(lo, mid, i, end) || HasTask(mid, hi, i, end))
  }

  lemma {:induction false} TaskInside(lo: nat, hi: nat, i: nat, end: nat)
    requires lo < hi && HasTask(lo, hi, i, end)
    ensures lo <= i < end <= hi
    decreases hi - lo
  {
    if !(i == lo && end == hi) {
      var mid := lo + (hi - lo) / 2;
      if HasTask(lo, mid, i, end) {
        TaskInside(lo, mid, i, end);
      } else {
        TaskInside(mid, hi, i, end);
      }
    }
  }

  /** Of all tasks that start with a delta, that is the largest. So the delta's entry is written to exactly if it is larger than the delta. */
  lemma {:induction false} StretchEndIsLargest(lo: nat, hi: nat, i: nat)
    requires lo <= i < hi
    ensures HasTask(lo, hi, i, StretchEnd(lo, hi, i))
    ensures forall end: nat :: HasTask(lo, hi, i, end) ==> end <= StretchEnd(lo, hi, i)
    decreases hi - lo
  {
    var mid := lo + (hi - lo) / 2;
    if i != lo {
      if i < mid {
        StretchEndIsLargest(lo, mid, i);
      } else {
        StretchEndIsLargest(mid, hi, i);
      }
    }
    forall end: nat | HasTask(lo, hi, i, end)
      ensures end <= StretchEnd(lo, hi, i)
    {
      TaskInside(lo, hi, i, end);
      if i != lo && HasTask(lo, mid, i, end) {
        TaskInside(lo, mid, i, end);
      }
      if i != lo && HasTask(mid, hi, i, end) {
        TaskInside(mid, hi, i, end);
      }
    }
  }

  /**
    The bottom entry is never overwritten, the top one unless it is the only one. Of three entries the
    first two are, of four the first and the third.
  */
  lemma {:induction false} OverwrittenEnds(n: nat)
    requires n > 0
    ensures StretchEnd(0, n, n - 1) == n && StretchEnd(0, n, 0) == n
    ensures StretchEnd(0, 3, 0) == 3 && StretchEnd(0, 3, 1) == 3 && StretchEnd(0, 3, 2) == 3
    ensures StretchEnd(0, 4, 0) == 4 && StretchEnd(0, 4, 1) == 2 && StretchEnd(0, 4, 2) == 4 && StretchEnd(0, 4, 3) == 4
  {
  }

  /** What the entries of a chain carry, and the files that they lead to. */
  datatype Carried = Carried(headers: seq<DimgHeader>, paths: seq<string>)
  {
    ghost predicate Agrees(other: Carried, lo: nat, hi: nat) {
      && |headers| == |paths| == |other.headers| == |other.paths|
      && forall i :: lo <= i < hi && i < |headers| ==> headers[i] == other.headers[i] && paths[i] == other.paths[i]
    }

    /** The entry carries the result of merging the stretch from it up to `end`, in the merged file if that is more than itself. */
    ghost predicate HoldsStretch(before: Carried, mergedPath: MergedPaths, i: nat, end: nat)
      requires i < end <= |headers| == |paths| == |before.headers| == |before.paths|
    {
      && BuildMergeTask(i, end).Within(|headers|) && TaskResult(before.headers, BuildMergeTask(i, end)) == Success(headers[i])
      && paths[i] == if end == i + 1 then before.paths[i] else mergedPath(i, end)
    }

    /** What the merges of the tree over a stretch have left in its entries, from the given one on. */
    ghost predicate Settled(before: Carried, mergedPath: MergedPaths, lo: nat, hi: nat, first: nat)
      requires lo <= first <= hi <= |headers| == |paths| == |before.headers| == |before.paths|
    {
      forall i :: first <= i < hi ==> HoldsStretch(before, mergedPath, i, StretchEnd(lo, hi, i))
    }

    /** The entry carries the result of some task of the tree that starts with it; each delta is such a task by itself. */
    ghost predicate HoldsTask(before: Carried, mergedPath: MergedPaths, lo: nat, hi: nat, i: nat)
      requires lo <= i < hi <= |headers| == |paths| == |before.headers| == |before.paths|
    {
      exists end: nat {:trigger HasTask(lo, hi, i, end)} :: i < end <= hi && HasTask(lo, hi, i, end) && HoldsStretch(before, mergedPath, i, end)
    }

    ghost predicate HoldTasks(before: Carried, mergedPath: MergedPaths, lo: nat, hi: nat)
      requires lo <= hi <= |headers| == |paths| == |before.headers| == |before.paths|
    {
      forall i {:trigger HoldsTask(before, mergedPath, lo, hi, i)} :: lo <= i < hi ==> HoldsTask(before, mergedPath, lo, hi, i)
    }
  }

  function CarriedBy(entries: seq<DimgEntry>): (r: Carried)
    reads entries
    ensures |r.headers| == |r.paths| == |entries|
  {
    Carried(Headers(entries), seq(|entries|, i requires 0 <= i < |entries| reads entries => entries[i].path))
  }

  /** Entries that have not been written since are as settled as before. */
  lemma {:induction false} StillSettled(now: Carried, later: Carried, before: Carried, mergedPath: MergedPaths, lo: nat, hi: nat, first: nat)
    requires lo <= first <= hi <= |now.headers| == |now.paths| == |before.headers| == |before.paths|
    requires now.Settled(before, mergedPath, lo, hi, first) && now.Agrees(later, first, hi)
    ensures later.Settled(before, mergedPath, lo, hi, first)
  {
    forall i | first <= i < hi
      ensures later.HoldsStretch(before, mergedPath, i, StretchEnd(lo, hi, i))
    {
      assert now.HoldsStretch(before, mergedPath, i, StretchEnd(lo, hi, i));
    }
  }

  lemma {:induction false} LeafTask(lo: nat, hi: nat, i: nat)
    requires lo <= i < hi
    ensures HasTask(lo, hi, i, i + 1)
    decreases hi - lo
  {
    if hi - lo > 1 {
      var mid := lo + (hi - lo) / 2;
      if i < mid {
        LeafTask(lo, mid, i);
      } else {
        LeafTask(mid, hi, i);
      }
    }
  }

  /** An entry that nothing has been merged into carries its own delta. */
  lemma {:induction false} UnwrittenHoldTasks(now: Carried, before: Carried, mergedPath: MergedPaths, lo: nat, hi: nat)
    requires lo <= hi <= |now.headers| == |now.paths| == |before.headers| == |before.paths| && now.Agrees(before, lo, hi)
    ensures now.HoldTasks(before, mergedPath, lo, hi)
  {
    forall i | lo <= i < hi
      ensures now.HoldsTask(before, mergedPath, lo, hi, i)
    {
      LeafTask(lo, hi, i);
      assert now.HoldsStretch(before, mergedPath, i, i + 1);
    }
  }

  lemma {:induction false} SettledHoldTasks(now: Carried, before: Carried, mergedPath: MergedPaths, lo: nat, hi: nat)
    requires lo <= hi <= |now.headers| == |now.paths| == |before.headers| == |before.paths| && now.Settled(before, mergedPath, lo, hi, lo)
    ensures now.HoldTasks(before, mergedPath, lo, hi)
  {
    forall i | lo <= i < hi
      ensures now.HoldsTask(before, mergedPath, lo, hi, i)
    {
      var end := StretchEnd(lo, hi, i);
      StretchEndIsLargest(lo, hi, i);
      assert now.HoldsStretch(before, mergedPath, i, end);
    }
  }

  /** The tasks of the halves are tasks of the whole, and entries that have not been written since carry what they did. */
  lemma {:induction false} HalvesHoldTasks(now: Carried, later: Carried, before: Carried, mergedPath: MergedPaths, lo: nat, mid: nat, hi: nat)
    requires lo + 1 < hi <= |now.headers| == |now.paths| == |before.headers| == |before.paths| && mid == lo + (hi - lo) / 2
    requires |later.headers| == |later.paths| == |now.headers| && later.HoldTasks(before, mergedPath, lo, mid)
    requires now.HoldTasks(before, mergedPath, mid, hi) && now.Agrees(later, mid, hi)
    ensures later.HoldTasks(before, mergedPath, lo, hi)
  {
    forall i | lo <= i < hi
      ensures later.HoldsTask(before, mergedPath, lo, hi, i)
    {
      var end: nat;
      if i < mid {
        assert later.HoldsTask(before, mergedPath, lo, mid, i);
        end :| i < end <= mid && HasTask(lo, mid, i, end) && later.HoldsStretch(before, mergedPath, i, end);
      } else {
        assert now.HoldsTask(before, mergedPath, mid, hi, i);
        end :| i < end <= hi && HasTask(mid, hi, i, end) && now.HoldsStretch(before, mergedPath, i, end);
      }
      assert HasTask(lo, hi, i, end) && later.HoldsStretch(before, mergedPath, i, end);
    }
  }

  /** Both halves have been merged, and then both into the top entry. */
  lemma {:induction false} SettledHalves(now: Carried, before: Carried, mergedPath: MergedPaths, lo: nat, mid: nat, hi: nat)
    requires lo + 1 < hi <= |now.headers| == |now.paths| == |before.headers| == |before.paths| && mid == lo + (hi - lo) / 2
    requires now.HoldsStretch(before, mergedPath, lo, hi)
    requires now.Settled(before, mergedPath, lo, mid, lo + 1) && now.Settled(before, mergedPath, mid, hi, mid)
    ensures now.Settled(before, mergedPath, lo, hi, lo)
  {
    forall i | lo <= i < hi
      ensures now.HoldsStretch(before, mergedPath, i, StretchEnd(lo, hi, i))
    {
      SettledOne(now, before, mergedPath, lo, mid, hi, i, StretchEnd(lo, hi, i));
    }
  }

  lemma {:induction false} SettledOne(now: Carried, before: Carried, mergedPath: MergedPaths, lo: nat, mid: nat, hi: nat, i: nat, end: nat)
    requires lo + 1 < hi <= |now.headers| == |now.paths| == |before.headers| == |before.paths| && mid == lo + (hi - lo) / 2
    requires now.HoldsStretch(before, mergedPath, lo, hi)
    requires now.Settled(before, mergedPath, lo, mid, lo + 1) && now.Settled(before, mergedPath, mid, hi, mid)
    requires lo <= i < hi && end == StretchEnd(lo, hi, i)
    ensures now.HoldsStretch(before, mergedPath, i, end)
  {
    if lo < i < mid {
      assert now.HoldsStretch(before, mergedPath, i, StretchEnd(lo, mid, i));
    } else if mid <= i {
      assert now.HoldsStretch(before, mergedPath, i, StretchEnd(mid, hi, i));
    }
  }

  lemma {:induction false} BuiltWithin(lo: nat, hi: nat, n: nat)
    requires lo < hi <= n
    ensures BuildMergeTask(lo, hi).Within(n)
  {
    BuiltTreeLeaves(lo, hi);
    LeavesWithin(BuildMergeTask(lo, hi), lo, hi);
    WithinMore(BuildMergeTask(lo, hi), hi, n);
  }

  /** The goroutine of one task: the upper entry takes on the merged header. */
  method MergeInto(dimgs: seq<DimgEntry>, mergedPath: string, lo: nat, mid: nat) returns (r: Result<DimgEntry>)
    requires lo < mid < |dimgs| && Distinct(dimgs)
    modifies dimgs[lo]
    ensures r.Success? <==> MergeHeaders(old(dimgs[mid].header), old(dimgs[lo].header)).Success?
    ensures r.Success? ==> r.value == dimgs[lo] && MergeHeaders(old(dimgs[mid].header), old(dimgs[lo].header)) == Success(dimgs[lo].header)
    ensures r.Success? ==> dimgs[lo].path == mergedPath
    ensures r.Failure? ==> dimgs[lo].header == old(dimgs[lo].header) && dimgs[lo].path == old(dimgs[lo].path)
    ensures forall i :: 0 <= i < |dimgs| && i != lo ==> dimgs[i].header == old(dimgs[i].header) && dimgs[i].path == old(dimgs[i].path)
  {
    var upperDimg, lowerDimg := dimgs[lo], dimgs[mid];
    var header := MergeHeaders(lowerDimg.header, upperDimg.header);
    if header.Failure? {
      return Failure("failed to merge");
    }
    upperDimg.header := header.value;
    upperDimg.path := mergedPath;
    return Success(upperDimg);
  }

  /**
    The outcome of a task over a stretch: its merges have settled the stretch, or, when one has failed,
    every entry still carries the result of some task; and nothing else has changed.
  */
  ghost predicate TaskDone(r: Result<DimgEntry>, dimgs: seq<DimgEntry>, now: Carried, earlier: Carried, before: Carried,
                           mergedPath: MergedPaths, lo: nat, hi: nat)
    requires lo < hi <= |dimgs| == |now.headers| == |now.paths| == |before.headers| == |before.paths|
  {
    && BuildMergeTask(lo, hi).Within(|dimgs|)
    && (r.Success? <==> TaskResult(before.headers, BuildMergeTask(lo, hi)).Success?)
    && (r.Success? ==> r.value == dimgs[lo] && now.Settled(before, mergedPath, lo, hi, lo))
    && now.HoldTasks(before, mergedPath, lo, hi)
    && now.Agrees(earlier, 0, lo) && now.Agrees(earlier, hi, |dimgs|)
  }

  lemma {:induction false} LeafDone(r: Result<DimgEntry>, dimgs: seq<DimgEntry>, now: Carried, before: Carried, mergedPath: MergedPaths, lo: nat)
    requires lo < |dimgs| == |now.headers| == |now.paths| == |before.headers| == |before.paths|
    requires r == Success(dimgs[lo]) && now.Agrees(before, lo, lo + 1)
    ensures TaskDone(r, dimgs, now, now, before, mergedPath, lo, lo + 1)
  {
    assert now.HoldsStretch(before, mergedPath, lo, StretchEnd(lo, lo + 1, lo));
    UnwrittenHoldTasks(now, before, mergedPath, lo, lo + 1);
  }

  /** A task of which one half has failed has failed, with nothing written outside its stretch. */
  lemma {:induction false} HalfFailed(r: Result<DimgEntry>, dimgs: seq<DimgEntry>, now: Carried, earlier: Carried, before: Carried,
                                      mergedPath: MergedPaths, lo: nat, hi: nat)
    requires lo + 1 < hi <= |dimgs| == |now.headers| == |now.paths| == |before.headers| == |before.paths|
    requires BuildMergeTask(lo, hi).Within(|dimgs|) && r.Failure? && TaskResult(before.headers, BuildMergeTask(lo, hi)).Failure?
    requires now.HoldTasks(before, mergedPath, lo, hi) && now.Agrees(earlier, 0, lo) && now.Agrees(earlier, hi, |dimgs|)
    ensures TaskDone(r, dimgs, now, earlier, before, mergedPath, lo, hi)
  {
  }

  /**
    `runMergeDimgTask` on a stretch of the chain, one merge at a time: the lower half, the upper half,
    then both. The upper entry is overwritten and carries the result; so do, for the tasks below, the
    upper entries of these.
  */
  method RunMergeDimgTask(dimgs: seq<DimgEntry>, mergedPath: MergedPaths, lo: nat, hi: nat, ghost before: Carried)
    returns (r: Result<DimgEntry>)
    requires lo < hi <= |dimgs| && Distinct(dimgs) && CarriedBy(dimgs).Agrees(before, lo, hi)
    modifies dimgs
    ensures TaskDone(r, dimgs, CarriedBy(dimgs), old(CarriedBy(dimgs)), before, mergedPath, lo, hi)
    decreases hi - lo, 1
  {
    if hi - lo == 1 {
      r := Success(dimgs[lo]);
      LeafDone(r, dimgs, CarriedBy(dimgs), before, mergedPath, lo);
    } else {
      r := RunHalves(dimgs, mergedPath, lo, lo + (hi - lo) / 2, hi, before);
    }
  }

  method RunHalves(dimgs: seq<DimgEntry>, mergedPath: MergedPaths, lo: nat, mid: nat, hi: nat, ghost before: Carried)
    returns (r: Result<DimgEntry>)
    requires lo + 1 < hi <= |dimgs| && mid == lo + (hi - lo) / 2 && Distinct(dimgs) && CarriedBy(dimgs).Agrees(before, lo, hi)
    modifies dimgs
    ensures TaskDone(r, dimgs, CarriedBy(dimgs), old(CarriedBy(dimgs)), before, mergedPath, lo, hi)
    decreases hi - lo, 0
  {
    ghost var earlier := CarriedBy(dimgs);
    FailureOfHalf(before.headers, lo, hi);
    r := RunMergeDimgTask(dimgs, mergedPath, mid, hi, before);
    ghost var later := CarriedBy(dimgs);
    if r.Failure? {
      UnwrittenHoldTasks(later, before, mergedPath, lo, mid);
      HalvesHoldTasks(later, later, before, mergedPath, lo, mid, hi);
      HalfFailed(r, dimgs, later, earlier, before, mergedPath, lo, hi);
    } else {
      r := RunMergeDimgTask(dimgs, mergedPath, lo, mid, before);
      if r.Failure? {
        HalvesHoldTasks(later, CarriedBy(dimgs), before, mergedPath, lo, mid, hi);
        HalfFailed(r, dimgs, CarriedBy(dimgs), earlier, before, mergedPath, lo, hi);
      } else {
        StillSettled(later, CarriedBy(dimgs), before, mergedPath, mid, hi, mid);
        r := MergeHalves(dimgs, mergedPath, lo, mid, hi, before);
      }
    }
  }

  /** A task fails when one of its halves does. */
  lemma {:induction false} FailureOfHalf(chain: seq<DimgHeader>, lo: nat, hi: nat)
    requires lo + 1 < hi <= |chain|
    ensures var mid := lo + (hi - lo) / 2;
            && BuildMergeTask(lo, hi).Within(|chain|) && BuildMergeTask(lo, mid).Within(|chain|) && BuildMergeTask(mid, hi).Within(|chain|)
            && (TaskResult(chain, BuildMergeTask(lo, mid)).Failure? ==> TaskResult(chain, BuildMergeTask(lo, hi)).Failure?)
            && (TaskResult(chain, BuildMergeTask(mid, hi)).Failure? ==> TaskResult(chain, BuildMergeTask(lo, hi)).Failure?)
  {
    BuiltWithin(lo, hi, |chain|);
    var upper, lower := BuiltHalves(lo, hi);
  }

  /** The last step of a task. */
  method MergeHalves(dimgs: seq<DimgEntry>, mergedPath: MergedPaths, lo: nat, mid: nat, hi: nat, ghost before: Carried)
    returns (r: Result<DimgEntry>)
    requires lo + 1 < hi <= |dimgs| == |before.headers| == |before.paths| && Distinct(dimgs) && mid == lo + (hi - lo) / 2
    requires CarriedBy(dimgs).Settled(before, mergedPath, lo, mid, lo) && CarriedBy(dimgs).Settled(before, mergedPath, mid, hi, mid)
    modifies dimgs[lo]
    ensures TaskDone(r, dimgs, CarriedBy(dimgs), old(CarriedBy(dimgs)), before, mergedPath, lo, hi)
  {
    BuiltWithin(lo, hi, |dimgs|);
    ghost var now := CarriedBy(dimgs);
    HalvesMerged(now, before, mergedPath, lo, mid, hi);
    r := MergeInto(dimgs, mergedPath(lo, hi), lo, mid);
    ghost var later := CarriedBy(dimgs);
    assert later.Agrees(now, 0, lo) && later.Agrees(now, lo + 1, |dimgs|);
    if r.Success? {
      StillSettled(now, later, before, mergedPath, lo, mid, lo + 1);
      StillSettled(now, later, before, mergedPath, mid, hi, mid);
      SettledHalves(later, before, mergedPath, lo, mid, hi);
      SettledHoldTasks(later, before, mergedPath, lo, hi);
    } else {
      SettledHoldTasks(now, before, mergedPath, lo, mid);
      SettledHoldTasks(now, before, mergedPath, mid, hi);
      HalvesHoldTasks(now, now, before, mergedPath, lo, mid, hi);
      assert later == now;
    }
  }

  /** The top entry of a settled stretch carries the result of the whole stretch. */
  lemma {:induction false} TopSettled(now: Carried, before: Carried, mergedPath: MergedPaths, lo: nat, hi: nat, t: MergeTask)
    requires lo < hi <= |now.headers| == |now.paths| == |before.headers| == |before.paths| && now.Settled(before, mergedPath, lo, hi, lo)
    requires t == BuildMergeTask(lo, hi)
    ensures t.Within(|now.headers|) && TaskResult(before.headers, t) == Success(now.headers[lo])
  {
    assert now.HoldsStretch(before, mergedPath, lo, StretchEnd(lo, hi, lo));
  }

  /** The result of a task is that of merging what its halves have left in their upper entries. */
  lemma {:induction false} HalvesMerged(now: Carried, before: Carried, mergedPath: MergedPaths, lo: nat, mid: nat, hi: nat)
    requires lo + 1 < hi <= |now.headers| == |now.paths| == |before.headers| == |before.paths| && mid == lo + (hi - lo) / 2
    requires now.Settled(before, mergedPath, lo, mid, lo) && now.Settled(before, mergedPath, mid, hi, mid)
    ensures BuildMergeTask(lo, hi).Within(|now.headers|)
    ensures TaskResult(before.headers, BuildMergeTask(lo, hi)) == MergeHeaders(now.headers[mid], now.headers[lo])
  {
    BuiltWithin(lo, hi, |now.headers|);
    var upper, lower := BuiltHalves(lo, hi);
    TopSettled(now, before, mergedPath, lo, mid, upper);
    TopSettled(now, before, mergedPath, mid, hi, lower);
    ResultOfHalves(before.headers, upper, lower, now.headers[lo], now.headers[mid]);
  }

  lemma {:induction false} ResultOfHalves(chain: seq<DimgHeader>, upper: MergeTask, lower: MergeTask,
                                          upperResult: DimgHeader, lowerResult: DimgHeader)
    requires Merge(upper, lower).Within(|chain|)
    requires TaskResult(chain, upper) == Success(upperResult) && TaskResult(chain, lower) == Success(lowerResult)
    ensures TaskResult(chain, Merge(upper, lower)) == MergeHeaders(lowerResult, upperResult)
  {
  }

  /** `MergeDimgsWithBisectMultithread`, on the schedule that runs one merge at a time. */
  method MergeDimgsWithBisect(dimgs: seq<DimgEntry>, mergedPath: MergedPaths) returns (r: Result<DimgEntry>)
    requires Distinct(dimgs)
    modifies dimgs
    ensures dimgs == [] ==> r.Failure?
    ensures dimgs != [] ==> TaskDone(r, dimgs, CarriedBy(dimgs), old(CarriedBy(dimgs)), old(CarriedBy(dimgs)), mergedPath, 0, |dimgs|)
  {
    if |dimgs| == 0 {
      return Failure("mergeTasks is nil");
    }
    r := RunMergeDimgTask(dimgs, mergedPath, 0, |dimgs|, CarriedBy(dimgs));
  }
}
