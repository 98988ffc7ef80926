/**
  Merging two block lists without the base file (pkg/bsdiffx/merge.go).
*/
module BlockMerge {
  import opened Results
  import opened DeltaOps
  import opened Blocks

  // ---------------------------------------------------------------- getBlock

  /** The half-open index range that the search still looks at. */
  datatype Window = Window(lo: nat, hi: nat)

  datatype Probe = Found(index: nat) | Absent | Narrowed(window: Window)

  /** One round of the search loop of `getBlock`. */
  function ProbeWindow(pos: int, blocks: seq<DiffBlock>, w: Window): Probe
    requires (w.lo + w.hi) / 2 < |blocks|
  {
    var idx := (w.lo + w.hi) / 2;
    var b := blocks[idx];
    if b.newPos <= pos < b.End() then Found(idx)
    else if w.lo == w.hi then Absent
    else if pos < b.newPos then Narrowed(Window(w.lo, idx))
    else Narrowed(Window(idx, w.hi))
  }

  /**
    The binary search for the block that covers `pos`. The precondition is exact:
    past the end of the blocks the loop never ends (`SearchPastEndNeverReturns`).
  */
  method GetBlock(pos: int, blocks: seq<DiffBlock>) returns (found: Option<nat>)
    requires Tiles(blocks) && blocks != [] && pos < TotalSize(blocks)
    ensures found.Some? <==> 0 <= pos
    ensures found.Some? ==> found.value < |blocks| && blocks[found.value].newPos <= pos < blocks[found.value].End()
    ensures found.Some? ==> forall k :: 0 <= k < |blocks| && k != found.value ==> !(blocks[k].newPos <= pos < blocks[k].End())
  {
    var start, end := 0, |blocks|;
    while true
      invariant 0 <= start <= end <= |blocks| && start < |blocks|
      invariant start == 0 || blocks[start].newPos <= pos
      invariant end == |blocks| || pos < blocks[end].newPos
      invariant start == end ==> pos < 0
      decreases end - start
    {
      var idx := (start + end) / 2;
      var b := blocks[idx];
      assert Follows(blocks, 0) && (idx + 1 < |blocks| ==> Follows(blocks, idx + 1));
      if b.newPos <= pos < b.End() {
        assert Follows(blocks, idx);
        forall k | 0 <= k < |blocks| && k != idx
          ensures !(blocks[k].newPos <= pos < blocks[k].End())
        {
          if k < idx {
            BlocksInOrder(blocks, k, idx);
          } else {
            BlocksInOrder(blocks, idx, k);
          }
        }
        StartNonNegative(blocks, idx);
        return Some(idx);
      }
      if start == end {
        return None;
      }
      if pos < b.newPos {
        end := idx;
      } else {
        start := idx;
      }
    }
  }

  /** The window after the given number of rounds, as long as no round has decided. */
  function ProbeRounds(pos: int, blocks: seq<DiffBlock>, rounds: nat): Probe
    requires blocks != []
    ensures var p := ProbeRounds(pos, blocks, rounds); p.Narrowed? ==> p.window.lo <= p.window.hi <= |blocks| && p.window.lo < |blocks|
  {
    if rounds == 0 then Narrowed(Window(0, |blocks|))
    else
      var before := ProbeRounds(pos, blocks, rounds - 1);
      if before.Narrowed? then ProbeWindow(pos, blocks, before.window) else before
  }

  /** At or past the end of the new file no number of rounds decides: the source's loop hangs there. */
  lemma {:induction false} SearchPastEndNeverReturns(pos: int, blocks: seq<DiffBlock>, rounds: nat)
    requires Tiles(blocks) && blocks != [] && TotalSize(blocks) <= pos
    ensures ProbeRounds(pos, blocks, rounds).Narrowed?
    ensures ProbeRounds(pos, blocks, rounds).window.hi == |blocks|
  {
    if rounds > 0 {
      SearchPastEndNeverReturns(pos, blocks, rounds - 1);
      var w := ProbeRounds(pos, blocks, rounds - 1).window;
      var idx := (w.lo + w.hi) / 2;
      if idx < |blocks| - 1 {
        BlocksInOrder(blocks, idx, |blocks| - 1);
      }
    }
  }

  // ------------------------------------------------------------- mergeBlocks

  /** What has been put into the block under construction since it was opened. */
  datatype Phase = Fresh | HasAdd | HasInsert

  /** The block under construction and the finished ones. */
  datatype Accumulator = Accumulator(phase: Phase, block: DiffBlock, merged: seq<DiffBlock>)
  {
    function Flush(): Accumulator {
      Accumulator(Fresh, NewDiffBlock(0, 0), merged + [block])
    }

    /** Copied bytes cannot follow stored ones in the same block. */
    function FlushStored(): Accumulator {
      if phase == HasInsert then Flush() else this
    }

    /** Appends stored bytes; a fresh block starts at `newPos`. */
    function Store(newPos: int, bytes: Bytes): Accumulator {
      var b := if phase == Fresh then block.(newPos := newPos) else block;
      Accumulator(HasInsert, b.(insertBytes := b.insertBytes + bytes), merged)
    }

    /** Appends copied bytes; a fresh block starts at `oldPos` and `newPos`. */
    function Add(oldPos: int, newPos: int, bytes: Bytes): Accumulator {
      var b := if phase == Fresh then block.(oldPos := oldPos, newPos := newPos) else block;
      Accumulator(HasAdd, b.(addBytes := b.addBytes + bytes), merged)
    }
  }

  function NewDiffBlock(oldPos: int, newPos: int): DiffBlock {
    DiffBlock(oldPos, newPos, [], [])
  }

  function Pending(acc: Accumulator): Delta {
    if acc.phase == Fresh then [] else BlockOps(acc.block)
  }

  ghost predicate ReadsInside(b: DiffBlock, other: DiffBlock) {
    other.oldPos <= b.oldPos && b.oldPos + |b.addBytes| <= other.oldPos + |other.addBytes|
  }

  /** A merged block reads nothing, or reads inside what one lower block reads. */
  ghost predicate DrawnFrom(b: DiffBlock, lower: seq<DiffBlock>) {
    if b.addBytes == [] then b.oldPos == 0
    else exists other :: other in lower && ReadsInside(b, other)
  }

  ghost predicate AllDrawnFrom(blocks: seq<DiffBlock>, lower: seq<DiffBlock>) {
    forall i :: 0 <= i < |blocks| ==> DrawnFrom(blocks[i], lower)
  }

  /** The accumulated blocks mean exactly the first `reach` operations of the composition `all`. */
  ghost predicate Accumulated(acc: Accumulator, lower: seq<DiffBlock>, all: Delta, reach: int) {
    && 0 <= reach <= |all|
    && Tiles(acc.merged)
    && AllDrawnFrom(acc.merged, lower)
    && Ops(acc.merged) + Pending(acc) == all[..reach]
    && (acc.phase == Fresh ==> acc.block.addBytes == [] && acc.block.insertBytes == [] && acc.block.oldPos == 0)
    && (acc.phase == HasAdd ==> acc.block.addBytes != [] && acc.block.insertBytes == [])
    && (acc.phase == HasInsert ==> acc.block.insertBytes != [])
    && (acc.phase != Fresh ==> acc.block.newPos == TotalSize(acc.merged) && DrawnFrom(acc.block, lower))
  }

  lemma {:induction false} FlushAccumulated(acc: Accumulator, lower: seq<DiffBlock>, all: Delta, reach: int)
    requires Accumulated(acc, lower, all, reach) && acc.phase != Fresh
    ensures Accumulated(acc.Flush(), lower, all, reach)
  {
    FlushedOps(acc);
    TilesAppend(acc.merged, acc.block);
    DrawnAppend(acc.merged, acc.block, lower);
  }

  lemma {:induction false} FlushedOps(acc: Accumulator)
    requires acc.phase != Fresh
    ensures Ops(acc.Flush().merged) + Pending(acc.Flush()) == Ops(acc.merged) + Pending(acc)
  {
    OpsAppend(acc.merged, acc.block);
  }

  lemma {:induction false} DrawnAppend(blocks: seq<DiffBlock>, b: DiffBlock, lower: seq<DiffBlock>)
    requires AllDrawnFrom(blocks, lower) && DrawnFrom(b, lower)
    ensures AllDrawnFrom(blocks + [b], lower)
  {
  }

  lemma {:induction false} FlushStoredAccumulated(acc: Accumulator, lower: seq<DiffBlock>, all: Delta, reach: int)
    requires Accumulated(acc, lower, all, reach) && acc.phase != HasAdd
    ensures Accumulated(acc.FlushStored(), lower, all, reach) && acc.FlushStored().phase == Fresh
  {
    if acc.phase == HasInsert {
      FlushAccumulated(acc, lower, all, reach);
    }
  }

  lemma {:induction false} ReachIsSize(acc: Accumulator, lower: seq<DiffBlock>, all: Delta, reach: int)
    requires Accumulated(acc, lower, all, reach)
    ensures reach == TotalSize(acc.merged) + if acc.phase == Fresh then 0 else acc.block.Size()
  {
    OpsLength(acc.merged);
  }

  ghost predicate IsNextChunk(chunk: Delta, all: Delta, reach: int) {
    0 <= reach && reach + |chunk| <= |all| && all[reach..reach + |chunk|] == chunk
  }

  /** Storing bytes extends the block under construction, whatever it holds already. */
  lemma {:induction false} StoreAccumulated(acc: Accumulator, bytes: Bytes, lower: seq<DiffBlock>, all: Delta, reach: int)
    requires Accumulated(acc, lower, all, reach) && bytes != []
    requires IsNextChunk(InsertRun(bytes), all, reach)
    ensures Accumulated(acc.Store(reach, bytes), lower, all, reach + |bytes|)
  {
    ReachIsSize(acc, lower, all, reach);
    StoredOps(acc, reach, bytes);
    GrownOps(acc, acc.Store(reach, bytes), InsertRun(bytes), all, reach);
  }

  lemma {:induction false} StoredOps(acc: Accumulator, newPos: int, bytes: Bytes)
    requires acc.phase == Fresh ==> acc.block.addBytes == [] && acc.block.insertBytes == []
    ensures BlockOps(acc.Store(newPos, bytes).block) == Pending(acc) + InsertRun(bytes)
  {
  }

  /** Copied bytes open a new block. */
  lemma {:induction false} AddAccumulated(acc: Accumulator, oldPos: int, bytes: Bytes, lowerBlock: DiffBlock,
                       lower: seq<DiffBlock>, all: Delta, reach: int)
    requires Accumulated(acc, lower, all, reach) && acc.phase == Fresh && bytes != []
    requires IsNextChunk(CopyRun(oldPos, bytes), all, reach)
    requires lowerBlock in lower
    requires lowerBlock.oldPos <= oldPos && oldPos + |bytes| <= lowerBlock.oldPos + |lowerBlock.addBytes|
    ensures Accumulated(acc.Add(oldPos, reach, bytes), lower, all, reach + |bytes|)
  {
    ReachIsSize(acc, lower, all, reach);
    AddedOps(acc, oldPos, reach, bytes);
    assert ReadsInside(acc.Add(oldPos, reach, bytes).block, lowerBlock);
    GrownOps(acc, acc.Add(oldPos, reach, bytes), CopyRun(oldPos, bytes), all, reach);
  }

  lemma {:induction false} AddedOps(acc: Accumulator, oldPos: int, newPos: int, bytes: Bytes)
    requires acc.phase == Fresh && acc.block.addBytes == [] && acc.block.insertBytes == []
    ensures acc.Add(oldPos, newPos, bytes).block == DiffBlock(oldPos, newPos, bytes, [])
    ensures BlockOps(acc.Add(oldPos, newPos, bytes).block) == Pending(acc) + CopyRun(oldPos, bytes)
  {
  }

  /** With the next operations pending, the accumulated blocks reach further by these. */
  lemma {:induction false} GrownOps(acc: Accumulator, acc': Accumulator, chunk: Delta, all: Delta, reach: int)
    requires acc'.merged == acc.merged && Pending(acc') == Pending(acc) + chunk
    requires IsNextChunk(chunk, all, reach) && Ops(acc.merged) + Pending(acc) == all[..reach]
    ensures Ops(acc'.merged) + Pending(acc') == all[..reach + |chunk|]
  {
    assert Ops(acc'.merged) + (Pending(acc) + chunk) == Ops(acc.merged) + Pending(acc) + chunk;
    assert all[..reach + |chunk|] == all[..reach] + all[reach..reach + |chunk|];
  }

  function Min(a: int, b: int): int {
    if a < b then a else b
  }

  function AddRuns(a: Bytes, b: Bytes): Bytes
    requires |a| == |b|
  {
    seq(|a|, i requires 0 <= i < |a| => AddByte(a[i], b[i]))
  }

  /** Where both blocks copy, the next operations copy with the differences added up. */
  lemma {:induction false} CopyChunk(lo: Delta, up: Delta, lb: DiffBlock, ub: DiffBlock, cur: nat, below: nat, n: nat)
    requires Covers(lb, lo) && Covers(ub, up)
    requires cur + n <= |ub.addBytes| && below + n <= |lb.addBytes|
    requires ub.oldPos + cur == lb.newPos + below
    ensures IsNextChunk(CopyRun(lb.oldPos + below, AddRuns(lb.addBytes[below..below + n], ub.addBytes[cur..cur + n])),
                        Compose(lo, up), ub.newPos + cur)
  {
    var chunk := CopyRun(lb.oldPos + below, AddRuns(lb.addBytes[below..below + n], ub.addBytes[cur..cur + n]));
    forall i | 0 <= i < |chunk|
      ensures chunk[i] == Compose(lo, up)[ub.newPos + cur + i]
    {
      CoversAt(lb, lo, below + i);
      CoversAt(ub, up, cur + i);
    }
  }

  /** Where the lower block stores and the upper one copies, the sums are stored. */
  lemma {:induction false} SumChunk(lo: Delta, up: Delta, lb: DiffBlock, ub: DiffBlock, cur: nat, below: nat, n: nat)
    requires Covers(lb, lo) && Covers(ub, up)
    requires cur + n <= |ub.addBytes| && below + n <= |lb.insertBytes|
    requires ub.oldPos + cur == lb.InsertPos() + below
    ensures IsNextChunk(InsertRun(AddRuns(lb.insertBytes[below..below + n], ub.addBytes[cur..cur + n])),
                        Compose(lo, up), ub.newPos + cur)
  {
    var chunk := InsertRun(AddRuns(lb.insertBytes[below..below + n], ub.addBytes[cur..cur + n]));
    forall i | 0 <= i < |chunk|
      ensures chunk[i] == Compose(lo, up)[ub.newPos + cur + i]
    {
      CoversAt(lb, lo, |lb.addBytes| + below + i);
      CoversAt(ub, up, cur + i);
    }
  }

  /** Where the upper block stores, the lower delta plays no part. */
  lemma {:induction false} StoredChunk(lo: Delta, up: Delta, ub: DiffBlock, begin: nat, n: nat)
    requires Covers(ub, up)
    requires begin + n <= |ub.insertBytes|
    ensures IsNextChunk(InsertRun(ub.insertBytes[begin..begin + n]), Compose(lo, up), ub.InsertPos() + begin)
  {
    var chunk := InsertRun(ub.insertBytes[begin..begin + n]);
    forall i | 0 <= i < |chunk|
      ensures chunk[i] == Compose(lo, up)[ub.InsertPos() + begin + i]
    {
      CoversAt(ub, up, |ub.addBytes| + begin + i);
    }
  }

  /** The differences of both blocks, added up. */
  method TakeCopied(ghost lo: Delta, ghost up: Delta, lowerBlock: DiffBlock, upperBlock: DiffBlock, cur: nat, below: nat, n: nat)
    returns (bytes: Bytes)
    requires Covers(lowerBlock, lo) && Covers(upperBlock, up)
    requires cur + n <= |upperBlock.addBytes| && below + n <= |lowerBlock.addBytes|
    requires upperBlock.oldPos + cur == lowerBlock.newPos + below
    ensures |bytes| == n && IsNextChunk(CopyRun(lowerBlock.oldPos + below, bytes), Compose(lo, up), upperBlock.newPos + cur)
  {
    CopyChunk(lo, up, lowerBlock, upperBlock, cur, below, n);
    bytes := AddRuns(lowerBlock.addBytes[below..below + n], upperBlock.addBytes[cur..cur + n]);
  }

  /** Stored bytes of the lower block with the differences of the upper one added. */
  method TakeSums(ghost lo: Delta, ghost up: Delta, lowerBlock: DiffBlock, upperBlock: DiffBlock, cur: nat, begin: nat, n: nat)
    returns (bytes: Bytes)
    requires Covers(lowerBlock, lo) && Covers(upperBlock, up)
    requires cur + n <= |upperBlock.addBytes| && begin + n <= |lowerBlock.insertBytes|
    requires upperBlock.oldPos + cur == lowerBlock.InsertPos() + begin
    ensures |bytes| == n && IsNextChunk(InsertRun(bytes), Compose(lo, up), upperBlock.newPos + cur)
  {
    SumChunk(lo, up, lowerBlock, upperBlock, cur, begin, n);
    bytes := AddRuns(lowerBlock.insertBytes[begin..begin + n], upperBlock.addBytes[cur..cur + n]);
  }

  method TakeStored(ghost lo: Delta, ghost up: Delta, upperBlock: DiffBlock, begin: nat, n: nat) returns (bytes: Bytes)
    requires Covers(upperBlock, up) && begin + n <= |upperBlock.insertBytes|
    ensures |bytes| == n && IsNextChunk(InsertRun(bytes), Compose(lo, up), upperBlock.InsertPos() + begin)
  {
    StoredChunk(lo, up, upperBlock, begin, n);
    bytes := upperBlock.insertBytes[begin..begin + n];
  }

  /** Copies the next stored bytes of the upper block. */
  method StoreUpper(ghost lower: seq<DiffBlock>, ghost lo: Delta, ghost up: Delta,
                    upperBlock: DiffBlock, cur: nat, n: nat, before: Accumulator)
    returns (acc: Accumulator)
    requires Covers(upperBlock, up)
    requires |upperBlock.addBytes| <= cur && 0 < n && cur + n <= upperBlock.Size()
    requires Accumulated(before, lower, Compose(lo, up), upperBlock.newPos + cur)
    ensures Accumulated(acc, lower, Compose(lo, up), upperBlock.newPos + cur + n)
    ensures acc.phase == HasInsert
  {
    var bytes := TakeStored(lo, up, upperBlock, cur - |upperBlock.addBytes|, n);
    StoreAccumulated(before, bytes, lower, Compose(lo, up), upperBlock.newPos + cur);
    acc := before.Store(upperBlock.newPos + cur, bytes);
  }

  /** Opens a block of its own for copied bytes; a block of stored bytes is flushed before. */
  method OpenBlock(ghost lower: seq<DiffBlock>, ghost all: Delta, ghost lowerBlock: DiffBlock,
                   oldPos: int, reach: int, bytes: Bytes, before: Accumulator)
    returns (acc: Accumulator)
    requires Accumulated(before, lower, all, reach) && before.phase != HasAdd && bytes != []
    requires IsNextChunk(CopyRun(oldPos, bytes), all, reach) && lowerBlock in lower
    requires lowerBlock.oldPos <= oldPos && oldPos + |bytes| <= lowerBlock.oldPos + |lowerBlock.addBytes|
    ensures Accumulated(acc, lower, all, reach + |bytes|)
    ensures acc.phase == HasAdd
  {
    FlushStoredAccumulated(before, lower, all, reach);
    acc := before.FlushStored();
    AddAccumulated(acc, oldPos, bytes, lowerBlock, lower, all, reach);
    acc := acc.Add(oldPos, reach, bytes);
  }

  /** Copies with the differences of both blocks added up, in a block of its own. */
  method AddBoth(ghost lower: seq<DiffBlock>, ghost lo: Delta, ghost up: Delta, lowerBlock: DiffBlock,
                 upperBlock: DiffBlock, cur: nat, below: nat, n: nat, before: Accumulator)
    returns (acc: Accumulator)
    requires lowerBlock in lower && Covers(lowerBlock, lo) && Covers(upperBlock, up)
    requires 0 < n && cur + n <= |upperBlock.addBytes| && below + n <= |lowerBlock.addBytes|
    requires upperBlock.oldPos + cur == lowerBlock.newPos + below
    requires Accumulated(before, lower, Compose(lo, up), upperBlock.newPos + cur) && before.phase != HasAdd
    ensures Accumulated(acc, lower, Compose(lo, up), upperBlock.newPos + cur + n)
    ensures acc.phase == HasAdd
  {
    var bytes := TakeCopied(lo, up, lowerBlock, upperBlock, cur, below, n);
    acc := OpenBlock(lower, Compose(lo, up), lowerBlock, lowerBlock.oldPos + below, upperBlock.newPos + cur, bytes, before);
  }

  /** Stores the sums of lower stored bytes and upper differences. */
  method StoreSums(ghost lower: seq<DiffBlock>, ghost lo: Delta, ghost up: Delta, lowerBlock: DiffBlock,
                   upperBlock: DiffBlock, cur: nat, begin: nat, n: nat, before: Accumulator)
    returns (acc: Accumulator)
    requires Covers(lowerBlock, lo) && Covers(upperBlock, up)
    requires 0 < n && cur + n <= |upperBlock.addBytes| && begin + n <= |lowerBlock.insertBytes|
    requires upperBlock.oldPos + cur == lowerBlock.InsertPos() + begin
    requires Accumulated(before, lower, Compose(lo, up), upperBlock.newPos + cur)
    ensures Accumulated(acc, lower, Compose(lo, up), upperBlock.newPos + cur + n)
    ensures acc.phase == HasInsert
  {
    var bytes := TakeSums(lo, up, lowerBlock, upperBlock, cur, begin, n);
    StoreAccumulated(before, bytes, lower, Compose(lo, up), upperBlock.newPos + cur);
    acc := before.Store(upperBlock.newPos + cur, bytes);
  }

  /** The two blocks that meet are never both inside their add bytes once the merged block has some. */
  predicate AddsAreDone(acc: Accumulator, lowerBlock: DiffBlock, upperBlock: DiffBlock, cur: int) {
    acc.phase == HasAdd ==> upperBlock.oldPos + cur >= lowerBlock.InsertPos() || cur >= |upperBlock.addBytes|
  }

  /** One round of the inner loop: as many bytes as both blocks treat in the same way. */
  method MergeRun(ghost lower: seq<DiffBlock>, ghost lo: Delta, ghost up: Delta,
                  lowerBlock: DiffBlock, upperBlock: DiffBlock, cur: nat, before: Accumulator)
    returns (acc: Accumulator, next: nat)
    requires lowerBlock in lower && Covers(lowerBlock, lo) && Covers(upperBlock, up)
    requires cur < upperBlock.Size() && lowerBlock.newPos <= upperBlock.oldPos + cur < lowerBlock.End()
    requires Accumulated(before, lower, Compose(lo, up), upperBlock.newPos + cur)
    requires AddsAreDone(before, lowerBlock, upperBlock, cur)
    ensures cur < next <= upperBlock.Size() && upperBlock.oldPos + next <= lowerBlock.End()
    ensures Accumulated(acc, lower, Compose(lo, up), upperBlock.newPos + next)
    ensures acc.phase != Fresh
    ensures AddsAreDone(acc, lowerBlock, upperBlock, next)
  {
    acc := before;
    var below := upperBlock.oldPos + cur - lowerBlock.newPos;
    var n: nat;
    if upperBlock.oldPos + cur < lowerBlock.InsertPos() {
      var lowerRest := |lowerBlock.addBytes| - below;
      if upperBlock.newPos + cur < upperBlock.InsertPos() {
        // lower ADD, upper ADD
        n := Min(lowerRest, |upperBlock.addBytes| - cur);
        acc := AddBoth(lower, lo, up, lowerBlock, upperBlock, cur, below, n, acc);
      } else {
        // lower ADD, upper INSERT
        n := Min(lowerRest, upperBlock.Size() - cur);
        acc := StoreUpper(lower, lo, up, upperBlock, cur, n, acc);
      }
    } else {
      var lowerBegin := below - |lowerBlock.addBytes|;
      var lowerRest := |lowerBlock.insertBytes| - lowerBegin;
      if upperBlock.newPos + cur < upperBlock.InsertPos() {
        // lower INSERT, upper ADD
        n := Min(lowerRest, |upperBlock.addBytes| - cur);
        acc := StoreSums(lower, lo, up, lowerBlock, upperBlock, cur, lowerBegin, n, acc);
      } else {
        // lower INSERT, upper INSERT
        n := Min(lowerRest, upperBlock.Size() - cur);
        acc := StoreUpper(lower, lo, up, upperBlock, cur, n, acc);
      }
    }
    next := cur + n;
  }

  /** The inner loop: the part of an upper block that lies over one lower block. */
  method MergeOverBlock(ghost lower: seq<DiffBlock>, ghost lo: Delta, ghost up: Delta,
                        lowerBlock: DiffBlock, upperBlock: DiffBlock, start: nat, before: Accumulator)
    returns (acc: Accumulator, cur: nat)
    requires lowerBlock in lower && Covers(lowerBlock, lo) && Covers(upperBlock, up)
    requires start < upperBlock.Size() && lowerBlock.newPos <= upperBlock.oldPos + start < lowerBlock.End()
    requires Accumulated(before, lower, Compose(lo, up), upperBlock.newPos + start) && before.phase != HasAdd
    ensures start < cur <= upperBlock.Size() && upperBlock.oldPos + cur <= lowerBlock.End()
    ensures Accumulated(acc, lower, Compose(lo, up), upperBlock.newPos + cur)
    ensures acc.phase != Fresh
  {
    acc, cur := before, start;
    while cur < upperBlock.Size() && upperBlock.oldPos + cur < lowerBlock.End()
      invariant start <= cur <= upperBlock.Size()
      invariant lowerBlock.newPos <= upperBlock.oldPos + cur <= lowerBlock.End()
      invariant Accumulated(acc, lower, Compose(lo, up), upperBlock.newPos + cur)
      invariant AddsAreDone(acc, lowerBlock, upperBlock, cur)
      invariant start < cur ==> acc.phase != Fresh
    {
      acc, cur := MergeRun(lower, lo, up, lowerBlock, upperBlock, cur, acc);
    }
  }

  /** The part of an upper block already merged reads inside the lower output. */
  predicate ReadSoFar(upperBlock: DiffBlock, lowerSize: int, cur: int) {
    cur > 0 ==> 0 <= upperBlock.oldPos < lowerSize && upperBlock.oldPos + Min(cur, |upperBlock.addBytes|) <= lowerSize
  }

  /** The blocks finished so far, between two upper blocks. */
  ghost predicate Finished(merged: seq<DiffBlock>, lower: seq<DiffBlock>, all: Delta, reach: int) {
    Accumulated(Accumulator(Fresh, NewDiffBlock(0, 0), merged), lower, all, reach)
  }

  /** The upper block has been merged up to `cur`, on top of the finished blocks. */
  ghost predicate InProgress(acc: Accumulator, lower: seq<DiffBlock>, all: Delta, upperBlock: DiffBlock, cur: nat) {
    && cur <= upperBlock.Size()
    && Accumulated(acc, lower, all, upperBlock.newPos + cur)
    && (acc.phase == Fresh <==> cur == 0)
    && ReadSoFar(upperBlock, TotalSize(lower), cur)
  }

  /** One round of the outer loop behind the end of the lower output: only stored bytes may be left. */
  method MergePastEnd(ghost lower: seq<DiffBlock>, ghost up: Delta, upperBlock: DiffBlock, cur: nat, before: Accumulator)
    returns (r: Result<Accumulator>)
    requires Covers(upperBlock, up) && cur < upperBlock.Size() && upperBlock.oldPos + cur >= TotalSize(lower)
    requires InProgress(before, lower, Compose(Ops(lower), up), upperBlock, cur)
    ensures r.Failure? ==> !ReadsWithin(upperBlock, TotalSize(lower))
    ensures r.Success? ==> InProgress(r.value, lower, Compose(Ops(lower), up), upperBlock, upperBlock.Size())
  {
    if upperBlock.newPos + cur < upperBlock.InsertPos() {
      return Failure("overlapped offset");
    }
    if before.phase == Fresh {
      return Failure("panic: stored bytes before any block");
    }
    ReadPastEnd(upperBlock, TotalSize(lower), cur);
    var acc := StoreUpper(lower, Ops(lower), up, upperBlock, cur, upperBlock.Size() - cur, before);
    return Success(acc);
  }

  /** Once the copied bytes are done, the rest of an upper block reads nothing. */
  lemma {:induction false} ReadPastEnd(upperBlock: DiffBlock, lowerSize: int, cur: nat)
    requires ReadSoFar(upperBlock, lowerSize, cur) && 0 < cur && |upperBlock.addBytes| <= cur < upperBlock.Size()
    ensures ReadSoFar(upperBlock, lowerSize, upperBlock.Size())
  {
  }

  /** Copied bytes so far make a block of their own. */
  method FlushAdded(before: Accumulator, ghost lower: seq<DiffBlock>, ghost all: Delta, ghost reach: int) returns (acc: Accumulator)
    requires Accumulated(before, lower, all, reach)
    ensures Accumulated(acc, lower, all, reach) && acc.phase != HasAdd
  {
    acc := before;
    if acc.phase == HasAdd {
      FlushAccumulated(acc, lower, all, reach);
      acc := acc.Flush();
    }
  }

  /** One round of the outer loop over a lower block; copied bytes before it make a block of their own. */
  method MergeNext(lower: seq<DiffBlock>, ghost up: Delta, upperBlock: DiffBlock, cur: nat, before: Accumulator)
    returns (r: Result<Accumulator>, next: nat)
    requires Tiles(lower) && Covers(upperBlock, up) && cur < upperBlock.Size()
    requires lower != [] && upperBlock.oldPos + cur < TotalSize(lower)
    requires InProgress(before, lower, Compose(Ops(lower), up), upperBlock, cur)
    ensures r.Failure? ==> !ReadsWithin(upperBlock, TotalSize(lower))
    ensures r.Success? ==> cur < next && InProgress(r.value, lower, Compose(Ops(lower), up), upperBlock, next)
  {
    next := cur;
    var found := GetBlock(upperBlock.oldPos + cur, lower);
    if found == None {
      return Failure("invalid lower blocks"), next;
    }
    var lowerBlock := lower[found.value];
    EndWithinTotal(lower, found.value);
    TilesCovers(lower, found.value);
    var acc := FlushAdded(before, lower, Compose(Ops(lower), up), upperBlock.newPos + cur);
    acc, next := MergeOverBlock(lower, Ops(lower), up, lowerBlock, upperBlock, cur, acc);
    return Success(acc), next;
  }

  lemma {:induction false} EndWithinTotal(blocks: seq<DiffBlock>, i: nat)
    requires Tiles(blocks) && i < |blocks|
    ensures 0 <= blocks[i].newPos && blocks[i].End() <= TotalSize(blocks)
  {
    TilesCovers(blocks, i);
    OpsLength(blocks);
  }

  /** The merge of one upper block: the outer loop's body. */
  method MergeUpperBlock(lower: seq<DiffBlock>, ghost up: Delta, upperBlock: DiffBlock, before: seq<DiffBlock>)
    returns (r: Result<seq<DiffBlock>>)
    requires Tiles(lower) && lower != [] && Covers(upperBlock, up) && upperBlock.Size() > 0
    requires Finished(before, lower, Compose(Ops(lower), up), upperBlock.newPos)
    ensures r.Success? <==> ReadsWithin(upperBlock, TotalSize(lower))
    ensures r.Success? ==> Finished(r.value, lower, Compose(Ops(lower), up), upperBlock.End())
  {
    ghost var all := Compose(Ops(lower), up);
    var lowerSize := TotalSize(lower);
    var cur: nat := 0;
    var acc := Accumulator(Fresh, NewDiffBlock(0, upperBlock.newPos), before);
    StartAccumulated(before, lower, all, upperBlock.newPos);
    while cur < upperBlock.Size()
      invariant InProgress(acc, lower, all, upperBlock, cur)
    {
      if upperBlock.oldPos + cur >= lowerSize {
        acc :- MergePastEnd(lower, up, upperBlock, cur, acc);
        cur := upperBlock.Size();
      } else {
        var step, next := MergeNext(lower, up, upperBlock, cur, acc);
        if step.Failure? {
          return Failure(step.reason);
        }
        acc, cur := step.value, next;
      }
    }
    FlushAccumulated(acc, lower, all, upperBlock.End());
    return Success(acc.Flush().merged);
  }

  /** Whatever position the next fresh block is given, it holds nothing yet. */
  lemma {:induction false} StartAccumulated(merged: seq<DiffBlock>, lower: seq<DiffBlock>, all: Delta, newPos: int)
    requires Finished(merged, lower, all, newPos)
    ensures Accumulated(Accumulator(Fresh, NewDiffBlock(0, newPos), merged), lower, all, newPos)
  {
  }

  /**
    `mergeBlocks`. It succeeds exactly when every upper block reads inside the lower output, and
    then its block list stands for the composition of the two patches, tiles the upper output, and is
    again a block list over every base that suits the lower one.
  */
  method MergeBlocks(lower: seq<DiffBlock>, upper: seq<DiffBlock>) returns (r: Result<seq<DiffBlock>>)
    requires Tiles(lower) && Tiles(upper)
    ensures r.Success? <==> lower != [] && AllReadWithin(upper, TotalSize(lower))
    ensures r.Success? ==> PatchOf(r.value) == ComposePatches(PatchOf(lower), PatchOf(upper))
    ensures r.Success? ==> Tiles(r.value) && TotalSize(r.value) == TotalSize(upper)
    ensures r.Success? ==> forall i :: 0 <= i < |r.value| ==> PlacedAtStart(r.value[i])
    ensures r.Success? ==> forall n :: AllReadWithin(lower, n) ==> AllReadWithin(r.value, n)
  {
    if lower == [] {
      return Failure("panic: index out of range");
    }
    ghost var up := Ops(upper);
    var merged := [];
    NothingMerged(lower, upper);
    for k := 0 to |upper|
      invariant MergedUpTo(merged, lower, upper, k)
    {
      NextUpper(upper, k);
      merged :- MergeUpperBlock(lower, up, upper[k], merged);
    }
    FinishedMeans(merged, lower, upper);
    return Success(merged);
  }

  /** The first `k` upper blocks read inside the lower output and have been merged. */
  ghost predicate MergedUpTo(merged: seq<DiffBlock>, lower: seq<DiffBlock>, upper: seq<DiffBlock>, k: nat)
    requires k <= |upper|
  {
    && Finished(merged, lower, Compose(Ops(lower), Ops(upper)), StartOf(upper, k))
    && forall i :: 0 <= i < k ==> ReadsWithin(upper[i], TotalSize(lower))
  }

  lemma {:induction false} NothingMerged(lower: seq<DiffBlock>, upper: seq<DiffBlock>)
    ensures MergedUpTo([], lower, upper, 0)
  {
  }

  lemma {:induction false} NextUpper(upper: seq<DiffBlock>, k: nat)
    requires Tiles(upper) && k < |upper|
    ensures Covers(upper[k], Ops(upper)) && upper[k].Size() > 0
    ensures upper[k].newPos == StartOf(upper, k) && upper[k].End() == StartOf(upper, k + 1)
  {
    TilesCovers(upper, k);
    assert Follows(upper, k);
  }

  /** The finished blocks of the whole upper list. */
  lemma {:induction false} FinishedMeans(merged: seq<DiffBlock>, lower: seq<DiffBlock>, upper: seq<DiffBlock>)
    requires lower != [] && Tiles(upper) && Finished(merged, lower, Compose(Ops(lower), Ops(upper)), TotalSize(upper))
    ensures PatchOf(merged) == ComposePatches(PatchOf(lower), PatchOf(upper))
    ensures Tiles(merged) && TotalSize(merged) == TotalSize(upper)
    ensures forall i :: 0 <= i < |merged| ==> PlacedAtStart(merged[i])
    ensures forall n :: AllReadWithin(lower, n) ==> AllReadWithin(merged, n)
  {
    var all := Compose(Ops(lower), Ops(upper));
    OpsLength(upper);
    OpsLength(merged);
    assert all[..TotalSize(upper)] == all;
    forall i | 0 <= i < |merged|
      ensures PlacedAtStart(merged[i])
    {
      assert Follows(merged, i) && DrawnFrom(merged[i], lower);
    }
    PlacedBlocksNeed(merged);
    forall n | AllReadWithin(lower, n)
      ensures AllReadWithin(merged, n)
    {
      DrawnFromReadsWithin(merged, lower, n);
    }
  }

  lemma {:induction false} DrawnFromReadsWithin(blocks: seq<DiffBlock>, lower: seq<DiffBlock>, n: int)
    requires AllDrawnFrom(blocks, lower) && lower != [] && AllReadWithin(lower, n)
    ensures AllReadWithin(blocks, n)
  {
    forall i | 0 <= i < |blocks|
      ensures ReadsWithin(blocks[i], n)
    {
      assert DrawnFrom(blocks[i], lower);
      assert ReadsWithin(lower[0], n);
    }
  }

  /**
    The merged list, applied once to the base, gives the file that both lists give in turn, on every
    base that the copied bytes of the lower list lie in; and it fits into every such base.
  */
  lemma {:induction false} MergedBlocksPatchLikeBoth(base: Bytes, lower: seq<DiffBlock>, upper: seq<DiffBlock>, merged: seq<DiffBlock>)
    requires Tiles(lower) && InBounds(Ops(lower), |base|) && WellFormed(upper, TotalSize(lower))
    requires PatchOf(merged) == ComposePatches(PatchOf(lower), PatchOf(upper))
    ensures Patch(base, Ops(merged)) == Patch(Patch(base, Ops(lower)), Ops(upper))
    ensures InBounds(Ops(merged), |base|)
    ensures base != [] ==> AllReadWithin(merged, |base|)
  {
    OpsLength(lower);
    WellFormedInBounds(upper, TotalSize(lower));
    ComposeMeansSequentialPatch(base, Ops(lower), Ops(upper));
    ComposeInBounds(Ops(lower), Ops(upper), |base|);
    if base != [] {
      InBoundsMeetsNeed(Ops(merged), |base|);
      BlocksNeedExact(merged, |base|);
    }
  }

  // -------------------------------------------------------------- checkBlock

  /** The bytes `checkBlock` computes for a block from the base file. */
  function PatchedBytes(b: DiffBlock, base: Bytes): Bytes
    requires b.addBytes == [] || 0 <= b.oldPos
    requires b.addBytes == [] || b.oldPos + |b.addBytes| <= |base|
  {
    seq(|b.addBytes|, i requires 0 <= i < |b.addBytes| => AddByte(base[b.oldPos + i], b.addBytes[i])) + b.insertBytes
  }

  /** The block has a place in both files. */
  predicate InsideFiles(b: DiffBlock, base: Bytes, updated: Bytes) {
    && (b.addBytes == [] || (0 <= b.oldPos && b.oldPos + |b.addBytes| <= |base|))
    && 0 <= b.newPos && b.End() <= |updated|
  }

  /** `checkBlock` neither fails to read nor finds a difference. */
  predicate CheckBlock(b: DiffBlock, base: Bytes, updated: Bytes) {
    && InsideFiles(b, base, updated)
    && updated[b.newPos..b.End()] == PatchedBytes(b, base)
  }

  /** A byte of the updated file, in plain integers: old byte plus difference up to a multiple of 256, or what is stored. */
  predicate ByteRight(b: DiffBlock, base: Bytes, updated: Bytes, i: nat)
    requires InsideFiles(b, base, updated) && i < b.Size()
  {
    if i < |b.addBytes| then SameModulo256(updated[b.newPos + i], base[b.oldPos + i] as int + b.addBytes[i] as int)
    else updated[b.newPos + i] == b.insertBytes[i - |b.addBytes|]
  }

  /** A block is accepted exactly if it has a place in both files and all its bytes are right. */
  lemma {:induction false} CheckBlockMeans(b: DiffBlock, base: Bytes, updated: Bytes)
    ensures CheckBlock(b, base, updated) <==>
              InsideFiles(b, base, updated) && forall i :: 0 <= i < b.Size() ==> ByteRight(b, base, updated, i)
  {
    if InsideFiles(b, base, updated) {
      var here, patched := updated[b.newPos..b.End()], PatchedBytes(b, base);
      forall i | 0 <= i < b.Size()
        ensures ByteRight(b, base, updated, i) <==> here[i] == patched[i]
      {
        if i < |b.addBytes| {
          AddByteWraps(base[b.oldPos + i], b.addBytes[i], here[i]);
        }
      }
    }
  }

  lemma {:induction false} CoveredSlice(b: DiffBlock, ops: Delta, base: Bytes)
    requires Covers(b, ops) && ReadsWithin(b, |base|)
    ensures Patch(base, ops)[b.newPos..b.End()] == PatchedBytes(b, base)
  {
    var here := Patch(base, ops)[b.newPos..b.End()];
    forall c | 0 <= c < |here|
      ensures here[c] == PatchedBytes(b, base)[c]
    {
      CoversAt(b, ops, c);
    }
  }

  /**
    The debug check accepts every block exactly when the list means the updated file. So on merged
    blocks it never fires, and the byte operations are the meaning the check gives to a block list.
  */
  lemma {:induction false} ChecksPassExactlyForTheUpdatedFile(blocks: seq<DiffBlock>, base: Bytes, updated: Bytes)
    requires WellFormed(blocks, |base|) && TotalSize(blocks) == |updated|
    ensures (forall i :: 0 <= i < |blocks| ==> CheckBlock(blocks[i], base, updated))
       <==> Patch(base, Ops(blocks)) == updated
  {
    var patched := Patch(base, Ops(blocks));
    OpsLength(blocks);
    forall i | 0 <= i < |blocks|
      ensures CheckBlock(blocks[i], base, patched)
    {
      TilesCovers(blocks, i);
      CoveredSlice(blocks[i], Ops(blocks), base);
    }
    if forall i :: 0 <= i < |blocks| ==> CheckBlock(blocks[i], base, updated) {
      forall p | 0 <= p < |updated|
        ensures patched[p] == updated[p]
      {
        var k := BlockCovering(blocks, p);
        var b := blocks[k];
        assert CheckBlock(b, base, updated) && CheckBlock(b, base, patched);
        assert updated[b.newPos..b.End()][p - b.newPos] == patched[b.newPos..b.End()][p - b.newPos];
      }
    }
  }
}
