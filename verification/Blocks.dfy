/**
  bsdiff block lists: the parsed form of a file delta (pkg/bsdiffx/merge.go).
  A block copies `addBytes` over the old file at `oldPos` and then stores `insertBytes`.
*/
module Blocks {
  import opened DeltaOps

  datatype DiffBlock = DiffBlock(oldPos: int, newPos: int, addBytes: Bytes, insertBytes: Bytes)
  {
    function Size(): nat {
      |addBytes| + |insertBytes|
    }

    function InsertPos(): int {
      newPos + |addBytes|
    }

    function End(): int {
      newPos + Size()
    }
  }

  function CopyRun(pos: int, bytes: Bytes): Delta {
    seq(|bytes|, i requires 0 <= i < |bytes| => Copy(pos + i, bytes[i]))
  }

  function InsertRun(bytes: Bytes): Delta {
    seq(|bytes|, i requires 0 <= i < |bytes| => Insert(bytes[i]))
  }

  /** What one block says about each byte it covers. */
  function BlockOps(b: DiffBlock): Delta {
    CopyRun(b.oldPos, b.addBytes) + InsertRun(b.insertBytes)
  }

  /** The meaning of a block list. */
  function Ops(blocks: seq<DiffBlock>): Delta {
    if blocks == [] then []
    else Ops(blocks[..|blocks| - 1]) + BlockOps(blocks[|blocks| - 1])
  }

  /** Where the block with the given index has to start: at the end of the one before. */
  function StartOf(blocks: seq<DiffBlock>, i: nat): int
    requires i <= |blocks|
  {
    if i == 0 then 0 else blocks[i - 1].End()
  }

  /** The block is not empty and starts where the one before it ends. */
  ghost predicate Follows(blocks: seq<DiffBlock>, i: nat)
    requires i < |blocks|
  {
    blocks[i].Size() > 0 && blocks[i].newPos == StartOf(blocks, i)
  }

  /** Non-empty blocks that cover the new file from position 0 without a gap. */
  ghost predicate Tiles(blocks: seq<DiffBlock>) {
    forall i :: 0 <= i < |blocks| ==> Follows(blocks, i)
  }

  function TotalSize(blocks: seq<DiffBlock>): int {
    StartOf(blocks, |blocks|)
  }

  predicate ReadsWithin(b: DiffBlock, oldSize: int) {
    0 <= b.oldPos < oldSize && b.oldPos + |b.addBytes| <= oldSize
  }

  ghost predicate AllReadWithin(blocks: seq<DiffBlock>, oldSize: int) {
    forall i :: 0 <= i < |blocks| ==> ReadsWithin(blocks[i], oldSize)
  }

  /** A block list that can be applied to every old file of the given size. */
  ghost predicate WellFormed(blocks: seq<DiffBlock>, oldSize: int) {
    Tiles(blocks) && AllReadWithin(blocks, oldSize)
  }

  lemma {:induction false} OpsAppend(blocks: seq<DiffBlock>, b: DiffBlock)
    ensures Ops(blocks + [b]) == Ops(blocks) + BlockOps(b)
  {
    assert (blocks + [b])[..|blocks|] == blocks;
  }

  lemma {:induction false} TilesAppend(blocks: seq<DiffBlock>, b: DiffBlock)
    requires Tiles(blocks) && b.Size() > 0 && b.newPos == TotalSize(blocks)
    ensures Tiles(blocks + [b]) && TotalSize(blocks + [b]) == b.End()
  {
    var all := blocks + [b];
    forall i | 0 <= i < |all|
      ensures Follows(all, i)
    {
      assert i < |blocks| ==> Follows(blocks, i);
    }
  }

  lemma {:induction false} TilesPrefix(blocks: seq<DiffBlock>)
    requires Tiles(blocks) && blocks != []
    ensures Tiles(blocks[..|blocks| - 1])
    ensures TotalSize(blocks[..|blocks| - 1]) == blocks[|blocks| - 1].newPos
  {
    var front := blocks[..|blocks| - 1];
    forall i | 0 <= i < |front|
      ensures Follows(front, i)
    {
      assert Follows(blocks, i);
    }
    assert Follows(blocks, |front|);
  }

  lemma {:induction false} OpsLength(blocks: seq<DiffBlock>)
    requires Tiles(blocks)
    ensures |Ops(blocks)| == TotalSize(blocks)
  {
    if blocks != [] {
      TilesPrefix(blocks);
      OpsLength(blocks[..|blocks| - 1]);
    }
  }

  /** The delta says at the block's place what the block says. */
  ghost predicate Covers(b: DiffBlock, ops: Delta) {
    0 <= b.newPos && b.End() <= |ops| && ops[b.newPos..b.End()] == BlockOps(b)
  }

  /** In a tiling, the delta says at the place of each block what that block says. */
  lemma {:induction false} TilesCovers(blocks: seq<DiffBlock>, k: nat)
    requires Tiles(blocks) && k < |blocks|
    ensures Covers(blocks[k], Ops(blocks))
  {
    var front, last := blocks[..|blocks| - 1], blocks[|blocks| - 1];
    TilesPrefix(blocks);
    OpsLength(front);
    assert Ops(blocks) == Ops(front) + BlockOps(last);
    if k < |front| {
      TilesCovers(front, k);
      CoversExtended(front[k], Ops(front), BlockOps(last));
    } else {
      StartNonNegative(blocks, k);
      assert Follows(blocks, k);
    }
  }

  lemma {:induction false} CoversExtended(b: DiffBlock, ops: Delta, more: Delta)
    requires Covers(b, ops)
    ensures Covers(b, ops + more)
  {
    assert (ops + more)[b.newPos..b.End()] == ops[b.newPos..b.End()];
  }

  lemma {:induction false} StartNonNegative(blocks: seq<DiffBlock>, i: nat)
    requires Tiles(blocks) && i <= |blocks|
    ensures i <= StartOf(blocks, i)
  {
    if i > 0 {
      StartNonNegative(blocks, i - 1);
      assert Follows(blocks, i - 1);
    }
  }

  lemma {:induction false} CoversAt(b: DiffBlock, ops: Delta, c: nat)
    requires Covers(b, ops) && c < b.Size()
    ensures ops[b.newPos + c] == BlockOps(b)[c]
  {
    assert ops[b.newPos..b.End()][c] == ops[b.newPos + c];
  }

  /** Every position of a tiling lies in some block. */
  lemma {:induction false} BlockCovering(blocks: seq<DiffBlock>, pos: nat) returns (k: nat)
    requires Tiles(blocks) && pos < TotalSize(blocks)
    ensures k < |blocks| && blocks[k].newPos <= pos < blocks[k].End()
  {
    k := |blocks| - 1;
    assert Follows(blocks, k);
    if pos < blocks[k].newPos {
      TilesPrefix(blocks);
      k := BlockCovering(blocks[..|blocks| - 1], pos);
    }
  }

  lemma {:induction false} BlocksInOrder(blocks: seq<DiffBlock>, i: nat, j: nat)
    requires Tiles(blocks) && i < j < |blocks|
    ensures blocks[i].End() <= blocks[j].newPos
  {
    assert Follows(blocks, j) && Follows(blocks, j - 1);
    if i + 1 < j {
      BlocksInOrder(blocks, i, j - 1);
    }
  }

  lemma {:induction false} WellFormedInBounds(blocks: seq<DiffBlock>, oldSize: int)
    requires WellFormed(blocks, oldSize)
    ensures InBounds(Ops(blocks), oldSize)
  {
    OpsLength(blocks);
    forall i | 0 <= i < |Ops(blocks)| && Ops(blocks)[i].Copy?
      ensures 0 <= Ops(blocks)[i].pos < oldSize
    {
      var k := BlockCovering(blocks, i);
      TilesCovers(blocks, k);
      CoversAt(blocks[k], Ops(blocks), i - blocks[k].newPos);
      assert ReadsWithin(blocks[k], oldSize);
    }
  }

  // ------------------------------------------------------------------ needs

  function BlockNeed(b: DiffBlock): Need {
    if b.oldPos < 0 then Never
    else AtLeast(if b.addBytes == [] then b.oldPos + 1 else b.oldPos + |b.addBytes|)
  }

  function BlocksNeed(blocks: seq<DiffBlock>): Need {
    if blocks == [] then AtLeast(0) else BlocksNeed(blocks[..|blocks| - 1]).And(BlockNeed(blocks[|blocks| - 1]))
  }

  /** The patch that a block list stands for. */
  function PatchOf(blocks: seq<DiffBlock>): FilePatch {
    FilePatch(Ops(blocks), BlocksNeed(blocks))
  }

  /** The need says exactly into which old files all blocks fit. */
  lemma {:induction false} BlocksNeedExact(blocks: seq<DiffBlock>, oldSize: nat)
    ensures BlocksNeed(blocks).MetBy(oldSize) <==> AllReadWithin(blocks, oldSize)
  {
    if blocks != [] {
      var front, last := blocks[..|blocks| - 1], blocks[|blocks| - 1];
      BlocksNeedExact(front, oldSize);
      assert BlockNeed(last).MetBy(oldSize) <==> ReadsWithin(last, oldSize);
      assert AllReadWithin(blocks, oldSize) <==> AllReadWithin(front, oldSize) && ReadsWithin(last, oldSize);
    }
  }

  /** A block that stores bytes only is placed at the start of the old file, as merging makes it. */
  predicate PlacedAtStart(b: DiffBlock) {
    b.Size() > 0 && (b.addBytes == [] ==> b.oldPos == 0)
  }

  lemma {:induction false} CopyRunNeed(pos: int, bytes: Bytes)
    ensures OpsNeed(CopyRun(pos, bytes)) ==
              if bytes == [] then AtLeast(0) else if pos < 0 then Never else AtLeast(pos + |bytes|)
  {
    if bytes != [] {
      var front := bytes[..|bytes| - 1];
      CopyRunNeed(pos, front);
      var run := CopyRun(pos, bytes);
      assert run[..|run| - 1] == CopyRun(pos, front);
    }
  }

  lemma {:induction false} InsertRunNeed(bytes: Bytes)
    ensures OpsNeed(InsertRun(bytes)) == AtLeast(if bytes == [] then 0 else 1)
  {
    if bytes != [] {
      var front := bytes[..|bytes| - 1];
      InsertRunNeed(front);
      var run := InsertRun(bytes);
      assert run[..|run| - 1] == InsertRun(front);
    }
  }

  /** With such blocks only, the operations tell the need. */
  lemma {:induction false} PlacedBlocksNeed(blocks: seq<DiffBlock>)
    requires forall i :: 0 <= i < |blocks| ==> PlacedAtStart(blocks[i])
    ensures BlocksNeed(blocks) == OpsNeed(Ops(blocks))
  {
    if blocks != [] {
      var front, last := blocks[..|blocks| - 1], blocks[|blocks| - 1];
      PlacedBlocksNeed(front);
      assert PlacedAtStart(last);
      CopyRunNeed(last.oldPos, last.addBytes);
      InsertRunNeed(last.insertBytes);
      OpsNeedAppend(CopyRun(last.oldPos, last.addBytes), InsertRun(last.insertBytes));
      OpsNeedAppend(Ops(front), BlockOps(last));
    }
  }
}
