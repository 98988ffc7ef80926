/**
  The meaning of a file delta, byte by byte.

  A delta describes every byte of the new file by one operation: the byte is an
  old byte plus a difference (modulo 256), or it is stored as it stands.
  This is the meaning `checkBlock` gives to a block list, independent of how the
  list is cut into blocks.
*/
module DeltaOps {

  type Byte = x: int | 0 <= x < 256

  type Bytes = seq<Byte>

  datatype Op = Copy(pos: int, delta: Byte) | Insert(value: Byte)

  type Delta = seq<Op>

  /** Addition of bytes wraps around. */
  function AddByte(a: Byte, b: Byte): Byte {
    if a + b < 256 then a + b else a + b - 256
  }

  /** The byte one operation produces. A position outside the old file adds nothing; `InBounds` rules it out. */
  function OpByte(prior: Bytes, op: Op): Byte {
    match op
    case Insert(v) => v
    case Copy(p, d) => if 0 <= p < |prior| then AddByte(prior[p], d) else d
  }

  function Patch(prior: Bytes, delta: Delta): Bytes {
    seq(|delta|, i requires 0 <= i < |delta| => OpByte(prior, delta[i]))
  }

  /** Every copied byte lies inside an old file of the given size. */
  predicate InBounds(delta: Delta, oldSize: int) {
    forall i :: 0 <= i < |delta| && delta[i].Copy? ==> 0 <= delta[i].pos < oldSize
  }

  /** One upper operation, rewritten to read the file below the lower delta. */
  function ComposeOp(lower: Delta, op: Op): Op {
    if op.Copy? && 0 <= op.pos < |lower| then
      match lower[op.pos]
      case Copy(p, d) => Copy(p, AddByte(d, op.delta))
      case Insert(v) => Insert(AddByte(v, op.delta))
    else
      op
  }

  function Compose(lower: Delta, upper: Delta): Delta {
    seq(|upper|, i requires 0 <= i < |upper| => ComposeOp(lower, upper[i]))
  }

  predicate SameModulo256(a: int, b: int) {
    (a - b) % 256 == 0
  }

  /** The sum of two bytes is the one byte that differs from their sum as integers by a multiple of 256. */
  lemma {:induction false} AddByteWraps(a: Byte, b: Byte, sum: Byte)
    ensures sum == AddByte(a, b) <==> SameModulo256(sum, a as int + b as int)
  {
  }

  /** What an operation demands of a byte of the new file, in plain integers. */
  predicate Demands(prior: Bytes, op: Op, b: Byte) {
    match op
    case Insert(v) => b == v
    case Copy(p, d) => 0 <= p < |prior| && SameModulo256(b, prior[p] as int + d as int)
  }

  lemma {:induction false} OpByteDemanded(prior: Bytes, op: Op, b: Byte)
    requires op.Copy? ==> 0 <= op.pos < |prior|
    ensures Demands(prior, op, b) <==> b == OpByte(prior, op)
  {
    if op.Copy? {
      AddByteWraps(prior[op.pos], op.delta, b);
    }
  }

  /**
    The patched file is the one file whose every byte is as the operations demand; there is one exactly
    if all copied bytes lie inside the old file.
  */
  lemma {:induction false} PatchMeansDemands(prior: Bytes, delta: Delta, out: Bytes)
    ensures InBounds(delta, |prior|) && out == Patch(prior, delta) <==>
              |out| == |delta| && forall i :: 0 <= i < |out| ==> Demands(prior, delta[i], out[i])
  {
    if |out| == |delta| && forall i :: 0 <= i < |out| ==> Demands(prior, delta[i], out[i]) {
      forall i | 0 <= i < |delta| && delta[i].Copy?
        ensures 0 <= delta[i].pos < |prior|
      {
        assert Demands(prior, delta[i], out[i]);
      }
    }
    if |out| == |delta| && InBounds(delta, |prior|) {
      forall i | 0 <= i < |out|
        ensures Demands(prior, delta[i], out[i]) <==> out[i] == Patch(prior, delta)[i]
      {
        OpByteDemanded(prior, delta[i], out[i]);
      }
    }
  }

  lemma {:induction false} AddByteAssociative(a: Byte, b: Byte, c: Byte)
    ensures AddByte(AddByte(a, b), c) == AddByte(a, AddByte(b, c))
  {
  }

  /** Applying a composed delta once is applying its two parts one after the other. */
  lemma {:induction false} ComposeMeansSequentialPatch(base: Bytes, lower: Delta, upper: Delta)
    requires InBounds(upper, |lower|)
    ensures Patch(base, Compose(lower, upper)) == Patch(Patch(base, lower), upper)
  {
    forall i | 0 <= i < |upper|
      ensures Patch(base, Compose(lower, upper))[i] == Patch(Patch(base, lower), upper)[i]
    {
      ComposeOpMeansSequentialByte(base, lower, upper[i]);
    }
  }

  lemma {:induction false} ComposeOpMeansSequentialByte(base: Bytes, lower: Delta, op: Op)
    requires op.Copy? ==> 0 <= op.pos < |lower|
    ensures OpByte(base, ComposeOp(lower, op)) == OpByte(Patch(base, lower), op)
  {
    if op.Copy? && lower[op.pos].Copy? {
      var below := lower[op.pos];
      if 0 <= below.pos < |base| {
        AddByteAssociative(base[below.pos], below.delta, op.delta);
      }
    }
  }

  /** Composition keeps positions inside the file below. */
  lemma {:induction false} ComposeInBounds(lower: Delta, upper: Delta, baseSize: int)
    requires InBounds(lower, baseSize)
    requires InBounds(upper, |lower|)
    ensures InBounds(Compose(lower, upper), baseSize)
  {
    forall i | 0 <= i < |upper| && Compose(lower, upper)[i].Copy?
      ensures 0 <= Compose(lower, upper)[i].pos < baseSize
    {
      assert upper[i].Copy? && lower[upper[i].pos].Copy?;
    }
  }

  /** Deltas may be bracketed in any way: composition is associative, operation for operation. */
  lemma {:induction false} ComposeAssociative(a: Delta, b: Delta, c: Delta)
    requires InBounds(b, |a|) && InBounds(c, |b|)
    ensures Compose(Compose(a, b), c) == Compose(a, Compose(b, c))
  {
    forall i | 0 <= i < |c|
      ensures ComposeOp(Compose(a, b), c[i]) == ComposeOp(a, ComposeOp(b, c[i]))
    {
      ComposeOpAssociative(a, b, c[i]);
    }
  }

  lemma {:induction false} ComposeOpAssociative(a: Delta, b: Delta, op: Op)
    requires InBounds(b, |a|)
    requires op.Copy? ==> 0 <= op.pos < |b|
    ensures ComposeOp(Compose(a, b), op) == ComposeOp(a, ComposeOp(b, op))
  {
    if op.Copy? && b[op.pos].Copy? {
      var middle := b[op.pos];
      match a[middle.pos] {
        case Copy(_, d) => AddByteAssociative(d, middle.delta, op.delta);
        case Insert(v) => AddByteAssociative(v, middle.delta, op.delta);
      }
    }
  }

  // ---------------------------------------------------------- file patches

  /** The old files that blocks fit into: those from some size on, or none. */
  datatype Need = AtLeast(size: nat) | Never
  {
    predicate MetBy(oldSize: int) {
      AtLeast? && size <= oldSize
    }

    function And(other: Need): Need {
      if Never? || other.Never? then Never
      else if size < other.size then other
      else this
    }
  }

  /**
    What a patch file stands for: its operations, and the old files that its blocks fit into. A block
    has a place in the old file even if it copies nothing, so the operations do not tell the latter.
  */
  datatype FilePatch = FilePatch(ops: Delta, need: Need)

  function OpNeed(op: Op): Need {
    match op
    case Insert(_) => AtLeast(1)
    case Copy(p, _) => if p < 0 then Never else AtLeast(p + 1)
  }

  /** What operations need when those that only store bytes are placed at the start of the old file. */
  function OpsNeed(ops: Delta): Need {
    if ops == [] then AtLeast(0) else OpsNeed(ops[..|ops| - 1]).And(OpNeed(ops[|ops| - 1]))
  }

  /** The patch that merging two patches gives. */
  function ComposePatches(lower: FilePatch, upper: FilePatch): FilePatch {
    var ops := Compose(lower.ops, upper.ops);
    FilePatch(ops, OpsNeed(ops))
  }

  lemma {:induction false} OpsNeedAppend(a: Delta, b: Delta)
    ensures OpsNeed(a + b) == OpsNeed(a).And(OpsNeed(b))
    decreases |b|
  {
    if b == [] {
      assert a + b == a;
    } else {
      OpsNeedAppend(a, b[..|b| - 1]);
      assert (a + b)[..|a + b| - 1] == a + b[..|b| - 1];
    }
  }

  lemma {:induction false} InBoundsMeetsNeed(ops: Delta, oldSize: int)
    requires InBounds(ops, oldSize) && oldSize > 0
    ensures OpsNeed(ops).MetBy(oldSize)
  {
    if ops != [] {
      InBoundsMeetsNeed(ops[..|ops| - 1], oldSize);
    }
  }
}
