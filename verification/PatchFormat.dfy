/**
  The uncompressed patch stream: control triples of sign-magnitude integers, each followed by its
  add and insert bytes (pkg/bsdiffx/merge.go, `writePatch` and `readContent`).
*/
module PatchFormat {
  import opened Results
  import opened DeltaOps
  import opened Blocks
  import BlockMerge

  const TWO_TO_THE_63: int := 0x8000_0000_0000_0000

  const INT64_BYTES: nat := 8

  // ------------------------------------------------- readInt64 / writeInt64

  function LittleEndian(x: nat, width: nat): Bytes
    ensures |LittleEndian(x, width)| == width
  {
    if width == 0 then [] else [x % 256] + LittleEndian(x / 256, width - 1)
  }

  /** The number whose bytes start at the given index. */
  function FromLittleEndian(s: Bytes, at: nat, width: nat): nat
    requires at + width <= |s|
    decreases width
  {
    if width == 0 then 0 else s[at] + 256 * FromLittleEndian(s, at + 1, width - 1)
  }

  predicate IsInt64(v: int) {
    -TWO_TO_THE_63 <= v < TWO_TO_THE_63
  }

  /** `b | 0x80`, `b & 0x7F` and `b & 0x80 > 0`. */
  function SetTopBit(b: Byte): Byte {
    if b < 128 then b + 128 else b
  }

  function ClearTopBit(b: Byte): Byte {
    if b < 128 then b else b - 128
  }

  predicate HasTopBit(b: Byte) {
    b >= 128
  }

  /** The magnitude in eight little-endian bytes; the top bit of the last one marks a negative value. */
  function WriteInt64(v: int): (buf: Bytes)
    requires IsInt64(v)
    ensures |buf| == INT64_BYTES
  {
    if v < 0 then
      var buf := LittleEndian(-v, INT64_BYTES);
      buf[7 := SetTopBit(buf[7])]
    else LittleEndian(v, INT64_BYTES)
  }

  /** The integer at the given index of a stream. */
  function ReadInt64(s: Bytes, at: nat): int
    requires at + INT64_BYTES <= |s|
  {
    var buf := s[at..at + INT64_BYTES];
    var res: int := FromLittleEndian(buf[7 := ClearTopBit(buf[7])], 0, INT64_BYTES);
    if HasTopBit(buf[7]) then -res else res
  }

  function Power256(width: nat): (p: nat)
    ensures p > 0
  {
    if width == 0 then 1 else 256 * Power256(width - 1)
  }

  lemma {:induction false} LittleEndianInverse(x: nat, width: nat, s: Bytes, at: nat)
    requires x < Power256(width)
    requires at + width <= |s| && s[at..at + width] == LittleEndian(x, width)
    ensures FromLittleEndian(s, at, width) == x
  {
    if width > 0 {
      assert s[at] == s[at..at + width][0];
      assert s[at + 1..at + width] == s[at..at + width][1..];
      LittleEndianInverse(x / 256, width - 1, s, at + 1);
    }
  }

  /** The number that all bytes but the last make up. */
  lemma {:induction false} LowBytes(s: Bytes, at: nat, width: nat)
    requires at + width <= |s|
    ensures FromLittleEndian(s, at, width) < Power256(width)
    decreases width
  {
    if width > 0 {
      LowBytes(s, at + 1, width - 1);
    }
  }

  /** The last byte holds the top eight bits; changing it changes nothing else. */
  lemma {:induction false} TopByte(s: Bytes, at: nat, width: nat, b: Byte)
    requires 0 < width && at + width <= |s|
    ensures var top, changed := s[at + width - 1], s[at + width - 1 := b];
            var low := FromLittleEndian(s, at, width - 1);
            && FromLittleEndian(s, at, width) == low + top * Power256(width - 1)
            && FromLittleEndian(changed, at, width) == low + b * Power256(width - 1)
    decreases width
  {
    if width > 1 {
      TopByte(s, at + 1, width - 1, b);
      var p := Power256(width - 2);
      ShiftByte(s[at], FromLittleEndian(s, at + 1, width - 2), s[at + width - 1], p);
      ShiftByte(s[at], FromLittleEndian(s, at + 1, width - 2), b, p);
    }
  }

  lemma {:induction false} ShiftByte(first: int, low: int, top: int, p: int)
    ensures first + 256 * (low + top * p) == first + 256 * low + top * (256 * p)
  {
  }

  /** The low seven bytes and the top byte of eight. */
  lemma {:induction false} EightBytes(buf: Bytes, b: Byte)
    requires |buf| == INT64_BYTES
    ensures var low: int, top: int, changed: int := FromLittleEndian(buf, 0, 7), buf[7], b;
            && 0 <= low < 0x100_0000_0000_0000
            && FromLittleEndian(buf, 0, 8) == low + top * 0x100_0000_0000_0000
            && FromLittleEndian(buf[7 := b], 0, 8) == low + changed * 0x100_0000_0000_0000
  {
    assert Power256(7) == 0x100_0000_0000_0000;
    LowBytes(buf, 0, 7);
    TopByte(buf, 0, 8, b);
  }

  /** The bytes of the magnitude before the sign is marked. */
  lemma {:induction false} MagnitudeBytes(x: nat) returns (buf: Bytes)
    requires x <= TWO_TO_THE_63
    ensures buf == LittleEndian(x, INT64_BYTES) && FromLittleEndian(buf, 0, 8) == x
    ensures HasTopBit(buf[7]) <==> x == TWO_TO_THE_63
    ensures FromLittleEndian(buf[7 := ClearTopBit(buf[7])], 0, 8) == if x == TWO_TO_THE_63 then 0 else x
  {
    assert Power256(8) == 0x1_0000_0000_0000_0000;
    buf := LittleEndian(x, INT64_BYTES);
    assert buf[0..8] == buf;
    LittleEndianInverse(x, INT64_BYTES, buf, 0);
    EightBytes(buf, ClearTopBit(buf[7]));
  }

  /** The sign sits in the top bit of the last byte. */
  lemma {:induction false} SignBit(v: int)
    requires IsInt64(v)
    ensures HasTopBit(WriteInt64(v)[7]) <==> v < 0
  {
    if v >= 0 {
      var buf := MagnitudeBytes(v);
    }
  }

  lemma {:induction false} LittleEndianAt(x: nat, width: nat, i: nat)
    requires i < width
    ensures LittleEndian(x, width)[i] == x / Power256(i) % 256
  {
    if i > 0 {
      LittleEndianAt(x / 256, width - 1, i - 1);
      DivideTwice(x, Power256(i - 1));
    }
  }

  lemma {:induction false} DivideTwice(x: nat, p: nat)
    requires p > 0
    ensures x / 256 / p == x / (256 * p)
  {
    var q := x / 256 / p;
    var r := x / 256 - q * p;
    assert x == 256 * (q * p + r) + x % 256;
    QuotientIs(x, 256 * p, q, 256 * r + x % 256) by {
      assert 256 * (q * p + r) == q * (256 * p) + 256 * r;
    }
  }

  lemma {:induction false} QuotientIs(x: nat, d: nat, q: nat, r: nat)
    requires 0 <= r < d && x == q * d + r
    ensures x / d == q
  {
    var k := q - x / d;
    assert k * d == x % d - r;
    MultiplesApart(k, d);
  }

  lemma {:induction false} MultiplesApart(k: int, d: nat)
    requires d > 0
    ensures k >= 1 ==> k * d >= d
    ensures k <= -1 ==> k * d + d <= 0
  {
  }

  /** The first seven bytes written are those of the magnitude, the lowest first; the eighth has the next seven bits, and the sign on top. */
  lemma {:induction false} WrittenBytes(v: int, i: nat)
    requires IsInt64(v) && i < INT64_BYTES
    ensures var magnitude := if v < 0 then -v else v;
            WriteInt64(v)[i] == if i < 7 then magnitude / Power256(i) % 256
                                else magnitude / Power256(7) % 128 + if v < 0 then 128 else 0
  {
    var magnitude: nat := if v < 0 then -v else v;
    LittleEndianAt(magnitude, INT64_BYTES, i);
    if i == 7 {
      assert Power256(7) == 0x100_0000_0000_0000;
    }
  }

  /** Writing and reading an integer is the identity for every 64-bit value except the smallest. */
  lemma {:induction false} Int64RoundTrip(v: int, s: Bytes, at: nat)
    requires IsInt64(v)
    requires at + INT64_BYTES <= |s| && s[at..at + INT64_BYTES] == WriteInt64(v)
    ensures ReadInt64(s, at) == v <==> v != -TWO_TO_THE_63
  {
    SignBit(v);
    var buf := MagnitudeBytes(if v < 0 then -v else v);
    var written := WriteInt64(v);
    assert v < 0 ==> written[7 := ClearTopBit(written[7])] == buf[7 := ClearTopBit(buf[7])];
  }

  // --------------------------------------------------------------- triples

  /** One control triple with its bytes: copy `add`, store `insert`, then move in the old file by `seek`. */
  datatype Triple = Triple(add: Bytes, insert: Bytes, seek: int)
  {
    predicate Encodable() {
      |add| < TWO_TO_THE_63 && |insert| < TWO_TO_THE_63 && -TWO_TO_THE_63 < seek < TWO_TO_THE_63
    }
  }

  /** A value as a 64-bit integer, with wrap-around. */
  function ToInt64(v: int): int
    ensures IsInt64(ToInt64(v))
    ensures IsInt64(v) ==> ToInt64(v) == v
    ensures (ToInt64(v) - v) % (2 * TWO_TO_THE_63) == 0
  {
    (v + TWO_TO_THE_63) % (2 * TWO_TO_THE_63) - TWO_TO_THE_63
  }

  function EncodeControl(t: Triple): Bytes {
    WriteInt64(ToInt64(|t.add|)) + WriteInt64(ToInt64(|t.insert|)) + WriteInt64(ToInt64(t.seek))
  }

  function EncodeTriple(t: Triple): Bytes {
    EncodeControl(t) + t.add + t.insert
  }

  /** What one round of the loop of `readContent` takes from the stream. */
  datatype ParsedTriple = Malformed(reason: string) | Parsed(triple: Triple, rest: Bytes)

  /**
    One round of the loop of `readContent`: three integers, then the bytes they announce. A read at
    the end of the input fails even when it asks for nothing; a negative insert length panics.
  */
  function ParseTriple(newSize: int, newPos: int, s: Bytes): (r: ParsedTriple)
    ensures r.Parsed? ==> |r.rest| < |s| && newPos + |r.triple.add| <= newSize
  {
    if |s| < 8 then Malformed("EOF or invalid size") else
    var ctrl0 := ReadInt64(s, 0);
    if ctrl0 < 0 then Malformed("ctrl0 negative")
    else if |s| < 24 then Malformed("EOF or invalid size") else
    var ctrl1, ctrl2 := ReadInt64(s, 8), ReadInt64(s, 16);
    var addEnd, insertEnd := 24 + ctrl0, 24 + ctrl0 + ctrl1;
    if newPos + ctrl0 > newSize then Malformed("newPos + ctrl0 exceeds newSize")
    else if |s| == 24 || |s| < addEnd then Malformed("EOF or invalid size")
    else if ctrl1 < 0 then Malformed("panic: makeslice: len out of range")
    else if |s| < insertEnd then Malformed("EOF or invalid size")
    else Parsed(Triple(s[24..addEnd], s[addEnd..insertEnd], ctrl2), s[insertEnd..])
  }

  /** What the stream has for one round: three integers that fit what follows, and the bytes that they announce. */
  ghost predicate Announces(newSize: int, newPos: int, s: Bytes) {
    && |s| > 24
    && ReadInt64(s, 0) >= 0 && newPos + ReadInt64(s, 0) <= newSize
    && ReadInt64(s, 8) >= 0 && 24 + ReadInt64(s, 0) + ReadInt64(s, 8) <= |s|
  }

  /**
    A round succeeds exactly if the first integer announces added bytes that do not go past the new
    size, the second one bytes to store, and all of them are there. The third one is the seek, the
    added bytes come first, and the rest is left to the next round.
  */
  lemma {:induction false} TripleLayout(newSize: int, newPos: int, s: Bytes)
    ensures ParseTriple(newSize, newPos, s).Parsed? <==> Announces(newSize, newPos, s)
    ensures ParseTriple(newSize, newPos, s).Parsed? ==>
              var t, rest := ParseTriple(newSize, newPos, s).triple, ParseTriple(newSize, newPos, s).rest;
              && |t.add| == ReadInt64(s, 0) && |t.insert| == ReadInt64(s, 8) && t.seek == ReadInt64(s, 16)
              && s == s[..24] + t.add + t.insert + rest
  {
  }

  lemma {:induction false} ParseEncodedTriple(newSize: int, newPos: int, t: Triple, rest: Bytes)
    requires t.Encodable()
    requires newPos + |t.add| <= newSize
    requires |t.add| + |t.insert| + |rest| > 0
    ensures ParseTriple(newSize, newPos, EncodeTriple(t) + rest) == Parsed(t, rest)
  {
    TripleParts(newSize, newPos, t, EncodeTriple(t) + rest, rest);
  }

  lemma {:induction false} TripleParts(newSize: int, newPos: int, t: Triple, s: Bytes, rest: Bytes)
    requires t.Encodable() && newPos + |t.add| <= newSize && |t.add| + |t.insert| + |rest| > 0
    requires s == WriteInt64(|t.add|) + WriteInt64(|t.insert|) + WriteInt64(t.seek) + t.add + t.insert + rest
    ensures ParseTriple(newSize, newPos, s) == Parsed(t, rest)
  {
    var a, b, c := WriteInt64(|t.add|), WriteInt64(|t.insert|), WriteInt64(t.seek);
    SplitTriple(a, b, c, t.add, t.insert, rest, s);
    ControlRoundTrip(t, s);
    ParsedParts(newSize, newPos, t, s, rest);
  }

  lemma {:induction false} ControlRoundTrip(t: Triple, s: Bytes)
    requires t.Encodable() && |s| >= 24
    requires s[0..8] == WriteInt64(|t.add|) && s[8..16] == WriteInt64(|t.insert|) && s[16..24] == WriteInt64(t.seek)
    ensures ReadInt64(s, 0) == |t.add| && ReadInt64(s, 8) == |t.insert| && ReadInt64(s, 16) == t.seek
  {
    Int64RoundTrip(|t.add|, s, 0);
    Int64RoundTrip(|t.insert|, s, 8);
    Int64RoundTrip(t.seek, s, 16);
  }

  /** The three integers and the bytes that they announce decide. */
  lemma {:induction false} ParsedParts(newSize: int, newPos: int, t: Triple, s: Bytes, rest: Bytes)
    requires |s| == 24 + |t.add| + |t.insert| + |rest| && |s| > 24 && newPos + |t.add| <= newSize
    requires ReadInt64(s, 0) == |t.add| && ReadInt64(s, 8) == |t.insert| && ReadInt64(s, 16) == t.seek
    requires s[24..24 + |t.add|] == t.add && s[24 + |t.add|..24 + |t.add| + |t.insert|] == t.insert
    requires s[24 + |t.add| + |t.insert|..] == rest
    ensures ParseTriple(newSize, newPos, s) == Parsed(t, rest)
  {
  }

  lemma {:induction false} SplitTriple(a: Bytes, b: Bytes, c: Bytes, add: Bytes, insert: Bytes, rest: Bytes, s: Bytes)
    requires |a| == |b| == |c| == INT64_BYTES
    requires s == a + b + c + add + insert + rest
    ensures s[0..8] == a && s[8..16] == b && s[16..24] == c
    ensures s[24..24 + |add|] == add && s[24 + |add|..24 + |add| + |insert|] == insert
    ensures s[24 + |add| + |insert|..] == rest
  {
  }

  // ------------------------------------------------------------ readContent

  /** A block without bytes is dropped; its seek still counts. */
  function KeepBlock(b: DiffBlock): seq<DiffBlock> {
    if b.Size() == 0 then [] else [b]
  }

  function Prepend(b: DiffBlock, tail: Result<seq<DiffBlock>>): Result<seq<DiffBlock>> {
    if tail.Success? then Success(KeepBlock(b) + tail.value) else tail
  }

  /** A way to take one triple from the stream at a given new position. */
  type TripleReader = (int, Bytes) -> ParsedTriple

  /** Every triple consumes input and copies no further than the new size. */
  ghost predicate Sound(next: TripleReader, newSize: int) {
    forall newPos, s :: next(newPos, s).Parsed? ==>
      |next(newPos, s).rest| < |s| && newPos + |next(newPos, s).triple.add| <= newSize
  }

  function ReaderFor(newSize: int): (next: TripleReader)
    ensures Sound(next, newSize)
  {
    (newPos, s) => ParseTriple(newSize, newPos, s)
  }

  /** The blocks in the rest of a stream. The input shrinks in every round, even when `newPos` stands still. */
  function ParseFrom(next: TripleReader, newSize: int, newPos: int, oldPos: int, s: Bytes): Result<seq<DiffBlock>>
    requires Sound(next, newSize)
    decreases |s|
  {
    if newPos >= newSize then Success([])
    else
      match next(newPos, s)
      case Malformed(reason) => Failure(reason)
      case Parsed(t, rest) =>
        var b := DiffBlock(oldPos, newPos, t.add, t.insert);
        Prepend(b, ParseFrom(next, newSize, b.End(), oldPos + |t.add| + t.seek, rest))
  }

  function Parse(newSize: int, s: Bytes): Result<seq<DiffBlock>> {
    ParseFrom(ReaderFor(newSize), newSize, 0, 0, s)
  }

  /** The blocks so far, followed by those of the rest. */
  function Continue(blocks: seq<DiffBlock>, rest: Result<seq<DiffBlock>>): Result<seq<DiffBlock>> {
    if rest.Success? then Success(blocks + rest.value) else rest
  }

  /** In the middle of the loop: the stream stands for the blocks so far and what the rest will give. */
  ghost predicate Remains(whole: Result<seq<DiffBlock>>, blocks: seq<DiffBlock>, next: TripleReader, newSize: int, newPos: int, oldPos: int, s: Bytes)
    requires Sound(next, newSize)
  {
    whole == Continue(blocks, ParseFrom(next, newSize, newPos, oldPos, s))
  }

  lemma {:induction false} RemainsAll(next: TripleReader, newSize: int, s: Bytes)
    requires Sound(next, newSize)
    ensures Remains(ParseFrom(next, newSize, 0, 0, s), [], next, newSize, 0, 0, s)
  {
    var whole := ParseFrom(next, newSize, 0, 0, s);
    assert whole.Success? ==> [] + whole.value == whole.value;
  }

  /** One round of the loop takes one block over from the rest, or fails. */
  lemma {:induction false} RemainsStep(whole: Result<seq<DiffBlock>>, blocks: seq<DiffBlock>, next: TripleReader, newSize: int, newPos: int,
                                       oldPos: int, s: Bytes)
    requires Sound(next, newSize) && newPos < newSize && Remains(whole, blocks, next, newSize, newPos, oldPos, s)
    ensures match next(newPos, s)
            case Malformed(reason) => whole == Failure(reason)
            case Parsed(t, rest) =>
              var b := DiffBlock(oldPos, newPos, t.add, t.insert);
              Remains(whole, blocks + KeepBlock(b), next, newSize, b.End(), oldPos + |t.add| + t.seek, rest)
  {
    if next(newPos, s).Parsed? {
      var t, rest := next(newPos, s).triple, next(newPos, s).rest;
      var b := DiffBlock(oldPos, newPos, t.add, t.insert);
      var tail := ParseFrom(next, newSize, b.End(), oldPos + |t.add| + t.seek, rest);
      if tail.Success? {
        AppendAssociative(blocks, KeepBlock(b), tail.value);
      }
    }
  }

  lemma {:induction false} NothingRemains(whole: Result<seq<DiffBlock>>, blocks: seq<DiffBlock>, next: TripleReader, newSize: int, newPos: int,
                                          oldPos: int, s: Bytes)
    requires Sound(next, newSize) && newPos >= newSize && Remains(whole, blocks, next, newSize, newPos, oldPos, s)
    ensures whole == Success(blocks)
  {
    assert blocks + [] == blocks;
  }

  method ReadBlocks(next: TripleReader, newSize: int, s: Bytes) returns (r: Result<seq<DiffBlock>>)
    requires Sound(next, newSize)
    ensures r == ParseFrom(next, newSize, 0, 0, s)
  {
    var newPos, oldPos, rest := 0, 0, s;
    var blocks := [];
    ghost var whole := ParseFrom(next, newSize, 0, 0, s);
    RemainsAll(next, newSize, s);
    while newPos < newSize
      invariant Remains(whole, blocks, next, newSize, newPos, oldPos, rest)
      decreases |rest|
    {
      RemainsStep(whole, blocks, next, newSize, newPos, oldPos, rest);
      var step := next(newPos, rest);
      if step.Malformed? {
        return Failure(step.reason);
      }
      var t := step.triple;
      rest := step.rest;
      blocks := AddBlock(blocks, DiffBlock(oldPos, newPos, t.add, t.insert));
      newPos := newPos + |t.add|;
      oldPos := oldPos + |t.add|;
      newPos := newPos + |t.insert|;
      oldPos := oldPos + t.seek;
    }
    NothingRemains(whole, blocks, next, newSize, newPos, oldPos, rest);
    return Success(blocks);
  }

  method AddBlock(before: seq<DiffBlock>, block: DiffBlock) returns (blocks: seq<DiffBlock>)
    ensures blocks == before + KeepBlock(block)
  {
    blocks := before;
    if |block.addBytes| != 0 || |block.insertBytes| != 0 {
      blocks := blocks + [block];
    }
  }

  /** The size in a header is unsigned, and the loop compares with it as a signed one. */
  type Uint64 = v: int | 0 <= v < 2 * TWO_TO_THE_63

  function ParseContent(newSize: Uint64, s: Bytes): Result<seq<DiffBlock>> {
    Parse(ToInt64(newSize), s)
  }

  /** `readContent`. The check against the unsigned size is only reached where both readings agree. */
  method ReadContent(newSize: Uint64, s: Bytes) returns (r: Result<seq<DiffBlock>>)
    ensures r == ParseContent(newSize, s)
  {
    var size := ToInt64(newSize);
    r := ReadBlocks(ReaderFor(size), size, s);
  }

  // ------------------------------------------------------------- writePatch

  /** How far the old position moves after a block, beyond the bytes it copies. */
  function SeekAfter(blocks: seq<DiffBlock>, i: nat): int
    requires i < |blocks|
  {
    if i == |blocks| - 1 then 0 else blocks[i + 1].oldPos - blocks[i].oldPos - |blocks[i].addBytes|
  }

  function TripleAt(blocks: seq<DiffBlock>, i: nat): Triple
    requires i < |blocks|
  {
    Triple(blocks[i].addBytes, blocks[i].insertBytes, SeekAfter(blocks, i))
  }

  /** Lengths and seeks fit the format; the smallest 64-bit integer does not. */
  ghost predicate Encodable(blocks: seq<DiffBlock>) {
    && (blocks != [] ==> -TWO_TO_THE_63 < blocks[0].oldPos < TWO_TO_THE_63)
    && forall i :: 0 <= i < |blocks| ==> TripleAt(blocks, i).Encodable()
  }

  function PrintFrom(blocks: seq<DiffBlock>, i: nat): Bytes
    requires i <= |blocks|
    decreases |blocks| - i
  {
    if i == |blocks| then [] else EncodeTriple(TripleAt(blocks, i)) + PrintFrom(blocks, i + 1)
  }

  /** The leading triple that only moves to the first old position. */
  function LeadingSeek(blocks: seq<DiffBlock>): Bytes {
    if blocks == [] || blocks[0].oldPos == 0 then [] else EncodeTriple(Triple([], [], blocks[0].oldPos))
  }

  function Print(blocks: seq<DiffBlock>): Bytes {
    LeadingSeek(blocks) + PrintFrom(blocks, 0)
  }

  /** In the middle of the loop: printing the blocks from the i-th one on completes the output. */
  ghost predicate Completes(out: Bytes, blocks: seq<DiffBlock>, i: nat)
    requires i <= |blocks|
  {
    out + PrintFrom(blocks, i) == Print(blocks)
  }

  lemma {:induction false} LeadCompletes(blocks: seq<DiffBlock>)
    requires blocks != []
    ensures Completes(LeadingSeek(blocks), blocks, 0)
  {
  }

  lemma {:induction false} CompletesStep(out: Bytes, blocks: seq<DiffBlock>, i: nat)
    requires i < |blocks| && Completes(out, blocks, i)
    ensures Completes(out + EncodeTriple(TripleAt(blocks, i)), blocks, i + 1)
  {
    AppendAssociative(out, EncodeTriple(TripleAt(blocks, i)), PrintFrom(blocks, i + 1));
  }

  lemma {:induction false} Completed(out: Bytes, blocks: seq<DiffBlock>)
    requires Completes(out, blocks, |blocks|)
    ensures out == Print(blocks)
  {
    assert out + [] == out;
  }

  /** The seek to where the first block starts. */
  method WriteLead(blocks: seq<DiffBlock>) returns (out: Bytes)
    requires blocks != []
    ensures out == LeadingSeek(blocks)
  {
    out := [];
    if blocks[0].oldPos != 0 {
      out := WriteTriple(out, Triple([], [], blocks[0].oldPos));
    }
  }

  method WritePatch(blocks: seq<DiffBlock>) returns (out: Bytes)
    ensures out == Print(blocks)
  {
    out := [];
    if |blocks| == 0 {
      return;
    }
    out := WriteLead(blocks);
    LeadCompletes(blocks);
    for i := 0 to |blocks|
      invariant Completes(out, blocks, i)
    {
      CompletesStep(out, blocks, i);
      out := WriteBlock(out, blocks, i);
    }
    Completed(out, blocks);
  }

  method WriteBlock(before: Bytes, blocks: seq<DiffBlock>, i: nat) returns (out: Bytes)
    requires i < |blocks|
    ensures out == before + EncodeTriple(TripleAt(blocks, i))
  {
    var b := blocks[i];
    var ctrl2 := 0;
    if i != |blocks| - 1 {
      ctrl2 := blocks[i + 1].oldPos - blocks[i].oldPos - |b.addBytes|;
    }
    out := WriteTriple(before, Triple(b.addBytes, b.insertBytes, ctrl2));
  }

  lemma {:induction false} AppendAssociative<T>(a: seq<T>, b: seq<T>, c: seq<T>)
    ensures a + b + c == a + (b + c)
  {
  }

  lemma {:induction false} AppendThree<T>(a: seq<T>, b: seq<T>, c: seq<T>, d: seq<T>)
    ensures a + b + c + d == a + (b + c + d)
  {
  }

  method WriteTriple(before: Bytes, t: Triple) returns (out: Bytes)
    ensures out == before + EncodeTriple(t)
  {
    var ctrl0, ctrl1, ctrl2 := WriteInt64(ToInt64(|t.add|)), WriteInt64(ToInt64(|t.insert|)), WriteInt64(ToInt64(t.seek));
    out := before + ctrl0;
    out := out + ctrl1;
    out := out + ctrl2;
    AppendThree(before, ctrl0, ctrl1, ctrl2);
    out := out + t.add;
    out := out + t.insert;
    AppendThree(before, EncodeControl(t), t.add, t.insert);
  }

  // ------------------------------------------------------------- round trips

  /** The header's size lets the parser read every block and stops it after the last. */
  ghost predicate FitsHeader(blocks: seq<DiffBlock>, newSize: int) {
    && TotalSize(blocks) >= newSize
    && StartsBefore(blocks, newSize)
  }

  ghost predicate StartsBefore(blocks: seq<DiffBlock>, newSize: int) {
    forall i :: 0 <= i < |blocks| ==> blocks[i].newPos < newSize && blocks[i].InsertPos() <= newSize
  }

  /** Each stream consists of the triple of one block and the next stream. */
  ghost predicate Chained(next: TripleReader, blocks: seq<DiffBlock>, streams: seq<Bytes>) {
    && |streams| == |blocks| + 1
    && forall i :: 0 <= i < |blocks| ==>
         next(blocks[i].newPos, streams[i]) == Parsed(TripleAt(blocks, i), streams[i + 1])
  }

  lemma {:induction false} ParseChained(next: TripleReader, newSize: int, blocks: seq<DiffBlock>, streams: seq<Bytes>, i: nat)
    requires Sound(next, newSize) && Tiles(blocks) && FitsHeader(blocks, newSize)
    requires Chained(next, blocks, streams) && i < |blocks|
    ensures ParseFrom(next, newSize, blocks[i].newPos, blocks[i].oldPos, streams[i]) == Success(blocks[i..])
    decreases |blocks| - i
  {
    var b, t := blocks[i], TripleAt(blocks, i);
    assert Follows(blocks, i) && b == DiffBlock(b.oldPos, b.newPos, t.add, t.insert);
    assert next(b.newPos, streams[i]) == Parsed(t, streams[i + 1]);
    if i + 1 < |blocks| {
      assert Follows(blocks, i + 1);
      ParseChained(next, newSize, blocks, streams, i + 1);
    } else {
      assert b.End() == TotalSize(blocks);
    }
    assert blocks[i..] == KeepBlock(b) + blocks[i + 1..];
  }

  lemma {:induction false} PrintedHead(blocks: seq<DiffBlock>, newSize: int, i: nat)
    requires Tiles(blocks) && Encodable(blocks) && FitsHeader(blocks, newSize) && i < |blocks|
    ensures ParseTriple(newSize, blocks[i].newPos, PrintFrom(blocks, i)) == Parsed(TripleAt(blocks, i), PrintFrom(blocks, i + 1))
    ensures PrintFrom(blocks, i) != []
  {
    assert TripleAt(blocks, i).Encodable() && Follows(blocks, i);
    ParseEncodedTriple(newSize, blocks[i].newPos, TripleAt(blocks, i), PrintFrom(blocks, i + 1));
  }

  lemma {:induction false} PrintedChain(blocks: seq<DiffBlock>, newSize: int) returns (streams: seq<Bytes>)
    requires Tiles(blocks) && Encodable(blocks) && FitsHeader(blocks, newSize)
    ensures Chained(ReaderFor(newSize), blocks, streams) && streams[0] == PrintFrom(blocks, 0)
  {
    streams := seq(|blocks| + 1, i requires 0 <= i <= |blocks| => PrintFrom(blocks, i));
    forall i | 0 <= i < |blocks|
      ensures ReaderFor(newSize)(blocks[i].newPos, streams[i]) == Parsed(TripleAt(blocks, i), streams[i + 1])
    {
      PrintedHead(blocks, newSize, i);
    }
  }

  /** A triple without bytes only moves the old position. */
  lemma {:induction false} ParseSeek(next: TripleReader, newSize: int, s: Bytes, seek: int, rest: Bytes, blocks: seq<DiffBlock>)
    requires Sound(next, newSize)
    requires 0 < newSize && next(0, s) == Parsed(Triple([], [], seek), rest)
    requires ParseFrom(next, newSize, 0, seek, rest) == Success(blocks)
    ensures ParseFrom(next, newSize, 0, 0, s) == Success(blocks)
  {
    assert KeepBlock(DiffBlock(0, 0, [], [])) + blocks == blocks;
  }

  /** The whole output of the printer starts with a seek, or with the first block. */
  lemma {:induction false} PrintedLead(blocks: seq<DiffBlock>, newSize: int)
    requires blocks != [] && Tiles(blocks) && Encodable(blocks) && FitsHeader(blocks, newSize)
    ensures if blocks[0].oldPos == 0 then Print(blocks) == PrintFrom(blocks, 0)
            else ParseTriple(newSize, 0, Print(blocks)) == Parsed(Triple([], [], blocks[0].oldPos), PrintFrom(blocks, 0))
  {
    var lead, body := Triple([], [], blocks[0].oldPos), PrintFrom(blocks, 0);
    assert Follows(blocks, 0);
    PrintedHead(blocks, newSize, 0);
    if blocks[0].oldPos == 0 {
      assert [] + body == body;
    } else {
      ParseEncodedTriple(newSize, 0, lead, body);
    }
  }

  lemma {:induction false} ParseAfterLead(next: TripleReader, newSize: int, blocks: seq<DiffBlock>, streams: seq<Bytes>, s: Bytes)
    requires Sound(next, newSize) && blocks != [] && Tiles(blocks) && FitsHeader(blocks, newSize)
    requires Chained(next, blocks, streams)
    requires if blocks[0].oldPos == 0 then s == streams[0]
             else next(0, s) == Parsed(Triple([], [], blocks[0].oldPos), streams[0])
    ensures ParseFrom(next, newSize, 0, 0, s) == Success(blocks)
  {
    assert Follows(blocks, 0) && blocks[0..] == blocks;
    ParseChained(next, newSize, blocks, streams, 0);
    if blocks[0].oldPos != 0 {
      ParseSeek(next, newSize, s, blocks[0].oldPos, streams[0], blocks);
    }
  }

  /** Printing a gap-free list and parsing the result gives the list back, positions included. */
  lemma {:induction false} ParsePrinted(blocks: seq<DiffBlock>, newSize: int)
    requires Tiles(blocks) && Encodable(blocks) && FitsHeader(blocks, newSize)
    ensures Parse(newSize, Print(blocks)) == Success(blocks)
  {
    if blocks != [] {
      var streams := PrintedChain(blocks, newSize);
      PrintedLead(blocks, newSize);
      ParseAfterLead(ReaderFor(newSize), newSize, blocks, streams, Print(blocks));
    }
  }

  /** One step of the induction below: the block of one triple, in front of the rest. */
  lemma {:induction false} ParsedStep(next: TripleReader, newSize: int, newPos: int, oldPos: int, s: Bytes, blocks: seq<DiffBlock>)
    returns (b: DiffBlock, oldNext: int, rest: Bytes, tail: seq<DiffBlock>)
    requires Sound(next, newSize)
    requires newPos < newSize && ParseFrom(next, newSize, newPos, oldPos, s) == Success(blocks)
    ensures |rest| < |s| && b.newPos == newPos && b.InsertPos() <= newSize
    ensures ParseFrom(next, newSize, b.End(), oldNext, rest) == Success(tail)
    ensures blocks == KeepBlock(b) + tail
  {
    var r := next(newPos, s);
    rest := r.rest;
    b := DiffBlock(oldPos, newPos, r.triple.add, r.triple.insert);
    oldNext := oldPos + |r.triple.add| + r.triple.seek;
    tail := ParseFrom(next, newSize, b.End(), oldNext, rest).value;
  }

  lemma {:induction false} ParsedFromShape(next: TripleReader, newSize: int, newPos: int, oldPos: int, s: Bytes,
                                           front: seq<DiffBlock>, blocks: seq<DiffBlock>)
    requires Sound(next, newSize)
    requires Tiles(front) && TotalSize(front) == newPos && StartsBefore(front, newSize)
    requires ParseFrom(next, newSize, newPos, oldPos, s) == Success(blocks)
    ensures Tiles(front + blocks) && TotalSize(front + blocks) >= newSize && StartsBefore(front + blocks, newSize)
    decreases |s|
  {
    if newPos < newSize {
      var b, oldNext, rest, tail := ParsedStep(next, newSize, newPos, oldPos, s, blocks);
      AppendAssociative(front, KeepBlock(b), tail);
      if b.Size() > 0 {
        TilesAppend(front, b);
      } else {
        assert front + KeepBlock(b) == front;
      }
      ParsedFromShape(next, newSize, b.End(), oldNext, rest, front + KeepBlock(b), tail);
    } else {
      assert front + blocks == front;
    }
  }

  /** Whatever stream is accepted, its blocks tile the new file up to the size in the header. */
  lemma {:induction false} ParsedShape(newSize: int, s: Bytes)
    requires Parse(newSize, s).Success?
    ensures var blocks := Parse(newSize, s).value; Tiles(blocks) && FitsHeader(blocks, newSize)
  {
    ReadShape(ReaderFor(newSize), newSize, s, Parse(newSize, s).value);
  }

  lemma {:induction false} ReadShape(next: TripleReader, newSize: int, s: Bytes, blocks: seq<DiffBlock>)
    requires Sound(next, newSize) && ParseFrom(next, newSize, 0, 0, s) == Success(blocks)
    ensures Tiles(blocks) && FitsHeader(blocks, newSize)
  {
    ParsedFromShape(next, newSize, 0, 0, s, [], blocks);
    assert [] + blocks == blocks;
  }

  /**
    Parsing any accepted stream, with zero-length triples or trailing input, and printing the blocks
    again gives a stream that parses to the same blocks.
  */
  lemma {:induction false} ReprintedStreamParsesTheSame(newSize: int, s: Bytes)
    requires Parse(newSize, s).Success?
    requires Encodable(Parse(newSize, s).value)
    ensures Parse(newSize, Print(Parse(newSize, s).value)) == Parse(newSize, s)
  {
    ParsedShape(newSize, s);
    ParsePrinted(Parse(newSize, s).value, newSize);
  }

  // --------------------------------------------------- meaning of a stream

  /** All triples of a stream, also those without bytes. */
  function TriplesFrom(next: TripleReader, newSize: int, newPos: int, s: Bytes): Result<seq<Triple>>
    requires Sound(next, newSize)
    decreases |s|
  {
    if newPos >= newSize then Success([])
    else
      match next(newPos, s)
      case Malformed(reason) => Failure(reason)
      case Parsed(t, rest) =>
        var tail :- TriplesFrom(next, newSize, newPos + |t.add| + |t.insert|, rest);
        Success([t] + tail)
  }

  function Triples(newSize: int, s: Bytes): Result<seq<Triple>> {
    TriplesFrom(ReaderFor(newSize), newSize, 0, s)
  }

  /** Triple by triple: add differences to old bytes, store bytes, move in the old file. */
  function PatchTriples(base: Bytes, ts: seq<Triple>, oldPos: int): Bytes {
    if ts == [] then []
    else
      var t := ts[0];
      Patch(base, CopyRun(oldPos, t.add)) + t.insert + PatchTriples(base, ts[1..], oldPos + |t.add| + t.seek)
  }

  lemma {:induction false} OpsPrepend(b: DiffBlock, tail: seq<DiffBlock>)
    ensures Ops([b] + tail) == BlockOps(b) + Ops(tail)
    decreases |tail|
  {
    var all := [b] + tail;
    if tail != [] {
      var front, last := tail[..|tail| - 1], tail[|tail| - 1];
      OpsPrepend(b, front);
      assert all[..|all| - 1] == [b] + front && all[|all| - 1] == last;
      AppendAssociative(BlockOps(b), Ops(front), BlockOps(last));
    } else {
      assert all[..|all| - 1] == [] && BlockOps(b) + [] == BlockOps(b);
    }
  }

  lemma {:induction false} PatchAppend(base: Bytes, a: Delta, b: Delta)
    ensures Patch(base, a + b) == Patch(base, a) + Patch(base, b)
  {
  }

  lemma {:induction false} PatchInserts(base: Bytes, bytes: Bytes)
    ensures Patch(base, InsertRun(bytes)) == bytes
  {
  }

  /** One triple does what its block says, whether or not the block is kept. */
  lemma {:induction false} KeptBlockPatch(base: Bytes, b: DiffBlock, tail: seq<DiffBlock>)
    ensures Patch(base, Ops(KeepBlock(b) + tail)) == Patch(base, CopyRun(b.oldPos, b.addBytes)) + b.insertBytes + Patch(base, Ops(tail))
  {
    PatchAppend(base, CopyRun(b.oldPos, b.addBytes), InsertRun(b.insertBytes));
    PatchInserts(base, b.insertBytes);
    PatchAppend(base, BlockOps(b), Ops(tail));
    if b.Size() == 0 {
      assert KeepBlock(b) + tail == tail;
      assert Patch(base, BlockOps(b)) == [];
      assert [] + Patch(base, Ops(tail)) == Patch(base, Ops(tail));
    } else {
      OpsPrepend(b, tail);
    }
  }

  /** The blocks of a stream make of every old file what its triples make of it. */
  lemma {:induction false} TriplesPatchLikeBlocks(base: Bytes, next: TripleReader, newSize: int, newPos: int, oldPos: int, s: Bytes)
    requires Sound(next, newSize)
    ensures PatchAlike(base, TriplesFrom(next, newSize, newPos, s), oldPos, ParseFrom(next, newSize, newPos, oldPos, s))
    decreases |s|
  {
    if newPos < newSize && next(newPos, s).Parsed? {
      var t, rest := next(newPos, s).triple, next(newPos, s).rest;
      var b := DiffBlock(oldPos, newPos, t.add, t.insert);
      var oldNext := oldPos + |t.add| + t.seek;
      TriplesPatchLikeBlocks(base, next, newSize, b.End(), oldNext, rest);
      var ts, tail := TriplesFrom(next, newSize, b.End(), rest), ParseFrom(next, newSize, b.End(), oldNext, rest);
      assert ParseFrom(next, newSize, newPos, oldPos, s) == Prepend(b, tail);
      if tail.Success? {
        assert TriplesFrom(next, newSize, newPos, s) == Success([t] + ts.value);
        OneMoreTriple(base, t, ts.value, b, tail.value, oldNext);
      }
    }
  }

  /** Either both fail, or the triples make of the old file what the blocks make of it. */
  ghost predicate PatchAlike(base: Bytes, ts: Result<seq<Triple>>, oldPos: int, blocks: Result<seq<DiffBlock>>) {
    && (ts.Success? <==> blocks.Success?)
    && (ts.Success? ==> PatchTriples(base, ts.value, oldPos) == Patch(base, Ops(blocks.value)))
  }

  lemma {:induction false} OneMoreTriple(base: Bytes, t: Triple, ts: seq<Triple>, b: DiffBlock, tail: seq<DiffBlock>, oldNext: int)
    requires b.addBytes == t.add && b.insertBytes == t.insert && oldNext == b.oldPos + |t.add| + t.seek
    requires PatchTriples(base, ts, oldNext) == Patch(base, Ops(tail))
    ensures PatchTriples(base, [t] + ts, b.oldPos) == Patch(base, Ops(KeepBlock(b) + tail))
  {
    KeptBlockPatch(base, b, tail);
    assert ([t] + ts)[1..] == ts;
  }

  /**
    Parsing an accepted stream and printing its blocks again keeps what the stream does, triple by
    triple, to every old file.
  */
  lemma {:induction false} ReprintedStreamPatchesTheSame(newSize: int, s: Bytes, base: Bytes)
    requires Parse(newSize, s).Success? && Encodable(Parse(newSize, s).value)
    ensures var reprinted := Print(Parse(newSize, s).value);
            && Triples(newSize, s).Success? && Triples(newSize, reprinted).Success?
            && PatchTriples(base, Triples(newSize, reprinted).value, 0) == PatchTriples(base, Triples(newSize, s).value, 0)
            && PatchTriples(base, Triples(newSize, s).value, 0) == Patch(base, Ops(Parse(newSize, s).value))
  {
    var reprinted := Print(Parse(newSize, s).value);
    ReprintedStreamParsesTheSame(newSize, s);
    TriplesPatchLikeBlocks(base, ReaderFor(newSize), newSize, 0, 0, s);
    TriplesPatchLikeBlocks(base, ReaderFor(newSize), newSize, 0, 0, reprinted);
  }

  /** A block list over a file of 64-bit size can always be printed. */
  lemma {:induction false} WellFormedEncodable(blocks: seq<DiffBlock>, oldSize: int)
    requires WellFormed(blocks, oldSize) && oldSize < TWO_TO_THE_63 && TotalSize(blocks) < TWO_TO_THE_63
    ensures Encodable(blocks)
  {
    forall i | 0 <= i < |blocks|
      ensures TripleAt(blocks, i).Encodable()
    {
      assert ReadsWithin(blocks[i], oldSize);
      assert i + 1 < |blocks| ==> ReadsWithin(blocks[i + 1], oldSize);
      BlockMerge.EndWithinTotal(blocks, i);
    }
    assert blocks != [] ==> ReadsWithin(blocks[0], oldSize);
  }

  lemma {:induction false} TilesFitHeader(blocks: seq<DiffBlock>)
    requires Tiles(blocks)
    ensures FitsHeader(blocks, TotalSize(blocks))
  {
    forall i | 0 <= i < |blocks|
      ensures blocks[i].newPos < TotalSize(blocks) && blocks[i].InsertPos() <= TotalSize(blocks)
    {
      assert Follows(blocks, i);
      TilesCovers(blocks, i);
      OpsLength(blocks);
    }
  }

  // ------------------------------------------------------------ an example

  /** Eight bytes for a number below 128, and for its negation. */
  function Small(v: Byte): Bytes {
    [v, 0, 0, 0, 0, 0, 0, 0]
  }

  function MinusSmall(v: Byte): Bytes {
    [v, 0, 0, 0, 0, 0, 0, 128]
  }

  lemma {:induction false} SmallNumbers(v: Byte)
    ensures ReadInt64(Small(v), 0) == v && ReadInt64(MinusSmall(v), 0) == -(v as int)
  {
    assert Small(v)[0..8] == Small(v) && MinusSmall(v)[0..8] == MinusSmall(v);
    var buf := Small(v);
    assert MinusSmall(v)[7 := 0] == buf && buf[7 := 0] == buf;
    EightBytes(buf, 0);
    ZeroBytes(buf, 1, 6);
  }

  lemma {:induction false} ZeroBytes(s: Bytes, at: nat, width: nat)
    requires at + width <= |s| && forall i :: at <= i < at + width ==> s[i] == 0
    ensures FromLittleEndian(s, at, width) == 0
    decreases width
  {
    if width > 0 {
      ZeroBytes(s, at + 1, width - 1);
    }
  }

  /** A number is read from its eight bytes only. */
  lemma {:induction false} ReadsHere(s: Bytes, at: nat, buf: Bytes)
    requires |buf| == INT64_BYTES && at + INT64_BYTES <= |s| && s[at..at + INT64_BYTES] == buf
    ensures ReadInt64(s, at) == ReadInt64(buf, 0)
  {
    assert buf[0..8] == buf;
  }

  function OneTriple(add: Bytes, insert: Bytes, seek: Bytes, bytes: Bytes): Bytes {
    add + insert + seek + bytes
  }

  /** Copy one byte and add x, store y and z, go back by the one byte that has been copied. */
  function KnownTriple(x: Byte, y: Byte, z: Byte): Bytes {
    OneTriple(Small(1), Small(2), MinusSmall(1), [x, y, z])
  }

  /** The same byte of the old file twice, each time with two bytes stored behind the sum. */
  lemma {:induction false} KnownStream(newSize: Uint64, x: Byte, y: Byte, z: Byte)
    requires 3 < newSize <= 6
    ensures ParseContent(newSize, KnownTriple(x, y, z) + KnownTriple(z, y, x)) ==
              Success([DiffBlock(0, 0, [x], [y, z]), DiffBlock(0, 3, [z], [y, x])])
  {
    var last := KnownTriple(z, y, x);
    KnownRound(newSize, 0, x, y, z, last);
    KnownRound(newSize, 3, z, y, x, []);
    assert last + [] == last;
    KnownBlocks(newSize, DiffBlock(0, 0, [x], [y, z]), DiffBlock(0, 3, [z], [y, x]), KnownTriple(x, y, z) + last, last);
  }

  lemma {:induction false} KnownBlocks(newSize: Uint64, lower: DiffBlock, upper: DiffBlock, s: Bytes, middle: Bytes)
    requires lower.oldPos == 0 == lower.newPos && upper.oldPos == 0 && upper.newPos == 3 < newSize <= 6
    requires |lower.addBytes| == |upper.addBytes| == 1 && |lower.insertBytes| == |upper.insertBytes| == 2
    requires ParseTriple(newSize, 0, s) == Parsed(Triple(lower.addBytes, lower.insertBytes, -1), middle)
    requires ParseTriple(newSize, 3, middle) == Parsed(Triple(upper.addBytes, upper.insertBytes, -1), [])
    ensures ParseContent(newSize, s) == Success([lower, upper])
  {
    TwoRounds(ReaderFor(newSize), newSize, lower, upper, -1, s, middle, []);
  }

  lemma {:induction false} TwoRounds(next: TripleReader, newSize: int, lower: DiffBlock, upper: DiffBlock, seek: int,
                                     s: Bytes, middle: Bytes, rest: Bytes)
    requires Sound(next, newSize) && lower.Size() > 0 && upper.Size() > 0
    requires lower.oldPos == 0 == lower.newPos && upper.oldPos == |lower.addBytes| + seek && upper.newPos == lower.End() < newSize <= upper.End()
    requires next(lower.newPos, s) == Parsed(Triple(lower.addBytes, lower.insertBytes, seek), middle)
    requires next(upper.newPos, middle) == Parsed(Triple(upper.addBytes, upper.insertBytes, seek), rest)
    ensures ParseFrom(next, newSize, 0, 0, s) == Success([lower, upper])
  {
    OneRound(next, newSize, upper, seek, middle, rest, []);
    assert [upper] + [] == [upper];
    OneRound(next, newSize, lower, seek, s, middle, [upper]);
    assert [lower] + [upper] == [lower, upper];
  }

  /** One round of parsing, for a block that is not empty. */
  lemma {:induction false} OneRound(next: TripleReader, newSize: int, b: DiffBlock, seek: int, s: Bytes, rest: Bytes, tail: seq<DiffBlock>)
    requires Sound(next, newSize) && b.newPos < newSize && b.Size() > 0
    requires next(b.newPos, s) == Parsed(Triple(b.addBytes, b.insertBytes, seek), rest)
    requires ParseFrom(next, newSize, b.End(), b.oldPos + |b.addBytes| + seek, rest) == Success(tail)
    ensures ParseFrom(next, newSize, b.newPos, b.oldPos, s) == Success([b] + tail)
  {
  }

  lemma {:induction false} KnownRound(newSize: int, newPos: int, x: Byte, y: Byte, z: Byte, rest: Bytes)
    requires newPos < newSize
    ensures ParseTriple(newSize, newPos, KnownTriple(x, y, z) + rest) == Parsed(Triple([x], [y, z], -1), rest)
  {
    var s, add, insert := KnownTriple(x, y, z) + rest, [x], [y, z];
    assert [x, y, z] == add + insert;
    KnownParts(Small(1), Small(2), MinusSmall(1), add, insert, rest, s);
    SmallNumbers(1);
    SmallNumbers(2);
    ReadsHere(s, 0, Small(1));
    ReadsHere(s, 8, Small(2));
    ReadsHere(s, 16, MinusSmall(1));
    ParsedParts(newSize, newPos, Triple(add, insert, -1), s, rest);
  }

  lemma {:induction false} KnownParts(a: Bytes, b: Bytes, c: Bytes, add: Bytes, insert: Bytes, rest: Bytes, s: Bytes)
    requires |a| == |b| == |c| == INT64_BYTES && s == OneTriple(a, b, c, add + insert) + rest
    ensures s[0..8] == a && s[8..16] == b && s[16..24] == c
    ensures s[24..24 + |add|] == add && s[24 + |add|..24 + |add| + |insert|] == insert && s[24 + |add| + |insert|..] == rest
  {
    AppendAssociative(a + b + c, add, insert);
    SplitTriple(a, b, c, add, insert, rest, s);
  }

  lemma {:induction false} ZeroWritten(width: nat)
    ensures forall i :: 0 <= i < width ==> LittleEndian(0, width)[i] == 0
  {
    if width > 0 {
      ZeroWritten(width - 1);
    }
  }

  lemma {:induction false} SmallWritten(v: Byte)
    ensures WriteInt64(v) == Small(v) && (v > 0 ==> WriteInt64(-(v as int)) == MinusSmall(v))
  {
    ZeroWritten(7);
    assert LittleEndian(v, INT64_BYTES) == Small(v);
  }

  lemma {:induction false} EncodedAs(t: Triple, add: Bytes, insert: Bytes, seek: Bytes, bytes: Bytes)
    requires t.Encodable() && add == WriteInt64(|t.add|) && insert == WriteInt64(|t.insert|) && seek == WriteInt64(t.seek)
    requires bytes == t.add + t.insert
    ensures EncodeTriple(t) == OneTriple(add, insert, seek, bytes)
  {
    AppendAssociative(EncodeControl(t), t.add, t.insert);
  }

  /**
    Two blocks at the positions 5 and 3 of the old file: a triple for where the first one starts, then
    one for each block, the last one without a seek.
  */
  lemma {:induction false} KnownPrinted(x: Byte, y: Byte)
    ensures Print([DiffBlock(5, 0, [x], []), DiffBlock(3, 1, [y], [x])]) ==
              OneTriple(Small(0), Small(0), Small(5), []) + OneTriple(Small(1), Small(0), MinusSmall(3), [x])
              + OneTriple(Small(1), Small(1), Small(0), [y, x])
  {
    var blocks := [DiffBlock(5, 0, [x], []), DiffBlock(3, 1, [y], [x])];
    KnownTriples(x, y);
    PrintTwo(blocks, Triple([], [], 5), Triple([x], [], -3), Triple([y], [x], 0));
  }

  lemma {:induction false} KnownTriples(x: Byte, y: Byte)
    ensures EncodeTriple(Triple([], [], 5)) == OneTriple(Small(0), Small(0), Small(5), [])
    ensures EncodeTriple(Triple([x], [], -3)) == OneTriple(Small(1), Small(0), MinusSmall(3), [x])
    ensures EncodeTriple(Triple([y], [x], 0)) == OneTriple(Small(1), Small(1), Small(0), [y, x])
  {
    SmallWritten(0);
    SmallWritten(3);
    SmallWritten(5);
    EncodedSmall(Triple([], [], 5), Small(5));
    EncodedSmall(Triple([x], [], -3), MinusSmall(3));
    EncodedSmall(Triple([y], [x], 0), Small(0));
    var none: Bytes := [];
    assert none + none == none && [x] + none == [x] && [y] + [x] == [y, x];
  }

  lemma {:induction false} EncodedSmall(t: Triple, seek: Bytes)
    requires t.Encodable() && |t.add| < 256 && |t.insert| < 256 && seek == WriteInt64(t.seek)
    ensures EncodeTriple(t) == OneTriple(Small(|t.add|), Small(|t.insert|), seek, t.add + t.insert)
  {
    SmallWritten(|t.add|);
    SmallWritten(|t.insert|);
    EncodedAs(t, Small(|t.add|), Small(|t.insert|), seek, t.add + t.insert);
  }

  lemma {:induction false} PrintTwo(blocks: seq<DiffBlock>, lead: Triple, first: Triple, second: Triple)
    requires |blocks| == 2 && blocks[0].oldPos != 0 && lead == Triple([], [], blocks[0].oldPos)
    requires first == TripleAt(blocks, 0) && second == TripleAt(blocks, 1)
    ensures Print(blocks) == EncodeTriple(lead) + EncodeTriple(first) + EncodeTriple(second)
  {
    PrintLast(blocks, 1);
    AppendAssociative(EncodeTriple(lead), EncodeTriple(first), EncodeTriple(second));
  }

  lemma {:induction false} PrintLast(blocks: seq<DiffBlock>, i: nat)
    requires i + 1 == |blocks|
    ensures PrintFrom(blocks, i) == EncodeTriple(TripleAt(blocks, i))
  {
    var t := EncodeTriple(TripleAt(blocks, i));
    assert t + [] == t;
  }

  // ------------------------------------------------------ DeltaMergingBytes

  /** A patch file: the size in its header and its decompressed control stream. */
  datatype PatchFile = PatchFile(newLen: Uint64, content: Bytes)
  {
    function Blocks(): Result<seq<DiffBlock>> {
      ParseContent(newLen, content)
    }

    /** What this patch file stands for. */
    function Meaning(): Result<FilePatch> {
      var blocks :- Blocks();
      Success(PatchOf(blocks))
    }

    /** It parses, and its blocks yield exactly `newLen` bytes. */
    predicate Proper() {
      Meaning().Success? && |Meaning().value.ops| == newLen
    }
  }

  /** From 2^63 on, whatever follows the header is accepted. */
  lemma {:induction false} HugeHeaderReadsNothing(f: PatchFile)
    requires f.newLen >= TWO_TO_THE_63
    ensures f.Blocks() == Success([])
  {
    var size := ToInt64(f.newLen);
    assert size < 0;
    NothingToRead(ReaderFor(size), size, f.content);
  }

  lemma {:induction false} NothingToRead(next: TripleReader, newSize: int, s: Bytes)
    requires Sound(next, newSize) && newSize <= 0
    ensures ParseFrom(next, newSize, 0, 0, s) == Success([])
  {
  }

  /** An accepted patch file yields at least as many bytes as its header says, if and only if that number is below 2^63. */
  lemma {:induction false} ReadsUpToHeader(f: PatchFile)
    requires f.Blocks().Success?
    ensures TotalSize(f.Blocks().value) >= f.newLen <==> f.newLen < TWO_TO_THE_63
  {
    if f.newLen < TWO_TO_THE_63 {
      ParsedShape(f.newLen, f.content);
    } else {
      HugeHeaderReadsNothing(f);
    }
  }

  /** The conditions under which 64-bit control values can hold what merging makes: file sizes below 2^63. */
  ghost predicate MergeFitsInt64(lowerDiff: PatchFile, upperDiff: PatchFile, baseSize: int) {
    && lowerDiff.Meaning().Success? && InBounds(lowerDiff.Meaning().value.ops, baseSize) && 0 < baseSize < TWO_TO_THE_63
    && upperDiff.Proper() && upperDiff.newLen < TWO_TO_THE_63
  }

  /**
    `DeltaMergingBytes`, from patch files to a patch file. It fails exactly when an input does not
    parse, the lower one is empty, or the upper one does not fit into the lower output. The result,
    parsed again, stands for the composition of the two patches, and does to every base what the two
    inputs do in turn.
  */
  method DeltaMergingBytes(lowerDiff: PatchFile, upperDiff: PatchFile) returns (r: Result<PatchFile>)
    ensures r.Success? <==>
              && lowerDiff.Meaning().Success? && upperDiff.Meaning().Success?
              && lowerDiff.Meaning().value.ops != []
              && upperDiff.Meaning().value.need.MetBy(|lowerDiff.Meaning().value.ops|)
    ensures r.Success? ==> r.value.newLen == upperDiff.newLen
    ensures r.Success? ==> forall baseSize :: MergeFitsInt64(lowerDiff, upperDiff, baseSize) ==>
              r.value.Proper() && r.value.Meaning() == Success(ComposePatches(lowerDiff.Meaning().value, upperDiff.Meaning().value))
    ensures r.Success? ==> forall base: Bytes :: MergeFitsInt64(lowerDiff, upperDiff, |base|) ==>
              && r.value.Meaning().Success?
              && Patch(base, r.value.Meaning().value.ops)
                 == Patch(Patch(base, lowerDiff.Meaning().value.ops), upperDiff.Meaning().value.ops)
  {
    var lower :- ReadContent(lowerDiff.newLen, lowerDiff.content);
    var upper :- ReadContent(upperDiff.newLen, upperDiff.content);
    ParsedShape(ToInt64(lowerDiff.newLen), lowerDiff.content);
    ParsedShape(ToInt64(upperDiff.newLen), upperDiff.content);
    MergeCondition(lower, upper);
    var merged :- BlockMerge.MergeBlocks(lower, upper);
    var out := WritePatch(merged);
    r := Success(PatchFile(upperDiff.newLen, out));
    forall baseSize | MergeFitsInt64(lowerDiff, upperDiff, baseSize)
      ensures ParseContent(upperDiff.newLen, out) == Success(merged) && |Ops(merged)| == upperDiff.newLen
    {
      MergedPrints(lower, upper, merged, baseSize, upperDiff.newLen);
    }
    forall base: Bytes | MergeFitsInt64(lowerDiff, upperDiff, |base|)
      ensures Patch(base, Ops(merged)) == Patch(Patch(base, Ops(lower)), Ops(upper))
    {
      BlockMerge.MergedBlocksPatchLikeBoth(base, lower, upper, merged);
    }
  }

  /** When two block lists can be merged, in terms of the patches they stand for. */
  lemma {:induction false} MergeCondition(lower: seq<DiffBlock>, upper: seq<DiffBlock>)
    requires Tiles(lower)
    ensures lower != [] <==> Ops(lower) != []
    ensures AllReadWithin(upper, TotalSize(lower)) <==> BlocksNeed(upper).MetBy(|Ops(lower)|)
  {
    OpsLength(lower);
    StartNonNegative(lower, |lower|);
    BlocksNeedExact(upper, |Ops(lower)|);
  }

  /** The merged blocks can be printed, and parse back. */
  lemma {:induction false} MergedPrints(lower: seq<DiffBlock>, upper: seq<DiffBlock>, merged: seq<DiffBlock>, baseSize: int, newLen: nat)
    requires Tiles(lower) && Tiles(upper) && Tiles(merged) && TotalSize(merged) == TotalSize(upper)
    requires AllReadWithin(upper, TotalSize(lower)) && PatchOf(merged) == ComposePatches(PatchOf(lower), PatchOf(upper))
    requires InBounds(Ops(lower), baseSize) && 0 < baseSize < TWO_TO_THE_63 && |Ops(upper)| == newLen < TWO_TO_THE_63
    ensures Parse(newLen, Print(merged)) == Success(merged) && |Ops(merged)| == newLen
  {
    OpsLength(lower);
    OpsLength(upper);
    OpsLength(merged);
    WellFormedInBounds(upper, TotalSize(lower));
    ComposeInBounds(Ops(lower), Ops(upper), baseSize);
    InBoundsMeetsNeed(Ops(merged), baseSize);
    BlocksNeedExact(merged, baseSize);
    WellFormedEncodable(merged, baseSize);
    TilesFitHeader(merged);
    ParsePrinted(merged, newLen);
  }
}
