/**
  The bsdiff codec behind a delta image (pkg/image/merge.go, the worker's DIFF+DIFF case): merging two
  stored patches succeeds exactly when the image merge says so, and stores what it says.
*/
module PatchCodec {
  import opened Results
  import opened DeltaOps
  import opened ImageTree
  import opened ImageMerge
  import opened StoredImage
  import opened PatchFormat
  import ImageStorage

  /** A patch file between its bytes and its parsed form: a header and a compressed stream. */
  datatype Framing = Framing(decode: Bytes -> Option<PatchFile>, encode: PatchFile -> Bytes)
  {
    ghost predicate Lawful() {
      forall f :: decode(encode(f)) == Some(f)
    }

    function Meaning(bytes: Bytes): Option<FilePatch> {
      match decode(bytes)
      case None => None
      case Some(f) => if f.Meaning().Success? then Some(f.Meaning().value) else None
    }
  }

  /** The codec reads deltas as bsdiff patch files. */
  ghost predicate IsBsdiff(c: Codec, f: Framing) {
    f.Lawful() && forall bytes :: c.parse(bytes) == f.Meaning(bytes)
  }

  /** The sizes that the patches are about fit into 64 bits. */
  ghost predicate SizesFit(f: Framing, lower: Bytes, upper: Bytes, baseSize: int) {
    f.decode(lower).Some? && f.decode(upper).Some? && MergeFitsInt64(f.decode(lower).value, f.decode(upper).value, baseSize)
  }

  lemma {:induction false} MergedEncodes(c: Codec, f: Framing, lower: FilePatch, upper: FilePatch, merged: PatchFile, m: Meta, m': Meta)
    requires IsBsdiff(c, f) && MergeableChild(Some(FileDiff(m, lower)), FileDiff(m', upper))
    requires merged.Meaning() == Success(ComposePatches(lower, upper))
    ensures ImageStorage.Encodes(c, f.encode(merged), MergedChild(Some(FileDiff(m, lower)), FileDiff(m', upper)))
  {
    assert f.decode(f.encode(merged)) == Some(merged);
  }

  /**
    The plugin's merge of two stored patches. When both can be parsed, it succeeds exactly if the
    image merge accepts the two entries, and its result is stored data for the merged entry.
  */
  method Merge(c: Codec, f: Framing, lower: Bytes, upper: Bytes) returns (r: Result<Bytes>)
    requires IsBsdiff(c, f)
    ensures r.Success? ==> c.parse(lower).Some? && c.parse(upper).Some?
    ensures c.parse(lower).Some? && c.parse(upper).Some? ==> forall m, m' ::
              r.Success? <==> MergeableChild(Some(FileDiff(m, c.parse(lower).value)), FileDiff(m', c.parse(upper).value))
    ensures r.Success? ==> forall m, m', baseSize :: SizesFit(f, lower, upper, baseSize) ==>
              ImageStorage.Encodes(c, r.value, MergedChild(Some(FileDiff(m, c.parse(lower).value)), FileDiff(m', c.parse(upper).value)))
  {
    var lowerFile, upperFile := f.decode(lower), f.decode(upper);
    if lowerFile.None? || upperFile.None? {
      return Failure("failed to read patch");
    }
    var merged :- DeltaMergingBytes(lowerFile.value, upperFile.value);
    ghost var l, u := lowerFile.value.Meaning().value, upperFile.value.Meaning().value;
    forall m, m', baseSize | SizesFit(f, lower, upper, baseSize)
      ensures ImageStorage.Encodes(c, f.encode(merged), MergedChild(Some(FileDiff(m, l)), FileDiff(m', u)))
    {
      MergedEncodes(c, f, l, u, merged, m, m');
    }
    return Success(f.encode(merged));
  }
}
