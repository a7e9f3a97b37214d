/**
 * A reference encoder, defined only to state the round trip: an image
 * encoded as the maximal runs of its 1-cells (pixels numbered top to bottom,
 * then left to right) decodes back to the same image.
 */
module Encode {
  import opened Errors
  import opened Tokens
  import opened Runs
  import opened Layout
  import opened Decode

  /** The number of consecutive 1-cells of `flat` from index `p` on. */
  function OnesFrom(flat: seq<int>, p: nat): (n: nat)
    requires p <= |flat|
    ensures p + n <= |flat|
    ensures forall q :: p <= q < p + n ==> flat[q] == 1
    ensures p + n < |flat| ==> flat[p + n] != 1
    decreases |flat| - p
  {
    if p == |flat| || flat[p] != 1 then 0 else 1 + OnesFrom(flat, p + 1)
  }

  /** The maximal runs of 1-cells in `flat[p..]`, each as a 1-based start and a length. */
  function RunsFrom(flat: seq<int>, p: nat): (runs: seq<Run>)
    requires p <= |flat|
    ensures AllInRange(runs, |flat|)
    ensures forall i :: 0 <= i < |runs| ==> Lo(runs[i]) >= p && runs[i].length > 0
    decreases |flat| - p
  {
    if p == |flat| then []
    else if flat[p] != 1 then RunsFrom(flat, p + 1)
    else
      var n := OnesFrom(flat, p);
      [Run(p + 1, n)] + RunsFrom(flat, p + n)
  }

  lemma CoveredCons(r: Run, runs: seq<Run>, q: int)
    ensures Covered([r] + runs, q) <==> Covers(r, q) || Covered(runs, q)
  {
    var all := [r] + runs;
    if Covered(runs, q) {
      var i :| 0 <= i < |runs| && Covers(runs[i], q);
      assert all[i + 1] == runs[i];
    }
    if Covered(all, q) {
      var i :| 0 <= i < |all| && Covers(all[i], q);
      if i > 0 {
        assert all[i] == runs[i - 1];
      }
    }
    if Covers(r, q) {
      assert all[0] == r;
    }
  }

  /** The runs from `p` on cover exactly the 1-cells at or after `p`. */
  lemma {:induction false} RunsFromCoverage(flat: seq<int>, p: nat, q: int)
    requires p <= |flat|
    requires 0 <= q < |flat|
    ensures Covered(RunsFrom(flat, p), q) <==> p <= q && flat[q] == 1
    decreases |flat| - p
  {
    var runs := RunsFrom(flat, p);
    if p == |flat| {
    } else if flat[p] != 1 {
      RunsFromCoverage(flat, p + 1, q);
    } else {
      var n := OnesFrom(flat, p);
      CoveredCons(Run(p + 1, n), RunsFrom(flat, p + n), q);
      RunsFromCoverage(flat, p + n, q);
    }
  }

  /** Encodes a flat buffer as its maximal runs of 1-cells. */
  function EncodeFlat(flat: seq<int>): (runs: seq<Run>)
    ensures AllInRange(runs, |flat|)
  {
    RunsFrom(flat, 0)
  }

  predicate IsBinary(flat: seq<int>) {
    forall p :: 0 <= p < |flat| ==> flat[p] == 0 || flat[p] == 1
  }

  /** Painting the encoded runs over zeros gives back a 0/1 buffer. */
  lemma FlatMaskEncodeFlat(flat: seq<int>)
    requires IsBinary(flat)
    ensures FlatMask(EncodeFlat(flat), |flat|) == flat
  {
    forall p | 0 <= p < |flat| ensures FlatMask(EncodeFlat(flat), |flat|)[p] == flat[p] {
      FlatMaskCoverage(EncodeFlat(flat), |flat|, p);
      RunsFromCoverage(flat, 0, p);
    }
  }

  /** A `height x width` image whose cells are all 0 or 1. */
  predicate IsBinaryImage(img: seq<seq<int>>, height: nat, width: nat) {
    IsImage(img, height, width)
    && forall r, c :: 0 <= r < height && 0 <= c < width ==> img[r][c] == 0 || img[r][c] == 1
  }

  /** The encoded string of an image: its runs as blank-separated start/length numerals. */
  function EncodeMask(img: seq<seq<int>>, height: nat, width: nat): string
    requires IsImage(img, height, width)
  {
    Format(Interleave(EncodeFlat(Flatten(img, height, width))))
  }

  /** Parsing the formatted runs gives the runs back, when they fit the buffer. */
  lemma ParseRunsFormat(runs: seq<Run>, size: nat)
    requires AllInRange(runs, size)
    ensures ParseRuns(Format(Interleave(runs)), size) == Success(runs)
  {
    TokenizeFormat(Interleave(runs));
    PairsInterleave(runs);
  }

  lemma FlattenBinary(img: seq<seq<int>>, height: nat, width: nat)
    requires IsBinaryImage(img, height, width)
    ensures IsBinary(Flatten(img, height, width))
  {
    var flat := Flatten(img, height, width);
    forall p | 0 <= p < |flat| ensures flat[p] == 0 || flat[p] == 1 {
      CellOf(p, height, width);
    }
  }

  /** Decoding undoes encoding. */
  lemma DecodeEncode(img: seq<seq<int>>, height: nat, width: nat)
    requires IsBinaryImage(img, height, width)
    ensures DecodeMask(EncodeMask(img, height, width), height, width) == Success(img)
  {
    var flat := Flatten(img, height, width);
    var runs := EncodeFlat(flat);
    ParseRunsFormat(runs, height * width);
    FlattenBinary(img, height, width);
    FlatMaskEncodeFlat(flat);
    ToImageFlatten(img, height, width);
  }
}
