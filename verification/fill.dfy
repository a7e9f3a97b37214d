/** The imperative heart of the decoder: painting every run into a zeroed flat buffer, in place. */
module Fill {
  import opened Runs

  /**
   * Allocates `np.zeros(size)` and, for each run in input order, sets the
   * cells of its half-open interval to 1 (`mask[start:end] = 1`).
   */
  method FillMask(runs: seq<Run>, size: nat) returns (mask: array<int>)
    requires AllInRange(runs, size)
    ensures mask[..] == FlatMask(runs, size)
  {
    mask := new int[size](_ => 0);
    assert runs[..0] == [];
    for i := 0 to |runs|
      invariant mask.Length == size
      invariant mask[..] == FlatMask(runs[..i], size)
    {
      var lo, hi := Lo(runs[i]), Hi(runs[i]);
      ghost var before := mask[..];
      for p := lo to hi
        invariant forall q :: 0 <= q < size ==> mask[q] == if lo <= q < p then 1 else before[q]
      {
        mask[p] := 1;
      }
      assert runs[..i + 1][..i] == runs[..i];
      assert mask[..] == Paint(before, lo, hi);
    }
    assert runs[..|runs|] == runs;
  }
}
