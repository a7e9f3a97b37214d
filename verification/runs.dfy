/**
 * Runs of foreground pixels: de-interleaving the numbers into (start, length)
 * pairs, the half-open interval each pair stands for, and the flat 0/1 buffer
 * that painting the runs one after the other produces.
 */
module Runs {

  /** `s[::2]`: the elements at even positions, in their order. */
  function EveryOther(s: seq<nat>): (r: seq<nat>)
    ensures |r| == (|s| + 1) / 2
    ensures forall i :: 0 <= i < |r| ==> r[i] == s[2 * i]
    decreases |s|
  {
    if |s| <= 1 then s else [s[0]] + EveryOther(s[2..])
  }

  /** `s[0:][::2]`: the run starts, still 1-based. */
  function Starts(tokens: seq<nat>): seq<nat> {
    EveryOther(tokens)
  }

  /** `s[1:][::2]`: the run lengths. */
  function Lengths(tokens: seq<nat>): seq<nat> {
    if |tokens| == 0 then [] else EveryOther(tokens[1..])
  }

  /** Starts are the numbers at even positions and lengths those at odd positions, in input order. */
  lemma Deinterleave(tokens: seq<nat>)
    ensures |Starts(tokens)| == (|tokens| + 1) / 2 && |Lengths(tokens)| == |tokens| / 2
    ensures forall i :: 0 <= i < |Starts(tokens)| ==> Starts(tokens)[i] == tokens[2 * i]
    ensures forall i :: 0 <= i < |Lengths(tokens)| ==> Lengths(tokens)[i] == tokens[2 * i + 1]
  {
  }

  /** One run as written in the encoding: a 1-based start and a pixel count. */
  datatype Run = Run(start: nat, length: nat)

  /**
   * Start `i` paired with length `i`, one run per length. For an even count
   * these are the pairs whose intervals `zip(starts, ends)` walks over.
   */
  function Pairs(tokens: seq<nat>): (runs: seq<Run>)
    ensures |runs| == |tokens| / 2
    ensures forall i :: 0 <= i < |runs| ==> runs[i] == Run(tokens[2 * i], tokens[2 * i + 1])
  {
    var starts, lengths := Starts(tokens), Lengths(tokens);
    Deinterleave(tokens);
    seq(|lengths|, i requires 0 <= i < |lengths| => Run(starts[i], lengths[i]))
  }

  /** The runs written back as alternating starts and lengths. */
  function Interleave(runs: seq<Run>): (tokens: seq<nat>)
    ensures |tokens| == 2 * |runs|
    ensures forall i :: 0 <= i < |runs| ==> tokens[2 * i] == runs[i].start && tokens[2 * i + 1] == runs[i].length
  {
    if |runs| == 0 then [] else [runs[0].start, runs[0].length] + Interleave(runs[1..])
  }

  /** Pairing undoes interleaving. */
  lemma PairsInterleave(runs: seq<Run>)
    ensures Pairs(Interleave(runs)) == runs
  {
  }

  /** First flat index a run sets: the 1-based start made 0-based (`starts -= 1`). */
  function Lo(r: Run): int {
    r.start - 1
  }

  /** One past the last flat index a run sets (`ends = starts + lengths`). */
  function Hi(r: Run): int {
    r.start - 1 + r.length
  }

  /** The run's interval `[start-1, start-1+length)` lies inside a buffer of `size` cells. */
  predicate InRange(r: Run, size: nat) {
    r.start >= 1 && r.start - 1 + r.length <= size
  }

  predicate AllInRange(runs: seq<Run>, size: nat) {
    forall i :: 0 <= i < |runs| ==> InRange(runs[i], size)
  }

  predicate Covers(r: Run, p: int) {
    Lo(r) <= p < Hi(r)
  }

  /** Some run's half-open interval contains flat index `p`. */
  predicate Covered(runs: seq<Run>, p: int) {
    exists i :: 0 <= i < |runs| && Covers(runs[i], p)
  }

  /** The interval of an in-range run lies inside the buffer and holds exactly `length` cells. */
  lemma RunInterval(r: Run, size: nat)
    requires InRange(r, size)
    ensures 0 <= Lo(r) <= Hi(r) <= size && Hi(r) - Lo(r) == r.length
  {
  }

  /** `np.zeros(n)`. */
  function Zeros(n: nat): (z: seq<int>)
    ensures |z| == n
  {
    seq(n, _ => 0)
  }

  function Ones(n: nat): seq<int> {
    seq(n, _ => 1)
  }

  /** `mask[lo:hi] = 1`. */
  function Paint(mask: seq<int>, lo: int, hi: int): (r: seq<int>)
    requires 0 <= lo <= hi <= |mask|
    ensures |r| == |mask|
    ensures forall p :: 0 <= p < |r| ==> r[p] == if lo <= p < hi then 1 else mask[p]
  {
    mask[..lo] + Ones(hi - lo) + mask[hi..]
  }

  /**
   * The flat buffer after the fill loop has painted every run, in order,
   * over a zero buffer of `size` cells.
   */
  function FlatMask(runs: seq<Run>, size: nat): (mask: seq<int>)
    requires AllInRange(runs, size)
    ensures |mask| == size
    ensures forall p :: 0 <= p < size ==> mask[p] == 0 || mask[p] == 1
  {
    if |runs| == 0 then Zeros(size)
    else
      var last := runs[|runs| - 1];
      Paint(FlatMask(runs[..|runs| - 1], size), Lo(last), Hi(last))
  }

  lemma CoveredSnoc(runs: seq<Run>, r: Run, p: int)
    ensures Covered(runs + [r], p) <==> Covered(runs, p) || Covers(r, p)
  {
    var all := runs + [r];
    if Covered(runs, p) {
      var i :| 0 <= i < |runs| && Covers(runs[i], p);
      assert all[i] == runs[i];
    }
    if Covers(r, p) {
      assert all[|runs|] == r;
    }
    if Covered(all, p) {
      var i :| 0 <= i < |all| && Covers(all[i], p);
      if i < |runs| {
        assert all[i] == runs[i];
      }
    }
  }

  /** Coverage: a cell of the flat buffer is 1 exactly when some run's interval contains it, and 0 otherwise. */
  lemma {:induction false} FlatMaskCoverage(runs: seq<Run>, size: nat, p: int)
    requires AllInRange(runs, size)
    requires 0 <= p < size
    ensures FlatMask(runs, size)[p] == if Covered(runs, p) then 1 else 0
  {
    if |runs| > 0 {
      var init, last := runs[..|runs| - 1], runs[|runs| - 1];
      FlatMaskCoverage(init, size, p);
      assert runs == init + [last];
      CoveredSnoc(init, last, p);
    }
  }

  /** Two lists of runs give the same buffer if and only if they cover the same cells. */
  lemma SameMaskIffSameCoverage(a: seq<Run>, b: seq<Run>, size: nat)
    requires AllInRange(a, size) && AllInRange(b, size)
    ensures FlatMask(a, size) == FlatMask(b, size)
        <==> forall p :: 0 <= p < size ==> (Covered(a, p) <==> Covered(b, p))
  {
    forall p | 0 <= p < size
      ensures FlatMask(a, size)[p] == (if Covered(a, p) then 1 else 0)
      ensures FlatMask(b, size)[p] == (if Covered(b, p) then 1 else 0)
    {
      FlatMaskCoverage(a, size, p);
      FlatMaskCoverage(b, size, p);
    }
  }

  /**
   * Order and repetition do not matter: lists holding the same runs, in any
   * order and any number of times, give the same buffer.
   */
  lemma SameRunsSameMask(a: seq<Run>, b: seq<Run>, size: nat)
    requires AllInRange(a, size) && AllInRange(b, size)
    requires forall r :: r in a <==> r in b
    ensures FlatMask(a, size) == FlatMask(b, size)
  {
    forall p | 0 <= p < size
      ensures Covered(a, p) <==> Covered(b, p)
    {
      if Covered(a, p) {
        var i :| 0 <= i < |a| && Covers(a[i], p);
        assert a[i] in b;
      }
      if Covered(b, p) {
        var j :| 0 <= j < |b| && Covers(b[j], p);
        assert b[j] in a;
      }
    }
    SameMaskIffSameCoverage(a, b, size);
  }

  /** Permuting the runs gives the same buffer. */
  lemma PermutedRunsSameMask(a: seq<Run>, b: seq<Run>, size: nat)
    requires AllInRange(a, size)
    requires multiset(a) == multiset(b)
    ensures AllInRange(b, size)
    ensures FlatMask(a, size) == FlatMask(b, size)
  {
    forall r ensures r in a <==> r in b {
      assert r in a <==> r in multiset(a);
      assert r in b <==> r in multiset(b);
    }
    forall j | 0 <= j < |b| ensures InRange(b[j], size) {
      assert b[j] in a;
    }
    SameRunsSameMask(a, b, size);
  }

  /** Overlap is harmless: a run whose cells are all covered already changes nothing. */
  lemma CoveredRunChangesNothing(runs: seq<Run>, r: Run, size: nat)
    requires AllInRange(runs, size) && InRange(r, size)
    requires forall p :: Covers(r, p) ==> Covered(runs, p)
    ensures AllInRange(runs + [r], size)
    ensures FlatMask(runs + [r], size) == FlatMask(runs, size)
  {
    var all := runs + [r];
    assert all[..|runs|] == runs;
    forall p | 0 <= p < size ensures Covered(all, p) <==> Covered(runs, p) {
      CoveredSnoc(runs, r, p);
    }
    SameMaskIffSameCoverage(all, runs, size);
  }

  /**
   * An encoding with no runs, or whose runs all have length 0, gives the
   * all-zero buffer, and no other list of in-range runs does.
   */
  lemma ZeroMaskIffEmptyRuns(runs: seq<Run>, size: nat)
    requires AllInRange(runs, size)
    ensures FlatMask(runs, size) == Zeros(size) <==> forall i :: 0 <= i < |runs| ==> runs[i].length == 0
  {
    if forall i :: 0 <= i < |runs| ==> runs[i].length == 0 {
      forall p | 0 <= p < size ensures FlatMask(runs, size)[p] == 0 {
        FlatMaskCoverage(runs, size, p);
      }
    } else {
      var i :| 0 <= i < |runs| && runs[i].length != 0;
      var p := Lo(runs[i]);
      FlatMaskCoverage(runs, size, p);
      assert FlatMask(runs, size)[p] == 1;
    }
  }

  /** The number of cells holding 1. */
  function CountOnes(s: seq<int>): nat {
    if |s| == 0 then 0 else (if s[0] == 1 then 1 else 0) + CountOnes(s[1..])
  }

  lemma {:induction false} CountOnesAppend(a: seq<int>, b: seq<int>)
    ensures CountOnes(a + b) == CountOnes(a) + CountOnes(b)
    decreases |a|
  {
    if |a| == 0 {
      assert a + b == b;
    } else {
      assert (a + b)[1..] == a[1..] + b;
      CountOnesAppend(a[1..], b);
    }
  }

  lemma {:induction false} CountOnesConstant(n: nat, v: int)
    ensures CountOnes(seq(n, _ => v)) == if v == 1 then n else 0
  {
    if n > 0 {
      assert seq(n, _ => v)[1..] == seq(n - 1, _ => v);
      CountOnesConstant(n - 1, v);
    }
  }

  /** A single run of length `L` sets exactly `L` cells, the consecutive ones of its interval. */
  lemma SingleRunCount(r: Run, size: nat)
    requires InRange(r, size)
    ensures AllInRange([r], size)
    ensures CountOnes(FlatMask([r], size)) == r.length
    ensures forall p :: 0 <= p < size ==> (FlatMask([r], size)[p] == 1 <==> r.start - 1 <= p < r.start - 1 + r.length)
  {
    var lo, hi := Lo(r), Hi(r);
    var z := Zeros(size);
    assert [r][..0] == [];
    assert FlatMask([r], size) == z[..lo] + Ones(hi - lo) + z[hi..];
    assert z[..lo] == seq(lo, _ => 0);
    assert z[hi..] == seq(size - hi, _ => 0);
    CountOnesAppend(z[..lo] + Ones(hi - lo), z[hi..]);
    CountOnesAppend(z[..lo], Ones(hi - lo));
    CountOnesConstant(lo, 0);
    CountOnesConstant(hi - lo, 1);
    CountOnesConstant(size - hi, 0);
  }
}
