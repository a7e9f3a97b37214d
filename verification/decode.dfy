/**
 * `rle_to_mask`: decoding a run-length-encoded string into a `height x width`
 * mask of 0/1 cells, with malformed input reported as an error.
 */
module Decode {
  import opened Errors
  import opened Tokens
  import opened Runs
  import opened Layout
  import Fill

  /** The position of the first run that leaves a buffer of `size` cells, if there is one. */
  function FirstOutOfRange(runs: seq<Run>, size: nat): (r: Option<nat>)
    ensures r.None? <==> AllInRange(runs, size)
    ensures r.Some? ==> r.value < |runs| && !InRange(runs[r.value], size)
    ensures r.Some? ==> forall j :: 0 <= j < r.value ==> InRange(runs[j], size)
  {
    if |runs| == 0 then None
    else
      var last := |runs| - 1;
      match FirstOutOfRange(runs[..last], size)
      case Some(i) => Some(i)
      case None => if InRange(runs[last], size) then None else Some(last)
  }

  /**
   * Steps 1 to 3 of decoding: tokenize, pair starts with lengths, and check
   * that every run's interval lies inside a buffer of `size` cells.
   */
  function ParseRuns(rle: string, size: nat): (r: Result<seq<Run>, DecodeError>)
    ensures r.Success? ==> AllInRange(r.value, size)
  {
    match Tokenize(rle)
    case Failure(e) => Failure(e)
    case Success(numbers) =>
      if |numbers| % 2 == 1 then Failure(OddTokenCount(|numbers|))
      else
        var runs := Pairs(numbers);
        match FirstOutOfRange(runs, size)
        case Some(i) => Failure(IndexOutOfRange(i))
        case None => Success(runs)
  }

  /**
   * What parsing yields: the token pairs in order when they all fit, and
   * otherwise the reason they do not.
   */
  lemma ParseRunsOutcome(rle: string, size: nat)
    ensures var r := ParseRuns(rle, size);
      r.Success? ==> Tokenize(rle).Success? && 2 * |r.value| == |Tokenize(rle).value|
    ensures var r := ParseRuns(rle, size);
      r.Success? ==> forall i :: 0 <= i < |r.value| ==>
        r.value[i] == Run(Tokenize(rle).value[2 * i], Tokenize(rle).value[2 * i + 1])
    ensures Tokenize(rle).Failure? ==> ParseRuns(rle, size) == Failure(Tokenize(rle).error)
    ensures Tokenize(rle).Success? && |Tokenize(rle).value| % 2 == 1 ==>
      ParseRuns(rle, size) == Failure(OddTokenCount(|Tokenize(rle).value|))
    ensures var r := ParseRuns(rle, size);
      r.Failure? && r.error.IndexOutOfRange? ==>
        Tokenize(rle).Success? && |Tokenize(rle).value| % 2 == 0 && r.error.pair < |Tokenize(rle).value| / 2
        && !InRange(Run(Tokenize(rle).value[2 * r.error.pair], Tokenize(rle).value[2 * r.error.pair + 1]), size)
    ensures (Tokenize(rle).Success? && |Tokenize(rle).value| % 2 == 0
             && AllInRange(Pairs(Tokenize(rle).value), size))
        ==> ParseRuns(rle, size) == Success(Pairs(Tokenize(rle).value))
    ensures var r := ParseRuns(rle, size);
      r.Failure? && r.error.NotANumber? ==> Tokenize(rle).Failure?
    ensures var r := ParseRuns(rle, size);
      r.Failure? && r.error.OddTokenCount? ==> Tokenize(rle).Success? && |Tokenize(rle).value| % 2 == 1
  {
  }

  /** The decoded mask, as a value: the runs painted into the flat buffer, laid out column-major. */
  function DecodeMask(rle: string, height: nat, width: nat): (r: Result<seq<seq<int>>, DecodeError>)
    ensures r.Success? <==> ParseRuns(rle, height * width).Success?
    ensures r.Failure? ==> r.error == ParseRuns(rle, height * width).error
    ensures r.Success? ==> IsImage(r.value, height, width)
  {
    match ParseRuns(rle, height * width)
    case Failure(e) => Failure(e)
    case Success(runs) => Success(ToImage(FlatMask(runs, height * width), height, width))
  }

  /** Cell `(r, c)` of the laid-out buffer is 1 exactly when flat index `c*height + r` is covered. */
  lemma ImageCoverage(runs: seq<Run>, height: nat, width: nat, r: nat, c: nat)
    requires AllInRange(runs, height * width)
    requires r < height && c < width
    ensures c * height + r < height * width
    ensures ToImage(FlatMask(runs, height * width), height, width)[r][c]
      == if Covered(runs, c * height + r) then 1 else 0
  {
    var flat := FlatMask(runs, height * width);
    ToImageAt(flat, height, width, r, c);
    FlatMaskCoverage(runs, height * width, c * height + r);
  }

  /**
   * Coverage in image coordinates: cell `(r, c)` is 1 exactly when flat
   * index `c*height + r` lies in some run's interval, and 0 otherwise.
   */
  lemma DecodeMaskCoverage(rle: string, height: nat, width: nat, r: nat, c: nat)
    requires DecodeMask(rle, height, width).Success?
    requires r < height && c < width
    ensures c * height + r < height * width
    ensures DecodeMask(rle, height, width).value[r][c]
      == if Covered(ParseRuns(rle, height * width).value, c * height + r) then 1 else 0
  {
    ImageCoverage(ParseRuns(rle, height * width).value, height, width, r, c);
  }

  /** Every cell of a decoded mask is 0 or 1. */
  lemma DecodeMaskBinary(rle: string, height: nat, width: nat, r: nat, c: nat)
    requires DecodeMask(rle, height, width).Success?
    requires r < height && c < width
    ensures DecodeMask(rle, height, width).value[r][c] in {0, 1}
  {
    DecodeMaskCoverage(rle, height, width, r, c);
  }

  /**
   * A decoded mask is all zero exactly when its encoding has no run, or
   * only runs of length 0.
   */
  lemma DecodeMaskZeroIffNoPixels(rle: string, height: nat, width: nat)
    requires DecodeMask(rle, height, width).Success?
    ensures (forall r, c :: 0 <= r < height && 0 <= c < width ==> DecodeMask(rle, height, width).value[r][c] == 0)
        <==> (forall i :: 0 <= i < |ParseRuns(rle, height * width).value| ==>
                ParseRuns(rle, height * width).value[i].length == 0)
  {
    var size := height * width;
    var runs := ParseRuns(rle, size).value;
    var flat := FlatMask(runs, size);
    ZeroMaskIffEmptyRuns(runs, size);
    ToImageAllEqual(flat, height, width, 0);
    assert (forall p :: 0 <= p < size ==> flat[p] == 0) <==> flat == Zeros(size);
  }

  /** A blank encoding (empty, or only whitespace) decodes to the all-zero mask. */
  lemma DecodeBlank(rle: string, height: nat, width: nat)
    requires forall i :: 0 <= i < |rle| ==> IsSpace(rle[i])
    ensures DecodeMask(rle, height, width) == Success(ToImage(Zeros(height * width), height, width))
    ensures forall r, c :: 0 <= r < height && 0 <= c < width ==> DecodeMask(rle, height, width).value[r][c] == 0
  {
    SplitOfBlank(rle);
    assert Pairs([]) == [];
    forall r, c | 0 <= r < height && 0 <= c < width
      ensures DecodeMask(rle, height, width).value[r][c] == 0
    {
      ToImageAt(Zeros(height * width), height, width, r, c);
    }
  }

  /** `"" over 2 x 2`: the all-zero mask `[[0, 0], [0, 0]]`. */
  lemma ExampleEmpty()
    ensures DecodeMask("", 2, 2) == Success([[0, 0], [0, 0]])
  {
    DecodeBlank("", 2, 2);
    var img := DecodeMask("", 2, 2).value;
    assert img[0][0] == 0 && img[0][1] == 0 && img[1][0] == 0 && img[1][1] == 0;
    assert |img| == 2 && img[0] == [0, 0] && img[1] == [0, 0];
    assert img == [[0, 0], [0, 0]];
  }

  /** `"2 2"` is the single run starting at pixel 2 with 2 pixels. */
  lemma ParseOneRun()
    ensures ParseRuns("2 2", 9) == Success([Run(2, 2)])
  {
    assert ParseNat("2") == Some(2);
    assert Join(["2", "2"]) == "2 2";
    TokenizeJoin(["2", "2"], [2, 2]);
    assert Pairs([2, 2]) == [Run(2, 2)];
  }

  /** That run sets flat cells 1 and 2 of a 9-cell buffer. */
  lemma FillOneRun()
    ensures FlatMask([Run(2, 2)], 9) == [0, 1, 1, 0, 0, 0, 0, 0, 0]
  {
    assert [Run(2, 2)][..0] == [];
  }

  /** Flat cells 1 and 2 of a 3 x 3 buffer are rows 1 and 2 of column 0. */
  lemma LayOutOneRun()
    ensures ToImage([0, 1, 1, 0, 0, 0, 0, 0, 0], 3, 3) == [[0, 0, 0], [1, 0, 0], [1, 0, 0]]
  {
    var flat := [0, 1, 1, 0, 0, 0, 0, 0, 0];
    var img := ToImage(flat, 3, 3);
    ToImageAt(flat, 3, 3, 0, 0); ToImageAt(flat, 3, 3, 0, 1); ToImageAt(flat, 3, 3, 0, 2);
    ToImageAt(flat, 3, 3, 1, 0); ToImageAt(flat, 3, 3, 1, 1); ToImageAt(flat, 3, 3, 1, 2);
    ToImageAt(flat, 3, 3, 2, 0); ToImageAt(flat, 3, 3, 2, 1); ToImageAt(flat, 3, 3, 2, 2);
    assert img[0] == [0, 0, 0] && img[1] == [1, 0, 0] && img[2] == [1, 0, 0];
  }

  /** `"2 2" over 3 x 3`: flat cells 1 and 2 are set, which are rows 1 and 2 of column 0. */
  lemma ExampleOneRun()
    ensures DecodeMask("2 2", 3, 3) == Success([[0, 0, 0], [1, 0, 0], [1, 0, 0]])
  {
    ParseOneRun();
    FillOneRun();
    LayOutOneRun();
  }

  /** `"5 3" over 2 x 2`: the run `[4, 7)` passes the end of the 4-cell buffer. */
  lemma ExampleOutOfRange()
    ensures DecodeMask("5 3", 2, 2) == Failure(IndexOutOfRange(0))
  {
    assert ParseNat("5") == Some(5) && ParseNat("3") == Some(3);
    assert Join(["5", "3"]) == "5 3";
    TokenizeJoin(["5", "3"], [5, 3]);
    assert Pairs([5, 3]) == [Run(5, 3)];
  }

  /** `"0 2"`: a start of 0 would make the interval begin at index -1. */
  lemma ExampleStartZero()
    ensures DecodeMask("0 2", 2, 2) == Failure(IndexOutOfRange(0))
  {
    assert ParseNat("0") == Some(0) && ParseNat("2") == Some(2);
    assert Join(["0", "2"]) == "0 2";
    TokenizeJoin(["0", "2"], [0, 2]);
    assert Pairs([0, 2]) == [Run(0, 2)];
  }

  /** `"1 2 3"`: three numbers cannot be read as start/length pairs. */
  lemma ExampleOddCount()
    ensures DecodeMask("1 2 3", 2, 2) == Failure(OddTokenCount(3))
  {
    assert ParseNat("1") == Some(1) && ParseNat("2") == Some(2) && ParseNat("3") == Some(3);
    assert Join(["1", "2", "3"]) == "1 2 3";
    TokenizeJoin(["1", "2", "3"], [1, 2, 3]);
  }

  /** `"1 -2"`: a sign is not a decimal digit, so token 1 is refused. */
  lemma ExampleNotANumber()
    ensures DecodeMask("1 -2", 2, 2) == Failure(NotANumber(1))
  {
    assert Join(["1", "-2"]) == "1 -2";
    SplitJoin(["1", "-2"]);
    assert ParseNat("1") == Some(1);
    assert ParseNat("-2") == None;
  }

  /**
   * `rle_to_mask`: tokenizes and validates the encoding, fills a zeroed
   * buffer of `height*width` cells run by run, and lays it out as `height`
   * rows of `width` cells.
   */
  method RleToMask(rle: string, height: nat, width: nat) returns (res: Result<seq<seq<int>>, DecodeError>)
    ensures res == DecodeMask(rle, height, width)
    ensures res.Success? ==> IsImage(res.value, height, width)
    ensures res.Success? ==> forall r, c :: 0 <= r < height && 0 <= c < width ==>
      (res.value[r][c] == 1 <==> Covered(ParseRuns(rle, height * width).value, c * height + r))
  {
    var size := height * width;
    var parsed := ParseRuns(rle, size);
    if parsed.Failure? {
      return Failure(parsed.error);
    }
    var flat := Fill.FillMask(parsed.value, size);
    res := Success(ToImage(flat[..], height, width));
    forall r, c | 0 <= r < height && 0 <= c < width
      ensures res.value[r][c] == 1 <==> Covered(parsed.value, c * height + r)
    {
      DecodeMaskCoverage(rle, height, width, r, c);
    }
  }
}
