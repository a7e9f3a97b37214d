# Run-length mask decoder, modelled in Dafny

This project models `rle_to_mask` from `libs/utils.py`. The function decodes a
run-length-encoded binary segmentation mask into a dense `height x width` grid
of 0/1 cells. The encoding is a whitespace-separated list of numbers read as
alternating pairs `start length`. `start` is a 1-based pixel number and
`length` is the number of pixels in the run. Pixels are numbered top to bottom,
then left to right.

The decoder works in five steps:

1. It splits the string on whitespace.
2. It takes the numbers at even positions as starts and those at odd positions
   as lengths.
3. It turns each pair into the half-open flat interval `[start-1, start-1+length)`.
4. It sets every cell of each interval to 1 in a zeroed flat buffer of
   `height*width` cells.
5. It reshapes the buffer to `width x height` and transposes it. As a result,
   flat cell `p` ends up at row `p mod height`, column `p div height`.

Modules, one per step:

- `Errors` (errors.dfy): `Option`, `Result`, and `DecodeError`, which has the
  malformed-encoding kinds (`NotANumber`, `OddTokenCount`) and the
  `IndexOutOfRange` kind.
- `Tokens` (tokens.dfy): Python's `str.split()` with no argument, and
  conversion of each token to a number. Also a formatter (`Join`, `Format`,
  `NatToString`), which is the inverse used in the round-trip lemmas.
- `Runs` (runs.dfy): the de-interleave (`s[::2]`), the pairing of start `i`
  with length `i` that the fill loop walks over (`zip(starts, ends)`), and the
  half-open interval of a run. `FlatMask` is the flat
  buffer after runs are painted one after another over zeros. This module also
  holds the coverage, order-independence, overlap and all-zero lemmas.
- `Fill` (fill.dfy): the fill loop as an imperative method over an
  `array<int>`. It uses nested loops and is proved equal to `FlatMask`.
- `Layout` (layout.dfy): `reshape(width, height)` followed by `.T`. It comes
  with the closed-form index map and its inverse, the column-major `Flatten`.
- `Decode` (decode.dfy): input validation, the decoded mask as a value
  (`DecodeMask`), the method `RleToMask`, and the worked scenarios.
- `Encode` (encode.dfy): an encoder that exists only in this model. It is
  used to state that decoding an encoded image gives the image back.

The source does not validate its input. This model rejects malformed input
with an error result instead of reproducing NumPy's behaviour:

- An odd token count gives `OddTokenCount`. In Python, `starts` then has one
  element more than `lengths`, and `ends = starts + lengths` depends on NumPy
  broadcasting (see "## Left out").
- A token that is not a decimal numeral gives `NotANumber`.
- A start of 0 gives `IndexOutOfRange`. In Python it would become index -1,
  which is negative-index slicing.
- A run ending past `height*width` gives `IndexOutOfRange`. NumPy would clamp
  the slice.

On these inputs the model therefore differs from the code. On input that
passes these checks, the model computes the same mask as the code.

The code accepts a height or width of 0 (`np.zeros(0)` is a valid buffer). The
model follows the code here: dimensions are `nat`, and a zero dimension gives
an empty mask. Negative dimensions cannot be expressed.

## Model

| member | source | states |
|---|---|---|
| `Tokens.Split` | libs/utils.py:17 | every token of `s.split()` is non-empty and holds no whitespace character |
| `Tokens.SplitKeepsNonSpace` | libs/utils.py:17 | splitting drops only whitespace: the tokens, joined, are exactly the non-whitespace characters of the input, in order |
| `Tokens.SplitOfBlank` | libs/utils.py:17 | an empty or all-whitespace string has no tokens |
| `Tokens.SplitOfToken` | libs/utils.py:17 | a string without whitespace is one token |
| `Tokens.SplitAtSpace` | libs/utils.py:17 | a whitespace character always separates tokens: splitting `a + c + b` at whitespace `c` gives the tokens of `a` followed by those of `b` |
| `Tokens.SplitJoin` | libs/utils.py:17 | splitting undoes joining tokens with single blanks |
| `Tokens.ParseNat` | libs/utils.py:18-19 | a token converts to a number exactly when it is a non-empty string of decimal digits |
| `Tokens.ParseNatToString` | libs/utils.py:18-19 | converting the decimal numeral of `n` gives `n` back |
| `Tokens.ParseTokens` | libs/utils.py:18-19 | on success, one number per token, each the token's value; on failure, the error names the first token that is not a numeral |
| `Tokens.TokenizeJoin` | libs/utils.py:17-19 | tokenizing blank-separated numerals gives their values |
| `Tokens.TokenizeFormat` | libs/utils.py:17-19 | tokenizing the formatted numbers gives the numbers back |
| `Runs.EveryOther` | libs/utils.py:18 | `s[::2]` has `(len+1)/2` elements, the i-th being `s[2i]` |
| `Runs.Deinterleave` | libs/utils.py:17-19 | starts are exactly the numbers at even positions and lengths exactly those at odd positions, in input order |
| `Runs.Pairs` | libs/utils.py:22-27 | pairs start `i` with length `i`: `n/2` runs, the i-th being `(tokens[2i], tokens[2i+1])`, whose interval is the i-th `(start, end)` of `zip(starts, ends)` |
| `Runs.Interleave` | libs/utils.py:18-19 | the runs written back as numbers put each start at an even position, followed by its length |
| `Runs.PairsInterleave` | libs/utils.py:18-19 | pairing undoes interleaving |
| `Runs.RunInterval` | libs/utils.py:22-23 | the half-open interval `[start-1, start-1+length)` of an in-range run lies inside the buffer and has exactly `length` cells |
| `Runs.Paint` | libs/utils.py:28 | `mask[lo:hi] = 1` sets the cells in `[lo, hi)` to 1 and leaves every other cell unchanged |
| `Runs.FlatMask` | libs/utils.py:26-28 | the filled buffer has `height*width` cells, each 0 or 1 |
| `Runs.FlatMaskCoverage` | libs/utils.py:26-28 | flat cell `p` is 1 if some run's interval contains `p`, and 0 otherwise |
| `Runs.SameMaskIffSameCoverage` | libs/utils.py:27-28 | two lists of runs give the same buffer if and only if they cover the same cells |
| `Runs.SameRunsSameMask` | libs/utils.py:27-28 | order and repetition of runs do not matter: lists holding the same runs give the same buffer |
| `Runs.PermutedRunsSameMask` | libs/utils.py:27-28 | permuting the runs gives the same buffer |
| `Runs.CoveredRunChangesNothing` | libs/utils.py:27-28 | overlap is harmless: adding a run whose cells are already covered leaves the buffer unchanged |
| `Runs.ZeroMaskIffEmptyRuns` | libs/utils.py:26-28 | the buffer is all zero if and only if every run has length 0 (including when there are no runs) |
| `Runs.SingleRunCount` | libs/utils.py:22-28 | a single run of length `L` sets exactly `L` cells, the consecutive ones from `start-1` |
| `Fill.FillMask` | libs/utils.py:26-28 | the nested fill loop over a zeroed array leaves exactly the buffer `FlatMask` describes |
| `Layout.Reshape` | libs/utils.py:33 | `reshape(rows, cols)` has `rows` rows of `cols` cells |
| `Layout.ReshapeAt` | libs/utils.py:33 | cell `(i, j)` of the reshaped grid is flat cell `i*cols + j` |
| `Layout.Transpose` | libs/utils.py:33 | `.T` swaps the dimensions, and cell `(j, i)` is the original cell `(i, j)` |
| `Layout.ToImage` | libs/utils.py:33 | the mask has `height` rows of `width` cells |
| `Layout.ToImageAt` | libs/utils.py:30-33 | mask cell `(r, c)` is flat cell `c*height + r` |
| `Layout.ToImageCellOf` | libs/utils.py:30-33 | flat cell `p` appears at row `p mod height`, column `p div height` |
| `Layout.ToImageAllEqual` | libs/utils.py:33 | every mask cell has value `v` if and only if every flat cell does |
| `Layout.Flatten` | libs/utils.py:30-32 | numbering the pixels top to bottom, then left to right, gives `height*width` cells |
| `Layout.ToImageFlatten` | libs/utils.py:30-33 | laying out a flattened image gives the image back |
| `Layout.FlattenToImage` | libs/utils.py:30-33 | flattening the laid-out buffer gives the buffer back |
| `Decode.FirstOutOfRange` | libs/utils.py:27-28 | names the first run whose interval does not fit the buffer, and is `None` exactly when every run fits |
| `Decode.ParseRuns` | libs/utils.py:17-23 | every run of a successful parse fits the buffer |
| `Decode.ParseRunsOutcome` | libs/utils.py:17-23 | input that tokenizes, has an even count and whose pairs all fit is accepted, with the token pairs in input order as its runs. `NotANumber` arises exactly when tokenizing fails, `OddTokenCount` exactly when the count is odd, and `IndexOutOfRange` names a pair whose run does not fit |
| `Decode.DecodeMask` | libs/utils.py:3-35 | decoding succeeds exactly when parsing does, and its result has `height` rows of `width` cells |
| `Decode.ImageCoverage` | libs/utils.py:26-33 | cell `(r, c)` of the laid-out buffer is 1 if flat index `c*height + r` is covered by a run, and 0 otherwise |
| `Decode.DecodeMaskCoverage` | libs/utils.py:26-33 | mask cell `(r, c)` is 1 if flat index `c*height + r` lies in some run's interval, and 0 otherwise |
| `Decode.DecodeMaskBinary` | libs/utils.py:11 | every cell of the decoded mask is 0 or 1 |
| `Decode.DecodeMaskZeroIffNoPixels` | libs/utils.py:26-33 | the decoded mask is all zero if and only if every run has length 0 |
| `Decode.DecodeBlank` | libs/utils.py:17-33 | an empty or blank encoding decodes to the all-zero `height x width` mask |
| `Decode.ParseOneRun` | libs/utils.py:17-23 | `"2 2"` is the single run starting at pixel 2 with 2 pixels |
| `Decode.FillOneRun` | libs/utils.py:26-28 | that run sets flat cells 1 and 2 of a 9-cell buffer |
| `Decode.LayOutOneRun` | libs/utils.py:33 | flat cells 1 and 2 of a 3 x 3 buffer are rows 1 and 2 of column 0 |
| `Decode.ExampleEmpty` | libs/utils.py:3-35 | `""` over 2 x 2 decodes to `[[0,0],[0,0]]` |
| `Decode.ExampleOneRun` | libs/utils.py:3-35 | `"2 2"` over 3 x 3 decodes to `[[0,0,0],[1,0,0],[1,0,0]]` |
| `Decode.ExampleOutOfRange` | libs/utils.py:27-28 | `"5 3"` over 2 x 2 is rejected: the run `[4, 7)` passes the end of the 4-cell buffer |
| `Decode.ExampleStartZero` | libs/utils.py:22 | `"0 2"` is rejected: its interval would start at index -1 |
| `Decode.ExampleOddCount` | libs/utils.py:18-23 | `"1 2 3"` is rejected because its token count is odd |
| `Decode.ExampleNotANumber` | libs/utils.py:18-19 | `"1 -2"` is rejected at token 1, because a sign is not a digit |
| `Decode.RleToMask` | libs/utils.py:3-35 | the method returns the mask `DecodeMask` describes: `height` rows of `width` cells, where cell `(r, c)` is 1 exactly when flat index `c*height + r` is covered |
| `Encode.ParseRunsFormat` | libs/utils.py:17-23 | runs that fit the buffer, formatted as blank-separated numbers, parse back to the same runs |
| `Encode.DecodeEncode` | libs/utils.py:3-35 | encoding a 0/1 image as its maximal runs, then decoding it, gives the image back |

## Left out

- NumPy itself (`np.asarray`, `np.zeros`, `reshape`, `.T`). These are modelled
  by sequences, a Dafny array and the closed-form index map.
- The vectorised in-place `starts -= 1` and `ends = starts + lengths` are not
  modelled as a separate pass over an array. The same values come from the
  functions `Runs.Lo` and `Runs.Hi`, one run at a time.
- Behaviour on input the code does not check is not reproduced: a slice clamped
  past the end, and negative-index slicing for a start of 0. The model reports
  these as errors instead.
- The code's behaviour on an odd token count is not reproduced; the model
  reports `OddTokenCount`. In the code, `ends = starts + lengths` adds arrays
  whose sizes differ by one, so the result depends on NumPy broadcasting. With
  1 token, `lengths` is empty, `ends` is empty and the mask stays all zero.
  With 3 tokens, the single length is broadcast to both starts: `"1 2 3"` gives
  starts `[0, 2]` and ends `[2, 4]`, and both intervals are painted. With 5 or
  more tokens the addition raises an error.
- The full grammar of Python `int()` is not modelled: signs, underscores, and
  non-ASCII digits. Tokens must be ASCII decimal digits. Leading zeros are
  accepted, as `int()` accepts them.
- The `uint8` element type is not modelled. Cells are `int`, and they are
  proved to be 0 or 1, so no byte overflow can occur.
- Negative image dimensions are not modelled, because dimensions are `nat`.
  The separate invalid-shape error is not modelled either, since the code
  accepts zero dimensions.
- `Fill.FillMask` does not state that the returned array is freshly allocated.
  The decoder copies the array into a sequence right away.
