/**
 * From the flat buffer to the `height x width` image: the buffer is
 * reshaped to `width` rows of `height` cells and then transposed, so flat
 * index `p` lands in row `p mod height`, column `p div height` (pixels are
 * numbered top to bottom, then left to right).
 */
module Layout {

  lemma {:induction false} MulMono(a: nat, b: nat, k: nat)
    requires a <= b
    ensures a * k <= b * k
  {
    if k > 0 {
      MulMono(a, b, k - 1);
      assert a * k == a * (k - 1) + a;
      assert b * k == b * (k - 1) + b;
    }
  }

  /** `p == c*h + r` with `0 <= r < h` fixes `r` and `c` as the remainder and quotient of `p` by `h`. */
  lemma DivModUnique(p: nat, h: nat, r: nat, c: nat)
    requires r < h && p == c * h + r
    ensures p % h == r && p / h == c
  {
    var q := p / h;
    if q < c {
      MulMono(q + 1, c, h);
    } else if q > c {
      MulMono(c + 1, q, h);
    }
  }

  /** Flat index `p` of a `height x width` buffer has a column `p div height` below `width`. */
  lemma CellOf(p: nat, height: nat, width: nat)
    requires p < height * width
    ensures height > 0 && p / height < width
  {
    if p / height >= width {
      MulMono(width, p / height, height);
    }
  }

  /** `flat.reshape(rows, cols)`: row-major, the first `cols` cells form row 0, and so on. */
  function Reshape(flat: seq<int>, rows: nat, cols: nat): (g: seq<seq<int>>)
    requires |flat| == rows * cols
    ensures |g| == rows
    ensures forall i :: 0 <= i < rows ==> |g[i]| == cols
    decreases rows
  {
    if rows == 0 then [] else [flat[..cols]] + Reshape(flat[cols..], rows - 1, cols)
  }

  /** Cell `(i, j)` of the reshaped grid is flat cell `i*cols + j`. */
  lemma {:induction false} ReshapeAt(flat: seq<int>, rows: nat, cols: nat, i: nat, j: nat)
    requires |flat| == rows * cols
    requires i < rows && j < cols
    ensures i * cols + j < |flat|
    ensures Reshape(flat, rows, cols)[i][j] == flat[i * cols + j]
    decreases i
  {
    if i > 0 {
      ReshapeAt(flat[cols..], rows - 1, cols, i - 1, j);
      assert (i - 1) * cols + j + cols == i * cols + j;
    }
  }

  /** `g.T` for a `rows x cols` grid: a `cols x rows` grid with the indices swapped. */
  function Transpose(g: seq<seq<int>>, rows: nat, cols: nat): (t: seq<seq<int>>)
    requires |g| == rows
    requires forall i :: 0 <= i < rows ==> |g[i]| == cols
    ensures |t| == cols
    ensures forall j :: 0 <= j < cols ==> |t[j]| == rows
    ensures forall j, i :: 0 <= j < cols && 0 <= i < rows ==> t[j][i] == g[i][j]
  {
    seq(cols, j requires 0 <= j < cols => seq(rows, i requires 0 <= i < rows => g[i][j]))
  }

  /** An image with `height` rows of `width` cells. */
  predicate IsImage(img: seq<seq<int>>, height: nat, width: nat) {
    |img| == height && forall r :: 0 <= r < height ==> |img[r]| == width
  }

  /** `mask.reshape(width, height).T`: an image of `height` rows and `width` columns. */
  function ToImage(flat: seq<int>, height: nat, width: nat): (img: seq<seq<int>>)
    requires |flat| == height * width
    ensures IsImage(img, height, width)
  {
    Transpose(Reshape(flat, width, height), width, height)
  }

  /** Cell `(r, c)` of the image holds flat cell `c*height + r`. */
  lemma ToImageAt(flat: seq<int>, height: nat, width: nat, r: nat, c: nat)
    requires |flat| == height * width
    requires r < height && c < width
    ensures c * height + r < |flat|
    ensures ToImage(flat, height, width)[r][c] == flat[c * height + r]
  {
    ReshapeAt(flat, width, height, c, r);
  }

  /** Flat cell `p` is shown at row `p mod height`, column `p div height`. */
  lemma ToImageCellOf(flat: seq<int>, height: nat, width: nat, p: nat)
    requires |flat| == height * width
    requires p < |flat|
    ensures height > 0 && p % height < height && p / height < width
    ensures ToImage(flat, height, width)[p % height][p / height] == flat[p]
  {
    CellOf(p, height, width);
    ToImageAt(flat, height, width, p % height, p / height);
  }

  /** Numbers the image's pixels top to bottom, then left to right. */
  function Flatten(img: seq<seq<int>>, height: nat, width: nat): (flat: seq<int>)
    requires IsImage(img, height, width)
    ensures |flat| == height * width
  {
    seq(height * width, p requires 0 <= p < height * width =>
      CellOf(p, height, width); img[p % height][p / height])
  }

  /** Laying out a flattened image gives the image back. */
  lemma ToImageFlatten(img: seq<seq<int>>, height: nat, width: nat)
    requires IsImage(img, height, width)
    ensures ToImage(Flatten(img, height, width), height, width) == img
  {
    var flat := Flatten(img, height, width);
    var back := ToImage(flat, height, width);
    forall r | 0 <= r < height ensures back[r] == img[r] {
      forall c | 0 <= c < width ensures back[r][c] == img[r][c] {
        ToImageAt(flat, height, width, r, c);
        DivModUnique(c * height + r, height, r, c);
      }
    }
  }

  /** Flattening a laid-out buffer gives the buffer back. */
  lemma FlattenToImage(flat: seq<int>, height: nat, width: nat)
    requires |flat| == height * width
    ensures Flatten(ToImage(flat, height, width), height, width) == flat
  {
    forall p | 0 <= p < |flat|
      ensures Flatten(ToImage(flat, height, width), height, width)[p] == flat[p]
    {
      ToImageCellOf(flat, height, width, p);
    }
  }

  /** Every cell of the image satisfies a value test exactly when every cell of the buffer does. */
  lemma ToImageAllEqual(flat: seq<int>, height: nat, width: nat, v: int)
    requires |flat| == height * width
    ensures (forall r, c :: 0 <= r < height && 0 <= c < width ==> ToImage(flat, height, width)[r][c] == v)
        <==> (forall p :: 0 <= p < |flat| ==> flat[p] == v)
  {
    var img := ToImage(flat, height, width);
    if forall r, c :: 0 <= r < height && 0 <= c < width ==> img[r][c] == v {
      forall p | 0 <= p < |flat| ensures flat[p] == v {
        ToImageCellOf(flat, height, width, p);
      }
    }
    if forall p :: 0 <= p < |flat| ==> flat[p] == v {
      forall r, c | 0 <= r < height && 0 <= c < width ensures img[r][c] == v {
        ToImageAt(flat, height, width, r, c);
      }
    }
  }
}
