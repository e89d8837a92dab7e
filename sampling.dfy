/**
 * What `ImagePalette::readPixelsGD` appends to `loadedImageColors`, stated
 * as functions of the image and the stride. The loop that computes it lives
 * in the class; the decoded image stands in for GD.
 */
module Sampling {
  import opened Hex
  import opened Palette
  import opened Transparency

  /**
   * A decoded image, as far as the class looks at it: the size
   * `getimagesize` reports, the colour index `imagecolorat` returns at a
   * pixel, and the channels `imagecolorsforindex` gives for an index
   * (GD reports each of them in [0, 255]).
   */
  datatype Image = Image(
    width: nat,
    height: nat,
    colorAt: (nat, nat) -> ColorIndex,
    colorsForIndex: ColorIndex -> Channels)

  /** The image held before any image is loaded: nothing to visit. */
  function NoImage(): (img: Image)
    ensures img.width == 0 && img.height == 0
  {
    Image(0, 0, (x: nat, y: nat) => 0, (index: ColorIndex) => RGB(0, 0, 0))
  }

  /**
   * The whitelists `getClosestColor` can use: at least one RGB entry, a
   * hex for every RGB entry, and no hex that reads "transparent".
   */
  predicate Usable(hexes: seq<string>, rgbs: seq<RGB>)
  {
    0 < |rgbs| <= |hexes| && TransparentLabel !in hexes
  }

  /** The reference whitelists are usable. */
  lemma ReferenceUsable()
    ensures Usable(HexWhiteList, WhiteListRGB)
  {
    forall k | 0 <= k < |HexWhiteList|
      ensures HexWhiteList[k] != TransparentLabel
    {
      WhiteListShape(k);
    }
  }

  /**
   * The label of the pixel at (x, y) against the whitelists `hexes` and
   * `rgbs`: transparent, or the hex of the nearest RGB entry.
   */
  function Classify(img: Image, hexes: seq<string>, rgbs: seq<RGB>, x: nat, y: nat): (tag: string)
    requires Usable(hexes, rgbs)
    ensures tag == TransparentLabel || tag in hexes
    ensures tag == TransparentLabel <==> DetectTransparency(img.colorAt(x, y))
    ensures !DetectTransparency(img.colorAt(x, y)) ==>
      tag == hexes[NearestIndex(rgbs, img.colorsForIndex(img.colorAt(x, y)))]
  {
    var index := img.colorAt(x, y);
    if DetectTransparency(index) then TransparentLabel
    else
      var rgb := img.colorsForIndex(index);
      hexes[NearestIndex(rgbs, rgb)]
  }

  /**
   * Against the reference whitelists, an opaque pixel is labelled with
   * `ClosestColor` of its channels.
   */
  lemma ClassifyReference(img: Image, x: nat, y: nat)
    requires !DetectTransparency(img.colorAt(x, y))
    ensures Classify(img, HexWhiteList, WhiteListRGB, x, y) == ClosestColor(img.colorsForIndex(img.colorAt(x, y)))
  {
  }

  /** How many of 0, p, 2p, … lie below n. */
  function CeilDiv(n: nat, p: nat): nat
    requires p > 0
    decreases n
  {
    if n == 0 then 0
    else if n <= p then 1
    else 1 + CeilDiv(n - p, p)
  }

  /**
   * `CeilDiv(n, p)` is ceil(n / p): the least q with q * p >= n. It is where
   * a loop `for (v = 0; v < n; v += p)` stops counting.
   */
  lemma {:induction false} CeilDivIsCeiling(n: nat, p: nat, q: nat)
    requires p > 0
    requires q * p >= n
    requires q == 0 || (q - 1) * p < n
    ensures q == CeilDiv(n, p)
  {
    if n > p {
      assert q > 1;
      assert (q - 1) * p == q * p - p;
      assert (q - 2) * p == (q - 1) * p - p;
      CeilDivIsCeiling(n - p, p, q - 1);
    }
  }

  /**
   * One step `v += p` of such a loop from the k-th visited value `v = k * p`
   * reaches the (k + 1)-th.
   */
  lemma StrideStep(k: nat, p: int, v: int)
    requires p > 0 && v == k * p
    ensures v >= 0
    ensures v + p == (k + 1) * p
  {
  }

  /**
   * Such a loop stops at its q-th value `v = q * p` when the value before
   * it was still below `n`: it has visited `CeilDiv(n, p)` values.
   */
  lemma StrideExit(n: nat, p: nat, q: nat, v: int)
    requires p > 0 && v == q * p && v >= n
    requires q == 0 || v - p < n
    ensures q == CeilDiv(n, p)
  {
    if q > 0 {
      assert (q - 1) * p == v - p;
    }
    CeilDivIsCeiling(n, p, q);
  }

  /** Visited rows per column. */
  function Rows(img: Image, p: nat): nat
    requires p > 0
  {
    CeilDiv(img.height, p)
  }

  /** Visited columns. */
  function Cols(img: Image, p: nat): nat
    requires p > 0
  {
    CeilDiv(img.width, p)
  }

  /** The labelling of every pixel of `img`. */
  function Labels(img: Image, hexes: seq<string>, rgbs: seq<RGB>): (nat, nat) -> string
    requires Usable(hexes, rgbs)
  {
    (x: nat, y: nat) => Classify(img, hexes, rgbs, x, y)
  }

  /**
   * The labels of the first `j` visited pixels of column `x` (y = 0, p,
   * 2p, …), for any labelling `at` of the pixels.
   */
  function Column(at: (nat, nat) -> string, p: nat, x: nat, j: nat): (col: seq<string>)
    ensures |col| == j
  {
    if j == 0 then [] else Column(at, p, x, j - 1) + [at(x, (j - 1) * p)]
  }

  /** Entry b of a column is the pixel (x, b * p). */
  lemma {:induction false} ColumnAt(at: (nat, nat) -> string, p: nat, x: nat, j: nat, b: nat)
    requires b < j
    ensures Column(at, p, x, j)[b] == at(x, b * p)
  {
    if b < j - 1 {
      ColumnAt(at, p, x, j - 1, b);
      assert Column(at, p, x, j)[b] == Column(at, p, x, j - 1)[b];
    }
  }

  /** The labels of the first `i` visited columns (x = 0, p, 2p, …), `rows` pixels each. */
  function Columns(at: (nat, nat) -> string, p: nat, rows: nat, i: nat): seq<string>
  {
    if i == 0 then []
    else Columns(at, p, rows, i - 1) + Column(at, p, (i - 1) * p, rows)
  }

  /** `i` columns of `rows` labels each. */
  lemma {:induction false} ColumnsLength(at: (nat, nat) -> string, p: nat, rows: nat, i: nat)
    ensures |Columns(at, p, rows, i)| == i * rows
  {
    if i > 0 {
      ColumnsLength(at, p, rows, i - 1);
      assert i * rows == (i - 1) * rows + rows;
    }
  }

  /** Column i (x = i * p) follows the first i columns. */
  lemma ColumnsNext(at: (nat, nat) -> string, p: nat, rows: nat, i: nat, x: nat)
    requires x == i * p
    ensures Columns(at, p, rows, i + 1) == Columns(at, p, rows, i) + Column(at, p, x, rows)
  {
  }

  /** Everything one `readPixelsGD` run appends. */
  function Samples(img: Image, hexes: seq<string>, rgbs: seq<RGB>, p: nat): seq<string>
    requires Usable(hexes, rgbs) && p > 0
  {
    Columns(Labels(img, hexes, rgbs), p, Rows(img, p), Cols(img, p))
  }

  /** One entry per visited pixel: ceil(width / p) * ceil(height / p) of them. */
  lemma SamplesLength(img: Image, hexes: seq<string>, rgbs: seq<RGB>, p: nat)
    requires Usable(hexes, rgbs) && p > 0
    ensures |Samples(img, hexes, rgbs, p)| == Cols(img, p) * Rows(img, p)
  {
    ColumnsLength(Labels(img, hexes, rgbs), p, Rows(img, p), Cols(img, p));
  }

  /** Where entry a * rows + b falls once column i - 1 is appended to i - 1 columns. */
  lemma IndexSplit(a: nat, b: nat, i: nat, rows: nat)
    requires a < i && b < rows
    ensures a * rows + b < (i - 1) * rows + rows
    ensures a < i - 1 ==> a * rows + b < (i - 1) * rows
    ensures a == i - 1 ==> a * rows + b == (i - 1) * rows + b
  {
    if a < i - 1 {
      assert (a + 1) * rows <= (i - 1) * rows;
    }
  }

  /** Appending column i - 1 leaves the entries of the first i - 1 columns in place. */
  lemma ColumnsKeepEarlier(at: (nat, nat) -> string, p: nat, rows: nat, i: nat, k: nat)
    requires 0 < i && k < |Columns(at, p, rows, i - 1)|
    ensures k < |Columns(at, p, rows, i)|
    ensures Columns(at, p, rows, i)[k] == Columns(at, p, rows, i - 1)[k]
  {
    var prev, last := Columns(at, p, rows, i - 1), Column(at, p, (i - 1) * p, rows);
    assert Columns(at, p, rows, i) == prev + last;
    assert (prev + last)[k] == prev[k];
  }

  /** Entry (i - 1) * rows + b of i columns is row b of the last column. */
  lemma ColumnsLast(at: (nat, nat) -> string, p: nat, rows: nat, i: nat, b: nat)
    requires 0 < i && b < rows
    ensures (i - 1) * rows + b < |Columns(at, p, rows, i)|
    ensures Columns(at, p, rows, i)[(i - 1) * rows + b] == at((i - 1) * p, b * p)
  {
    var prev, last := Columns(at, p, rows, i - 1), Column(at, p, (i - 1) * p, rows);
    assert Columns(at, p, rows, i) == prev + last;
    ColumnsLength(at, p, rows, i - 1);
    ColumnAt(at, p, (i - 1) * p, rows, b);
    assert (prev + last)[|prev| + b] == last[b];
  }

  /** Order is x-major: entry a * rows + b is the pixel (a * p, b * p). */
  lemma {:induction false} ColumnsAt(at: (nat, nat) -> string, p: nat, rows: nat, i: nat, a: nat, b: nat)
    requires a < i && b < rows
    ensures a * rows + b < |Columns(at, p, rows, i)|
    ensures Columns(at, p, rows, i)[a * rows + b] == at(a * p, b * p)
  {
    IndexSplit(a, b, i, rows);
    if a < i - 1 {
      ColumnsAt(at, p, rows, i - 1, a, b);
      ColumnsKeepEarlier(at, p, rows, i, a * rows + b);
    } else {
      ColumnsLast(at, p, rows, i, b);
    }
  }

  /**
   * `readPixelsGD` visits the pixel (a * p, b * p) as its entry number
   * a * Rows + b, for every visited column a and row b.
   */
  lemma SamplesAt(img: Image, hexes: seq<string>, rgbs: seq<RGB>, p: nat, a: nat, b: nat)
    requires Usable(hexes, rgbs) && p > 0
    requires a < Cols(img, p) && b < Rows(img, p)
    ensures a * Rows(img, p) + b < |Samples(img, hexes, rgbs, p)|
    ensures Samples(img, hexes, rgbs, p)[a * Rows(img, p) + b] == Classify(img, hexes, rgbs, a * p, b * p)
  {
    ColumnsAt(Labels(img, hexes, rgbs), p, Rows(img, p), Cols(img, p), a, b);
  }

  /** A property every pixel's label has, every recorded entry has. */
  lemma {:induction false} ColumnsLabels(at: (nat, nat) -> string, ok: string -> bool, p: nat, rows: nat, i: nat)
    requires forall x, y :: ok(at(x, y))
    ensures forall k :: 0 <= k < |Columns(at, p, rows, i)| ==> ok(Columns(at, p, rows, i)[k])
  {
    if i > 0 {
      var prev := Columns(at, p, rows, i - 1);
      var last := Column(at, p, (i - 1) * p, rows);
      ColumnsLabels(at, ok, p, rows, i - 1);
      forall k | 0 <= k < |prev + last|
        ensures ok((prev + last)[k])
      {
        if k >= |prev| {
          assert (prev + last)[k] == last[k - |prev|];
          ColumnAt(at, p, (i - 1) * p, rows, k - |prev|);
        } else {
          assert (prev + last)[k] == prev[k];
        }
      }
    }
  }

  /** Every recorded label is "transparent" or a whitelist hex. */
  lemma SamplesLabels(img: Image, hexes: seq<string>, rgbs: seq<RGB>, p: nat)
    requires Usable(hexes, rgbs) && p > 0
    ensures forall tag :: tag in Samples(img, hexes, rgbs, p) ==> tag == TransparentLabel || tag in hexes
  {
    var s := Samples(img, hexes, rgbs, p);
    var ok := (tag: string) => tag == TransparentLabel || tag in hexes;
    ColumnsLabels(Labels(img, hexes, rgbs), ok, p, Rows(img, p), Cols(img, p));
    forall tag | tag in s
      ensures ok(tag)
    {
      var k :| 0 <= k < |s| && s[k] == tag;
    }
  }

  /** An image with no width or no height yields no samples. */
  lemma EmptyImageSamples(img: Image, hexes: seq<string>, rgbs: seq<RGB>, p: nat)
    requires Usable(hexes, rgbs) && p > 0
    requires img.width == 0 || img.height == 0
    ensures Samples(img, hexes, rgbs, p) == []
  {
    SamplesLength(img, hexes, rgbs, p);
  }

  /** A stride reaching past both sides leaves one sample, the pixel at (0, 0). */
  lemma CoarseStrideSamplesOrigin(img: Image, hexes: seq<string>, rgbs: seq<RGB>, p: nat)
    requires Usable(hexes, rgbs)
    requires 0 < img.width <= p && 0 < img.height <= p
    ensures Samples(img, hexes, rgbs, p) == [Classify(img, hexes, rgbs, 0, 0)]
  {
    assert Cols(img, p) == 1 && Rows(img, p) == 1;
    SamplesLength(img, hexes, rgbs, p);
    SamplesAt(img, hexes, rgbs, p, 0, 0);
  }

  /** Two columns of two rows at stride 10, in x-major order. */
  lemma TwoByTwo(at: (nat, nat) -> string)
    ensures Columns(at, 10, 2, 2) == [at(0, 0), at(0, 10), at(10, 0), at(10, 10)]
  {
    assert Column(at, 10, 0, 2) == [at(0, 0), at(0, 10)];
    assert Column(at, 10, 10, 2) == [at(10, 0), at(10, 10)];
    assert Columns(at, 10, 2, 2) == Columns(at, 10, 2, 1) + Column(at, 10, 10, 2);
    assert Columns(at, 10, 2, 1) == Column(at, 10, 0, 2);
  }

  /**
   * A 20 x 20 opaque image whose columns left of x = 10 have colour `left`
   * and the others colour `right`, sampled with stride 10: the pixels
   * (0, 0), (0, 10), (10, 0), (10, 10), in that order.
   */
  lemma HalvesSamples(img: Image, hexes: seq<string>, rgbs: seq<RGB>, left: RGB, right: RGB)
    requires Usable(hexes, rgbs)
    requires img.width == 20 && img.height == 20
    requires forall x: nat, y: nat :: !DetectTransparency(img.colorAt(x, y))
    requires forall x: nat, y: nat :: img.colorsForIndex(img.colorAt(x, y)) == if x < 10 then left else right
    ensures var l, r := hexes[NearestIndex(rgbs, left)], hexes[NearestIndex(rgbs, right)];
      Samples(img, hexes, rgbs, 10) == [l, l, r, r]
  {
    var l, r := hexes[NearestIndex(rgbs, left)], hexes[NearestIndex(rgbs, right)];
    assert Cols(img, 10) == 2 && Rows(img, 10) == 2;
    var at := Labels(img, hexes, rgbs);
    var s := Samples(img, hexes, rgbs, 10);
    TwoByTwo(at);
    assert s == [at(0, 0), at(0, 10), at(10, 0), at(10, 10)];
    assert at(0, 0) == l by {
      assert img.colorsForIndex(img.colorAt(0, 0)) == left;
    }
    assert at(0, 10) == l by {
      assert img.colorsForIndex(img.colorAt(0, 10)) == left;
    }
    assert at(10, 0) == r by {
      assert img.colorsForIndex(img.colorAt(10, 0)) == right;
    }
    assert at(10, 10) == r by {
      assert img.colorsForIndex(img.colorAt(10, 10)) == right;
    }
    assert s == [l, l, r, r];
  }
}
