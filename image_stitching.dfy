/** The two list-shaping helpers of the stitching driver: interleaving three
    colour planes into one image of RGB triples, and flattening a 2-D pixel
    array row by row into one list. Pixels are of any type. */
module ImageStitching {

  /** The number of values `range(n)` produces. */
  function Clamp(n: int): (k: nat)
  {
    if n < 0 then 0 else n
  }

  // =====================================================================
  // prepareRGBImageFromIndividualArrays
  // =====================================================================

  /** Indexing `plane[y][x]` succeeds for every `y` in `range(height)` and
      `x` in `range(width)`; rows past the region may be ragged or missing. */
  ghost predicate Covers<T>(plane: seq<seq<T>>, width: int, height: int)
  {
    forall y :: 0 <= y < height && 0 < width ==> y < |plane| && width <= |plane[y]|
  }

  /** `row` is row `y` of the RGB image: `width` triples, the `x`-th holding
      the three planes' pixels at `[y][x]` in red, green, blue order. */
  ghost predicate IsRGBRowOf<T>(row: seq<seq<T>>, r: seq<seq<T>>, g: seq<seq<T>>, b: seq<seq<T>>, y: nat, width: int)
  {
    |row| == Clamp(width) &&
    forall x :: 0 <= x < |row| ==>
      y < |r| && y < |g| && y < |b| && x < |r[y]| && x < |g[y]| && x < |b[y]| &&
      row[x] == [r[y][x], g[y][x], b[y][x]]
  }

  /** `rgb` is the `height` by `width` image of triples built from the planes. */
  ghost predicate IsRGBImageOf<T>(rgb: seq<seq<seq<T>>>, r: seq<seq<T>>, g: seq<seq<T>>, b: seq<seq<T>>, width: int, height: int)
  {
    |rgb| == Clamp(height) &&
    forall y :: 0 <= y < |rgb| ==> IsRGBRowOf(rgb[y], r, g, b, y, width)
  }

  /** prepareRGBImageFromIndividualArrays: for each row `y` and column `x`
      of the requested region, the triple of the three planes' pixels. */
  method PrepareRGBImage<T>(r: seq<seq<T>>, g: seq<seq<T>>, b: seq<seq<T>>, imageWidth: int, imageHeight: int)
    returns (rgbImage: seq<seq<seq<T>>>)
    requires Covers(r, imageWidth, imageHeight) && Covers(g, imageWidth, imageHeight) && Covers(b, imageWidth, imageHeight)
    ensures IsRGBImageOf(rgbImage, r, g, b, imageWidth, imageHeight)
  {
    rgbImage := [];
    var y := 0;
    while y < imageHeight
      invariant 0 <= y <= Clamp(imageHeight)
      invariant IsRGBImageOf(rgbImage, r, g, b, imageWidth, y)
    {
      var row: seq<seq<T>> := [];
      var x := 0;
      while x < imageWidth
        invariant 0 <= x <= Clamp(imageWidth)
        invariant |row| == x
        invariant forall k :: 0 <= k < x ==>
          y < |r| && y < |g| && y < |b| && k < |r[y]| && k < |g[y]| && k < |b[y]| &&
          row[k] == [r[y][k], g[y][k], b[y][k]]
      {
        var triple := [];
        triple := triple + [r[y][x]];
        triple := triple + [g[y][x]];
        triple := triple + [b[y][x]];
        row := row + [triple];
        x := x + 1;
      }
      rgbImage := rgbImage + [row];
      y := y + 1;
    }
  }

  /** Every pixel of the image is a triple. */
  ghost predicate Triples<T>(rgb: seq<seq<seq<T>>>)
  {
    forall y, x :: 0 <= y < |rgb| && 0 <= x < |rgb[y]| ==> |rgb[y][x]| == 3
  }

  /** Colour plane `c` (0 red, 1 green, 2 blue) read back out of the image. */
  function Channel<T>(rgb: seq<seq<seq<T>>>, c: nat): (plane: seq<seq<T>>)
    requires Triples(rgb) && c < 3
  {
    seq(|rgb|, y requires 0 <= y < |rgb| =>
      seq(|rgb[y]|, x requires 0 <= x < |rgb[y]| => rgb[y][x][c]))
  }

  /** The top-left `width` by `height` region of a plane. */
  function Crop<T>(plane: seq<seq<T>>, width: int, height: int): (region: seq<seq<T>>)
    requires Covers(plane, width, height)
  {
    seq(Clamp(height), y requires 0 <= y < Clamp(height) =>
      if 0 < width && y < |plane| && width <= |plane[y]| then plane[y][..width] else [])
  }

  /** The image holds the three planes, unchanged and in order: reading a
      channel back out gives the region of its plane. */
  lemma ChannelsRecoverPlanes<T>(rgb: seq<seq<seq<T>>>, r: seq<seq<T>>, g: seq<seq<T>>, b: seq<seq<T>>, width: int, height: int)
    requires Covers(r, width, height) && Covers(g, width, height) && Covers(b, width, height)
    requires IsRGBImageOf(rgb, r, g, b, width, height)
    ensures Triples(rgb)
    ensures Channel(rgb, 0) == Crop(r, width, height)
    ensures Channel(rgb, 1) == Crop(g, width, height)
    ensures Channel(rgb, 2) == Crop(b, width, height)
  {
    forall y, x | 0 <= y < |rgb| && 0 <= x < |rgb[y]|
      ensures |rgb[y][x]| == 3
    {
      assert IsRGBRowOf(rgb[y], r, g, b, y, width);
    }
    forall y | 0 <= y < |rgb|
      ensures Channel(rgb, 0)[y] == Crop(r, width, height)[y]
      ensures Channel(rgb, 1)[y] == Crop(g, width, height)[y]
      ensures Channel(rgb, 2)[y] == Crop(b, width, height)[y]
    {
      assert IsRGBRowOf(rgb[y], r, g, b, y, width);
    }
  }

  // =====================================================================
  // pixelArrayToSingleList
  // =====================================================================

  /** The rows one after another, each in its own order. */
  function Flatten<T>(pixelArray: seq<seq<T>>): (list: seq<T>)
    decreases |pixelArray|
  {
    if pixelArray == [] then []
    else Flatten(pixelArray[..|pixelArray| - 1]) + pixelArray[|pixelArray| - 1]
  }

  /** The number of pixels before row `y`. */
  function RowOffset<T>(pixelArray: seq<seq<T>>, y: nat): (offset: nat)
    requires y <= |pixelArray|
    decreases y
  {
    if y == 0 then 0 else RowOffset(pixelArray, y - 1) + |pixelArray[y - 1]|
  }

  /** pixelArrayToSingleList: every item of every row, appended in turn. */
  method PixelArrayToSingleList<T>(pixelArray: seq<seq<T>>) returns (listOfPixelValues: seq<T>)
    ensures listOfPixelValues == Flatten(pixelArray)
  {
    listOfPixelValues := [];
    var y := 0;
    while y < |pixelArray|
      invariant 0 <= y <= |pixelArray|
      invariant listOfPixelValues == Flatten(pixelArray[..y])
    {
      var row := pixelArray[y];
      var x := 0;
      while x < |row|
        invariant 0 <= x <= |row|
        invariant listOfPixelValues == Flatten(pixelArray[..y]) + row[..x]
      {
        listOfPixelValues := listOfPixelValues + [row[x]];
        x := x + 1;
      }
      assert pixelArray[..y + 1][..y] == pixelArray[..y];
      y := y + 1;
    }
    assert pixelArray[..y] == pixelArray;
  }

  /** The list holds every pixel once: its length is the total row length. */
  lemma {:induction false} FlattenLength<T>(pixelArray: seq<seq<T>>)
    ensures |Flatten(pixelArray)| == RowOffset(pixelArray, |pixelArray|)
    decreases |pixelArray|
  {
    if pixelArray != [] {
      var n := |pixelArray|;
      FlattenLength(pixelArray[..n - 1]);
      RowOffsetPrefix(pixelArray, n - 1);
    }
  }

  /** Offsets only look at the rows before them. */
  lemma {:induction false} RowOffsetPrefix<T>(pixelArray: seq<seq<T>>, n: nat)
    requires n <= |pixelArray|
    ensures RowOffset(pixelArray[..n], n) == RowOffset(pixelArray, n)
    decreases n
  {
    if n > 0 {
      RowOffsetPrefix(pixelArray, n - 1);
      RowOffsetAgree(pixelArray[..n], pixelArray[..n - 1], n - 1);
    }
  }

  /** Two arrays that agree on their first `n` rows agree on offset `n`. */
  lemma {:induction false} RowOffsetAgree<T>(p: seq<seq<T>>, q: seq<seq<T>>, n: nat)
    requires n <= |p| && n <= |q|
    requires forall k :: 0 <= k < n ==> p[k] == q[k]
    ensures RowOffset(p, n) == RowOffset(q, n)
    decreases n
  {
    if n > 0 {
      RowOffsetAgree(p, q, n - 1);
    }
  }

  /** Row-major order: pixel `[y][x]` sits at position `RowOffset(y) + x`. */
  lemma {:induction false} FlattenAt<T>(pixelArray: seq<seq<T>>, y: nat, x: nat)
    requires y < |pixelArray| && x < |pixelArray[y]|
    ensures RowOffset(pixelArray, y) + x < |Flatten(pixelArray)|
    ensures Flatten(pixelArray)[RowOffset(pixelArray, y) + x] == pixelArray[y][x]
    decreases |pixelArray|
  {
    var n := |pixelArray|;
    var init := pixelArray[..n - 1];
    FlattenLength(init);
    RowOffsetPrefix(pixelArray, n - 1);
    assert Flatten(pixelArray) == Flatten(init) + pixelArray[n - 1];
    if y < n - 1 {
      FlattenAt(init, y, x);
      RowOffsetAgree(init, pixelArray, y);
    }
  }

  /** Cutting a list into consecutive rows of `width`. */
  function Rows<T>(s: seq<T>, width: nat): (rows: seq<seq<T>>)
    requires width > 0
    decreases |s|
  {
    if |s| < width then [] else Rows(s[..|s| - width], width) + [s[|s| - width..]]
  }

  /** For a rectangular array, cutting the list back into rows of the width
      gives the array again. */
  lemma {:induction false} RowsOfFlatten<T>(pixelArray: seq<seq<T>>, width: nat)
    requires width > 0
    requires forall y :: 0 <= y < |pixelArray| ==> |pixelArray[y]| == width
    ensures Rows(Flatten(pixelArray), width) == pixelArray
    decreases |pixelArray|
  {
    if pixelArray != [] {
      var n := |pixelArray|;
      var init := pixelArray[..n - 1];
      var s := Flatten(pixelArray);
      assert s == Flatten(init) + pixelArray[n - 1];
      assert s[..|s| - width] == Flatten(init);
      assert s[|s| - width..] == pixelArray[n - 1];
      RowsOfFlatten(init, width);
      assert pixelArray == init + [pixelArray[n - 1]];
    }
  }
}
