/** The first half of the feature-descriptor stage of the stitcher:
    cutting a mean-centred patch around every corner away from the border
    and storing it on the corner. */
module Patches {
  import opened Matrices
  import opened Wrappers

  /** A detected corner. Its position is fixed; its descriptor is set, in
      place, by the patch extraction. */
  class Corner {
    const x: int
    const y: int
    var featureDescriptor: Option<Matrix>

    constructor (x: int, y: int)
      ensures this.x == x && this.y == y && featureDescriptor == None
    {
      this.x := x;
      this.y := y;
      featureDescriptor := None;
    }
  }

  // =====================================================================
  // Patch extraction
  // =====================================================================

  /** The side the descriptor shape test demands, whatever the patch size. */
  const DescriptorSide: nat := 15

  /** `patch_size // 2`; Python's floor division and Dafny's division agree
      for a positive divisor. */
  function CentreIndex(patchSize: int): (h: int)
  {
    patchSize / 2
  }

  /** The border test: a corner closer than half a patch to an edge of the
      (smoothed) image, whose shape is `length, width = img.rows, img.cols`. */
  predicate OnBorder(x: int, y: int, patchSize: int, img: Matrix)
  {
    var h := CentreIndex(patchSize);
    x < h || x > img.cols - h || y < h || y > img.rows - h
  }

  /** The window `img[y - h : y + h + 1, x - h : x + h + 1]`, with Python's
      slice semantics: bounds past an edge are cut off. */
  function RawWindow(x: int, y: int, patchSize: int, img: Matrix): (w: Matrix)
    requires img.Valid()
    ensures w.Valid()
  {
    Window(img, y - CentreIndex(patchSize), y + CentreIndex(patchSize) + 1,
      x - CentreIndex(patchSize), x + CentreIndex(patchSize) + 1)
  }

  /** The descriptor stored on a corner that passes the border test: its
      window with the window's mean subtracted. */
  function PatchAt(x: int, y: int, patchSize: int, img: Matrix): (p: Matrix)
    requires img.Valid()
  {
    Centre(RawWindow(x, y, patchSize, img))
  }

  /** A corner survives extraction: it passes the border test and its patch,
      whose shape is that of its window, is exactly 15 by 15. */
  predicate Keeps(x: int, y: int, patchSize: int, img: Matrix)
  {
    var h := CentreIndex(patchSize);
    !OnBorder(x, y, patchSize, img) &&
    SliceLength(y - h, y + h + 1, img.rows) == DescriptorSide &&
    SliceLength(x - h, x + h + 1, img.cols) == DescriptorSide
  }

  /** The corners extraction returns from the first `n` corners, in their
      input order. */
  function SelectedUpTo(cs: seq<Corner>, n: nat, patchSize: int, img: Matrix): (kept: seq<Corner>)
    requires n <= |cs|
    decreases n
  {
    if n == 0 then []
    else
      var c := cs[n - 1];
      SelectedUpTo(cs, n - 1, patchSize, img) + (if Keeps(c.x, c.y, patchSize, img) then [c] else [])
  }

  /** The corners extraction returns, in their input order. */
  function Selected(cs: seq<Corner>, patchSize: int, img: Matrix): (kept: seq<Corner>)
  {
    SelectedUpTo(cs, |cs|, patchSize, img)
  }

  /** `s` is `t` with some elements left out and the rest in their order. */
  ghost predicate IsSubsequence<T>(s: seq<T>, t: seq<T>)
    decreases |t|
  {
    s == [] ||
    (|s| <= |t| &&
     ((s[|s| - 1] == t[|t| - 1] && IsSubsequence(s[..|s| - 1], t[..|t| - 1])) ||
      IsSubsequence(s, t[..|t| - 1])))
  }

  /** The descriptor get_patches leaves on a corner that had `before`: the
      corner's patch once it passes the border test, even when the shape test
      then drops it; otherwise `before`. */
  function DescriptorAfter(c: Corner, before: Option<Matrix>, patchSize: int, img: Matrix): (d: Option<Matrix>)
    requires img.Valid()
  {
    if OnBorder(c.x, c.y, patchSize, img) then before else Some(PatchAt(c.x, c.y, patchSize, img))
  }

  /** One pass of get_patches' loop: a corner off the border gets its patch
      as descriptor; the answer is whether that patch is 15 by 15. */
  method StorePatch(c: Corner, patchSize: int, img: Matrix) returns (keep: bool)
    requires img.Valid()
    modifies c
    ensures c.featureDescriptor == DescriptorAfter(c, old(c.featureDescriptor), patchSize, img)
    ensures keep == Keeps(c.x, c.y, patchSize, img)
  {
    keep := false;
    if !OnBorder(c.x, c.y, patchSize, img) {
      var patch := PatchAt(c.x, c.y, patchSize, img);
      c.featureDescriptor := Some(patch);
      if patch.rows == DescriptorSide && patch.cols == DescriptorSide {
        keep := true;
      }
    }
  }

  /** The descriptors the corners carry, in their order. */
  function DescriptorsOf(cs: seq<Corner>): (ds: seq<Option<Matrix>>)
    reads cs
    ensures |ds| == |cs|
    ensures forall k :: 0 <= k < |cs| ==> ds[k] == cs[k].featureDescriptor
    decreases |cs|
  {
    if cs == [] then [] else DescriptorsOf(cs[..|cs| - 1]) + [cs[|cs| - 1].featureDescriptor]
  }

  /** One turn of get_patches' loop, on corner `i`, stated against the
      descriptors `before` the corners carried when the loop began and the
      descriptors `want` it is to leave. */
  method StoreNext(corners: seq<Corner>, i: nat, patchSize: int, img: Matrix,
                   ghost before: seq<Option<Matrix>>, ghost want: seq<Option<Matrix>>, done: seq<Corner>)
    returns (result: seq<Corner>)
    requires img.Valid() && i < |corners| && |before| == |corners| && |want| == |corners|
    requires want[i] == DescriptorAfter(corners[i], before[i], patchSize, img)
    requires forall k :: 0 <= k < |corners| && corners[k] == corners[i] ==> want[k] == want[i]
    requires done == SelectedUpTo(corners, i, patchSize, img)
    requires forall k :: 0 <= k < i ==> corners[k].featureDescriptor == want[k]
    requires forall k :: 0 <= k < |corners| && OnBorder(corners[k].x, corners[k].y, patchSize, img) ==>
      corners[k].featureDescriptor == before[k]
    modifies corners[i]
    ensures result == SelectedUpTo(corners, i + 1, patchSize, img)
    ensures forall k :: 0 <= k <= i ==> corners[k].featureDescriptor == want[k]
    ensures forall k :: 0 <= k < |corners| && OnBorder(corners[k].x, corners[k].y, patchSize, img) ==>
      corners[k].featureDescriptor == before[k]
  {
    var c := corners[i];
    var keep := StorePatch(c, patchSize, img);
    result := done + if keep then [c] else [];
  }

  /** get_patches' loop, stated against the descriptors `before` the
      corners carry when it begins and the descriptors `want` it is to
      leave on them. */
  method StoreLoop(corners: seq<Corner>, patchSize: int, img: Matrix,
                   ghost before: seq<Option<Matrix>>, ghost want: seq<Option<Matrix>>)
    returns (result: seq<Corner>)
    requires img.Valid() && |before| == |corners| && |want| == |corners|
    requires forall k {:trigger DescriptorAfter(corners[k], before[k], patchSize, img)} :: 0 <= k < |corners| ==>
      want[k] == DescriptorAfter(corners[k], before[k], patchSize, img)
    requires forall k, j :: 0 <= k < |corners| && 0 <= j < |corners| && corners[k] == corners[j] ==> want[k] == want[j]
    requires forall k :: 0 <= k < |corners| ==> corners[k].featureDescriptor == before[k]
    modifies corners
    ensures result == Selected(corners, patchSize, img)
    ensures forall k :: 0 <= k < |corners| ==> corners[k].featureDescriptor == want[k]
  {
    result := [];
    var i := 0;
    while i < |corners|
      invariant 0 <= i <= |corners|
      invariant result == SelectedUpTo(corners, i, patchSize, img)
      invariant forall k :: 0 <= k < i ==> corners[k].featureDescriptor == want[k]
      invariant forall k :: 0 <= k < |corners| && OnBorder(corners[k].x, corners[k].y, patchSize, img) ==>
        corners[k].featureDescriptor == before[k]
    {
      result := StoreNext(corners, i, patchSize, img, before, want, result);
      i := i + 1;
    }
  }

  /** get_patches' loop over the corners of the smoothed image `img`: every
      corner off the border carries its patch; the corners whose patch is
      15 by 15 are returned in their order. */
  method StorePatches(corners: seq<Corner>, patchSize: int, img: Matrix) returns (result: seq<Corner>)
    requires img.Valid()
    modifies corners
    ensures result == Selected(corners, patchSize, img)
    ensures forall c :: c in corners ==>
      c.featureDescriptor == DescriptorAfter(c, old(c.featureDescriptor), patchSize, img)
  {
    ghost var before := DescriptorsOf(corners);
    ghost var want := seq(|corners|, k requires 0 <= k < |corners| => DescriptorAfter(corners[k], before[k], patchSize, img));
    result := StoreLoop(corners, patchSize, img, before, want);
    forall c | c in corners
      ensures c.featureDescriptor == DescriptorAfter(c, old(c.featureDescriptor), patchSize, img)
    {
      var k :| 0 <= k < |corners| && corners[k] == c;
    }
  }

  /** `img[0]` on an image with no rows. */
  datatype PatchError = IndexError

  /** get_patches: smooth the image with the 7-wide Gaussian (`smooth`), and
      for every corner off the border store the mean-centred window as its
      descriptor, returning the corners whose descriptor is 15 by 15. A
      smoothed image with no rows fails on `img[0]`, before the loop, and no
      corner is touched. */
  method GetPatches(corners: seq<Corner>, patchSize: int, img: Matrix, smooth: Matrix -> Matrix)
    returns (r: Result<seq<Corner>, PatchError>)
    requires smooth(img).Valid()
    modifies corners
    ensures r.Err? <==> smooth(img).rows == 0
    ensures r.Err? ==> forall c :: c in corners ==> c.featureDescriptor == old(c.featureDescriptor)
    ensures r.Ok? ==> r.value == Selected(corners, patchSize, smooth(img))
    ensures r.Ok? ==> forall c :: c in corners ==>
      c.featureDescriptor == DescriptorAfter(c, old(c.featureDescriptor), patchSize, smooth(img))
    ensures r.Ok? ==> forall c :: c in r.value ==>
      c.featureDescriptor.Some? && c.featureDescriptor.value.Valid() &&
      c.featureDescriptor.value.rows == DescriptorSide && c.featureDescriptor.value.cols == DescriptorSide &&
      Total(c.featureDescriptor.value.px) == 0.0
  {
    var sm := smooth(img);
    if sm.rows == 0 {
      // The shape printed before the loop reads `img[0]`.
      return Err(IndexError);
    }
    var result := StorePatches(corners, patchSize, sm);
    SelectedDescriptors(corners, patchSize, sm);
    return Ok(result);
  }

  /** Once every corner off the border carries its patch, every corner
      extraction returns carries a 15-by-15 descriptor with zero sum. */
  lemma SelectedDescriptors(corners: seq<Corner>, patchSize: int, img: Matrix)
    requires img.Valid()
    requires forall c :: c in corners && !OnBorder(c.x, c.y, patchSize, img) ==>
      c.featureDescriptor == Some(PatchAt(c.x, c.y, patchSize, img))
    ensures forall c :: c in Selected(corners, patchSize, img) ==>
      c.featureDescriptor.Some? && c.featureDescriptor.value.Valid() &&
      c.featureDescriptor.value.rows == DescriptorSide && c.featureDescriptor.value.cols == DescriptorSide &&
      Total(c.featureDescriptor.value.px) == 0.0
  {
    forall c | c in Selected(corners, patchSize, img)
      ensures c.featureDescriptor.Some? && c.featureDescriptor.value.Valid() &&
        c.featureDescriptor.value.rows == DescriptorSide && c.featureDescriptor.value.cols == DescriptorSide &&
        Total(c.featureDescriptor.value.px) == 0.0
    {
      SelectedMembers(corners, patchSize, img, c);
      PatchSumsToZero(c.x, c.y, patchSize, img);
    }
  }

  /** Extraction adds nothing and reorders nothing. */
  lemma SelectedIsSubsequence(cs: seq<Corner>, patchSize: int, img: Matrix)
    ensures IsSubsequence(Selected(cs, patchSize, img), cs)
  {
    SelectedUpToIsSubsequence(cs, |cs|, patchSize, img);
    assert cs[..|cs|] == cs;
  }

  lemma {:induction false} SelectedUpToIsSubsequence(cs: seq<Corner>, n: nat, patchSize: int, img: Matrix)
    requires n <= |cs|
    ensures IsSubsequence(SelectedUpTo(cs, n, patchSize, img), cs[..n])
    decreases n
  {
    if n > 0 {
      SelectedUpToIsSubsequence(cs, n - 1, patchSize, img);
      SelectedUpToShorter(cs, n - 1, patchSize, img);
      assert cs[..n][..n - 1] == cs[..n - 1];
      var s := SelectedUpTo(cs, n, patchSize, img);
      if s != SelectedUpTo(cs, n - 1, patchSize, img) {
        assert s[..|s| - 1] == SelectedUpTo(cs, n - 1, patchSize, img);
      }
    }
  }

  /** Extraction never returns more corners than it was given. */
  lemma SelectedShorter(cs: seq<Corner>, patchSize: int, img: Matrix)
    ensures |Selected(cs, patchSize, img)| <= |cs|
  {
    SelectedUpToShorter(cs, |cs|, patchSize, img);
  }

  lemma {:induction false} SelectedUpToShorter(cs: seq<Corner>, n: nat, patchSize: int, img: Matrix)
    requires n <= |cs|
    ensures |SelectedUpTo(cs, n, patchSize, img)| <= n
    decreases n
  {
    if n > 0 {
      SelectedUpToShorter(cs, n - 1, patchSize, img);
    }
  }

  /** A corner is returned exactly when it was given and survives the border
      and shape tests. */
  lemma SelectedMembers(cs: seq<Corner>, patchSize: int, img: Matrix, c: Corner)
    ensures c in Selected(cs, patchSize, img) <==> c in cs && Keeps(c.x, c.y, patchSize, img)
  {
    SelectedUpToMembers(cs, |cs|, patchSize, img, c);
    assert cs[..|cs|] == cs;
  }

  lemma {:induction false} SelectedUpToMembers(cs: seq<Corner>, n: nat, patchSize: int, img: Matrix, c: Corner)
    requires n <= |cs|
    ensures c in SelectedUpTo(cs, n, patchSize, img) <==> c in cs[..n] && Keeps(c.x, c.y, patchSize, img)
    decreases n
  {
    if n > 0 {
      SelectedUpToMembers(cs, n - 1, patchSize, img, c);
      assert cs[..n] == cs[..n - 1] + [cs[n - 1]];
    }
  }

  /** A corner within half a patch of an edge is never returned. */
  lemma BorderCornersDropped(cs: seq<Corner>, patchSize: int, img: Matrix, c: Corner)
    requires OnBorder(c.x, c.y, patchSize, img)
    ensures c !in Selected(cs, patchSize, img)
  {
    SelectedMembers(cs, patchSize, img, c);
  }

  /** For a non-negative patch size the survivors are exactly the corners
      whose full 15-by-15 window lies inside the image, which needs a patch
      size of 14 or 15; a corner at `x == width - h` or `y == length - h`
      passes the border test but its cut-off window is one short. */
  lemma KeepsExactly(x: int, y: int, patchSize: int, img: Matrix)
    requires patchSize >= 0
    ensures Keeps(x, y, patchSize, img) <==>
      CentreIndex(patchSize) == 7 && 7 <= x && x + 8 <= img.cols && 7 <= y && y + 8 <= img.rows
  {
    var h := CentreIndex(patchSize);
    if !OnBorder(x, y, patchSize, img) {
      CentredSliceLength(x, h, img.cols);
      CentredSliceLength(y, h, img.rows);
    }
  }

  /** Every element of the patch stored on a corner off the border is the
      smoothed pixel at the same offset from the window's top-left corner,
      minus the window's mean. */
  lemma PatchEntries(x: int, y: int, patchSize: int, img: Matrix, i: nat, j: nat)
    requires img.Valid()
    requires !OnBorder(x, y, patchSize, img)
    requires i < PatchAt(x, y, patchSize, img).rows && j < PatchAt(x, y, patchSize, img).cols
    ensures y - CentreIndex(patchSize) + i < img.rows && x - CentreIndex(patchSize) + j < img.cols
    ensures PatchAt(x, y, patchSize, img).px[i][j] ==
      img.px[y - CentreIndex(patchSize) + i][x - CentreIndex(patchSize) + j] - Mean(RawWindow(x, y, patchSize, img))
  {
    CentreEntries(RawWindow(x, y, patchSize, img), i, j);
    RawWindowEntries(x, y, patchSize, img, i, j);
  }

  /** The window of a corner off the border starts at its top-left corner
      `(y - h, x - h)`. */
  lemma RawWindowEntries(x: int, y: int, patchSize: int, img: Matrix, i: nat, j: nat)
    requires img.Valid()
    requires !OnBorder(x, y, patchSize, img)
    requires i < RawWindow(x, y, patchSize, img).rows && j < RawWindow(x, y, patchSize, img).cols
    ensures y - CentreIndex(patchSize) + i < img.rows && x - CentreIndex(patchSize) + j < img.cols
    ensures RawWindow(x, y, patchSize, img).px[i][j] == img.px[y - CentreIndex(patchSize) + i][x - CentreIndex(patchSize) + j]
  {
    var h := CentreIndex(patchSize);
    WindowEntries(img, y - h, y + h + 1, x - h, x + h + 1, i, j);
    assert SliceBound(y - h, img.rows) == y - h && SliceBound(x - h, img.cols) == x - h;
  }

  /** Over the reals the elements of every stored descriptor sum to zero. */
  lemma PatchSumsToZero(x: int, y: int, patchSize: int, img: Matrix)
    requires img.Valid()
    ensures Total(PatchAt(x, y, patchSize, img).px) == 0.0
  {
    CentredSumsToZero(RawWindow(x, y, patchSize, img));
  }
}
