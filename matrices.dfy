/** Two-dimensional float arrays as the feature-descriptor stage uses them:
    numpy's shape, Python's step-1 slicing, element sums and dot products,
    all over the reals. */
module Matrices {

  /** A 2-D numpy array with shape `(rows, cols)`. The shape is kept apart
      from the rows so that an array with no rows still has a width. */
  datatype Matrix = Matrix(rows: nat, cols: nat, px: seq<seq<real>>) {
    /** The rows agree with the shape. */
    predicate Valid() {
      |px| == rows && forall i :: 0 <= i < |px| ==> |px[i]| == cols
    }
  }

  /** Two arrays of one shape, as numpy's element-wise product needs. */
  predicate SameShape(p: Matrix, q: Matrix) {
    p.Valid() && q.Valid() && p.rows == q.rows && p.cols == q.cols
  }

  // ---------------------------------------------------------------------
  // Python slicing with step 1
  // ---------------------------------------------------------------------

  /** Python's normalisation of one bound of a step-1 slice over a sequence
      of length n: a negative bound counts from the end; the result is
      clamped to [0, n]. */
  function SliceBound(i: int, n: nat): (b: nat)
    ensures b <= n
  {
    if i < 0 then (if i + n < 0 then 0 else i + n)
    else if i > n then n
    else i
  }

  /** The number of elements `s[start:stop]` selects when `|s| == n`. */
  function SliceLength(start: int, stop: int, n: nat): (k: nat)
    ensures SliceBound(start, n) + k <= n
  {
    var lo, hi := SliceBound(start, n), SliceBound(stop, n);
    if lo <= hi then hi - lo else 0
  }

  /** Python's `s[start:stop]`. */
  function Slice<T>(s: seq<T>, start: int, stop: int): (r: seq<T>)
    ensures |r| == SliceLength(start, stop, |s|)
    ensures forall k :: 0 <= k < |r| ==> r[k] == s[SliceBound(start, |s|) + k]
  {
    var lo, hi := SliceBound(start, |s|), SliceBound(stop, |s|);
    if lo <= hi then s[lo..hi] else []
  }

  /** Within the bounds of the sequence a Python slice is Dafny's. */
  lemma SliceWithinBounds<T>(s: seq<T>, start: int, stop: int)
    requires 0 <= start <= stop <= |s|
    ensures Slice(s, start, stop) == s[start..stop]
  {
  }

  /** A centred window `[c - h, c + h + 1)` over [0, n) whose left end is
      inside: it is whole when its right end fits, and loses its last
      element, and only that, when it overhangs by one. */
  lemma CentredSliceLength(c: int, h: int, n: nat)
    requires 0 <= h <= c && c <= n - h
    ensures SliceBound(c - h, n) == c - h
    ensures SliceLength(c - h, c + h + 1, n) == if c + h + 1 <= n then 2 * h + 1 else 2 * h
  {
  }

  /** numpy's `m[y0:y1, x0:x1]`: the row slice, and in each of its rows the
      column slice. */
  function Window(m: Matrix, y0: int, y1: int, x0: int, x1: int): (w: Matrix)
    requires m.Valid()
    ensures w.Valid()
    ensures w.rows == SliceLength(y0, y1, m.rows) && w.cols == SliceLength(x0, x1, m.cols)
  {
    var rs := Slice(m.px, y0, y1);
    Matrix(|rs|, SliceLength(x0, x1, m.cols), ColumnSlices(rs, x0, x1, m.cols))
  }

  /** The column slice `[x0:x1]` of every row. */
  function ColumnSlices(rs: seq<seq<real>>, x0: int, x1: int, n: nat): (q: seq<seq<real>>)
    requires forall i :: 0 <= i < |rs| ==> |rs[i]| == n
    ensures |q| == |rs|
    ensures forall i :: 0 <= i < |rs| ==> |q[i]| == SliceLength(x0, x1, n)
    decreases |rs|
  {
    if rs == [] then [] else ColumnSlices(rs[..|rs| - 1], x0, x1, n) + [Slice(rs[|rs| - 1], x0, x1)]
  }

  /** Row `i` of the column slices is the slice of row `i`. */
  lemma {:induction false} ColumnSlicesAt(rs: seq<seq<real>>, x0: int, x1: int, n: nat, i: nat)
    requires forall k :: 0 <= k < |rs| ==> |rs[k]| == n
    requires i < |rs|
    ensures ColumnSlices(rs, x0, x1, n)[i] == Slice(rs[i], x0, x1)
    decreases |rs|
  {
    if i < |rs| - 1 {
      ColumnSlicesAt(rs[..|rs| - 1], x0, x1, n, i);
    }
  }

  /** Element `[i][j]` of the window is the element of the array at the
      window's top-left corner plus `(i, j)`. */
  lemma WindowEntries(m: Matrix, y0: int, y1: int, x0: int, x1: int, i: nat, j: nat)
    requires m.Valid()
    requires i < Window(m, y0, y1, x0, x1).rows && j < Window(m, y0, y1, x0, x1).cols
    ensures SliceBound(y0, m.rows) + i < m.rows && SliceBound(x0, m.cols) + j < m.cols
    ensures Window(m, y0, y1, x0, x1).px[i][j] == m.px[SliceBound(y0, m.rows) + i][SliceBound(x0, m.cols) + j]
  {
    var rs := Slice(m.px, y0, y1);
    ColumnSlicesAt(rs, x0, x1, m.cols, i);
  }

  /** A window whose top-left corner `(y0, x0)` lies inside the array:
      its element `[i][j]` is the array's element at `(y0 + i, x0 + j)`. */
  lemma WindowEntriesFrom(m: Matrix, y0: int, y1: int, x0: int, x1: int, i: nat, j: nat)
    requires m.Valid() && 0 <= y0 <= m.rows && 0 <= x0 <= m.cols
    requires i < Window(m, y0, y1, x0, x1).rows && j < Window(m, y0, y1, x0, x1).cols
    ensures y0 + i < m.rows && x0 + j < m.cols
    ensures Window(m, y0, y1, x0, x1).px[i][j] == m.px[y0 + i][x0 + j]
  {
    WindowEntries(m, y0, y1, x0, x1, i, j);
  }

  // ---------------------------------------------------------------------
  // Sums, mean and mean-centring
  // ---------------------------------------------------------------------

  /** The sum of one row. */
  function RowSum(r: seq<real>): (s: real)
    decreases |r|
  {
    if r == [] then 0.0 else RowSum(r[..|r| - 1]) + r[|r| - 1]
  }

  /** The sum of every element, numpy's `np.sum`. */
  function Total(px: seq<seq<real>>): (s: real)
    decreases |px|
  {
    if px == [] then 0.0 else Total(px[..|px| - 1]) + RowSum(px[|px| - 1])
  }

  /** The number of elements, numpy's `size`. */
  function Count(px: seq<seq<real>>): (n: nat)
    decreases |px|
  {
    if px == [] then 0 else Count(px[..|px| - 1]) + |px[|px| - 1]|
  }

  /** A rows-by-cols array has rows * cols elements. */
  lemma {:induction false} CountOfValid(m: Matrix)
    requires m.Valid()
    ensures Count(m.px) == m.rows * m.cols
  {
    CountRect(m.px, m.cols);
  }

  lemma {:induction false} CountRect(px: seq<seq<real>>, cols: nat)
    requires forall i :: 0 <= i < |px| ==> |px[i]| == cols
    ensures Count(px) == |px| * cols
    decreases |px|
  {
    if px != [] {
      CountRect(px[..|px| - 1], cols);
    }
  }

  /** numpy's `np.mean`: the sum over the number of elements. On an array
      with no elements numpy gives NaN; no element is then left to subtract
      it from, so any value serves. */
  function Mean(m: Matrix): (mu: real)
  {
    if Count(m.px) == 0 then 0.0 else Total(m.px) / Count(m.px) as real
  }

  /** Each element of a row minus `mu`. */
  function Shifted(r: seq<real>, mu: real): (s: seq<real>)
    ensures |s| == |r|
    decreases |r|
  {
    if r == [] then [] else Shifted(r[..|r| - 1], mu) + [r[|r| - 1] - mu]
  }

  /** Every row shifted by `mu`. */
  function ShiftedRows(px: seq<seq<real>>, mu: real): (q: seq<seq<real>>)
    ensures |q| == |px|
    ensures forall i :: 0 <= i < |px| ==> |q[i]| == |px[i]|
    decreases |px|
  {
    if px == [] then [] else ShiftedRows(px[..|px| - 1], mu) + [Shifted(px[|px| - 1], mu)]
  }

  /** `m - np.mean(m)`: the array with its own mean subtracted from every
      element; the shape is unchanged. */
  function Centre(m: Matrix): (c: Matrix)
    requires m.Valid()
    ensures c.Valid() && c.rows == m.rows && c.cols == m.cols
  {
    Matrix(m.rows, m.cols, ShiftedRows(m.px, Mean(m)))
  }

  /** Each element of the centred array is the element minus the mean. */
  lemma CentreEntries(m: Matrix, i: nat, j: nat)
    requires m.Valid() && i < m.rows && j < m.cols
    ensures Centre(m).px[i][j] == m.px[i][j] - Mean(m)
  {
    ShiftedRowsAt(m.px, Mean(m), i, j);
  }

  lemma {:induction false} ShiftedAt(r: seq<real>, mu: real, j: nat)
    requires j < |r|
    ensures Shifted(r, mu)[j] == r[j] - mu
    decreases |r|
  {
    if j < |r| - 1 {
      ShiftedAt(r[..|r| - 1], mu, j);
    }
  }

  lemma {:induction false} ShiftedRowsAt(px: seq<seq<real>>, mu: real, i: nat, j: nat)
    requires i < |px| && j < |px[i]|
    ensures ShiftedRows(px, mu)[i][j] == px[i][j] - mu
    decreases |px|
  {
    if i < |px| - 1 {
      ShiftedRowsAt(px[..|px| - 1], mu, i, j);
    } else {
      ShiftedAt(px[i], mu, j);
    }
  }

  /** k copies of mu added up; the product is kept behind a name so that the
      sums below stay linear for the solver. */
  function Times(k: nat, mu: real): (p: real)
  {
    k as real * mu
  }

  lemma TimesAdd(a: nat, b: nat, mu: real)
    ensures Times(a + b, mu) == Times(a, mu) + Times(b, mu)
  {
  }

  /** Subtracting `mu` from each of the n elements of a row lowers its sum by n * mu. */
  lemma {:induction false} ShiftedRowSum(r: seq<real>, mu: real)
    ensures RowSum(Shifted(r, mu)) == RowSum(r) - Times(|r|, mu)
    decreases |r|
  {
    if r != [] {
      var n := |r|;
      assert Shifted(r, mu)[..n - 1] == Shifted(r[..n - 1], mu);
      ShiftedRowSum(r[..n - 1], mu);
      TimesAdd(n - 1, 1, mu);
    }
  }

  /** Shifting `rows` rows of `cols` elements lowers the total by rows * cols * mu. */
  lemma {:induction false} ShiftedTotal(px: seq<seq<real>>, mu: real)
    ensures Total(ShiftedRows(px, mu)) == Total(px) - Times(Count(px), mu)
    decreases |px|
  {
    if px != [] {
      var n := |px|;
      assert ShiftedRows(px, mu)[..n - 1] == ShiftedRows(px[..n - 1], mu);
      ShiftedTotal(px[..n - 1], mu);
      ShiftedRowSum(px[n - 1], mu);
      TimesAdd(Count(px[..n - 1]), |px[n - 1]|, mu);
    }
  }

  /** Over the reals, a mean-centred array sums to zero. */
  lemma CentredSumsToZero(m: Matrix)
    requires m.Valid()
    ensures Total(Centre(m).px) == 0.0
  {
    var mu := Mean(m);
    assert Centre(m).px == ShiftedRows(m.px, mu);
    ShiftedTotal(m.px, mu);
    if Count(m.px) == 0 {
      EmptyTotal(m.px);
      assert Times(0, mu) == 0.0 * mu;
    } else {
      TimesMean(Count(m.px), Total(m.px));
    }
  }

  /** k times (t / k) is t. */
  lemma TimesMean(k: nat, t: real)
    requires k > 0
    ensures Times(k, t / k as real) == t
  {
    var r := k as real;
    assert r * (t / r) == t;
  }

  /** An array without elements sums to zero. */
  lemma {:induction false} EmptyTotal(px: seq<seq<real>>)
    requires Count(px) == 0
    ensures Total(px) == 0.0
    decreases |px|
  {
    if px != [] {
      EmptyTotal(px[..|px| - 1]);
      assert px[|px| - 1] == [];
    }
  }

  // ---------------------------------------------------------------------
  // Dot products
  // ---------------------------------------------------------------------

  /** Sum of element-wise products of two rows of one length. */
  function RowDot(a: seq<real>, b: seq<real>): (d: real)
    requires |a| == |b|
    decreases |a|
  {
    if a == [] then 0.0 else RowDot(a[..|a| - 1], b[..|b| - 1]) + a[|a| - 1] * b[|b| - 1]
  }

  /** Two row lists of one shape. */
  predicate Conformable(p: seq<seq<real>>, q: seq<seq<real>>) {
    |p| == |q| && forall i :: 0 <= i < |p| ==> |p[i]| == |q[i]|
  }

  /** numpy's `np.sum(p * q)` for two arrays of one shape. */
  function Dot(p: seq<seq<real>>, q: seq<seq<real>>): (d: real)
    requires Conformable(p, q)
    decreases |p|
  {
    if p == [] then 0.0 else Dot(p[..|p| - 1], q[..|q| - 1]) + RowDot(p[|p| - 1], q[|q| - 1])
  }

  /** numpy's `np.sum(p ** 2)`. */
  function Energy(m: Matrix): (e: real)
    requires m.Valid()
  {
    Dot(m.px, m.px)
  }

  /** The row product does not depend on the order of its factors. */
  lemma {:induction false} RowDotSymmetric(a: seq<real>, b: seq<real>)
    requires |a| == |b|
    ensures RowDot(a, b) == RowDot(b, a)
    decreases |a|
  {
    if a != [] {
      RowDotSymmetric(a[..|a| - 1], b[..|b| - 1]);
    }
  }

  /** The array product does not depend on the order of its factors. */
  lemma {:induction false} DotSymmetric(p: seq<seq<real>>, q: seq<seq<real>>)
    requires Conformable(p, q)
    ensures Dot(p, q) == Dot(q, p)
    decreases |p|
  {
    if p != [] {
      DotSymmetric(p[..|p| - 1], q[..|q| - 1]);
      RowDotSymmetric(p[|p| - 1], q[|q| - 1]);
    }
  }
}
