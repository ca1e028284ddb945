/** Normalised cross-correlation of two patches, and the scan for the best
    and second-best score with the ratio test that decides a match. */
module Correlation {
  import opened Matrices
  import opened Wrappers

  // =====================================================================
  // Normalised cross-correlation
  // =====================================================================

  /** The denominator of compute_NCC, `sqrt(sum(p ** 2)) * sqrt(sum(q ** 2))`,
      with `sqrt` standing for numpy's square root. */
  function Norms(p: Matrix, q: Matrix, sqrt: real -> real): (d: real)
    requires p.Valid() && q.Valid()
  {
    sqrt(Energy(p)) * sqrt(Energy(q))
  }

  /** compute_NCC can divide: the patches have one shape and the
      denominator is not zero. */
  predicate Correlatable(p: Matrix, q: Matrix, sqrt: real -> real)
  {
    SameShape(p, q) && Norms(p, q, sqrt) != 0.0
  }

  /** compute_NCC: `sum(p * q)` over the product of the two norms. */
  function NCC(p: Matrix, q: Matrix, sqrt: real -> real): (score: real)
    requires Correlatable(p, q, sqrt)
  {
    Dot(p.px, q.px) / Norms(p, q, sqrt)
  }

  /** The correlation is symmetric in its two patches. */
  lemma NCCSymmetric(p: Matrix, q: Matrix, sqrt: real -> real)
    requires Correlatable(p, q, sqrt)
    ensures Correlatable(q, p, sqrt) && NCC(p, q, sqrt) == NCC(q, p, sqrt)
  {
    DotSymmetric(p.px, q.px);
  }

  /** A patch correlates perfectly with itself when `sqrt` is a square root
      at its energy. */
  lemma NCCSelf(p: Matrix, sqrt: real -> real)
    requires Correlatable(p, p, sqrt)
    requires Norms(p, p, sqrt) == Energy(p)
    ensures NCC(p, p, sqrt) == 1.0
  {
  }

  // =====================================================================
  // Best and second-best scan, ratio test
  // =====================================================================

  /** Among the first `n` scores, `b` indexes the first of the largest. */
  ghost predicate IsFirstMaxAmong(row: seq<real>, n: int, b: int)
    requires n <= |row|
  {
    0 <= b < n &&
    (forall k :: 0 <= k < n ==> row[k] <= row[b]) &&
    (forall k :: 0 <= k < b ==> row[k] < row[b])
  }

  /** Among the first `n` scores, `s` indexes the largest score of the first
      target and every target other than `b`: the second-best slot starts
      out holding the first target, like the best slot. */
  ghost predicate IsRunnerUpAmong(row: seq<real>, n: int, b: int, s: int)
    requires n <= |row|
  {
    0 <= s < n && (s == 0 || s != b) &&
    forall k :: 0 <= k < n && (k == 0 || k != b) ==> row[k] <= row[s]
  }

  /** `b` indexes the first of the largest scores. */
  ghost predicate IsFirstMax(row: seq<real>, b: int)
  {
    IsFirstMaxAmong(row, |row|, b)
  }

  /** `s` indexes the runner-up to `b`, the first target counting as a
      runner-up even when it is `b`. */
  ghost predicate IsRunnerUp(row: seq<real>, b: int, s: int)
  {
    IsRunnerUpAmong(row, |row|, b, s)
  }

  /** The scan over the first `n` scores of one source corner: both slots
      start at the first target; a score strictly above the best moves the
      best into the second slot, and one strictly above the second replaces
      it. The result is (best index, second-best index). */
  function ScanPrefix(row: seq<real>, n: int): (r: (nat, nat))
    requires 1 <= n <= |row|
    ensures r.0 < n && r.1 < n
    decreases n
  {
    if n == 1 then (0, 0)
    else
      var prev := ScanPrefix(row, n - 1);
      var b, s := prev.0, prev.1;
      if row[n - 1] > row[b] then (n - 1, b)
      else if row[n - 1] > row[s] then (b, n - 1)
      else (b, s)
  }

  /** One step of the scan, the body of compare's inner loop. */
  lemma ScanStep(row: seq<real>, j: nat)
    requires 1 <= j < |row|
    ensures var prev := ScanPrefix(row, j);
      ScanPrefix(row, j + 1) ==
        if row[j] > row[prev.0] then (j, prev.0)
        else if row[j] > row[prev.1] then (prev.0, j)
        else prev
  {
  }

  /** The scan over all of a source corner's scores. */
  function Scan(row: seq<real>): (r: (nat, nat))
    requires |row| > 0
    ensures r.0 < |row| && r.1 < |row|
  {
    ScanPrefix(row, |row|)
  }

  /** Each step of the scan keeps the first best target in the best slot and
      the runner-up in the second slot. */
  lemma {:induction false} ScanPrefixFinds(row: seq<real>, n: int)
    requires 1 <= n <= |row|
    ensures IsFirstMaxAmong(row, n, ScanPrefix(row, n).0)
    ensures IsRunnerUpAmong(row, n, ScanPrefix(row, n).0, ScanPrefix(row, n).1)
    decreases n
  {
    if n > 1 {
      ScanPrefixFinds(row, n - 1);
    }
  }

  /** The scan ends with the first best target in the best slot and the
      runner-up in the second slot. */
  lemma ScanFinds(row: seq<real>)
    requires |row| > 0
    ensures IsFirstMax(row, Scan(row).0) && IsRunnerUp(row, Scan(row).0, Scan(row).1)
  {
    ScanPrefixFinds(row, |row|);
  }

  /** The second-best score never exceeds the best. */
  lemma ScanOrdered(row: seq<real>)
    requires |row| > 0
    ensures row[Scan(row).1] <= row[Scan(row).0]
  {
    ScanFinds(row);
  }

  /** There is only one first maximum. */
  lemma FirstMaxUnique(row: seq<real>, b: int, b': int)
    requires IsFirstMax(row, b) && IsFirstMax(row, b')
    ensures b == b'
  {
    assert row[b] <= row[b'] && row[b'] <= row[b];
  }

  /** `if ratio <= 0.9` for `ratio = second / best`, written without the
      division: a positive best score must be at least `second / 0.9`, a
      negative one at most that. In float arithmetic a zero best score makes
      the ratio -inf for a negative second score (which passes), NaN for a
      zero one and +inf for a positive one (which fail). */
  predicate RatioAccepts(second: real, best: real)
  {
    if best > 0.0 then second <= 0.9 * best
    else if best < 0.0 then 0.9 * best <= second
    else second < 0.0
  }

  /** For a non-zero best score the test is the quotient test of compare. */
  lemma RatioAcceptsIsQuotientTest(second: real, best: real)
    requires best != 0.0
    ensures RatioAccepts(second, best) <==> second / best <= 0.9
  {
    var q := second / best;
    assert q * best == second;
    if best > 0.0 {
      assert q <= 0.9 <==> q * best <= 0.9 * best;
    } else {
      assert q <= 0.9 <==> 0.9 * best <= q * best;
    }
  }

  /** The target a source corner is matched to, if its scores pass the
      ratio test. */
  function Pick(row: seq<real>): (r: Option<nat>)
    requires |row| > 0
    ensures r.Some? ==> r.value < |row|
  {
    var bs := Scan(row);
    if RatioAccepts(row[bs.1], row[bs.0]) then Some(bs.0) else None
  }

  /** Every target other than `b` scores clearly below it: at most 0.9 of a
      positive best score, or negative against a zero best score. */
  ghost predicate Unambiguous(row: seq<real>, b: int)
    requires 0 <= b < |row|
  {
    (row[b] > 0.0 && forall k :: 0 <= k < |row| && k != b ==> row[k] <= 0.9 * row[b]) ||
    (row[b] == 0.0 && forall k :: 0 <= k < |row| && k != b ==> row[k] < 0.0)
  }

  /** A source corner is matched to target `b` exactly when `b` is the first
      best target, is not the first target, and beats every other target
      unambiguously. */
  lemma PickExactly(row: seq<real>, b: int)
    requires |row| > 0
    ensures Pick(row) == Some(b) <==> IsFirstMax(row, b) && b != 0 && Unambiguous(row, b)
  {
    var bs := Scan(row);
    var b0, s := bs.0, bs.1;
    ScanFinds(row);
    if IsFirstMax(row, b) {
      FirstMaxUnique(row, b, b0);
    }
    if b0 == 0 {
      assert row[s] == row[b0];
    } else {
      assert s != b0;
    }
  }

  /** When the first target attains the best score, in particular when there
      is only one target, the second-best slot never leaves it, the ratio is
      1 (or NaN), and the source corner is never matched. */
  lemma FirstTargetBestNeverPicked(row: seq<real>)
    requires |row| > 0 && IsFirstMax(row, 0)
    ensures Pick(row) == None
  {
    var r := Pick(row);
    if r.Some? {
      PickExactly(row, r.value);
      FirstMaxUnique(row, 0, r.value);
    }
  }

  /** A single target is never matched. */
  lemma SingleTargetNeverPicked(row: seq<real>)
    requires |row| == 1
    ensures Pick(row) == None
  {
    FirstTargetBestNeverPicked(row);
  }
}
