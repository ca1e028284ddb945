/** The second half of the feature-descriptor stage: matching the corners
    of one image to those of the other by normalised cross-correlation with
    a best-versus-runner-up ratio test. */
module Matching {
  import opened Matrices
  import opened Wrappers
  import opened Patches
  import opened Correlation

  /** `corners2[0]` on an empty list. */
  datatype CompareError = IndexError

  // =====================================================================
  // compare
  // =====================================================================

  /** compute_NCC can be applied to source patch `p` and the patch `d` a
      target carries. */
  predicate Correlates(p: Matrix, d: Option<Matrix>, sqrt: real -> real)
  {
    d.Some? && Correlatable(p, d.value, sqrt)
  }

  /** compute_NCC of source patch `p` and a target's patch. */
  function Score(p: Matrix, d: Option<Matrix>, sqrt: real -> real): (s: real)
    requires Correlates(p, d, sqrt)
  {
    NCC(p, d.value, sqrt)
  }

  /** A source corner's patch `d` is there and correlates with every target's. */
  predicate Scorable(d: Option<Matrix>, ds2: seq<Option<Matrix>>, sqrt: real -> real)
  {
    d.Some? && forall j {:trigger Correlates(d.value, ds2[j], sqrt)} :: 0 <= j < |ds2| ==> Correlates(d.value, ds2[j], sqrt)
  }

  /** Every NCC compare evaluates is defined: once there is a target, every
      source corner carries a patch that correlates with every target's. */
  predicate CrossCorrelatable(ds1: seq<Option<Matrix>>, ds2: seq<Option<Matrix>>, sqrt: real -> real)
  {
    forall i {:trigger Scorable(ds1[i], ds2, sqrt)} :: 0 <= i < |ds1| && ds2 != [] ==> Scorable(ds1[i], ds2, sqrt)
  }

  /** The scores of a source corner's patch `d` against the targets, in target order. */
  function Scores(d: Option<Matrix>, ds2: seq<Option<Matrix>>, sqrt: real -> real): (row: seq<real>)
    requires Scorable(d, ds2, sqrt)
  {
    seq(|ds2|, j requires 0 <= j < |ds2| => Score(d.value, ds2[j], sqrt))
  }

  /** Every row of the table has `width` scores. */
  predicate Table(t: seq<seq<real>>, width: nat)
  {
    forall i :: 0 <= i < |t| ==> |t[i]| == width
  }

  /** The scores of every source against every target: row `i` is source
      `i`'s row of scores. */
  function ScoreTable(ds1: seq<Option<Matrix>>, ds2: seq<Option<Matrix>>, sqrt: real -> real): (t: seq<seq<real>>)
    requires ds1 == [] || ds2 != []
    requires CrossCorrelatable(ds1, ds2, sqrt)
    ensures |t| == |ds1| && Table(t, |ds2|)
    decreases |ds1|
  {
    if ds1 == [] then []
    else ScoreTable(ds1[..|ds1| - 1], ds2, sqrt) + [Scores(ds1[|ds1| - 1], ds2, sqrt)]
  }

  /** One accepted correspondence by position: source index, target index
      and the best score. */
  datatype Pair = Pair(source: nat, target: nat, score: real)

  /** Every pair points at a source below `sources` and a target below `targets`. */
  predicate InRange(ps: seq<Pair>, sources: nat, targets: nat)
  {
    forall k :: 0 <= k < |ps| ==> ps[k].source < sources && ps[k].target < targets
  }

  /** What compare emits for the source at index `i` with scores `row`:
      nothing, or its pick. */
  function PicksOf(i: nat, row: seq<real>): (r: seq<Pair>)
    requires |row| > 0
  {
    match Pick(row)
    case Some(b) => [Pair(i, b, row[b])]
    case None => []
  }

  /** A source emits at most one pick, carrying its own position and a
      target in range. */
  lemma PicksOfInRange(i: nat, row: seq<real>)
    requires |row| > 0
    ensures |PicksOf(i, row)| <= 1 && InRange(PicksOf(i, row), i + 1, |row|)
    ensures forall k :: 0 <= k < |PicksOf(i, row)| ==> PicksOf(i, row)[k].source == i
  {
  }

  /** Pairs in range joined to pairs in range are in range. */
  lemma InRangeAppend(a: seq<Pair>, b: seq<Pair>, sources: nat, targets: nat)
    requires InRange(a, sources, targets) && InRange(b, sources, targets)
    ensures InRange(a + b, sources, targets)
  {
    assert forall k :: 0 <= k < |a + b| ==> (a + b)[k] == if k < |a| then a[k] else b[k - |a|];
  }

  /** The correspondences compare accepts from the first `n` rows of a score
      table, by position: for each source in order, its first best target
      and score when the ratio test passes. */
  function PicksUpTo(t: seq<seq<real>>, width: nat, n: nat): (r: seq<Pair>)
    requires n <= |t| && Table(t, width) && (n == 0 || width > 0)
    decreases n
  {
    if n == 0 then [] else PicksUpTo(t, width, n - 1) + PicksOf(n - 1, t[n - 1])
  }

  /** The first `n` rows yield pairs with a source below `n` and a target in range. */
  lemma {:induction false} PicksUpToInRange(t: seq<seq<real>>, width: nat, n: nat)
    requires n <= |t| && Table(t, width) && (n == 0 || width > 0)
    ensures InRange(PicksUpTo(t, width, n), n, width)
    decreases n
  {
    if n > 0 {
      PicksUpToInRange(t, width, n - 1);
      PicksOfInRange(n - 1, t[n - 1]);
      InRangeAppend(PicksUpTo(t, width, n - 1), PicksOf(n - 1, t[n - 1]), n, width);
    }
  }

  /** The correspondences compare accepts, by position. */
  function Picks(ds1: seq<Option<Matrix>>, ds2: seq<Option<Matrix>>, sqrt: real -> real): (r: seq<Pair>)
    requires ds1 == [] || ds2 != []
    requires CrossCorrelatable(ds1, ds2, sqrt)
    ensures InRange(r, |ds1|, |ds2|)
  {
    PicksUpToInRange(ScoreTable(ds1, ds2, sqrt), |ds2|, |ds1|);
    PicksUpTo(ScoreTable(ds1, ds2, sqrt), |ds2|, |ds1|)
  }

  /** Source `i` emits `p` exactly when the ratio test picks `p`'s target
      from its scores and `p` carries that target's score. */
  lemma PicksOfExactly(i: nat, row: seq<real>, p: Pair)
    requires |row| > 0
    ensures p in PicksOf(i, row) <==> p.source == i && Pick(row) == Some(p.target) && p.score == row[p.target]
  {
  }

  /** One accepted correspondence: the source corner, its best target and
      the best score, the tuple compare appends. */
  datatype Match = Match(source: Corner, target: Corner, score: real)

  /** The corners and scores a list of positional picks stands for. */
  function ToMatches(ps: seq<Pair>, cs1: seq<Corner>, cs2: seq<Corner>): (ms: seq<Match>)
    requires InRange(ps, |cs1|, |cs2|)
    ensures |ms| == |ps|
    decreases |ps|
  {
    if ps == [] then []
    else
      var p := ps[|ps| - 1];
      ToMatches(ps[..|ps| - 1], cs1, cs2) + [Match(cs1[p.source], cs2[p.target], p.score)]
  }

  /** Matches are made pick by pick. */
  lemma {:induction false} ToMatchesAppend(a: seq<Pair>, b: seq<Pair>, cs1: seq<Corner>, cs2: seq<Corner>)
    requires InRange(a, |cs1|, |cs2|) && InRange(b, |cs1|, |cs2|)
    ensures InRange(a + b, |cs1|, |cs2|)
    ensures ToMatches(a + b, cs1, cs2) == ToMatches(a, cs1, cs2) + ToMatches(b, cs1, cs2)
    decreases |b|
  {
    InRangeAppend(a, b, |cs1|, |cs2|);
    if b == [] {
      assert a + b == a;
    } else {
      var n := |b|;
      assert (a + b)[..|a + b| - 1] == a + b[..n - 1];
      ToMatchesAppend(a, b[..n - 1], cs1, cs2);
    }
  }

  /** Match `k` is pick `k` read as corners: the source corner, the target
      corner and the score the pick names. */
  lemma {:induction false} ToMatchesAt(ps: seq<Pair>, cs1: seq<Corner>, cs2: seq<Corner>, k: nat)
    requires InRange(ps, |cs1|, |cs2|) && k < |ps|
    ensures ToMatches(ps, cs1, cs2)[k] == Match(cs1[ps[k].source], cs2[ps[k].target], ps[k].score)
    decreases |ps|
  {
    if k < |ps| - 1 {
      var init := ps[..|ps| - 1];
      assert init[k] == ps[k];
      ToMatchesAt(init, cs1, cs2, k);
    }
  }

  /** The match a source's scores yield, if any: its first best target
      and score when the ratio test passes. */
  lemma MatchesOfPick(i: nat, row: seq<real>, cs1: seq<Corner>, cs2: seq<Corner>)
    requires |row| > 0 && i < |cs1| && |row| <= |cs2|
    ensures InRange(PicksOf(i, row), |cs1|, |cs2|)
    ensures var bs := Scan(row);
      ToMatches(PicksOf(i, row), cs1, cs2) ==
        if RatioAccepts(row[bs.1], row[bs.0]) then [Match(cs1[i], cs2[bs.0], row[bs.0])] else []
  {
    PicksOfInRange(i, row);
  }

  /** Row `i` of the table is the row of scores of source `i`. */
  lemma {:induction false} RowOfTable(ds1: seq<Option<Matrix>>, ds2: seq<Option<Matrix>>, sqrt: real -> real, i: nat)
    requires ds2 != [] && CrossCorrelatable(ds1, ds2, sqrt) && i < |ds1|
    ensures Scorable(ds1[i], ds2, sqrt)
    ensures ScoreTable(ds1, ds2, sqrt)[i] == Scores(ds1[i], ds2, sqrt)
    decreases |ds1|
  {
    var n := |ds1|;
    if i < n - 1 {
      assert ds1[..n - 1][i] == ds1[i];
      RowOfTable(ds1[..n - 1], ds2, sqrt, i);
    }
  }

  /** One pass of compare's outer loop: source `i` adds its match, if any,
      to those of the sources before it. */
  lemma CompareStep(t: seq<seq<real>>, i: nat, cs1: seq<Corner>, cs2: seq<Corner>)
    requires i < |t| == |cs1| && Table(t, |cs2|) && |cs2| > 0
    requires InRange(PicksUpTo(t, |cs2|, i), |cs1|, |cs2|)
    ensures InRange(PicksUpTo(t, |cs2|, i + 1), |cs1|, |cs2|)
    ensures var row, bs := t[i], Scan(t[i]);
      ToMatches(PicksUpTo(t, |cs2|, i + 1), cs1, cs2) ==
        ToMatches(PicksUpTo(t, |cs2|, i), cs1, cs2) +
        (if RatioAccepts(row[bs.1], row[bs.0]) then [Match(cs1[i], cs2[bs.0], row[bs.0])] else [])
  {
    ToMatchesAppend(PicksUpTo(t, |cs2|, i), PicksOf(i, t[i]), cs1, cs2);
    MatchesOfPick(i, t[i], cs1, cs2);
  }

  /** The slots hold the scan of the first `j` scores: the best slot the
      target at the best index and its score, the second slot the target at
      the second-best index and its score. */
  ghost predicate ScannedUpTo(corners2: seq<Corner>, row: seq<real>, j: nat, best: (Corner, real), best2: (Corner, real))
  {
    1 <= j <= |row| == |corners2| &&
    best == (corners2[ScanPrefix(row, j).0], row[ScanPrefix(row, j).0]) &&
    best2 == (corners2[ScanPrefix(row, j).1], row[ScanPrefix(row, j).1])
  }

  /** One pass of compare's inner loop, for the target at index `j`: a
      score strictly above the best moves the best into the second slot, one
      strictly above the second replaces it; the slots then hold the scan of
      the first `j + 1` scores. */
  method ScanTarget(c1: Corner, corners2: seq<Corner>, sqrt: real -> real, ghost row: seq<real>, j: nat,
                    best: (Corner, real), best2: (Corner, real))
    returns (best': (Corner, real), best2': (Corner, real))
    requires j < |corners2| && ScannedUpTo(corners2, row, j, best, best2) && c1.featureDescriptor.Some?
    requires Correlates(c1.featureDescriptor.value, corners2[j].featureDescriptor, sqrt)
    requires row[j] == Score(c1.featureDescriptor.value, corners2[j].featureDescriptor, sqrt)
    ensures ScannedUpTo(corners2, row, j + 1, best', best2')
  {
    var c2 := corners2[j];
    var result := NCC(c1.featureDescriptor.value, c2.featureDescriptor.value, sqrt);
    ScanStep(row, j);
    if result > best.1 {
      best2' := best;
      best' := (c2, result);
    } else if result > best2.1 {
      best' := best;
      best2' := (c2, result);
    } else {
      best', best2' := best, best2;
    }
  }

  /** The inner loop of compare over one source corner: both slots start at
      the first target; the best slot ends with the first best target and its
      score, the second slot with the runner-up of the scan. */
  method ScanTargets(c1: Corner, corners2: seq<Corner>, sqrt: real -> real, ghost row: seq<real>)
    returns (best: (Corner, real), best2: (Corner, real))
    requires |corners2| > 0
    requires Scorable(c1.featureDescriptor, DescriptorsOf(corners2), sqrt)
    requires row == Scores(c1.featureDescriptor, DescriptorsOf(corners2), sqrt)
    ensures |row| == |corners2|
    ensures best == (corners2[Scan(row).0], row[Scan(row).0])
    ensures best2 == (corners2[Scan(row).1], row[Scan(row).1])
  {
    ghost var ds2 := DescriptorsOf(corners2);
    var first := corners2[0];
    assert ds2[0] == first.featureDescriptor;
    assert Correlates(c1.featureDescriptor.value, ds2[0], sqrt);
    var ncc := NCC(c1.featureDescriptor.value, first.featureDescriptor.value, sqrt);
    best := (first, ncc);
    best2 := (first, ncc);
    var j := 1;
    while j < |corners2|
      invariant ScannedUpTo(corners2, row, j, best, best2)
    {
      assert ds2[j] == corners2[j].featureDescriptor;
      assert Correlates(c1.featureDescriptor.value, ds2[j], sqrt);
      best, best2 := ScanTarget(c1, corners2, sqrt, row, j, best, best2);
      j := j + 1;
    }
  }

  /** `t` is the table of scores compare works through: every NCC it takes
      is defined, and row `i` holds source `i`'s scores against the targets. */
  ghost predicate TableOf(corners1: seq<Corner>, corners2: seq<Corner>, sqrt: real -> real, t: seq<seq<real>>)
    reads corners1, corners2
  {
    (corners1 == [] || corners2 != []) &&
    CrossCorrelatable(DescriptorsOf(corners1), DescriptorsOf(corners2), sqrt) &&
    t == ScoreTable(DescriptorsOf(corners1), DescriptorsOf(corners2), sqrt)
  }

  /** `pairs` holds the matches of the first `n` rows of the score table `t`. */
  ghost predicate MatchedUpTo(t: seq<seq<real>>, corners1: seq<Corner>, corners2: seq<Corner>, n: nat, pairs: seq<Match>)
  {
    n <= |t| == |corners1| && Table(t, |corners2|) && (n == 0 || |corners2| > 0) &&
    InRange(PicksUpTo(t, |corners2|, n), |corners1|, |corners2|) &&
    pairs == ToMatches(PicksUpTo(t, |corners2|, n), corners1, corners2)
  }

  /** One pass of compare's outer loop, for the source corner at index `i`:
      scan the targets and keep (source, best target, best score) when the
      ratio test passes; appended to the matches `done` of the sources
      before it, this gives the matches of the first `i + 1` rows of the
      score table. */
  method MatchSource(corners1: seq<Corner>, corners2: seq<Corner>, sqrt: real -> real, i: nat,
                     ghost t: seq<seq<real>>, done: seq<Match>)
    returns (pairs: seq<Match>)
    requires i < |corners1| && TableOf(corners1, corners2, sqrt, t)
    requires MatchedUpTo(t, corners1, corners2, i, done)
    ensures MatchedUpTo(t, corners1, corners2, i + 1, pairs)
  {
    ghost var ds1, ds2 := DescriptorsOf(corners1), DescriptorsOf(corners2);
    var c1 := corners1[i];
    RowOfTable(ds1, ds2, sqrt, i);
    assert ds1[i] == c1.featureDescriptor;
    var best, best2 := ScanTargets(c1, corners2, sqrt, t[i]);
    CompareStep(t, i, corners1, corners2);
    if RatioAccepts(best2.1, best.1) {
      pairs := done + [Match(c1, best.0, best.1)];
    } else {
      pairs := done;
    }
  }

  /** compare's outer loop: the matches of every source corner in turn. */
  method MatchSources(corners1: seq<Corner>, corners2: seq<Corner>, sqrt: real -> real, ghost t: seq<seq<real>>)
    returns (pairs: seq<Match>)
    requires TableOf(corners1, corners2, sqrt, t)
    ensures MatchedUpTo(t, corners1, corners2, |corners1|, pairs)
  {
    pairs := [];
    var i := 0;
    while i < |corners1|
      invariant 0 <= i <= |corners1|
      invariant MatchedUpTo(t, corners1, corners2, i, pairs)
    {
      pairs := MatchSource(corners1, corners2, sqrt, i, t, pairs);
      i := i + 1;
    }
  }

  /** compare: for each source corner in order, scan the targets and emit
      (source, best target, best score) when the ratio test passes. An empty
      target list with a source corner to match fails on `corners2[0]`. */
  method Compare(corners1: seq<Corner>, corners2: seq<Corner>, sqrt: real -> real)
    returns (r: Result<seq<Match>, CompareError>)
    requires CrossCorrelatable(DescriptorsOf(corners1), DescriptorsOf(corners2), sqrt)
    ensures r.Err? <==> corners1 != [] && corners2 == []
    ensures r.Ok? ==> ((corners1 == [] || corners2 != []) &&
      r.value == ToMatches(Picks(DescriptorsOf(corners1), DescriptorsOf(corners2), sqrt), corners1, corners2))
  {
    if corners1 != [] && corners2 == [] {
      // The first iteration fails on `corners2[0]`.
      return Err(CompareError.IndexError);
    }
    ghost var t := ScoreTable(DescriptorsOf(corners1), DescriptorsOf(corners2), sqrt);
    var pairs := MatchSources(corners1, corners2, sqrt, t);
    return Ok(pairs);
  }

  /** The source positions strictly increase along the list. */
  ghost predicate SourcesIncrease(r: seq<Pair>)
  {
    forall k, l :: 0 <= k < l < |r| ==> r[k].source < r[l].source
  }

  /** Appending what source `i` emits to pairs whose sources lie below `i`
      keeps the sources increasing. */
  lemma IncreasingStep(a: seq<Pair>, i: nat, row: seq<real>, width: nat)
    requires |row| > 0 && SourcesIncrease(a) && InRange(a, i, width)
    ensures SourcesIncrease(a + PicksOf(i, row))
  {
    var b := PicksOf(i, row);
    if b == [] {
      assert a + b == a;
    } else {
      var ab := a + b;
      assert |b| == 1 && b[0].source == i;
      forall k, l | 0 <= k < l < |ab|
        ensures ab[k].source < ab[l].source
      {
        assert ab[k] == a[k];
        if l < |a| {
          assert ab[l] == a[l];
        } else {
          assert ab[l] == b[0];
        }
      }
    }
  }

  /** Row `n - 1` keeps the sources of the first `n - 1` rows increasing. */
  lemma SourceOrderStep(t: seq<seq<real>>, width: nat, n: nat)
    requires 0 < n <= |t| && Table(t, width) && width > 0
    requires SourcesIncrease(PicksUpTo(t, width, n - 1)) && InRange(PicksUpTo(t, width, n - 1), n - 1, width)
    ensures SourcesIncrease(PicksUpTo(t, width, n))
  {
    IncreasingStep(PicksUpTo(t, width, n - 1), n - 1, t[n - 1], width);
  }

  /** Over the first `n` rows, the source positions strictly increase. */
  lemma {:induction false} PicksUpToInSourceOrder(t: seq<seq<real>>, width: nat, n: nat)
    requires n <= |t| && Table(t, width) && (n == 0 || width > 0)
    ensures SourcesIncrease(PicksUpTo(t, width, n))
    decreases n
  {
    if n > 0 {
      PicksUpToInSourceOrder(t, width, n - 1);
      PicksUpToInRange(t, width, n - 1);
      SourceOrderStep(t, width, n);
    }
  }

  /** Pairs with strictly increasing sources below `n` number at most `n`. */
  lemma {:induction false} IncreasingBounded(r: seq<Pair>, n: nat)
    requires SourcesIncrease(r)
    requires forall k :: 0 <= k < |r| ==> r[k].source < n
    ensures |r| <= n
    decreases |r|
  {
    if r != [] {
      var init, m := r[..|r| - 1], r[|r| - 1].source;
      assert forall k :: 0 <= k < |init| ==> init[k] == r[k];
      IncreasingBounded(init, m);
    }
  }

  /** compare emits at most one match per source corner, and in source
      order: the source positions strictly increase, and there are no more
      matches than source corners. */
  lemma PicksInSourceOrder(ds1: seq<Option<Matrix>>, ds2: seq<Option<Matrix>>, sqrt: real -> real)
    requires ds1 == [] || ds2 != []
    requires CrossCorrelatable(ds1, ds2, sqrt)
    ensures SourcesIncrease(Picks(ds1, ds2, sqrt))
    ensures |Picks(ds1, ds2, sqrt)| <= |ds1|
  {
    PicksUpToInSourceOrder(ScoreTable(ds1, ds2, sqrt), |ds2|, |ds1|);
    IncreasingBounded(Picks(ds1, ds2, sqrt), |ds1|);
  }

  /** Row `n - 1` adds to the pairs of the first `n - 1` rows exactly the
      pairs it emits itself. */
  lemma ExactlyStep(t: seq<seq<real>>, width: nat, n: nat, p: Pair)
    requires 0 < n <= |t| && Table(t, width) && width > 0
    requires p in PicksUpTo(t, width, n - 1) <==> p.source < n - 1 && p in PicksOf(p.source, t[p.source])
    ensures p in PicksUpTo(t, width, n) <==> p.source < n && p in PicksOf(p.source, t[p.source])
  {
    var prev, mine := PicksUpTo(t, width, n - 1), PicksOf(n - 1, t[n - 1]);
    assert PicksUpTo(t, width, n) == prev + mine;
    assert p in prev + mine <==> p in prev || p in mine;
    if p.source != n - 1 {
      PicksOfExactly(n - 1, t[n - 1], p);
      assert p !in mine;
    }
  }

  /** Over the first `n` rows, `(i, t, s)` is emitted exactly when the ratio
      test picks target `t` from row `i < n` and `s` is its score. */
  lemma {:induction false} PicksUpToExactly(t: seq<seq<real>>, width: nat, n: nat, p: Pair)
    requires n <= |t| && Table(t, width) && (n == 0 || width > 0)
    ensures p in PicksUpTo(t, width, n) <==> p.source < n && p in PicksOf(p.source, t[p.source])
    decreases n
  {
    if n > 0 {
      PicksUpToExactly(t, width, n - 1, p);
      ExactlyStep(t, width, n, p);
    }
  }

  /** compare emits `(i, t, s)` exactly when source `i` exists, the ratio
      test picks target `t` from its scores, and `s` is that target's score. */
  lemma PicksExactly(ds1: seq<Option<Matrix>>, ds2: seq<Option<Matrix>>, sqrt: real -> real, p: Pair)
    requires ds1 == [] || ds2 != []
    requires CrossCorrelatable(ds1, ds2, sqrt)
    ensures p in Picks(ds1, ds2, sqrt) <==>
      p.source < |ds1| &&
      Pick(Scores(ds1[p.source], ds2, sqrt)) == Some(p.target) &&
      p.score == Scores(ds1[p.source], ds2, sqrt)[p.target]
  {
    var t := ScoreTable(ds1, ds2, sqrt);
    PicksUpToExactly(t, |ds2|, |ds1|, p);
    if p.source < |ds1| {
      RowOfTable(ds1, ds2, sqrt, p.source);
      PicksOfExactly(p.source, t[p.source], p);
    }
  }
}

