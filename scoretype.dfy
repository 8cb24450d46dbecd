/**
 * Accumulated scores (`main/scoretype.py`): the running mean of the scores
 * of one spot over the frames, the percentiles of the collected scores, and
 * the protrusion score of a set of patches, where an empty patch scores 0.
 */
module ScoreType {
  import opened Wrappers
  import opened Sorting
  import Protrusion

  /** The scores that are not `None`, in order. */
  function Present(xs: seq<Option<real>>): (r: seq<real>)
    ensures |r| <= |xs|
    ensures (forall k :: 0 <= k < |xs| ==> xs[k].Some?) ==> |r| == |xs| && forall k :: 0 <= k < |xs| ==> r[k] == xs[k].value
  {
    if xs == [] then []
    else
      var init, x := xs[..|xs| - 1], xs[|xs| - 1];
      assert forall k :: 0 <= k < |init| ==> init[k] == xs[k];
      Present(init) + (if x.Some? then [x.value] else [])
  }

  lemma PresentEmpty(xs: seq<Option<real>>)
    ensures Present(xs) == [] <==> forall k :: 0 <= k < |xs| ==> xs[k].None?
  {
    if xs != [] {
      var init := xs[..|xs| - 1];
      PresentEmpty(init);
      assert forall k :: 0 <= k < |init| ==> init[k] == xs[k];
    }
  }

  /** One more score adds to the present ones exactly when it is not `None`. */
  lemma PresentSnoc(xs: seq<Option<real>>, x: Option<real>)
    ensures x.None? ==> Present(xs + [x]) == Present(xs)
    ensures x.Some? ==> Present(xs + [x]) == Present(xs) + [x.value]
  {
    assert (xs + [x])[..|xs|] == xs;
    assert Present(xs) + [] == Present(xs);
  }

  lemma SumSnoc(xs: seq<real>, x: real)
    ensures Sum(xs + [x]) == Sum(xs) + x
  {
    assert (xs + [x])[..|xs|] == xs;
  }

  function Sum(xs: seq<real>): real {
    if xs == [] then 0.0 else Sum(xs[..|xs| - 1]) + xs[|xs| - 1]
  }

  /** The arithmetic mean. */
  function Mean(xs: seq<real>): real
    requires xs != []
  {
    Sum(xs) / |xs| as real
  }

  /** The sum of the squared deviations of `xs` from `m`. */
  function SquaredDeviations(xs: seq<real>, m: real): (r: real)
    ensures r >= 0.0
  {
    if xs == [] then 0.0
    else
      var d := xs[|xs| - 1] - m;
      SquaredDeviations(xs[..|xs| - 1], m) + d * d
  }

  /** `statistics.variance`: the sample variance, which needs at least two values. */
  function Variance(xs: seq<real>): (v: real)
    requires |xs| >= 2
    ensures v >= 0.0
  {
    SquaredDeviations(xs, Mean(xs)) / (|xs| - 1) as real
  }

  /** Equal values add up to their count times the value. */
  lemma {:induction false} SumConstant(xs: seq<real>, c: real)
    requires forall k :: 0 <= k < |xs| ==> xs[k] == c
    ensures Sum(xs) == |xs| as real * c
  {
    if xs != [] {
      SumConstant(xs[..|xs| - 1], c);
    }
  }

  /** Equal values do not deviate from their own value. */
  lemma {:induction false} NoDeviation(xs: seq<real>, c: real)
    requires forall k :: 0 <= k < |xs| ==> xs[k] == c
    ensures SquaredDeviations(xs, c) == 0.0
  {
    if xs != [] {
      NoDeviation(xs[..|xs| - 1], c);
    }
  }

  /** Scores that are all equal have that value as their mean and no variance. */
  lemma ConstantVariance(xs: seq<real>, c: real)
    requires |xs| >= 2 && forall k :: 0 <= k < |xs| ==> xs[k] == c
    ensures Mean(xs) == c && Variance(xs) == 0.0
  {
    SumConstant(xs, c);
    NoDeviation(xs, c);
  }

  /** The mean of the scores, their variance, the lowest, the quartiles and the highest. */
  datatype Detail = Detail(mean: real, variance: real, minimum: real, first: real, median: real, third: real, maximum: real)

  /**
   * `MeanScore`: sums and counts the scores that are not `None`; with
   * `calcDetail` it also keeps every score passed, `None` included.
   * `added` is the history of `AddScore` calls.
   */
  class MeanScore {
    var detailBuf: Option<seq<Option<real>>>
    var numScores: nat
    var sumScores: real
    ghost const calcDetail: bool
    ghost var added: seq<Option<real>>

    ghost predicate Valid()
      reads this
    {
      && numScores == |Present(added)|
      && sumScores == Sum(Present(added))
      && (detailBuf.Some? <==> calcDetail)
      && (detailBuf.Some? ==> detailBuf.value == added)
    }

    constructor(calcDetail: bool)
      ensures Valid() && this.calcDetail == calcDetail && added == []
    {
      detailBuf := if calcDetail then Some([]) else None;
      numScores := 0;
      sumScores := 0.0;
      this.calcDetail := calcDetail;
      added := [];
    }

    /** `add_score`: `None` is left out of the sum and the count, but kept in the buffer. */
    method AddScore(newScore: Option<real>)
      requires Valid()
      modifies this
      ensures Valid() && added == old(added) + [newScore]
    {
      PresentSnoc(added, newScore);
      if newScore.Some? {
        SumSnoc(Present(added), newScore.value);
        sumScores := sumScores + newScore.value;
        numScores := numScores + 1;
      }
      if detailBuf.Some? {
        detailBuf := Some(detailBuf.value + [newScore]);
      }
      added := added + [newScore];
    }

    /** `get_result`: the mean of the scores that are not `None`; `None` when there are none. */
    method GetResult() returns (r: Option<real>)
      requires Valid()
      ensures r.None? <==> forall k :: 0 <= k < |added| ==> added[k].None?
      ensures r.Some? ==> Present(added) != [] && r.value == Mean(Present(added))
    {
      PresentEmpty(added);
      if numScores > 0 {
        r := Some(sumScores / numScores as real);
      } else {
        r := None;
      }
    }

    /**
     * `get_detail_result`: `None` before any score that is not `None`;
     * sorting a missing buffer, or one that mixes `None` with numbers, is a
     * `TypeError`; the variance of a single score raises `StatisticsError`, a `ValueError`.
     */
    method GetDetailResult() returns (r: Result<Option<Detail>>)
      requires Valid()
      ensures r.Err? <==> DetailError(calcDetail, added).Some?
      ensures r.Err? ==> r.error == DetailError(calcDetail, added).value
      ensures r.Ok? ==> (r.value.None? <==> Present(added) == [])
      ensures r.Ok? && r.value.Some? ==> calcDetail && |added| >= 2 && DetailOf(Present(added), r.value.value)
    {
      r := DetailResultOf(detailBuf, numScores, sumScores, calcDetail, added);
    }
  }

  /** The body of `get_detail_result` on the fields of a `MeanScore` whose history is `added`. */
  method DetailResultOf(detailBuf: Option<seq<Option<real>>>, numScores: nat, sumScores: real,
                        ghost calcDetail: bool, ghost added: seq<Option<real>>) returns (r: Result<Option<Detail>>)
    requires numScores == |Present(added)| && sumScores == Sum(Present(added))
    requires (detailBuf.Some? <==> calcDetail) && (detailBuf.Some? ==> detailBuf.value == added)
    ensures r.Err? <==> DetailError(calcDetail, added).Some?
    ensures r.Err? ==> r.error == DetailError(calcDetail, added).value
    ensures r.Ok? ==> (r.value.None? <==> Present(added) == [])
    ensures r.Ok? && r.value.Some? ==> calcDetail && |added| >= 2 && DetailOf(Present(added), r.value.value)
  {
    if numScores == 0 {
      return Ok(None);
    }
    if detailBuf.None? {
      return Err(TypeError);
    }
    var buf := detailBuf.value;
    var k := 0;
    while k < |buf| && buf[k].Some?
      invariant 0 <= k <= |buf| && forall j :: 0 <= j < k ==> buf[j].Some?
    {
      k := k + 1;
    }
    if k < |buf| {
      assert added[k].None?;
      return Err(TypeError);
    }
    if |buf| < 2 {
      return Err(ValueError);
    }
    var values := Present(buf);
    var d := Summarise(values, sumScores / numScores as real);
    r := Ok(Some(d));
  }

  /**
   * The error `get_detail_result` raises for the scores `added`, if any:
   * none without a score, `TypeError` when sorting meets a missing buffer or
   * a `None`, `ValueError` for the variance of a single score.
   */
  function DetailError(calcDetail: bool, added: seq<Option<real>>): Option<Error> {
    if Present(added) == [] then None
    else if !calcDetail || exists k :: 0 <= k < |added| && added[k].None? then Some(TypeError)
    else if |added| < 2 then Some(ValueError)
    else None
  }

  /**
   * The errors of `get_detail_result`: `TypeError` without a buffer or with a
   * `None` among the scores, `ValueError` for exactly one score, and none
   * for two or more scores, none of them `None`, kept in a buffer.
   */
  lemma DetailErrorMeaning(calcDetail: bool, added: seq<Option<real>>)
    ensures Present(added) == [] ==> DetailError(calcDetail, added).None?
    ensures Present(added) != [] && !calcDetail ==> DetailError(calcDetail, added) == Some(TypeError)
    ensures Present(added) != [] && (exists k :: 0 <= k < |added| && added[k].None?) ==> DetailError(calcDetail, added) == Some(TypeError)
    ensures DetailError(calcDetail, added) == Some(ValueError) <==> calcDetail && |added| == 1 && added[0].Some?
    ensures calcDetail && |added| >= 2 && (forall k :: 0 <= k < |added| ==> added[k].Some?) ==> DetailError(calcDetail, added).None?
    ensures DetailError(calcDetail, added).Some? ==> DetailError(calcDetail, added).value in {TypeError, ValueError}
  {
    PresentEmpty(added);
  }

  /** The details of at least two scores whose mean is `mean`: sorted once, then read off. */
  method Summarise(values: seq<real>, mean: real) returns (d: Detail)
    requires |values| >= 2 && mean == Mean(values)
    ensures DetailOf(values, d)
  {
    var sorted := SortBy(values, x => x);
    SortByFacts(values, x => x);
    var variance := Variance(sorted);
    var q1 := SortedPercentile(sorted, 0.25);
    var q2 := SortedPercentile(sorted, 0.5);
    var q3 := SortedPercentile(sorted, 0.75);
    d := Detail(mean, variance, sorted[0], q1.value, q2.value, q3.value, sorted[|sorted| - 1]);
  }

  /** The details of the scores `xs`: the mean, the variance, and the ends and quartiles of `xs` in ascending order. */
  ghost predicate DetailOf(xs: seq<real>, d: Detail)
    requires xs != []
  {
    var sorted := SortBy(xs, x => x);
    && |sorted| == |xs| && multiset(sorted) == multiset(xs) && SortedBy(sorted, x => x)
    && d.mean == Mean(xs)
    && (|xs| >= 2 ==> d.variance == Variance(sorted))
    && d.minimum == sorted[0] && d.maximum == sorted[|sorted| - 1]
    && SortedPercentile(sorted, 0.25) == Ok(d.first)
    && SortedPercentile(sorted, 0.5) == Ok(d.median)
    && SortedPercentile(sorted, 0.75) == Ok(d.third)
  }

  /**
   * `sorted_percentile`: the value at fraction `per` of the way through the
   * data, interpolated linearly between the two neighbouring elements. An
   * empty sequence is an `IndexError`.
   */
  function SortedPercentile(data: seq<real>, per: real): (r: Result<real>)
    requires 0.0 <= per <= 1.0
    ensures r.Err? <==> data == []
    ensures r.Err? ==> r.error == IndexError
  {
    if data == [] then Err(IndexError)
    else
      var n := |data|;
      var pos := Scaled(n, per);
      var first := pos.Floor;
      if first == n - 1 then Ok(data[n - 1])
      else Ok(Lerp(data[first], data[first + 1], pos - first as real))
  }

  /** The position `(n - 1) * per`, which lies inside the data. */
  function Scaled(n: nat, per: real): (pos: real)
    requires 0 < n && 0.0 <= per <= 1.0
    ensures 0.0 <= pos <= (n - 1) as real && 0 <= pos.Floor <= n - 1
    ensures per == 0.0 ==> pos == 0.0
    ensures per == 1.0 ==> pos == (n - 1) as real
  {
    var m := (n - 1) as real;
    MulNonneg(m, per);
    MulNonneg(m, 1.0 - per);
    assert m * (1.0 - per) == m - m * per;
    m * per
  }

  /** The linear interpolation from `a` (at 0) to `b` (at 1). */
  function Lerp(a: real, b: real, t: real): real {
    a * (1.0 - t) + b * t
  }

  /** The percentile at 0 is the first element and at 1 the last. */
  lemma PercentileEnds(data: seq<real>)
    requires data != []
    ensures SortedPercentile(data, 0.0) == Ok(data[0])
    ensures SortedPercentile(data, 1.0) == Ok(data[|data| - 1])
  {
    var n := |data|;
    assert Scaled(n, 0.0).Floor == 0;
    assert Scaled(n, 1.0).Floor == n - 1;
  }

  /** An interpolation between `a` and `b` lies between them. */
  lemma Between(a: real, b: real, t: real)
    requires a <= b && 0.0 <= t <= 1.0
    ensures a <= Lerp(a, b, t) <= b
  {
    assert a * (1.0 - t) + b * t == a + (b - a) * t;
    MulNonneg(b - a, t);
    MulNonneg(b - a, 1.0 - t);
    assert (b - a) * (1.0 - t) == (b - a) - (b - a) * t;
  }

  lemma MulNonneg(x: real, y: real)
    requires 0.0 <= x && 0.0 <= y
    ensures 0.0 <= x * y
  {
  }

  /** For ascending data the percentile lies between the smallest and the largest element. */
  lemma PercentileBounds(data: seq<real>, per: real)
    requires data != [] && 0.0 <= per <= 1.0
    requires forall i, j :: 0 <= i < j < |data| ==> data[i] <= data[j]
    ensures data[0] <= SortedPercentile(data, per).value <= data[|data| - 1]
  {
    var n := |data|;
    var pos := Scaled(n, per);
    var first := pos.Floor;
    if first < n - 1 {
      Between(data[first], data[first + 1], pos - first as real);
      assert data[0] <= data[first] && data[first + 1] <= data[n - 1];
    }
  }

  /** The quartiles of 1, 3, 4, 5, 7, 8. */
  lemma PercentileExample()
    ensures var data := [1.0, 3.0, 4.0, 5.0, 7.0, 8.0];
            && SortedPercentile(data, 0.0) == Ok(1.0) && SortedPercentile(data, 1.0) == Ok(8.0)
            && SortedPercentile(data, 0.25) == Ok(3.25) && SortedPercentile(data, 0.5) == Ok(4.5)
            && SortedPercentile(data, 0.75) == Ok(6.5)
  {
    var data := [1.0, 3.0, 4.0, 5.0, 7.0, 8.0];
    PercentileEnds(data);
    assert Scaled(6, 0.25) == 1.25 && 1.25.Floor == 1;
    assert Scaled(6, 0.5) == 2.5 && 2.5.Floor == 2;
    assert Scaled(6, 0.75) == 3.75 && 3.75.Floor == 3;
  }

  /** The protrusion score of a patch in one frame: its protrusion, or 0 for an empty patch. */
  function FrameScore<P>(patch: seq<int>, atomToPos: int -> P, resToAtoms: int -> seq<int>,
                         dIn: (P, real) -> seq<real>): (p: real)
    ensures 0.0 <= p <= 1.0
  {
    if patch == [] then 0.0
    else Protrusion.Share(Protrusion.CountResidues(patch, atomToPos, resToAtoms, dIn), |patch|)
  }

  /** The protrusion of one patch in `add_frame`, with `None` replaced by 0. */
  method PatchScore<P>(patch: seq<int>, atomToPos: int -> P, resToAtoms: int -> seq<int>, dIn: (P, real) -> seq<real>)
    returns (score: real)
    ensures score == FrameScore(patch, atomToPos, resToAtoms, dIn)
  {
    var p := Protrusion.CalcPatchProtrusion(patch, atomToPos, resToAtoms, dIn);
    score := if p.None? then 0.0 else p.value;
  }

  /** `ScoreProtrusion`: one `MeanScore` per patch. */
  class ScoreProtrusion<P> {
    const scores: seq<MeanScore>
    const patchList: seq<seq<int>>
    const resToAtoms: int -> seq<int>

    ghost predicate Valid()
      reads set k | 0 <= k < |scores| :: scores[k]
    {
      && |scores| == |patchList|
      && (forall i, j :: 0 <= i < j < |scores| ==> scores[i] != scores[j])
      && forall i :: 0 <= i < |scores| ==> scores[i].Valid()
    }

    constructor(patchList: seq<seq<int>>, resToAtoms: int -> seq<int>, calcDetail: bool)
      ensures Valid() && this.patchList == patchList && this.resToAtoms == resToAtoms
      ensures forall i :: 0 <= i < |scores| ==> fresh(scores[i]) && scores[i].added == [] && scores[i].calcDetail == calcDetail
    {
      var ss: seq<MeanScore> := [];
      for i := 0 to |patchList|
        invariant |ss| == i
        invariant forall k :: 0 <= k < i ==> fresh(ss[k]) && ss[k].Valid() && ss[k].added == [] && ss[k].calcDetail == calcDetail
        invariant forall k, j :: 0 <= k < j < i ==> ss[k] != ss[j]
      {
        var m := new MeanScore(calcDetail);
        ss := ss + [m];
      }
      scores := ss;
      this.patchList := patchList;
      this.resToAtoms := resToAtoms;
    }

    /** `add_frame`: adds the frame score of each patch to its `MeanScore`; an empty patch adds 0. */
    method AddFrame(atomToPos: int -> P, dIn: (P, real) -> seq<real>)
      requires Valid()
      modifies set k | 0 <= k < |scores| :: scores[k]
      ensures Valid()
      ensures forall i :: 0 <= i < |scores| ==>
                scores[i].added == old(scores[i].added) + [Some(FrameScore(patchList[i], atomToPos, resToAtoms, dIn))]
    {
      for i := 0 to |scores|
        invariant Valid()
        invariant forall k :: 0 <= k < |scores| ==>
                    scores[k].added == old(scores[k].added) + (if k < i then [Some(FrameScore(patchList[k], atomToPos, resToAtoms, dIn))] else [])
      {
        var score := PatchScore(patchList[i], atomToPos, resToAtoms, dIn);
        scores[i].AddScore(Some(score));
      }
    }

    /** `get_result`: the mean score of each patch, `None` for a patch without a score. */
    method GetResult() returns (r: seq<Option<real>>)
      requires Valid()
      ensures |r| == |scores|
      ensures forall i :: 0 <= i < |scores| ==> (r[i].None? <==> Present(scores[i].added) == [])
      ensures forall i :: 0 <= i < |scores| && r[i].Some? ==> r[i].value == Mean(Present(scores[i].added))
    {
      r := [];
      for i := 0 to |scores|
        invariant |r| == i
        invariant forall k :: 0 <= k < i ==> (r[k].None? <==> Present(scores[k].added) == [])
        invariant forall k :: 0 <= k < i && r[k].Some? ==> r[k].value == Mean(Present(scores[k].added))
      {
        var m := scores[i].GetResult();
        PresentEmpty(scores[i].added);
        r := r + [m];
      }
    }

    /**
     * `get_detail_result`: the details of each patch in turn, `None` for a
     * patch without a score; the first patch whose details fail ends the
     * generator with that error.
     */
    method GetDetailResult() returns (items: seq<Option<Detail>>, err: Option<Error>)
      requires Valid()
      ensures |items| <= |scores|
      ensures err.None? <==> |items| == |scores|
      ensures forall i :: 0 <= i < |items| ==> Reports(scores[i], items[i])
      ensures err.Some? ==> err == DetailError(scores[|items|].calcDetail, scores[|items|].added)
    {
      items := [];
      err := None;
      var i := 0;
      while i < |scores|
        invariant i <= |scores| && |items| == i
        invariant forall k :: 0 <= k < i ==> Reports(scores[k], items[k])
      {
        var d := ReportOf(scores[i]);
        if d.Err? {
          err := Some(d.error);
          return;
        }
        ReportsSnoc(scores, items, d.value);
        items := items + [d.value];
        i := i + 1;
      }
    }
  }

  /** One more patch reported after those before it. */
  lemma ReportsSnoc(ms: seq<MeanScore>, items: seq<Option<Detail>>, d: Option<Detail>)
    requires |items| < |ms| && forall k :: 0 <= k < |items| ==> Reports(ms[k], items[k])
    requires Reports(ms[|items|], d)
    ensures forall k :: 0 <= k < |items| + 1 ==> Reports(ms[k], (items + [d])[k])
  {
    forall k | 0 <= k < |items| + 1
      ensures Reports(ms[k], (items + [d])[k])
    {
      if k < |items| {
        assert (items + [d])[k] == items[k];
      }
    }
  }

  /** `m.get_detail_result()`, stated through `Reports`. */
  method ReportOf(m: MeanScore) returns (d: Result<Option<Detail>>)
    requires m.Valid()
    ensures d.Ok? ==> Reports(m, d.value)
    ensures d.Err? ==> Some(d.error) == DetailError(m.calcDetail, m.added)
  {
    d := m.GetDetailResult();
  }

  /** What `get_detail_result` of `m` gives when it raises nothing: `None` without a score, otherwise the details of its scores. */
  ghost predicate Reports(m: MeanScore, d: Option<Detail>)
    reads m
  {
    && DetailError(m.calcDetail, m.added).None?
    && (d.None? <==> Present(m.added) == [])
    && (d.Some? ==> m.calcDetail && DetailOf(Present(m.added), d.value))
  }
}
