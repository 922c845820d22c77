/** `ARIMAGridSearch`: exhaustive evaluation of every pair of a non-seasonal
    and a seasonal order, keeping the pair with the smallest error under a
    strict `<`, so that the first pair found wins a tie. */
module GridSearch {
  import opened ParameterSpace

  /** A mean absolute error, or `numpy.inf`, the value `min_mae` starts from. */
  datatype Score = Inf | Fin(value: real)

  /** Python's `a < b` on such scores: `Inf < b` is false, `Fin(x) < Inf` is
      true, and finite scores compare as reals. */
  predicate Less(a: Score, b: Score)
  {
    match a
    case Inf => false
    case Fin(x) => b.Inf? || x < b.value
  }

  /** `a <= b`, the complement of `b < a`. */
  predicate LessEq(a: Score, b: Score)
  {
    !Less(b, a)
  }

  /** A candidate `(order, seasonal_order)` as passed to `ARIMAEstimator`. */
  type Candidate = (seq<nat>, seq<nat>)

  /** The best-tracking variables `min_mae`, `best_params` and `best_seasonal_params`. */
  datatype Best = Best(mae: Score, order: seq<nat>, seasonal: seq<nat>)

  /** Their values before the loop: `numpy.inf`, `()` and `()`. */
  const Start: Best := Best(Inf, [], [])

  /** One candidate step: `fitAndScore(c)` stands for building
      `ARIMAEstimator(order=c.0, seasonal_order=c.1)`, fitting it on the
      training data, predicting and scoring against the test data. The best
      is replaced only when the new score is strictly smaller. */
  function Step(b: Best, c: Candidate, fitAndScore: Candidate -> Score): Best
  {
    var mae := fitAndScore(c);
    if Less(mae, b.mae) then Best(mae, c.0, c.1) else b
  }

  /** The best-tracking state after scoring `cands` in order. */
  function Scan(cands: seq<Candidate>, fitAndScore: Candidate -> Score): Best
  {
    if cands == [] then Start
    else Step(Scan(cands[..|cands| - 1], fitAndScore), cands[|cands| - 1], fitAndScore)
  }

  /** The value of `min_mae` after each candidate of `cands` in turn. */
  function Trace(cands: seq<Candidate>, fitAndScore: Candidate -> Score): seq<Score>
  {
    if cands == [] then []
    else Trace(cands[..|cands| - 1], fitAndScore) + [Scan(cands, fitAndScore).mae]
  }

  /** Scoring one more candidate takes one `Step` and appends the new
      `min_mae` to the trace. */
  lemma ScanSnoc(cands: seq<Candidate>, c: Candidate, fitAndScore: Candidate -> Score)
    ensures Scan(cands + [c], fitAndScore) == Step(Scan(cands, fitAndScore), c, fitAndScore)
    ensures Trace(cands + [c], fitAndScore) ==
      Trace(cands, fitAndScore) + [Step(Scan(cands, fitAndScore), c, fitAndScore).mae]
  {
    assert (cands + [c])[..|cands + [c]| - 1] == cands;
  }

  /** The dictionary `{'MAE': ..., 'Params': (..., ...), 'Name': 'ARIMA'}`; its
      three fields are its three keys. */
  datatype SearchResult = SearchResult(mae: Score, params: Candidate, name: string)

  /** The model family name reported with every result. */
  const ModelName: string := "ARIMA"

  /** Packages the final best-tracking state as the result dictionary. */
  function Report(b: Best): (r: SearchResult)
    ensures r.name == ModelName
    ensures r.mae == b.mae && r.params == (b.order, b.seasonal)
  {
    SearchResult(b.mae, (b.order, b.seasonal), ModelName)
  }

  // ---------------------------------------------------------------------
  // What the running minimum computes
  // ---------------------------------------------------------------------

  /** After the loop no candidate scored below `min_mae`. */
  lemma {:induction false} ScanIsMinimum(cands: seq<Candidate>, fitAndScore: Candidate -> Score)
    ensures forall k :: 0 <= k < |cands| ==> LessEq(Scan(cands, fitAndScore).mae, fitAndScore(cands[k]))
  {
    if cands != [] {
      var init := cands[..|cands| - 1];
      ScanIsMinimum(init, fitAndScore);
      forall k | 0 <= k < |cands|
        ensures LessEq(Scan(cands, fitAndScore).mae, fitAndScore(cands[k]))
      {
        if k < |init| {
          assert cands[k] == init[k];
        }
      }
    }
  }

  /** `min_mae` never increases: the state after a longer prefix has a score
      no greater than after a shorter one. */
  lemma {:induction false} ScanNonIncreasing(cands: seq<Candidate>, fitAndScore: Candidate -> Score, i: nat, j: nat)
    requires i <= j <= |cands|
    ensures LessEq(Scan(cands[..j], fitAndScore).mae, Scan(cands[..i], fitAndScore).mae)
  {
    if i < j {
      ScanNonIncreasing(cands, fitAndScore, i, j - 1);
      assert cands[..j][..j - 1] == cands[..j - 1];
    }
  }

  /** The trace of `min_mae` has one entry per candidate, the `k`-th being the
      state after the first `k + 1` candidates, and it never increases. */
  lemma {:induction false} TraceNonIncreasing(cands: seq<Candidate>, fitAndScore: Candidate -> Score)
    ensures |Trace(cands, fitAndScore)| == |cands|
    ensures forall k :: 0 <= k < |cands| ==> Trace(cands, fitAndScore)[k] == Scan(cands[..k + 1], fitAndScore).mae
    ensures forall i, j :: 0 <= i <= j < |cands| ==> LessEq(Trace(cands, fitAndScore)[j], Trace(cands, fitAndScore)[i])
  {
    if cands != [] {
      var init := cands[..|cands| - 1];
      TraceNonIncreasing(init, fitAndScore);
      var t := Trace(cands, fitAndScore);
      forall k | 0 <= k < |cands| ensures t[k] == Scan(cands[..k + 1], fitAndScore).mae {
        if k < |init| {
          assert init[..k + 1] == cands[..k + 1];
        } else {
          assert cands[..k + 1] == cands;
        }
      }
      forall i, j | 0 <= i <= j < |cands| ensures LessEq(t[j], t[i]) {
        ScanNonIncreasing(cands, fitAndScore, i + 1, j + 1);
      }
    }
  }

  /** The "no candidate won" state: `min_mae` stays infinite exactly when every
      candidate scored infinity, and then the parameters are still `((), ())`. */
  lemma {:induction false} ScanSentinel(cands: seq<Candidate>, fitAndScore: Candidate -> Score)
    ensures Scan(cands, fitAndScore).mae == Inf <==> forall k :: 0 <= k < |cands| ==> fitAndScore(cands[k]) == Inf
    ensures Scan(cands, fitAndScore).mae == Inf ==> Scan(cands, fitAndScore).order == [] && Scan(cands, fitAndScore).seasonal == []
  {
    if cands != [] {
      var init := cands[..|cands| - 1];
      ScanSentinel(init, fitAndScore);
      assert forall k :: 0 <= k < |init| ==> cands[k] == init[k];
    }
  }

  /** First-wins tie-breaking: when some candidate scored below infinity, the
      reported pair is a candidate whose score is `min_mae`, and every earlier
      candidate scored strictly more. */
  lemma {:induction false} ScanFirstWinner(cands: seq<Candidate>, fitAndScore: Candidate -> Score)
    requires Scan(cands, fitAndScore).mae != Inf
    ensures exists k :: (0 <= k < |cands| &&
      cands[k] == (Scan(cands, fitAndScore).order, Scan(cands, fitAndScore).seasonal) &&
      fitAndScore(cands[k]) == Scan(cands, fitAndScore).mae &&
      forall j :: 0 <= j < k ==> Less(Scan(cands, fitAndScore).mae, fitAndScore(cands[j])))
  {
    var init, last := cands[..|cands| - 1], cands[|cands| - 1];
    var before, after := Scan(init, fitAndScore), Scan(cands, fitAndScore);
    assert forall k :: 0 <= k < |init| ==> cands[k] == init[k];
    if Less(fitAndScore(last), before.mae) {
      ScanIsMinimum(init, fitAndScore);
      var k := |cands| - 1;
      assert cands[k] == (after.order, after.seasonal) && fitAndScore(cands[k]) == after.mae;
      assert forall j :: 0 <= j < k ==> Less(after.mae, fitAndScore(cands[j]));
    } else {
      ScanFirstWinner(init, fitAndScore);
    }
  }

  // ---------------------------------------------------------------------
  // The candidates: pdq x seasonal_pdq
  // ---------------------------------------------------------------------

  /** A grid of width `n` has `n³ · n³` candidates. */
  lemma CandidateCount(limit: int)
    ensures var n := Width(limit);
      |Cross(Pdq(limit), SeasonalPdq(limit))| == (n * n * n) * (n * n * n)
  {
    PdqLength(limit);
    CrossLength(Pdq(limit), SeasonalPdq(limit));
  }

  /** No candidate is scored twice. */
  lemma CandidatesDistinct(limit: int)
    ensures Distinct(Cross(Pdq(limit), SeasonalPdq(limit)))
  {
    PdqIncreasing(limit);
    SeasonalPdqDistinct(limit);
    CrossDistinct(Pdq(limit), SeasonalPdq(limit));
  }

  /** The candidates are exactly the pairs of a generated order and a
      generated seasonal order. */
  lemma CandidateMember(limit: int, a: seq<nat>, b: seq<nat>)
    ensures (a, b) in Cross(Pdq(limit), SeasonalPdq(limit)) <==> a in Pdq(limit) && b in SeasonalPdq(limit)
  {
    CrossMember(Pdq(limit), SeasonalPdq(limit), a, b);
  }

  /** Facts about the result `r` of a search over the candidates
      `c = xs × ys`: no candidate scored below it, the infinite score exactly
      when every candidate scored infinity, with `((), ())` as parameters, and
      otherwise the first candidate with the minimal score, whose two parts are
      drawn from `xs` and `ys`. */
  lemma SearchOutcome(xs: seq<seq<nat>>, ys: seq<seq<nat>>, fitAndScore: Candidate -> Score,
                      c: seq<Candidate>, r: SearchResult)
    requires c == Cross(xs, ys) && r == Report(Scan(c, fitAndScore))
    ensures forall k :: 0 <= k < |c| ==> LessEq(r.mae, fitAndScore(c[k]))
    ensures r.mae == Inf <==> forall k :: 0 <= k < |c| ==> fitAndScore(c[k]) == Inf
    ensures r.mae == Inf ==> r.params == ([], [])
    ensures r.mae != Inf ==> r.params.0 in xs && r.params.1 in ys
    ensures r.mae != Inf ==> exists k :: (0 <= k < |c| &&
      c[k] == r.params && fitAndScore(c[k]) == r.mae &&
      forall j :: 0 <= j < k ==> Less(r.mae, fitAndScore(c[j])))
  {
    var b := Scan(c, fitAndScore);
    ScanIsMinimum(c, fitAndScore);
    ScanSentinel(c, fitAndScore);
    if b.mae != Inf {
      ScanFirstWinner(c, fitAndScore);
      CrossMember(xs, ys, b.order, b.seasonal);
    }
  }

  /** With `range_limit <= 0` the grid is empty and the search reports
      `numpy.inf` with `((), ())`. */
  lemma EmptyGridOutcome(limit: int, fitAndScore: Candidate -> Score)
    requires limit <= 0
    ensures var r := Report(Scan(Cross(Pdq(limit), SeasonalPdq(limit)), fitAndScore));
      r.mae == Inf && r.params == ([], [])
  {
    CandidateCount(limit);
    assert Cross(Pdq(limit), SeasonalPdq(limit)) == [];
  }

  // ---------------------------------------------------------------------
  // The searcher object
  // ---------------------------------------------------------------------

  class ARIMAGridSearch {
    const rangeLimit: int
    const pdq: seq<seq<nat>>
    const seasonalPdq: seq<seq<nat>>

    /** The candidate lists are the ones generated from `rangeLimit`. */
    ghost predicate Valid()
    {
      (pdq, seasonalPdq) == GenerateCombinations(rangeLimit)
    }

    /** `__init__`: stores the limit and generates both candidate lists. */
    constructor (rangeLimit: int)
      ensures this.rangeLimit == rangeLimit && Valid()
    {
      this.rangeLimit := rangeLimit;
      var combinations := GenerateCombinations(rangeLimit);
      pdq, seasonalPdq := combinations.0, combinations.1;
    }

    /** `grid_search`: scores every candidate, `pdq` outer and `seasonal_pdq`
        inner, and returns the first candidate with the smallest score.
        `evaluated` records the candidates in the order they were scored and
        `maeTrace` the value of `min_mae` after each of them. */
    method GridSearch(fitAndScore: Candidate -> Score)
      returns (r: SearchResult, ghost evaluated: seq<Candidate>, ghost maeTrace: seq<Score>)
      ensures evaluated == Cross(pdq, seasonalPdq)
      ensures r == Report(Scan(evaluated, fitAndScore))
      ensures r.name == ModelName
      ensures maeTrace == Trace(evaluated, fitAndScore) && |maeTrace| == |evaluated|
      ensures forall i, j :: 0 <= i <= j < |maeTrace| ==> LessEq(maeTrace[j], maeTrace[i])
      ensures forall k :: 0 <= k < |evaluated| ==> LessEq(r.mae, fitAndScore(evaluated[k]))
      ensures r.mae == Inf <==> forall k :: 0 <= k < |evaluated| ==> fitAndScore(evaluated[k]) == Inf
      ensures r.mae == Inf ==> r.params == ([], [])
      ensures r.mae != Inf ==> r.params.0 in pdq && r.params.1 in seasonalPdq
      ensures r.mae != Inf ==> exists k :: (0 <= k < |evaluated| &&
        evaluated[k] == r.params && fitAndScore(evaluated[k]) == r.mae &&
        forall j :: 0 <= j < k ==> Less(r.mae, fitAndScore(evaluated[j])))
    {
      var minMae := Inf;
      var bestParams: seq<nat> := [];
      var bestSeasonalParams: seq<nat> := [];
      evaluated, maeTrace := [], [];
      var i := 0;
      while i < |pdq|
        invariant 0 <= i <= |pdq|
        invariant evaluated == Cross(pdq[..i], seasonalPdq)
        invariant Best(minMae, bestParams, bestSeasonalParams) == Scan(evaluated, fitAndScore)
        invariant maeTrace == Trace(evaluated, fitAndScore)
      {
        var param := pdq[i];
        var j := 0;
        while j < |seasonalPdq|
          invariant 0 <= j <= |seasonalPdq|
          invariant evaluated == Cross(pdq[..i], seasonalPdq) + Row(param, seasonalPdq[..j])
          invariant Best(minMae, bestParams, bestSeasonalParams) == Scan(evaluated, fitAndScore)
          invariant maeTrace == Trace(evaluated, fitAndScore)
        {
          var seasonalParam := seasonalPdq[j];
          var mae := fitAndScore((param, seasonalParam));
          if Less(mae, minMae) {
            minMae := mae;
            bestParams := param;
            bestSeasonalParams := seasonalParam;
          }
          ScanSnoc(evaluated, (param, seasonalParam), fitAndScore);
          RowSnoc(param, seasonalPdq, j);
          evaluated := evaluated + [(param, seasonalParam)];
          maeTrace := maeTrace + [minMae];
          j := j + 1;
        }
        assert seasonalPdq[..j] == seasonalPdq;
        CrossSnoc(pdq, seasonalPdq, i);
        i := i + 1;
      }
      assert pdq[..i] == pdq;
      r := Report(Best(minMae, bestParams, bestSeasonalParams));
      TraceNonIncreasing(evaluated, fitAndScore);
      SearchOutcome(pdq, seasonalPdq, fitAndScore, evaluated, r);
    }
  }
}
