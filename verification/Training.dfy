/** What training does to counts, parameters and weights, and what it keeps. */
module Training {
  import opened Outcomes
  import opened Reals
  import opened Sums
  import opened Mixtures

  const M_PRIOR := 0.1

  /** One component: its parameters, and for each variable the weighted counts and their total. */
  datatype Stats = Stats(probs: Params, counts: Params, totals: Row)

  predicate Schema(ranges: seq<nat>) {
    forall i :: 0 <= i < |ranges| ==> ranges[i] >= 1
  }

  /** Rows are strictly positive and sum to one. */
  ghost predicate RowsOk(params: Params, ranges: seq<nat>) {
    && |params| == |ranges|
    && forall i :: 0 <= i < |ranges| ==> |params[i]| == ranges[i] && Positive(params[i]) && Sum(params[i]) == 1.0
  }

  /** Counts are strictly positive and sum to their totals. */
  ghost predicate StatsOk(s: Stats, ranges: seq<nat>) {
    && RowsOk(s.probs, ranges)
    && |s.counts| == |s.totals| == |ranges|
    && forall i :: 0 <= i < |ranges| ==>
         |s.counts[i]| == ranges[i] && Positive(s.counts[i]) && Sum(s.counts[i]) == s.totals[i]
  }

  /** A training case: every value is known or marked unknown. */
  predicate IsCase(x: seq<int>, ranges: seq<nat>) {
    |x| == |ranges| && forall i :: 0 <= i < |x| ==> x[i] == UNKNOWN || 0 <= x[i] < ranges[i]
  }

  lemma CaseFits(params: Params, ranges: seq<nat>, x: seq<int>)
    requires RowsOk(params, ranges) && IsCase(x, ranges)
    ensures Fits(params, x)
  {}

  // ----- new components -----

  function Uniform(range: nat): Row
    requires range >= 1
  {
    seq(range, i requires 0 <= i < range => Over(1.0, range as real))
  }

  function UniformParams(ranges: seq<nat>): Params
    requires Schema(ranges)
  {
    seq(|ranges|, i requires 0 <= i < |ranges| => Uniform(ranges[i]))
  }

  function Ones(n: nat): Row {
    seq(n, i requires 0 <= i < n => 1.0)
  }

  function NewStats(ranges: seq<nat>): Stats
    requires Schema(ranges)
  {
    Stats(UniformParams(ranges), UniformParams(ranges), Ones(|ranges|))
  }

  lemma UniformOk(range: nat)
    requires range >= 1
    ensures |Uniform(range)| == range && Positive(Uniform(range)) && Sum(Uniform(range)) == 1.0
  {
    var c := Over(1.0, range as real);
    OverNonneg(1.0, range as real);
    SumConstant(Uniform(range), c);
    OverTimes(1.0, range as real);
    Commutes(c, range as real);
  }

  lemma NewStatsOk(ranges: seq<nat>)
    requires Schema(ranges)
    ensures StatsOk(NewStats(ranges), ranges)
  {
    hide Over, Uniform;
    forall i | 0 <= i < |ranges|
      ensures |UniformParams(ranges)[i]| == ranges[i] && Positive(UniformParams(ranges)[i])
      ensures Sum(UniformParams(ranges)[i]) == 1.0
    {
      UniformOk(ranges[i]);
    }
  }

  /** A row that expects value `x`: mostly that value, and a little of what is usual. */
  function Biased(usual: Option<Row>, range: nat, x: nat): Row
    requires x < range && (usual.Some? ==> |usual.value| == range)
  {
    var faint := seq(range, j requires 0 <= j < range =>
      if usual.None? then Over(Over(M_PRIOR, range as real), 1.0 + M_PRIOR)
      else Over(Times(M_PRIOR, usual.value[j]), 1.0 + M_PRIOR));
    faint[x := faint[x] + Over(1.0, 1.0 + M_PRIOR)]
  }

  lemma BiasedOk(usual: Option<Row>, range: nat, x: nat)
    requires x < range && (usual.Some? ==> |usual.value| == range && Positive(usual.value) && Sum(usual.value) == 1.0)
    ensures |Biased(usual, range, x)| == range && Positive(Biased(usual, range, x))
    ensures Sum(Biased(usual, range, x)) == 1.0
  {
    var base := if usual.Some? then usual.value else Uniform(range);
    UniformOk(range);
    var c := Over(M_PRIOR, 1.0 + M_PRIOR);
    assert c > 0.0;
    var faint := seq(range, j requires 0 <= j < range => Times(c, base[j]));
    forall j | 0 <= j < range
      ensures faint[j] > 0.0
      ensures faint[j] == if usual.None? then Over(Over(M_PRIOR, range as real), 1.0 + M_PRIOR)
                          else Over(Times(M_PRIOR, usual.value[j]), 1.0 + M_PRIOR)
    {
      TimesPositive(c, base[j]);
      FaintAgrees(base[j], range);
    }
    assert Biased(usual, range, x) == faint[x := faint[x] + Over(1.0, 1.0 + M_PRIOR)];
    SumScaled(base, c, faint);
    TimesOne(c);
    SumUpdate(faint, x, faint[x] + Over(1.0, 1.0 + M_PRIOR));
  }

  lemma FaintAgrees(p: real, range: nat)
    requires range >= 1
    ensures Times(Over(M_PRIOR, 1.0 + M_PRIOR), p) == Over(Times(M_PRIOR, p), 1.0 + M_PRIOR)
    ensures Times(Over(M_PRIOR, 1.0 + M_PRIOR), Over(1.0, range as real))
         == Over(Over(M_PRIOR, range as real), 1.0 + M_PRIOR)
  {}

  /** The parameters of a new component, from the case that suggested it. */
  function Extended(globals: Option<Params>, ranges: seq<nat>, abs: seq<int>): Params
    requires Schema(ranges) && IsCase(abs, ranges)
    requires globals.Some? ==>
               |globals.value| == |ranges| && forall i :: 0 <= i < |ranges| ==> |globals.value[i]| == ranges[i]
  {
    seq(|ranges|, i requires 0 <= i < |ranges| =>
      if abs[i] == UNKNOWN then Uniform(ranges[i])
      else Biased(if globals.None? then None else Some(globals.value[i]), ranges[i], abs[i]))
  }

  lemma ExtendedOk(globals: Option<Params>, ranges: seq<nat>, abs: seq<int>)
    requires Schema(ranges) && IsCase(abs, ranges) && (globals.Some? ==> RowsOk(globals.value, ranges))
    ensures RowsOk(Extended(globals, ranges, abs), ranges)
  {
    hide Biased, Uniform;
    forall i | 0 <= i < |ranges|
      ensures var row := Extended(globals, ranges, abs)[i]; |row| == ranges[i] && Positive(row) && Sum(row) == 1.0
    {
      if abs[i] == UNKNOWN {
        UniformOk(ranges[i]);
      } else {
        BiasedOk(if globals.None? then None else Some(globals.value[i]), ranges[i], abs[i]);
      }
    }
  }

  // ----- counting -----

  function Bumped(row: Row, x: int, p: real): Row
    requires x == UNKNOWN || 0 <= x < |row|
  {
    if x == UNKNOWN then row else row[x := row[x] + p]
  }

  predicate CountsFit(s: Stats, x: seq<int>) {
    |s.counts| == |s.totals| == |x| && forall i :: 0 <= i < |x| ==> x[i] == UNKNOWN || 0 <= x[i] < |s.counts[i]|
  }

  /** A case counts with weight `p`. */
  function Assigned(s: Stats, x: seq<int>, p: real): Stats
    requires CountsFit(s, x)
  {
    s.(counts := seq(|x|, i requires 0 <= i < |x| => Bumped(s.counts[i], x[i], p)),
       totals := seq(|x|, i requires 0 <= i < |x| => if x[i] == UNKNOWN then s.totals[i] else s.totals[i] + p))
  }

  lemma AssignedOk(s: Stats, ranges: seq<nat>, x: seq<int>, p: real)
    requires StatsOk(s, ranges) && IsCase(x, ranges) && p >= 0.0
    ensures CountsFit(s, x) && StatsOk(Assigned(s, x, p), ranges)
  {
    var t := Assigned(s, x, p);
    forall i | 0 <= i < |ranges|
      ensures |t.counts[i]| == ranges[i] && Positive(t.counts[i]) && Sum(t.counts[i]) == t.totals[i]
    {
      if x[i] != UNKNOWN {
        SumUpdate(s.counts[i], x[i], s.counts[i][x[i]] + p);
      }
    }
  }

  lemma AssignedNothing(s: Stats, x: seq<int>)
    requires CountsFit(s, x)
    ensures Assigned(s, x, 0.0) == s
  {
    var t := Assigned(s, x, 0.0);
    assert forall i :: 0 <= i < |x| ==> t.counts[i] == s.counts[i];
    assert t.counts == s.counts && t.totals == s.totals;
  }

  // ----- new parameters from counts -----

  function Normalized(counts: Params, totals: Row): Params
    requires |counts| == |totals| && forall i :: 0 <= i < |totals| ==> totals[i] != 0.0
  {
    seq(|counts|, i requires 0 <= i < |counts| =>
      seq(|counts[i]|, v requires 0 <= v < |counts[i]| => Over(counts[i][v], totals[i])))
  }

  lemma RowNormalized(counts: Row, total: real, row: Row)
    requires Positive(counts) && Sum(counts) == total && total > 0.0 && |row| == |counts|
    requires forall v :: 0 <= v < |counts| ==> row[v] == Over(counts[v], total)
    ensures Positive(row) && Sum(row) == 1.0
  {
    hide Times, Over;
    forall v | 0 <= v < |counts|
      ensures row[v] > 0.0 && counts[v] == Times(total, row[v])
    {
      OverNonneg(counts[v], total);
      OverTimes(counts[v], total);
    }
    SumScaled(row, total, counts);
    OnlyOne(Sum(row), total);
  }

  lemma TotalsPositive(s: Stats, ranges: seq<nat>)
    requires Schema(ranges) && StatsOk(s, ranges)
    ensures forall i :: 0 <= i < |ranges| ==> s.totals[i] > 0.0
  {
    forall i | 0 <= i < |ranges|
      ensures s.totals[i] > 0.0
    {
      SumNonneg(s.counts[i]);
      assert s.counts[i][0] > 0.0;
    }
  }

  lemma NormalizedOk(s: Stats, ranges: seq<nat>)
    requires Schema(ranges) && StatsOk(s, ranges)
    ensures forall i :: 0 <= i < |ranges| ==> s.totals[i] > 0.0
    ensures RowsOk(Normalized(s.counts, s.totals), ranges)
  {
    TotalsPositive(s, ranges);
    forall i | 0 <= i < |ranges|
      ensures var row := Normalized(s.counts, s.totals)[i]; |row| == ranges[i] && Positive(row) && Sum(row) == 1.0
    {
      RowNormalized(s.counts[i], s.totals[i], Normalized(s.counts, s.totals)[i]);
    }
  }

  predicate Countable(s: Stats, ranges: seq<nat>) {
    && |s.counts| == |s.totals| == |ranges|
    && forall i :: 0 <= i < |ranges| ==> s.totals[i] != 0.0 && |s.counts[i]| == ranges[i]
  }

  /** The parameters become relative counts, and counting starts anew. */
  function Updated(s: Stats, ranges: seq<nat>): Stats
    requires Schema(ranges) && Countable(s, ranges)
  {
    Stats(Normalized(s.counts, s.totals), UniformParams(ranges), Ones(|ranges|))
  }

  lemma UpdatedOk(s: Stats, ranges: seq<nat>)
    requires Schema(ranges) && StatsOk(s, ranges)
    ensures Countable(s, ranges) && StatsOk(Updated(s, ranges), ranges)
  {
    NormalizedOk(s, ranges);
    NewStatsOk(ranges);
  }

  // ----- merging duplicates -----

  /** A component with the same parameters as the last one that differs gives its weight away. */
  function Merged(models: seq<Params>, weights: seq<real>, a: nat, last: nat): (w: seq<real>)
    requires |models| == |weights| && a <= |weights| && (a == 0 || last < a)
    ensures |w| == |weights|
    decreases |weights| - a
  {
    if a == |weights| then weights
    else if a > 0 && models[a] == models[last] then
      Merged(models, weights[last := weights[last] + weights[a]][a := 0.0], a + 1, last)
    else Merged(models, weights, a + 1, a)
  }

  lemma SumMoved(s: seq<real>, i: nat, j: nat, t: seq<real>)
    requires i < j < |s| && t == s[i := s[i] + s[j]][j := 0.0]
    ensures Sum(t) == Sum(s)
  {
    SumUpdate(s, i, s[i] + s[j]);
    SumUpdate(s[i := s[i] + s[j]], j, 0.0);
  }

  /** Moving weight between components with the same parameters changes no probability. */
  lemma MoveKeepsLikelihood(models: seq<Params>, weights: seq<real>, i: nat, j: nat, moved: seq<real>, x: seq<int>)
    requires |models| == |weights| && AllFit(models, x) && i < j < |weights| && models[i] == models[j]
    requires moved == weights[i := weights[i] + weights[j]][j := 0.0]
    ensures Likelihood(moved, models, x) == Likelihood(weights, models, x)
  {
    var p := Prob(models[i], x);
    Distributes(p, weights[i], weights[j]);
    TimesOne(p);
    hide Times, Prob;
    var t, u := Terms(weights, models, x), Terms(moved, models, x);
    assert forall a :: 0 <= a < |weights| && a != i && a != j ==> u[a] == t[a];
    assert u == t[i := t[i] + t[j]][j := 0.0];
    SumMoved(t, i, j, u);
  }

  lemma {:induction false} MergedKeepsLikelihood(models: seq<Params>, weights: seq<real>, a: nat, last: nat,
                                                 x: seq<int>)
    requires |models| == |weights| && a <= |weights| && (a == 0 || last < a) && AllFit(models, x)
    ensures Likelihood(Merged(models, weights, a, last), models, x) == Likelihood(weights, models, x)
    decreases |weights| - a
  {
    hide Likelihood;
    if a < |weights| {
      if a > 0 && models[a] == models[last] {
        var moved := weights[last := weights[last] + weights[a]][a := 0.0];
        MoveKeepsLikelihood(models, weights, last, a, moved, x);
        MergedKeepsLikelihood(models, moved, a + 1, last, x);
      } else {
        MergedKeepsLikelihood(models, weights, a + 1, a, x);
      }
    }
  }

  /** How well the mixture fits each case, by the logarithm of its likelihood. */
  ghost function LogFits(weights: seq<real>, models: seq<Params>, obs: seq<seq<int>>, ln: real -> real): (t: seq<real>)
    requires |weights| == |models| && forall o :: 0 <= o < |obs| ==> AllFit(models, obs[o])
    ensures |t| == |obs|
  {
    seq(|obs|, o requires 0 <= o < |obs| => ln(Likelihood(weights, models, obs[o])))
  }

  ghost function MeanFit(weights: seq<real>, models: seq<Params>, obs: seq<seq<int>>, ln: real -> real): real
    requires |weights| == |models| && forall o :: 0 <= o < |obs| ==> AllFit(models, obs[o])
    requires obs != []
  {
    Over(Sum(LogFits(weights, models, obs, ln)), |obs| as real)
  }

  /** Merging duplicates does not change how well the model fits. */
  lemma MergedKeepsFit(models: seq<Params>, weights: seq<real>, obs: seq<seq<int>>, ln: real -> real)
    requires |models| == |weights| && obs != [] && forall o :: 0 <= o < |obs| ==> AllFit(models, obs[o])
    ensures MeanFit(Merged(models, weights, 0, 0), models, obs, ln) == MeanFit(weights, models, obs, ln)
  {
    var merged := Merged(models, weights, 0, 0);
    forall o | 0 <= o < |obs|
      ensures Likelihood(merged, models, obs[o]) == Likelihood(weights, models, obs[o])
    {
      MergedKeepsLikelihood(models, weights, 0, 0, obs[o]);
    }
    hide Likelihood, Merged;
    assert LogFits(merged, models, obs, ln) == LogFits(weights, models, obs, ln);
  }

  lemma {:induction false} MergedKeepsTotal(models: seq<Params>, weights: seq<real>, a: nat, last: nat)
    requires |models| == |weights| && a <= |weights| && (a == 0 || last < a)
    ensures Sum(Merged(models, weights, a, last)) == Sum(weights)
    ensures Nonneg(weights) ==> Nonneg(Merged(models, weights, a, last))
    decreases |weights| - a
  {
    if a < |weights| {
      if a > 0 && models[a] == models[last] {
        var moved := weights[last := weights[last] + weights[a]][a := 0.0];
        SumMoved(weights, last, a, moved);
        MergedKeepsTotal(models, moved, a + 1, last);
      } else {
        MergedKeepsTotal(models, weights, a + 1, a);
      }
    }
  }

  lemma {:induction false} MergedLeavesEarlier(models: seq<Params>, weights: seq<real>, a: nat, last: nat, b: nat)
    requires |models| == |weights| && a <= |weights| && (a == 0 || last < a) && b < a && b != last
    ensures Merged(models, weights, a, last)[b] == weights[b]
    decreases |weights| - a
  {
    if a < |weights| {
      if a > 0 && models[a] == models[last] {
        MergedLeavesEarlier(models, weights[last := weights[last] + weights[a]][a := 0.0], a + 1, last, b);
      } else {
        MergedLeavesEarlier(models, weights, a + 1, a, b);
      }
    }
  }

  /** Of neighbours with the same parameters only the first keeps any weight. */
  lemma {:induction false} MergedDropsDuplicates(models: seq<Params>, weights: seq<real>, a: nat, last: nat, b: nat)
    requires |models| == |weights| && a <= b < |weights| && (a == 0 || last < a)
    requires b > 0 && models[b] == models[b - 1] && (a > 0 ==> models[a - 1] == models[last])
    ensures Merged(models, weights, a, last)[b] == 0.0
    decreases |weights| - a
  {
    if a > 0 && models[a] == models[last] {
      var moved := weights[last := weights[last] + weights[a]][a := 0.0];
      if a == b {
        MergedLeavesEarlier(models, moved, a + 1, last, b);
      } else {
        MergedDropsDuplicates(models, moved, a + 1, last, b);
      }
    } else {
      MergedDropsDuplicates(models, weights, a + 1, a, b);
    }
  }

  // ----- one step of expectation maximization -----

  ghost predicate AllLikely(weights: seq<real>, models: seq<Params>, obs: seq<seq<int>>) {
    && |weights| == |models|
    && forall o :: 0 <= o < |obs| ==> AllFit(models, obs[o]) && Likelihood(weights, models, obs[o]) > 0.0
  }

  /** For each component, how many of the cases it accounts for. */
  ghost function Accounted(weights: seq<real>, models: seq<Params>, obs: seq<seq<int>>): (t: seq<real>)
    requires AllLikely(weights, models, obs)
    ensures |t| == |weights|
    decreases |obs|
  {
    if obs == [] then seq(|weights|, a requires 0 <= a < |weights| => 0.0)
    else
      var n := |obs| - 1;
      var before, last := Accounted(weights, models, obs[..n]), Posterior(weights, models, obs[n]);
      seq(|weights|, a requires 0 <= a < |weights| => before[a] + last[a])
  }

  lemma PosteriorNonneg(weights: seq<real>, models: seq<Params>, x: seq<int>)
    requires |weights| == |models| && AllFit(models, x) && Likelihood(weights, models, x) > 0.0 && Nonneg(weights)
    requires forall a :: 0 <= a < |models| ==> Prob(models[a], x) >= 0.0
    ensures Nonneg(Posterior(weights, models, x))
  {
    forall a | 0 <= a < |weights|
      ensures Posterior(weights, models, x)[a] >= 0.0
    {
      TimesNonneg(Prob(models[a], x), weights[a]);
      OverNonneg(Terms(weights, models, x)[a], Likelihood(weights, models, x));
    }
  }

  lemma {:induction false} AccountedSums(weights: seq<real>, models: seq<Params>, obs: seq<seq<int>>)
    requires AllLikely(weights, models, obs) && Nonneg(weights)
    requires forall o, a :: 0 <= o < |obs| && 0 <= a < |models| ==> Prob(models[a], obs[o]) >= 0.0
    ensures Sum(Accounted(weights, models, obs)) == |obs| as real
    ensures Nonneg(Accounted(weights, models, obs))
    decreases |obs|
  {
    hide Likelihood, Prob, Posterior;
    if obs == [] {
      SumZeros(Accounted(weights, models, obs));
    } else {
      var n := |obs| - 1;
      var before, last := Accounted(weights, models, obs[..n]), Posterior(weights, models, obs[n]);
      AccountedSums(weights, models, obs[..n]);
      PosteriorSums(weights, models, obs[n]);
      PosteriorNonneg(weights, models, obs[n]);
      SumAdded(before, last, Accounted(weights, models, obs));
    }
  }

  /** The new weights before duplicates are merged. */
  ghost function Averaged(weights: seq<real>, models: seq<Params>, obs: seq<seq<int>>): (t: seq<real>)
    requires AllLikely(weights, models, obs) && obs != []
    ensures |t| == |weights|
  {
    seq(|weights|, a requires 0 <= a < |weights| => Over(Accounted(weights, models, obs)[a], |obs| as real))
  }

  lemma AveragedOk(weights: seq<real>, models: seq<Params>, obs: seq<seq<int>>)
    requires AllLikely(weights, models, obs) && obs != [] && Nonneg(weights)
    requires forall o, a :: 0 <= o < |obs| && 0 <= a < |models| ==> Prob(models[a], obs[o]) >= 0.0
    ensures Sum(Averaged(weights, models, obs)) == 1.0 && Nonneg(Averaged(weights, models, obs))
  {
    hide Times, Over;
    var t, n := Accounted(weights, models, obs), |obs| as real;
    AccountedSums(weights, models, obs);
    forall a | 0 <= a < |t|
      ensures Averaged(weights, models, obs)[a] >= 0.0 && t[a] == Times(n, Averaged(weights, models, obs)[a])
    {
      OverTimes(t[a], n);
      OverNonneg(t[a], n);
    }
    SumScaled(Averaged(weights, models, obs), n, t);
    OnlyOne(Sum(Averaged(weights, models, obs)), n);
  }

  ghost predicate SameShape(s: Stats, t: Stats) {
    && t.probs == s.probs && |t.counts| == |s.counts| && |t.totals| == |s.totals|
    && forall i :: 0 <= i < |s.counts| ==> |t.counts[i]| == |s.counts[i]|
  }

  lemma ShapeFits(s: Stats, t: Stats, x: seq<int>)
    requires SameShape(s, t) && CountsFit(s, x)
    ensures CountsFit(t, x) && forall p: real :: SameShape(s, Assigned(t, x, p))
  {
    forall p: real
      ensures SameShape(s, Assigned(t, x, p))
    {
      var u := Assigned(t, x, p);
      forall i | 0 <= i < |s.counts|
        ensures |u.counts[i]| == |s.counts[i]|
      {
        assert |Bumped(t.counts[i], x[i], p)| == |t.counts[i]|;
      }
    }
  }

  /** The counts of component `a` after every case has counted with its posterior weight. */
  ghost function Counted(s: Stats, weights: seq<real>, models: seq<Params>, obs: seq<seq<int>>, a: nat): (t: Stats)
    requires AllLikely(weights, models, obs) && a < |weights| && forall o :: 0 <= o < |obs| ==> CountsFit(s, obs[o])
    ensures SameShape(s, t)
    decreases |obs|
  {
    if obs == [] then s
    else
      var n := |obs| - 1;
      ShapeFits(s, Counted(s, weights, models, obs[..n], a), obs[n]);
      Assigned(Counted(s, weights, models, obs[..n], a), obs[n], Posterior(weights, models, obs[n])[a])
  }

  /** Where some weight is positive, every case has a positive likelihood. */
  lemma CaseLikely(weights: seq<real>, models: seq<Params>, ranges: seq<nat>, x: seq<int>)
    requires |weights| == |models| && Nonneg(weights) && IsCase(x, ranges)
    requires exists a :: 0 <= a < |weights| && weights[a] > 0.0
    requires forall a :: 0 <= a < |models| ==> RowsOk(models[a], ranges)
    ensures AllFit(models, x) && Likelihood(weights, models, x) > 0.0
    ensures forall a :: 0 <= a < |models| ==> Prob(models[a], x) > 0.0
  {
    forall a | 0 <= a < |models|
      ensures Fits(models[a], x) && Prob(models[a], x) > 0.0
    {
      CaseFits(models[a], ranges, x);
      ProbPositive(models[a], x);
    }
    hide Times, Prob;
    var t := Terms(weights, models, x);
    forall a | 0 <= a < |t|
      ensures t[a] >= 0.0 && (weights[a] > 0.0 ==> t[a] > 0.0)
    {
      TimesNonneg(Prob(models[a], x), weights[a]);
    }
    SumPositive(t);
  }
}
