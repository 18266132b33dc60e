/**
  What training learns, as frequencies: how often a component's cases show each value, where a case
  belongs to a component as far as the posterior probability goes.
*/
module Learning {
  import opened Outcomes
  import opened Reals
  import opened Sums
  import opened Mixtures
  import opened Training

  // ----- frequencies -----

  ghost predicate HaveVariable(obs: seq<seq<int>>, i: nat) {
    forall o :: 0 <= o < |obs| ==> i < |obs[o]|
  }

  /** The share of component `a` in the cases whose variable `i` has value `v`. */
  ghost function Seen(w: seq<real>, models: seq<Params>, obs: seq<seq<int>>, a: nat, i: nat, v: nat): real
    requires AllLikely(w, models, obs) && a < |w| && HaveVariable(obs, i)
    decreases |obs|
  {
    if obs == [] then 0.0
    else
      var n := |obs| - 1;
      Seen(w, models, obs[..n], a, i, v) + if obs[n][i] == v then Posterior(w, models, obs[n])[a] else 0.0
  }

  /** The share of component `a` in the cases whose variable `i` is known. */
  ghost function Known(w: seq<real>, models: seq<Params>, obs: seq<seq<int>>, a: nat, i: nat): real
    requires AllLikely(w, models, obs) && a < |w| && HaveVariable(obs, i)
    decreases |obs|
  {
    if obs == [] then 0.0
    else
      var n := |obs| - 1;
      Known(w, models, obs[..n], a, i) + if obs[n][i] >= 0 then Posterior(w, models, obs[n])[a] else 0.0
  }

  /** The share of component `a` in all cases. */
  ghost function Share(w: seq<real>, models: seq<Params>, obs: seq<seq<int>>, a: nat): real
    requires AllLikely(w, models, obs) && a < |w|
    decreases |obs|
  {
    if obs == [] then 0.0
    else Share(w, models, obs[..|obs| - 1], a) + Posterior(w, models, obs[|obs| - 1])[a]
  }

  /** A component's part of a case is its part of the case's probability. */
  lemma PosteriorIs(w: seq<real>, models: seq<Params>, x: seq<int>, a: nat)
    requires |w| == |models| && AllFit(models, x) && Likelihood(w, models, x) > 0.0 && a < |w|
    ensures Posterior(w, models, x)[a] * Likelihood(w, models, x) == Prob(models[a], x) * w[a]
  {
    OverTimes(Terms(w, models, x)[a], Likelihood(w, models, x));
  }

  // ----- probabilities -----

  /** A case of which nothing is known has probability one; each known value multiplies by its entry (`ProbSet`). */
  lemma {:induction false} NothingKnown(params: Params, x: seq<int>)
    requires Fits(params, x) && forall i :: 0 <= i < |x| ==> x[i] < 0
    ensures Prob(params, x) == 1.0
    decreases |x|
  {
    if x != [] {
      NothingKnown(params[..|x| - 1], x[..|x| - 1]);
    }
  }

  lemma LikelihoodIs(w: seq<real>, models: seq<Params>, x: seq<int>)
    requires |w| == |models| && AllFit(models, x)
    ensures w == [] ==> Likelihood(w, models, x) == 0.0
    ensures w != [] ==>
              var n := |w| - 1;
              Likelihood(w, models, x) == Likelihood(w[..n], models[..n], x) + Prob(models[n], x) * w[n]
  {
    if w != [] {
      LikelihoodMore(w, models, x);
    }
  }

  /** A query and the evidence together: the query where it says something, and the evidence elsewhere. */
  lemma BothIs(q: seq<int>, e: seq<int>, i: nat)
    requires |q| == |e| && i < |q| && (q[i] >= 0 || Missing(q[i]))
    ensures Both(q, e)[i] == if q[i] >= 0 then q[i] else e[i]
  {}

  // ----- counting -----

  lemma AssignedIs(s: Stats, x: seq<int>, p: real, i: nat, v: nat)
    requires CountsFit(s, x) && i < |x| && v < |s.counts[i]|
    ensures var t := Assigned(s, x, p);
            && t.probs == s.probs && |t.counts| == |x| && |t.totals| == |x| && |t.counts[i]| == |s.counts[i]|
            && t.counts[i][v] == s.counts[i][v] + (if x[i] == v then p else 0.0)
            && t.totals[i] == s.totals[i] + if x[i] >= 0 then p else 0.0
  {}

  lemma {:induction false} CountedIs(s: Stats, w: seq<real>, models: seq<Params>, obs: seq<seq<int>>, a: nat,
                                     i: nat, v: nat)
    requires AllLikely(w, models, obs) && a < |w| && forall o :: 0 <= o < |obs| ==> CountsFit(s, obs[o])
    requires i < |s.counts| == |s.totals| && v < |s.counts[i]| && HaveVariable(obs, i)
    ensures var t := Counted(s, w, models, obs, a);
            && t.counts[i][v] == s.counts[i][v] + Seen(w, models, obs, a, i, v)
            && t.totals[i] == s.totals[i] + Known(w, models, obs, a, i)
    decreases |obs|
  {
    hide Posterior, Likelihood;
    if obs != [] {
      var n := |obs| - 1;
      CountedIs(s, w, models, obs[..n], a, i, v);
      var before := Counted(s, w, models, obs[..n], a);
      ShapeFits(s, before, obs[n]);
      AssignedIs(before, obs[n], Posterior(w, models, obs[n])[a], i, v);
      hide Assigned, CountsFit;
    }
  }

  lemma UpdatedIs(s: Stats, ranges: seq<nat>, i: nat, v: nat)
    requires Schema(ranges) && Countable(s, ranges) && i < |ranges| && v < ranges[i]
    ensures var t := Updated(s, ranges);
            && |t.probs| == |t.counts| == |t.totals| == |ranges|
            && |t.probs[i]| == |t.counts[i]| == ranges[i]
            && Times(t.probs[i][v], s.totals[i]) == s.counts[i][v]
            && t.counts[i][v] == Over(1.0, ranges[i] as real) && t.totals[i] == 1.0
  {
    hide Times, Over;
    OverTimes(s.counts[i][v], s.totals[i]);
    Commutes(s.totals[i], Over(s.counts[i][v], s.totals[i]));
  }

  lemma UpdatedShape(s: Stats, ranges: seq<nat>)
    requires Schema(ranges) && Countable(s, ranges)
    ensures |Updated(s, ranges).probs| == |ranges|
  {}

  /** Counts that start anew: one imaginary case, spread evenly over the values. */
  ghost predicate Fresh(s: Stats, ranges: seq<nat>) {
    && |s.counts| == |s.totals| == |ranges|
    && (forall i :: 0 <= i < |ranges| ==> ranges[i] > 0 && |s.counts[i]| == ranges[i] && s.totals[i] == 1.0)
    && forall i, v :: 0 <= i < |ranges| && 0 <= v < ranges[i] ==> s.counts[i][v] == Over(1.0, ranges[i] as real)
  }

  lemma NewIsFresh(ranges: seq<nat>)
    requires Schema(ranges)
    ensures Fresh(NewStats(ranges), ranges)
  {
    hide Over;
  }

  // ----- one step -----

  /** The probability of a value, times the number of cases, is the number of cases with that value. */
  ghost predicate LearntValue(s: Stats, t: Stats, w: seq<real>, models: seq<Params>, obs: seq<seq<int>>, a: nat,
                              i: nat, v: nat)
    requires AllLikely(w, models, obs) && a < |w| && HaveVariable(obs, i)
  {
    && i < |t.probs| && i < |s.counts| && i < |s.totals| && v < |t.probs[i]| && v < |s.counts[i]|
    && Times(t.probs[i][v], s.totals[i] + Known(w, models, obs, a, i))
       == s.counts[i][v] + Seen(w, models, obs, a, i, v)
  }

  /** What a component knows after a step; the counts before the step count too. */
  ghost predicate Learnt(s: Stats, t: Stats, ranges: seq<nat>, w: seq<real>, models: seq<Params>,
                         obs: seq<seq<int>>, a: nat)
    requires AllLikely(w, models, obs) && a < |w| && forall i :: 0 <= i < |ranges| ==> HaveVariable(obs, i)
  {
    forall i, v :: 0 <= i < |ranges| && 0 <= v < ranges[i] ==> LearntValue(s, t, w, models, obs, a, i, v)
  }

  lemma ValueLearnt(s: Stats, ranges: seq<nat>, w: seq<real>, models: seq<Params>, obs: seq<seq<int>>, a: nat,
                    i: nat, v: nat)
    requires AllLikely(w, models, obs) && a < |w| && forall o :: 0 <= o < |obs| ==> CountsFit(s, obs[o])
    requires Schema(ranges) && Countable(s, ranges) && Countable(Counted(s, w, models, obs, a), ranges)
    requires i < |ranges| && v < ranges[i] && HaveVariable(obs, i)
    ensures LearntValue(s, Updated(Counted(s, w, models, obs, a), ranges), w, models, obs, a, i, v)
  {
    hide Times, Over, Seen, Known, Posterior, Updated, Counted, AllLikely, CountsFit;
    CountedIs(s, w, models, obs, a, i, v);
    UpdatedIs(Counted(s, w, models, obs, a), ranges, i, v);
  }

  lemma StepLearns(s: Stats, ranges: seq<nat>, w: seq<real>, models: seq<Params>, obs: seq<seq<int>>, a: nat)
    requires AllLikely(w, models, obs) && a < |w| && forall o :: 0 <= o < |obs| ==> CountsFit(s, obs[o])
    requires Schema(ranges) && Countable(s, ranges) && Countable(Counted(s, w, models, obs, a), ranges)
    requires forall i :: 0 <= i < |ranges| ==> HaveVariable(obs, i)
    ensures Learnt(s, Updated(Counted(s, w, models, obs, a), ranges), ranges, w, models, obs, a)
  {
    hide LearntValue, Updated, Counted, AllLikely, CountsFit, HaveVariable, Countable, Schema;
    forall i, v | 0 <= i < |ranges| && 0 <= v < ranges[i]
      ensures LearntValue(s, Updated(Counted(s, w, models, obs, a), ranges), w, models, obs, a, i, v)
    {
      ValueLearnt(s, ranges, w, models, obs, a, i, v);
    }
  }

  lemma UpdatedFresh(s: Stats, ranges: seq<nat>)
    requires Schema(ranges) && Countable(s, ranges)
    ensures Fresh(Updated(s, ranges), ranges)
  {
    hide Over;
  }

  /**
    From fresh counts: the probability of a value is its cases and its part of the imaginary one, out of
    all cases and that one.
  */
  lemma LearntFresh(s: Stats, t: Stats, ranges: seq<nat>, w: seq<real>, models: seq<Params>, obs: seq<seq<int>>,
                    a: nat, i: nat, v: nat)
    requires AllLikely(w, models, obs) && a < |w| && forall i :: 0 <= i < |ranges| ==> HaveVariable(obs, i)
    requires Learnt(s, t, ranges, w, models, obs, a) && Fresh(s, ranges) && i < |ranges| && v < ranges[i]
    ensures i < |t.probs| && v < |t.probs[i]|
    ensures Times(t.probs[i][v], 1.0 + Known(w, models, obs, a, i))
         == Over(1.0, ranges[i] as real) + Seen(w, models, obs, a, i, v)
  {
    assert LearntValue(s, t, w, models, obs, a, i, v);
    hide Times, Over, Known, Seen;
  }

  // What the names for products and quotients stand for.

  lemma TimesIs(a: real, b: real)
    ensures Times(a, b) == a * b
  {}

  lemma OverIs(a: real, b: real)
    requires b != 0.0
    ensures Over(a, b) == a / b
  {}

  lemma Restored(a: real, b: real)
    requires b != 0.0
    ensures Over(a, b) * b == a
  {}

  // ----- statistics of all cases -----

  /** The cases whose variable `i` has value `v`. */
  function CasesWith(obs: seq<seq<int>>, i: nat, v: nat): nat
    requires HaveVariable(obs, i)
  {
    if obs == [] then 0
    else CasesWith(obs[..|obs| - 1], i, v) + if obs[|obs| - 1][i] == v then 1 else 0
  }

  /** The cases whose variable `i` has a value in range. */
  function CasesIn(obs: seq<seq<int>>, i: nat, range: nat): nat
    requires HaveVariable(obs, i)
  {
    if obs == [] then 0
    else CasesIn(obs[..|obs| - 1], i, range) + if 0 <= obs[|obs| - 1][i] < range then 1 else 0
  }

  /** Relative frequencies over all cases and one imaginary one. */
  ghost predicate Frequencies(params: Params, obs: seq<seq<int>>, ranges: seq<nat>)
    requires forall i :: 0 <= i < |ranges| ==> HaveVariable(obs, i)
  {
    && |params| == |ranges|
    && forall i, v :: 0 <= i < |ranges| && 0 <= v < ranges[i] ==> IsFrequency(params, obs, ranges, i, v)
  }

  ghost predicate IsFrequency(params: Params, obs: seq<seq<int>>, ranges: seq<nat>, i: nat, v: nat)
    requires i < |ranges| && v < ranges[i] && HaveVariable(obs, i)
  {
    && i < |params| && |params[i]| == ranges[i]
    && Times(params[i][v], 1.0 + CasesIn(obs, i, ranges[i]) as real)
       == Over(1.0, ranges[i] as real) + CasesWith(obs, i, v) as real
  }

  // ----- weights -----

  /** The new weight of a component is its share of all cases, per case. */
  lemma AverageIs(w: seq<real>, models: seq<Params>, obs: seq<seq<int>>, a: nat)
    requires AllLikely(w, models, obs) && a < |w| && obs != []
    ensures Averaged(w, models, obs)[a] == Over(Share(w, models, obs, a), |obs| as real)
  {
    AccountedIs(w, models, obs, a);
    hide Accounted, Share, Over;
  }

  lemma {:induction false} AccountedIs(w: seq<real>, models: seq<Params>, obs: seq<seq<int>>, a: nat)
    requires AllLikely(w, models, obs) && a < |w|
    ensures Accounted(w, models, obs)[a] == Share(w, models, obs, a)
    decreases |obs|
  {
    hide Posterior;
    if obs != [] {
      AccountedIs(w, models, obs[..|obs| - 1], a);
    }
  }

  /** Where a run of equal neighbours ends that reaches up to `b`. */
  function RunEnd(models: seq<Params>, b: nat): (e: nat)
    requires 0 < b <= |models|
    ensures b <= e <= |models|
    decreases |models| - b
  {
    if b < |models| && models[b] == models[b - 1] then RunEnd(models, b + 1) else b
  }

  lemma SliceSum(w: seq<real>, a: nat, e: nat)
    requires a < e <= |w|
    ensures Sum(w[a..e]) == w[a] + Sum(w[a + 1..e])
    decreases e - a
  {
    if a + 1 < e {
      SliceSum(w, a, e - 1);
      assert w[a..e] == w[a..e - 1] + [w[e - 1]] && w[a + 1..e] == w[a + 1..e - 1] + [w[e - 1]];
      SumMore(w[a..e - 1], w[e - 1]);
      SumMore(w[a + 1..e - 1], w[e - 1]);
    } else {
      assert w[a..e] == [] + [w[a]] && w[a + 1..e] == [];
      SumMore([], w[a]);
    }
  }

  /** The first of a run, once the merge has come as far as `a`. */
  lemma {:induction false} MergedInto(models: seq<Params>, w: seq<real>, a: nat, last: nat)
    requires |models| == |w| && 0 < a <= |w| && last < a && models[last] == models[a - 1]
    ensures Merged(models, w, a, last)[last] == w[last] + Sum(w[a..RunEnd(models, a)])
    decreases |w| - a
  {
    var e := RunEnd(models, a);
    if a < |w| && models[a] == models[last] {
      var moved := w[last := w[last] + w[a]][a := 0.0];
      MergedInto(models, moved, a + 1, last);
      assert moved[a + 1..e] == w[a + 1..e];
      SliceSum(w, a, e);
    } else {
      assert w[a..e] == [];
      if a < |w| {
        MergedLeavesEarlier(models, w, a + 1, a, last);
      }
    }
  }

  /** The first of a later run. */
  lemma {:induction false} MergedLater(models: seq<Params>, w: seq<real>, a: nat, last: nat, b: nat)
    requires |models| == |w| && 0 < a <= b < |w| && last < a && models[last] == models[a - 1]
    requires models[b] != models[b - 1]
    ensures Merged(models, w, a, last)[b] == Sum(w[b..RunEnd(models, b + 1)])
    decreases |w| - a
  {
    var e := RunEnd(models, b + 1);
    if models[a] == models[last] {
      var moved := w[last := w[last] + w[a]][a := 0.0];
      MergedLater(models, moved, a + 1, last, b);
      assert moved[b..e] == w[b..e];
    } else if b == a {
      MergedInto(models, w, a + 1, a);
      SliceSum(w, a, e);
    } else {
      MergedLater(models, w, a + 1, a, b);
    }
  }

  /** Of a run of equal neighbours the first one ends up with all the weight. */
  lemma MergedIs(models: seq<Params>, w: seq<real>, b: nat)
    requires |models| == |w| && b < |w|
    ensures Merged(models, w, 0, 0)[b] ==
              if b > 0 && models[b] == models[b - 1] then 0.0 else Sum(w[b..RunEnd(models, b + 1)])
  {
    if b == 0 {
      MergedInto(models, w, 1, 0);
      SliceSum(w, 0, RunEnd(models, 1));
    } else if models[b] == models[b - 1] {
      MergedDropsDuplicates(models, w, 1, 0, b);
    } else {
      MergedLater(models, w, 1, 0, b);
    }
  }

  // ----- new components -----

  /**
    A known value of the case that suggested a component: a tenth of what is usual, or of an even spread,
    and one whole for the value itself, out of one and a tenth.
  */
  lemma BiasIs(usual: Option<Row>, range: nat, x: nat, v: nat)
    requires x < range && v < range && (usual.Some? ==> |usual.value| == range)
    ensures |Biased(usual, range, x)| == range
    ensures Biased(usual, range, x)[v] * 1.1
         == 0.1 * (if usual.Some? then usual.value[v] else 1.0 / range as real) + if v == x then 1.0 else 0.0
  {
    var u := if usual.Some? then usual.value[v] else Over(1.0, range as real);
    var faint := Over(Times(M_PRIOR, u), 1.0 + M_PRIOR);
    Tenth(u, range);
    OverIs(1.0, range as real);
    Restored(Times(M_PRIOR, u), 1.0 + M_PRIOR);
    Restored(1.0, 1.0 + M_PRIOR);
    TimesIs(M_PRIOR, u);
    assert Biased(usual, range, x)[v] == faint + if v == x then Over(1.0, 1.0 + M_PRIOR) else 0.0;
    hide Over, Times;
  }

  lemma Tenth(u: real, range: nat)
    requires range >= 1
    ensures u == Over(1.0, range as real) ==>
              Over(Times(M_PRIOR, u), 1.0 + M_PRIOR) == Over(Over(M_PRIOR, range as real), 1.0 + M_PRIOR)
  {}

  lemma ExtensionIs(globals: Option<Params>, ranges: seq<nat>, abs: seq<int>, i: nat)
    requires Schema(ranges) && IsCase(abs, ranges) && i < |ranges|
    requires globals.Some? ==>
               |globals.value| == |ranges| && forall i :: 0 <= i < |ranges| ==> |globals.value[i]| == ranges[i]
    ensures var row := Extended(globals, ranges, abs)[i];
            if abs[i] < 0 then
              |row| == ranges[i] && forall v :: 0 <= v < ranges[i] ==> row[v] == Over(1.0, ranges[i] as real)
            else row == Biased(if globals.Some? then Some(globals.value[i]) else None, ranges[i], abs[i])
  {}
}
