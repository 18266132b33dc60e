/** The mixture model as it is trained and queried. */
module NaiveBayes {
  import opened Outcomes
  import opened Reals
  import opened Sums
  import opened Mixtures
  import opened Training
  import opened Learning
  import opened GrowArrays

  class Mixture {
    const ranges: seq<nat>
    var stats: seq<Stats>
    var weights: GrowArray<real>
    var numAbs: nat
    var globals: Option<Params>

    /** There may be more weights than components: weights are also read from files. */
    ghost predicate Valid()
      reads this, weights
    {
      && Schema(ranges) && weights.Valid()
      && |stats| == numAbs <= weights.numElems
      && (forall a :: 0 <= a < numAbs ==> StatsOk(stats[a], ranges))
      && (globals.Some? ==> RowsOk(globals.value, ranges))
    }

    ghost function W(): (w: seq<real>)
      reads this, weights, weights.slots
      requires Valid()
      ensures |w| == numAbs
    {
      weights.Contents()[..numAbs]
    }

    ghost function Models(): (m: seq<Params>)
      reads this
      ensures |m| == |stats|
    {
      ModelsOf(stats)
    }

    constructor (ranges: seq<nat>)
      requires Schema(ranges)
      ensures Valid() && fresh(weights) && fresh(weights.slots) && numAbs == 0 && this.ranges == ranges
    {
      this.ranges := ranges;
      stats, numAbs, globals := [], 0, None;
      weights := new GrowArray<real>(16);
    }

    // ----- inference -----

    /** The probability of a partial observation in one component; the loop stops at zero. */
    method GetProb(x: seq<int>, a: nat) returns (p: real)
      requires Valid() && a < numAbs && Fits(stats[a].probs, x)
      ensures p == Prob(stats[a].probs, x)
    {
      hide Times;
      var probs := stats[a].probs;
      p := 1.0;
      for i := 0 to |x|
        invariant p == Prob(probs[..i], x[..i])
      {
        ProbMore(probs, x, i);
        if x[i] != UNTESTED {
          if x[i] != UNKNOWN {
            p := Times(p, probs[i][x[i]]);
          }
          if p == 0.0 {
            TimesOne(Prob(probs[..i], x[..i]));
            ProbZero(probs, x, i + 1);
            return 0.0;
          }
        }
        TimesOne(Prob(probs[..i], x[..i]));
      }
      assert probs[..|x|] == probs && x[..|x|] == x;
    }

    /** The likelihood whose logarithm is reported. */
    method GetLikelihood(x: seq<int>) returns (p: real)
      requires Valid() && AllFit(Models(), x)
      ensures p == Likelihood(W(), Models(), x)
    {
      hide Times, StatsOk, RowsOk;
      ghost var t := Terms(W(), Models(), x);
      p := 0.0;
      for a := 0 to numAbs
        invariant p == Sum(t[..a])
      {
        assert Models()[a] == stats[a].probs;
        var prob := GetProb(x, a);
        var w := weights.Get(a);
        Commutes(w, prob);
        SumPrefix(t, a);
        p := p + Times(w, prob);
      }
      assert t[..numAbs] == t;
    }

    /** The logarithm of the likelihood of a case.  `ln` is the logarithm of the C library. */
    method GetLogLikelihood(x: seq<int>, ln: real -> real) returns (l: real)
      requires Valid() && AllFit(Models(), x)
      ensures l == ln(Likelihood(W(), Models(), x))
    {
      var p := GetLikelihood(x);
      l := ln(p);
    }

    /** Its mean over a list of cases. */
    method MeanLogLikelihood(obs: seq<seq<int>>, ln: real -> real) returns (l: real)
      requires Valid() && obs != [] && forall o :: 0 <= o < |obs| ==> AllFit(Models(), obs[o])
      ensures l == MeanFit(W(), Models(), obs, ln)
    {
      ghost var t := LogFits(W(), Models(), obs, ln);
      hide Likelihood;
      l := 0.0;
      for i := 0 to |obs|
        invariant l == Sum(t[..i])
      {
        var fit := GetLogLikelihood(obs[i], ln);
        SumPrefix(t, i);
        l := l + fit;
      }
      assert t[..|obs|] == t;
      l := Over(l, |obs| as real);
    }

    /** What each component contributes to the probability of the evidence, and the sum. */
    method Contributions(e: seq<int>) returns (terms: seq<real>, total: real)
      requires Valid() && AllFit(Models(), e)
      ensures terms == Terms(W(), Models(), e) && total == Likelihood(W(), Models(), e)
    {
      hide Times, StatsOk, RowsOk;
      ghost var t := Terms(W(), Models(), e);
      terms, total := [], 0.0;
      for a := 0 to numAbs
        invariant terms == t[..a] && total == Sum(t[..a])
      {
        assert Models()[a] == stats[a].probs;
        var prob := GetProb(e, a);
        var w := weights.Get(a);
        SumPrefix(t, a);
        terms := terms + [Times(prob, w)];
        total := total + Times(prob, w);
      }
      assert t[..numAbs] == t;
    }

    /**
      For evidence of positive probability: one distribution for each variable that has not been
      tested.  Each entry is a ratio of likelihoods, and each distribution sums to one.
    */
    method CreateMarginals(e: seq<int>) returns (marginals: seq<Option<Row>>)
      requires Valid() && |e| == |ranges| && AllFit(Models(), e) && Likelihood(W(), Models(), e) > 0.0
      ensures |marginals| == |ranges|
      ensures forall v :: 0 <= v < |ranges| ==> (marginals[v].Some? <==> e[v] == UNTESTED)
      ensures forall v :: 0 <= v < |ranges| && e[v] == UNTESTED ==>
                IsMarginal(W(), Models(), e, v, ranges[v], marginals[v].value)
    {
      hide Times, Over, Prob, StatsOk, RowsOk, Likelihood;
      var terms, total := Contributions(e);
      marginals := [];
      for v := 0 to |ranges|
        invariant |marginals| == v
        invariant forall u :: 0 <= u < v ==> (marginals[u].Some? <==> e[u] == UNTESTED)
        invariant forall u :: 0 <= u < v && e[u] == UNTESTED ==>
          IsMarginal(W(), Models(), e, u, ranges[u], marginals[u].value)
      {
        if e[v] == UNTESTED {
          var row := MarginalOf(e, v, terms, total);
          marginals := marginals + [Some(row)];
        } else {
          marginals := marginals + [None];
        }
      }
    }

    method MarginalOf(e: seq<int>, v: nat, terms: seq<real>, total: real) returns (row: Row)
      requires Valid() && |e| == |ranges| && AllFit(Models(), e) && Likelihood(W(), Models(), e) > 0.0
      requires v < |e| && e[v] == UNTESTED
      requires terms == Terms(W(), Models(), e) && total == Likelihood(W(), Models(), e)
      ensures IsMarginal(W(), Models(), e, v, ranges[v], row)
    {
      hide Times, Over, Prob, Likelihood;
      var range := ranges[v];
      ModelRows(stats, ranges, v);
      hide StatsOk, RowsOk;
      row := seq(range, val requires 0 <= val < range => 0.0);
      for a := 0 to numAbs
        invariant |row| == range
        invariant forall val :: 0 <= val < range ==> row[val] == Sum(Shares(W(), Models(), e, v, val)[..a])
      {
        var w := Over(terms[a], total);
        assert Models()[a] == stats[a].probs;
        SharesMore(W(), Models(), e, v, range, a);
        row := AddScaled(row, w, stats[a].probs[v]);
      }
      SharesDone(W(), Models(), e, v, range, row);
    }

    /** A copy of the model with the posterior weights. */
    method CreateJoint(e: seq<int>) returns (joint: Mixture)
      requires Valid() && AllFit(Models(), e) && Likelihood(W(), Models(), e) > 0.0
      ensures fresh(joint) && joint.Valid() && joint.ranges == ranges
      ensures joint.numAbs == numAbs && joint.stats == stats && joint.globals == globals
      ensures joint.W() == Posterior(W(), Models(), e)
    {
      hide Times, Over, Prob, StatsOk, RowsOk, Likelihood;
      var terms, total := Contributions(e);
      joint := new Mixture(ranges);
      joint.stats, joint.numAbs, joint.globals := stats, numAbs, globals;
      var posterior := seq(|terms|, a requires 0 <= a < |terms| => Over(terms[a], total));
      joint.weights := Filled(posterior);
      assert posterior == Posterior(W(), Models(), e);
      assert joint.weights.Contents()[..numAbs] == posterior;
    }

    // ----- training -----

    /**
      A case counts in part, in each of its known variables: the abstraction that a component was made
      from is reset to unknown values when its tables are set up, so it hides no variable.
    */
    method AssignObservation(obs: seq<int>, a: nat, p: real)
      requires Valid() && a < numAbs && IsCase(obs, ranges) && p >= 0.0
      modifies this`stats
      ensures Valid() && CountsFit(old(stats)[a], obs)
      ensures stats == old(stats)[a := Assigned(old(stats)[a], obs, p)]
    {
      AssignedOk(stats[a], ranges, obs, p);
      var s := CountCase(stats[a], obs, p);
      stats := stats[a := s];
    }

    /** The weight of a duplicate goes to component `last`; anything else becomes the last that differs. */
    method PruneDuplicate(isDuplicate: bool, last: nat, a: nat) returns (next: nat)
      requires weights.Valid() && a < numAbs <= weights.numElems && (isDuplicate ==> last < a)
      modifies weights.slots
      ensures weights.Valid() && next == if isDuplicate then last else a
      ensures weights.Contents()[..numAbs] == Moved(old(weights.Contents()[..numAbs]), isDuplicate, last, a)
    {
      if !isDuplicate {
        return a;
      }
      ghost var w := weights.Contents()[..numAbs];
      var moved := weights.Get(a);
      var kept := weights.Get(last);
      weights.Set(last, kept + moved);
      assert weights.Contents()[..numAbs] == w[last := w[last] + w[a]];
      weights.Set(a, 0.0);
      assert weights.Contents()[..numAbs] == w[last := w[last] + w[a]][a := 0.0];
      next := last;
    }

    /** Relative counts become the parameters, and neighbours that come out the same are merged. */
    method UpdateParameters()
      requires Valid()
      modifies this`stats, weights.slots
      ensures Valid() && AllCountable(old(stats), ranges) && stats == AllUpdated(old(stats), ranges)
      ensures W() == Merged(Models(), old(W()), 0, 0)
    {
      AllUpdatedOk(stats, ranges);
      hide StatsOk, RowsOk, AllUpdated, AllCountable, Merged, ModelsOf;
      var all := UpdateEach();
      stats := all;
    }

    method UpdateEach() returns (all: seq<Stats>)
      requires Valid() && AllCountable(stats, ranges)
      requires forall a :: 0 <= a < numAbs ==> Comparable(Some(AllUpdated(stats, ranges)[a].probs), ranges)
      modifies weights.slots
      ensures weights.Valid() && all == AllUpdated(stats, ranges)
      ensures weights.Contents()[..numAbs] == Merged(ModelsOf(all), old(weights.Contents()[..numAbs]), 0, 0)
    {
      ghost var start, w0 := stats, weights.Contents()[..numAbs];
      ProgressStart(start, ranges, w0);
      hide StatsOk, RowsOk, AllUpdated, AllCountable, Comparable, Merged, ModelsOf, Progress;
      all := stats;
      var last := 0;
      for a := 0 to numAbs
        invariant weights.Valid() && numAbs <= weights.numElems && |all| == numAbs
        invariant Progress(start, ranges, all, w0, weights.Contents()[..numAbs], a, last)
        modifies weights.slots
      {
        var s;
        s, last := UpdateNext(start, all, w0, a, last);
        all := all[a := s];
      }
      ProgressEnd(start, ranges, all, w0, weights.Contents()[..numAbs], last);
    }

    method UpdateNext(ghost start: seq<Stats>, all: seq<Stats>, ghost w0: seq<real>, a: nat, last: nat)
      returns (s: Stats, next: nat)
      requires weights.Valid() && a < numAbs <= weights.numElems && |start| == |all| == numAbs
      requires Progress(start, ranges, all, w0, weights.Contents()[..numAbs], a, last)
      modifies weights.slots
      ensures weights.Valid()
      ensures Progress(start, ranges, all[a := s], w0, weights.Contents()[..numAbs], a + 1, next)
    {
      ghost var w := weights.Contents()[..numAbs];
      ProgressReady(start, ranges, all, w0, w, a, last);
      hide StatsOk, RowsOk, Updated, AllUpdated, Countable, Comparable, Moved, Progress, Detects;
      var previous := if a == 0 then None else Some(all[last].probs);
      var isDuplicate;
      s, isDuplicate := UpdateStats(all[a], ranges, previous);
      ProgressMore(start, ranges, all, w0, w, a, last, s, isDuplicate, previous);
      next := PruneDuplicate(isDuplicate, last, a);
    }

    /** What each component contributes to the probability of a case; those without weight are not asked. */
    method CaseTerms(x: seq<int>) returns (terms: seq<real>, total: real)
      requires Valid() && AllFit(Models(), x)
      ensures terms == Terms(W(), Models(), x) && total == Likelihood(W(), Models(), x)
    {
      hide Times, StatsOk, RowsOk;
      ghost var t := Terms(W(), Models(), x);
      terms, total := [], 0.0;
      for a := 0 to numAbs
        invariant terms == t[..a] && total == Sum(t[..a])
      {
        assert Models()[a] == stats[a].probs;
        SumPrefix(t, a);
        var w := weights.Get(a);
        if w == 0.0 {
          TimesOne(Prob(stats[a].probs, x));
          terms := terms + [0.0];
        } else {
          var prob := GetProb(x, a);
          terms := terms + [Times(prob, w)];
          total := total + Times(prob, w);
        }
      }
      assert t[..numAbs] == t;
    }

    /** One case is shared out among the components in proportion to their probabilities given the case. */
    method ShareCase(x: seq<int>, newWeights: array<real>)
      requires Valid() && IsCase(x, ranges) && AllFit(Models(), x) && Likelihood(W(), Models(), x) > 0.0
      requires Nonneg(Posterior(W(), Models(), x)) && numAbs <= newWeights.Length && newWeights != weights.slots
      modifies this`stats, newWeights
      ensures Valid() && AllFit(old(Models()), x) && Likelihood(W(), old(Models()), x) > 0.0
      ensures newWeights[..numAbs] == Added(old(newWeights[..numAbs]), Posterior(W(), old(Models()), x))
      ensures forall a :: 0 <= a < numAbs ==> CountsFit(old(stats)[a], x)
      ensures stats == AllAssigned(old(stats), x, Posterior(W(), old(Models()), x))
    {
      AllCountsFit(stats, ranges, x);
      var terms, total := CaseTerms(x);
      assert Quotients(terms, total) == Posterior(W(), Models(), x);
      ShareOut(x, terms, total, newWeights);
    }

    method ShareOut(x: seq<int>, terms: seq<real>, total: real, newWeights: array<real>)
      requires Valid() && IsCase(x, ranges) && |terms| == numAbs <= newWeights.Length
      requires total != 0.0 && Nonneg(Quotients(terms, total)) && newWeights != weights.slots
      modifies this`stats, newWeights
      ensures Valid() && forall a :: 0 <= a < numAbs ==> CountsFit(old(stats)[a], x)
      ensures stats == AllAssigned(old(stats), x, Quotients(terms, total))
      ensures newWeights[..numAbs] == Added(old(newWeights[..numAbs]), Quotients(terms, total))
    {
      AllCountsFit(stats, ranges, x);
      ghost var shares := Quotients(terms, total);
      ghost var start, nw := stats, newWeights[..numAbs];
      ghost var goal, sums := AllAssigned(start, x, shares), Added(nw, shares);
      assert Halfway(start, start, goal, 0) && Halfway(nw, nw, sums, 0);
      hide StatsOk, RowsOk, Over, AllAssigned, CountsFit, Assigned, IsCase, Halfway, Schema;
      for a := 0 to numAbs
        invariant Valid() && Halfway(start, stats, goal, a)
        invariant Halfway(nw, newWeights[..numAbs], sums, a)
      {
        var share := Over(terms[a], total);
        assert share == shares[a] && share >= 0.0;
        AssignedAt(start, x, shares, a);
        HalfwayMore(start, stats, goal, a);
        HalfwayMore(nw, newWeights[..numAbs], sums, a);
        ghost var before, counted := stats, newWeights[..numAbs];
        assert sums[a] == newWeights[a] + share && goal[a] == Assigned(before[a], x, share);
        ShareOne(x, a, share, newWeights);
        assert stats == before[a := goal[a]];
        assert newWeights[..numAbs] == counted[a := sums[a]];
      }
      HalfwayDone(start, stats, goal);
      HalfwayDone(nw, newWeights[..numAbs], sums);
    }

    /** A share that is zero is not counted; counting it would change nothing. */
    method ShareOne(x: seq<int>, a: nat, share: real, newWeights: array<real>)
      requires Valid() && a < numAbs <= newWeights.Length && IsCase(x, ranges) && share >= 0.0
      requires newWeights != weights.slots
      modifies this`stats, newWeights
      ensures Valid() && CountsFit(old(stats)[a], x)
      ensures stats == old(stats)[a := Assigned(old(stats)[a], x, share)]
      ensures newWeights[..numAbs] == old(newWeights[..numAbs])[a := old(newWeights[a]) + share]
    {
      AllCountsFit(stats, ranges, x);
      hide StatsOk, RowsOk, CountsFit, Assigned;
      newWeights[a] := newWeights[a] + share;
      if share > 0.0 {
        AssignObservation(x, a, share);
      } else {
        AssignedNothing(stats[a], x);
      }
    }

    /** The E step: every case is shared out. */
    method ShareCases(obs: seq<seq<int>>, newWeights: array<real>)
      requires Valid() && forall o :: 0 <= o < |obs| ==> IsCase(obs[o], ranges)
      requires CanLearn(W(), stats, ranges) && numAbs <= newWeights.Length && newWeights != weights.slots
      requires forall a :: 0 <= a < numAbs ==> newWeights[a] == 0.0
      modifies this`stats, newWeights
      ensures Valid() && AllLikely(W(), old(Models()), obs) && AllFitCounts(old(stats), obs)
      ensures newWeights[..numAbs] == Accounted(W(), old(Models()), obs)
      ensures stats == AllCounted(old(stats), W(), old(Models()), obs)
    {
      LearnReady(W(), stats, ranges, obs);
      ghost var w, models, start := W(), Models(), stats;
      assert newWeights[..numAbs] == Accounted(w, models, []);
      NothingCounted(start, w, models);
      hide StatsOk, RowsOk, Likelihood, Posterior, Counted, Accounted, AllCounted, ModelsOf, IsCase;
      for i := 0 to |obs|
        invariant Valid() && |stats| == |start|
        invariant newWeights[..numAbs] == Accounted(w, models, obs[..i])
        invariant stats == AllCounted(start, w, models, obs[..i])
      {
        CountedModels(start, w, models, obs[..i]);
        CaseReady(w, start, ranges, obs[i]);
        CountedMore(start, w, models, obs, i);
        AccountedMore(w, models, obs, i);
        ShareCase(obs[i], newWeights);
      }
      assert obs[..|obs|] == obs;
    }

    /** The M step for the weights: each becomes an average over the cases. */
    method AverageWeights(newWeights: array<real>, numObs: nat) returns (weightChange: real)
      requires Valid() && numAbs <= newWeights.Length && newWeights != weights.slots && numObs > 0
      modifies weights.slots
      ensures Valid() && W() == Quotients(newWeights[..numAbs], numObs as real)
      ensures weightChange == Sum(Gaps(W(), old(W())))
    {
      ghost var w, goal := W(), Quotients(newWeights[..numAbs], numObs as real);
      ghost var gaps := Gaps(goal, w);
      assert Halfway(w, w, goal, 0);
      hide StatsOk, RowsOk, Over, Halfway;
      weightChange := 0.0;
      for a := 0 to numAbs
        invariant weights.Valid() && numAbs <= weights.numElems
        invariant Halfway(w, weights.Contents()[..numAbs], goal, a)
        invariant weightChange == Sum(gaps[..a])
        modifies weights.slots
      {
        var before := weights.Get(a);
        var average := Over(newWeights[a], numObs as real);
        HalfwayMore(w, weights.Contents()[..numAbs], goal, a);
        SumPrefix(gaps, a);
        weightChange := weightChange + Gap(average, before);
        ghost var so_far := weights.Contents()[..numAbs];
        weights.Set(a, average);
        assert weights.Contents()[..numAbs] == so_far[a := goal[a]];
      }
      HalfwayDone(w, weights.Contents()[..numAbs], goal);
      assert gaps[..numAbs] == gaps;
    }

    /**
      One step of expectation maximization.  From weights that are not negative and not all zero it
      makes weights that sum to one, and parameters whose rows are positive and sum to one; the new
      weights are the average posterior probabilities, with duplicates merged.
    */
    method EMStep(obs: seq<seq<int>>) returns (weightChange: real)
      requires Valid() && obs != [] && forall o :: 0 <= o < |obs| ==> IsCase(obs[o], ranges)
      requires CanLearn(W(), stats, ranges)
      modifies this`stats, weights.slots
      ensures Valid() && CanLearn(W(), stats, ranges) && Sum(W()) == 1.0
      ensures AllLikely(old(W()), old(Models()), obs) && AllFitCounts(old(stats), obs)
      ensures W() == Merged(Models(), Averaged(old(W()), old(Models()), obs), 0, 0)
      ensures AllCountable(AllCounted(old(stats), old(W()), old(Models()), obs), ranges)
      ensures stats == AllUpdated(AllCounted(old(stats), old(W()), old(Models()), obs), ranges)
      ensures AllLearnt(old(stats), stats, ranges, old(W()), old(Models()), obs)
      ensures weightChange == Sum(Gaps(Averaged(old(W()), old(Models()), obs), old(W())))
    {
      ghost var w, models, start := W(), Models(), stats;
      LearnReady(w, start, ranges, obs);
      AveragedOk(w, models, obs);
      var newWeights := new real[numAbs + |obs|](_ => 0.0);
      hide StatsOk, RowsOk, Likelihood, Posterior, Counted, Accounted, AllCounted, ModelsOf, AllUpdated, Merged,
        AllLearnt, AllLikely, AllFitCounts, CanLearn, Nonneg, Countable, AllCountable;
      ShareCases(obs, newWeights);
      assert Quotients(newWeights[..numAbs], |obs| as real) == Averaged(w, models, obs);
      hide Averaged, Quotients, Gaps, Learnt, Fresh;
      weightChange := AverageWeights(newWeights, |obs|);
      UpdateParameters();
      EachLearns(start, ranges, w, models, obs);
      MergedKeepsTotal(Models(), Averaged(w, models, obs), 0, 0);
      StillLearns(W(), stats, ranges);
    }

    // ----- components come and go -----

    /** A new component, biased towards the case that suggested it. */
    method AddAbstraction(abs: seq<int>)
      requires Valid() && IsCase(abs, ranges)
      modifies this`numAbs, this`stats, weights, weights.slots
      ensures Valid() && numAbs == old(numAbs) + 1
      ensures weights.slots == old(weights.slots) || fresh(weights.slots)
      ensures stats == old(stats) + [NewStats(ranges).(probs := Extended(globals, ranges, abs))]
      ensures old(weights.numElems) > old(numAbs) ==> weights.Contents() == old(weights.Contents())
      ensures old(weights.numElems) == old(numAbs) ==> W() == WithOneMore(old(W()))
    {
      NewStatsOk(ranges);
      ExtendedOk(globals, ranges, abs);
      hide StatsOk, RowsOk, Extended, NewStats, WithOneMore;
      numAbs := numAbs + 1;
      var size := weights.Size();
      if size < numAbs {
        MakeRoom();
        assert weights.Contents()[..numAbs] == weights.Contents();
        assert old(weights.Contents())[..size] == old(weights.Contents());
      }
      stats := stats + [NewStats(ranges).(probs := Extended(globals, ranges, abs))];
    }

    /**
      The weights are scaled down to make room for one more.  The loop also reaches the spare slot
      behind them, which is then overwritten.
    */
    method MakeRoom()
      requires weights.Valid() && numAbs == weights.numElems + 1
      modifies weights, weights.slots
      ensures weights.Valid() && (weights.slots == old(weights.slots) || fresh(weights.slots))
      ensures weights.Contents() == WithOneMore(old(weights.Contents()))
    {
      hide Over, Times;
      ghost var contents := weights.Contents();
      var scaling := Over(numAbs as real - 1.0, numAbs as real);
      ghost var goal := Scaled(contents, scaling);
      for a := 0 to numAbs
        invariant weights.Valid() && weights.numElems == |contents|
        invariant Halfway(contents, weights.Contents(), goal, if a < numAbs then a else numAbs - 1)
        modifies weights.slots
      {
        if a < numAbs - 1 {
          HalfwayMore(contents, weights.Contents(), goal, a);
        }
        var w := weights.Get(a);
        weights.Set(a, Times(w, scaling));
      }
      HalfwayDone(contents, weights.Contents(), goal);
      weights.Append(Over(1.0, numAbs as real));
    }

    /** How often each value occurs overall, with one imaginary case spread evenly over the values. */
    method InitParameters(obs: seq<seq<int>>)
      requires Valid() && forall o :: 0 <= o < |obs| ==> IsRaw(obs[o], |ranges|)
      modifies this`globals
      ensures Valid() && Countable(Tallied(NewStats(ranges), obs, ranges), ranges)
      ensures globals == Some(Updated(Tallied(NewStats(ranges), obs, ranges), ranges).probs)
      ensures (forall i :: 0 <= i < |ranges| ==> HaveVariable(obs, i)) && Frequencies(globals.value, obs, ranges)
    {
      NewStatsOk(ranges);
      TalliedOk(NewStats(ranges), obs, ranges);
      UpdatedOk(Tallied(NewStats(ranges), obs, ranges), ranges);
      UpdatedRows(Tallied(NewStats(ranges), obs, ranges), ranges);
      TalliedFrequencies(obs, ranges);
      hide StatsOk, RowsOk, IsRaw, Countable, CountsFit, Updated, IsCase;
      var s := NewStats(ranges);
      for o := 0 to |obs|
        invariant s == Tallied(NewStats(ranges), obs[..o], ranges)
      {
        TalliedMore(NewStats(ranges), obs, ranges, o);
        s := TallyCase(s, obs[o], ranges);
      }
      assert obs[..|obs|] == obs;
      var t, isDuplicate := UpdateStats(s, ranges, None);
      globals := Some(t.probs);
    }

    /**
      Only the first component and the heaviest others are kept, until they make up the given share of
      the weight.  `order` is the order that sorting by weight, the first component counting as one,
      puts the components into.
    */
    method Prune(percentWeight: real, order: seq<nat>)
      requires Valid() && numAbs > 0 && IsSorting(order, Keys(W()))
      modifies this`stats, this`weights, this`numAbs
      ensures Valid() && fresh(weights) && fresh(weights.slots)
      ensures 1 <= numAbs <= old(numAbs) && weights.numElems == numAbs
      ensures forall i :: 0 <= i < numAbs ==> stats[i] == old(stats)[order[i]]
      ensures W() == PrunedWeights(old(W()), order)[..numAbs]
      ensures forall i :: 1 <= i < numAbs ==> Sum(W()[..i]) < percentWeight
      ensures numAbs < old(numAbs) ==> Sum(W()) >= percentWeight
      ensures CanLearn(old(W()), old(stats), ranges) ==>
                (CanLearn(W(), stats, ranges) <==> old(W())[0] > 0.0 || percentWeight > 0.0)
    {
      hide StatsOk, RowsOk;
      ghost var w := W();
      var keys := CollectKeys();
      var first := weights.Get(0);
      var kept, newWeights := KeepHeaviest(first, keys, order, percentWeight);
      PrunedAgree(W(), order, first, keys);
      PrefixesAgree(SortedWeights(first, keys, order), kept);
      stats := Picked(stats, order, kept);
      weights, numAbs := newWeights, kept;
      assert weights.Contents()[..numAbs] == weights.Contents();
      if Nonneg(w) && HasWeight(w) {
        WeightLeft(w, order, percentWeight, W());
      }
    }

    method CollectKeys() returns (keys: seq<real>)
      requires Valid() && numAbs > 0
      ensures keys == Keys(W())
    {
      hide StatsOk, RowsOk;
      keys := [1.0];
      for a := 1 to numAbs
        invariant keys == Keys(W())[..a]
      {
        var w := weights.Get(a);
        keys := keys + [w];
      }
      assert Keys(W())[..numAbs] == Keys(W());
    }
  }

  /** The components that are kept, in their new order. */
  function Picked(stats: seq<Stats>, order: seq<nat>, kept: nat): (r: seq<Stats>)
    requires kept <= |order| && forall i :: 0 <= i < |order| ==> order[i] < |stats|
    ensures |r| == kept && forall i :: 0 <= i < kept ==> r[i] == stats[order[i]]
  {
    seq(kept, i requires 0 <= i < kept => stats[order[i]])
  }

  /** Components are kept as long as the weight so far is less than the given share. */
  method KeepHeaviest(first: real, keys: seq<real>, order: seq<nat>, percentWeight: real)
    returns (kept: nat, weights: GrowArray<real>)
    requires keys != [] && IsSorting(order, keys)
    ensures fresh(weights) && fresh(weights.slots) && weights.Valid() && 1 <= kept <= |keys|
    ensures weights.Contents() == SortedWeights(first, keys, order)[..kept]
    ensures StillBelow(SortedWeights(first, keys, order), kept, percentWeight)
    ensures kept < |keys| ==> Sum(weights.Contents()) >= percentWeight
  {
    ghost var all := SortedWeights(first, keys, order);
    SortedStart(first, keys, order);
    assert StillBelow(all, 1, percentWeight);
    hide Sum, SortedWeights, IsSorting, StillBelow;
    weights := new GrowArray<real>(16);
    weights.Append(first);
    kept := 1;
    var totalWeight := first;
    for a := 1 to |keys|
      invariant fresh(weights) && fresh(weights.slots) && weights.Valid() && 1 <= kept <= a
      invariant weights.Contents() == all[..kept] && totalWeight == Sum(all[..kept])
      invariant StillBelow(all, kept, percentWeight)
      invariant kept == a || totalWeight >= percentWeight
    {
      if totalWeight < percentWeight {
        SortedNext(first, keys, order, a);
        BelowMore(all, a, percentWeight);
        var key := keys[order[a]];
        totalWeight := totalWeight + key;
        weights.Append(key);
        kept := kept + 1;
      }
    }
  }

  /** No prefix shorter than `kept` reaches the given share. */
  ghost predicate StillBelow(all: seq<real>, kept: nat, percentWeight: real) {
    kept <= |all| && forall i :: 1 <= i < kept ==> Sum(all[..i]) < percentWeight
  }

  lemma BelowMore(all: seq<real>, kept: nat, percentWeight: real)
    requires StillBelow(all, kept, percentWeight) && kept < |all| && Sum(all[..kept]) < percentWeight
    ensures StillBelow(all, kept + 1, percentWeight)
  {}

  lemma PrefixesAgree(all: seq<real>, kept: nat)
    requires kept <= |all|
    ensures forall i :: 0 <= i < kept ==> all[..kept][..i] == all[..i]
  {}

  /** The first of the sorted components gets the weight of the old first one, the others their keys. */
  function SortedWeights(first: real, keys: seq<real>, order: seq<nat>): (r: seq<real>)
    requires IsSorting(order, keys)
    ensures |r| == |keys|
  {
    seq(|keys|, i requires 0 <= i < |keys| => if i == 0 then first else keys[order[i]])
  }

  lemma SortedStart(first: real, keys: seq<real>, order: seq<nat>)
    requires keys != [] && IsSorting(order, keys)
    ensures [] + [first] == SortedWeights(first, keys, order)[..1]
    ensures first == Sum(SortedWeights(first, keys, order)[..1])
  {
    SumMore([], first);
  }

  lemma SortedNext(first: real, keys: seq<real>, order: seq<nat>, a: nat)
    requires IsSorting(order, keys) && 1 <= a < |keys|
    ensures |order| == |keys| && order[a] < |keys|
    ensures var all := SortedWeights(first, keys, order);
            && all[..a + 1] == all[..a] + [keys[order[a]]]
            && Sum(all[..a + 1]) == Sum(all[..a]) + keys[order[a]]
  {
    SumPrefix(SortedWeights(first, keys, order), a);
  }

  lemma PrunedAgree(w: seq<real>, order: seq<nat>, first: real, keys: seq<real>)
    requires w != [] && first == w[0] && keys == Keys(w) && IsSorting(order, keys)
    ensures SortedWeights(first, keys, order) == PrunedWeights(w, order)
  {}

  function Scaled(w: seq<real>, scaling: real): (r: seq<real>)
    ensures |r| == |w|
  {
    seq(|w|, a requires 0 <= a < |w| => Times(w[a], scaling))
  }

  /** The weights after a component has been added. */
  function WithOneMore(w: seq<real>): (r: seq<real>)
    ensures |r| == |w| + 1
  {
    var n := (|w| + 1) as real;
    Scaled(w, Over(n - 1.0, n)) + [Over(1.0, n)]
  }

  lemma RoomForOne(n: real)
    requires n >= 1.0
    ensures Over(n - 1.0, n) >= 0.0 && Over(1.0, n) > 0.0 && Over(n - 1.0, n) + Over(1.0, n) == 1.0
  {
    OverNonneg(n - 1.0, n);
    OverNonneg(1.0, n);
    OverSum(n - 1.0, 1.0, n);
    OverSelf(n);
    hide Over;
    assert n - 1.0 + 1.0 == n;
  }

  /** Adding a component keeps the sum of the weights at one, and gives it a positive weight. */
  lemma OneMoreSums(w: seq<real>)
    requires Nonneg(w) && (w == [] || Sum(w) == 1.0)
    ensures Nonneg(WithOneMore(w)) && Sum(WithOneMore(w)) == 1.0 && WithOneMore(w)[|w|] > 0.0
  {
    hide Times, Over, Scaled;
    var n := (|w| + 1) as real;
    RoomForOne(n);
    var c := Over(n - 1.0, n);
    ScaledSum(w, c);
    SumMore(Scaled(w, c), Over(1.0, n));
    TimesOne(c);
    if w == [] {
      OverSelf(1.0);
    }
  }

  /** Each weight keeps n out of n + 1 parts, and the new one gets one part. */
  lemma OneMoreIs(w: seq<real>, i: nat)
    requires i <= |w|
    ensures var n := |w| as real;
            WithOneMore(w)[i] == if i == |w| then Over(1.0, n + 1.0) else Times(w[i], Over(n, n + 1.0))
  {
    hide Times, Over;
    assert (|w| + 1) as real == |w| as real + 1.0;
  }

  lemma ScaledSum(w: seq<real>, c: real)
    requires Nonneg(w) && c >= 0.0
    ensures Nonneg(Scaled(w, c)) && Sum(Scaled(w, c)) == Times(c, Sum(w))
  {
    hide Times;
    forall a | 0 <= a < |w|
      ensures Scaled(w, c)[a] >= 0.0 && Scaled(w, c)[a] == Times(c, w[a])
    {
      TimesNonneg(w[a], c);
      Commutes(w[a], c);
    }
    SumScaled(w, c, Scaled(w, c));
  }

  /** A case as it is read: values are not negative unless they are marked unknown. */
  predicate IsRaw(x: seq<int>, n: nat) {
    |x| == n && forall i :: 0 <= i < n ==> x[i] == UNKNOWN || x[i] >= 0
  }

  /** Values out of range are reported and skipped. */
  function Clipped(x: seq<int>, ranges: seq<nat>): (y: seq<int>)
    requires IsRaw(x, |ranges|)
    ensures IsCase(y, ranges)
  {
    seq(|x|, i requires 0 <= i < |x| => if x[i] >= ranges[i] then UNKNOWN else x[i])
  }

  predicate Tallyable(s: Stats, ranges: seq<nat>) {
    |s.counts| == |s.totals| == |ranges| && forall i :: 0 <= i < |ranges| ==> |s.counts[i]| == ranges[i]
  }

  function Tallied(s: Stats, obs: seq<seq<int>>, ranges: seq<nat>): (t: Stats)
    requires Tallyable(s, ranges) && forall o :: 0 <= o < |obs| ==> IsRaw(obs[o], |ranges|)
    ensures Tallyable(t, ranges)
    decreases |obs|
  {
    if obs == [] then s
    else
      var n := |obs| - 1;
      Assigned(Tallied(s, obs[..n], ranges), Clipped(obs[n], ranges), 1.0)
  }

  lemma TalliedMore(s: Stats, obs: seq<seq<int>>, ranges: seq<nat>, o: nat)
    requires Tallyable(s, ranges) && (forall o :: 0 <= o < |obs| ==> IsRaw(obs[o], |ranges|)) && o < |obs|
    ensures IsRaw(obs[o], |ranges|)
    ensures CountsFit(Tallied(s, obs[..o], ranges), Clipped(obs[o], ranges))
    ensures Tallied(s, obs[..o + 1], ranges) == Assigned(Tallied(s, obs[..o], ranges), Clipped(obs[o], ranges), 1.0)
  {
    assert obs[..o + 1][..o] == obs[..o];
  }

  lemma {:induction false} TalliedOk(s: Stats, obs: seq<seq<int>>, ranges: seq<nat>)
    requires Tallyable(s, ranges) && StatsOk(s, ranges) && forall o :: 0 <= o < |obs| ==> IsRaw(obs[o], |ranges|)
    ensures StatsOk(Tallied(s, obs, ranges), ranges)
    decreases |obs|
  {
    if obs != [] {
      var n := |obs| - 1;
      TalliedOk(s, obs[..n], ranges);
      AssignedOk(Tallied(s, obs[..n], ranges), ranges, Clipped(obs[n], ranges), 1.0);
    }
  }

  lemma {:induction false} TalliedIs(s: Stats, obs: seq<seq<int>>, ranges: seq<nat>, i: nat, v: nat)
    requires Tallyable(s, ranges) && (forall o :: 0 <= o < |obs| ==> IsRaw(obs[o], |ranges|))
    requires i < |ranges| && v < ranges[i]
    ensures HaveVariable(obs, i)
    ensures var t := Tallied(s, obs, ranges);
            && t.counts[i][v] == s.counts[i][v] + CasesWith(obs, i, v) as real
            && t.totals[i] == s.totals[i] + CasesIn(obs, i, ranges[i]) as real
    decreases |obs|
  {
    if obs != [] {
      var n := |obs| - 1;
      TalliedIs(s, obs[..n], ranges, i, v);
      AssignedIs(Tallied(s, obs[..n], ranges), Clipped(obs[n], ranges), 1.0, i, v);
      hide Assigned;
    }
  }

  lemma TalliedFrequency(obs: seq<seq<int>>, ranges: seq<nat>, i: nat, v: nat)
    requires Schema(ranges) && forall o :: 0 <= o < |obs| ==> IsRaw(obs[o], |ranges|)
    requires Countable(Tallied(NewStats(ranges), obs, ranges), ranges) && i < |ranges| && v < ranges[i]
    ensures HaveVariable(obs, i)
    ensures IsFrequency(Updated(Tallied(NewStats(ranges), obs, ranges), ranges).probs, obs, ranges, i, v)
  {
    TalliedIs(NewStats(ranges), obs, ranges, i, v);
    UpdatedIs(Tallied(NewStats(ranges), obs, ranges), ranges, i, v);
    NewIsFresh(ranges);
    hide Times, Over, Tallied, Updated, CasesIn, CasesWith, NewStats, Uniform, IsRaw;
  }

  lemma TalliedFrequencies(obs: seq<seq<int>>, ranges: seq<nat>)
    requires Schema(ranges) && forall o :: 0 <= o < |obs| ==> IsRaw(obs[o], |ranges|)
    requires Countable(Tallied(NewStats(ranges), obs, ranges), ranges)
    ensures forall i :: 0 <= i < |ranges| ==> HaveVariable(obs, i)
    ensures Frequencies(Updated(Tallied(NewStats(ranges), obs, ranges), ranges).probs, obs, ranges)
  {
    UpdatedShape(Tallied(NewStats(ranges), obs, ranges), ranges);
    var params := Updated(Tallied(NewStats(ranges), obs, ranges), ranges).probs;
    assert forall i :: 0 <= i < |ranges| ==> HaveVariable(obs, i);
    hide IsFrequency, Tallied, NewStats, Updated, HaveVariable, IsRaw, Countable;
    forall i, v | 0 <= i < |ranges| && 0 <= v < ranges[i]
      ensures IsFrequency(params, obs, ranges, i, v)
    {
      TalliedFrequency(obs, ranges, i, v);
    }
  }

  lemma UpdatedRows(s: Stats, ranges: seq<nat>)
    requires Schema(ranges) && StatsOk(s, ranges)
    ensures Countable(s, ranges) && RowsOk(Updated(s, ranges).probs, ranges)
  {
    UpdatedOk(s, ranges);
  }

  method TallyCase(s: Stats, x: seq<int>, ranges: seq<nat>) returns (t: Stats)
    requires Tallyable(s, ranges) && IsRaw(x, |ranges|)
    ensures t == Assigned(s, Clipped(x, ranges), 1.0)
  {
    ghost var goal := Assigned(s, Clipped(x, ranges), 1.0);
    var counts, totals := s.counts, s.totals;
    for i := 0 to |x|
      invariant |counts| == |totals| == |x|
      invariant forall j :: i <= j < |x| ==> counts[j] == s.counts[j] && totals[j] == s.totals[j]
      invariant counts[..i] == goal.counts[..i] && totals[..i] == goal.totals[..i]
    {
      var row, total := counts[i], totals[i];
      if x[i] != UNKNOWN {
        if x[i] < ranges[i] {
          row := row[x[i] := row[x[i]] + 1.0];
          total := total + 1.0;
        }
      }
      counts, totals := Replaced(counts, i, row, goal.counts), Replaced(totals, i, total, goal.totals);
    }
    assert counts == counts[..|x|] && totals == totals[..|x|];
    t := s.(counts := counts, totals := totals);
  }

  // ----- pruning -----

  /** The keys that pruning sorts by. */
  function Keys(w: seq<real>): (k: seq<real>)
    ensures |k| == |w|
  {
    if w == [] then [] else w[0 := 1.0]
  }

  /** A permutation of the indices along which the keys never increase, as sorting leaves them. */
  predicate IsSorting(order: seq<nat>, keys: seq<real>) {
    && |order| == |keys|
    && (forall i :: 0 <= i < |order| ==> order[i] < |keys|)
    && (forall b: nat :: b < |keys| ==> b in order)
    && (forall i, j :: 0 <= i < j < |order| ==> order[i] != order[j] && keys[order[i]] >= keys[order[j]])
  }

  ghost function PrunedWeights(w: seq<real>, order: seq<nat>): (r: seq<real>)
    requires w != [] && IsSorting(order, Keys(w))
    ensures |r| == |w|
  {
    SortedWeights(w[0], Keys(w), order)
  }

  function Gap(x: real, y: real): real {
    if x < y then y - x else x - y
  }

  /** The absolute difference. */
  lemma GapIs(x: real, y: real)
    ensures Gap(x, y) >= 0.0 && (Gap(x, y) == x - y || Gap(x, y) == y - x)
  {}

  function Gaps(s: seq<real>, t: seq<real>): (g: seq<real>)
    requires |s| == |t|
    ensures |g| == |s|
  {
    seq(|s|, a requires 0 <= a < |s| => Gap(s[a], t[a]))
  }

  ghost predicate HasWeight(w: seq<real>) {
    exists a :: 0 <= a < |w| && w[a] > 0.0
  }

  /** Weights that are not negative and not all zero, and statistics in good order. */
  ghost predicate CanLearn(w: seq<real>, stats: seq<Stats>, ranges: seq<nat>) {
    && |w| == |stats| && Nonneg(w) && HasWeight(w)
    && forall a :: 0 <= a < |stats| ==> StatsOk(stats[a], ranges)
  }

  ghost predicate AllFitCounts(stats: seq<Stats>, obs: seq<seq<int>>) {
    forall a, o :: 0 <= a < |stats| && 0 <= o < |obs| ==> CountsFit(stats[a], obs[o])
  }

  lemma CaseReady(w: seq<real>, stats: seq<Stats>, ranges: seq<nat>, x: seq<int>)
    requires CanLearn(w, stats, ranges) && IsCase(x, ranges)
    ensures AllFit(ModelsOf(stats), x) && Likelihood(w, ModelsOf(stats), x) > 0.0
    ensures Nonneg(Posterior(w, ModelsOf(stats), x))
    ensures forall a :: 0 <= a < |stats| ==> Prob(ModelsOf(stats)[a], x) > 0.0
  {
    CaseLikely(w, ModelsOf(stats), ranges, x);
    PosteriorNonneg(w, ModelsOf(stats), x);
  }

  lemma LearnReady(w: seq<real>, stats: seq<Stats>, ranges: seq<nat>, obs: seq<seq<int>>)
    requires CanLearn(w, stats, ranges) && forall o :: 0 <= o < |obs| ==> IsCase(obs[o], ranges)
    ensures AllLikely(w, ModelsOf(stats), obs) && AllFitCounts(stats, obs) && Nonneg(w)
    ensures forall o, a :: 0 <= o < |obs| && 0 <= a < |stats| ==> Prob(ModelsOf(stats)[a], obs[o]) >= 0.0
  {
    forall o | 0 <= o < |obs|
      ensures AllFit(ModelsOf(stats), obs[o]) && Likelihood(w, ModelsOf(stats), obs[o]) > 0.0
      ensures forall a :: 0 <= a < |stats| ==> Prob(ModelsOf(stats)[a], obs[o]) > 0.0 && CountsFit(stats[a], obs[o])
    {
      CaseReady(w, stats, ranges, obs[o]);
      AllCountsFit(stats, ranges, obs[o]);
    }
  }

  lemma StillLearns(w: seq<real>, stats: seq<Stats>, ranges: seq<nat>)
    requires |w| == |stats| && Nonneg(w) && Sum(w) == 1.0 && forall a :: 0 <= a < |stats| ==> StatsOk(stats[a], ranges)
    ensures CanLearn(w, stats, ranges)
  {
    SumPositive(w);
  }

  ghost function AllCounted(stats: seq<Stats>, w: seq<real>, models: seq<Params>, obs: seq<seq<int>>): (t: seq<Stats>)
    requires AllLikely(w, models, obs) && |stats| == |w| && AllFitCounts(stats, obs)
    ensures |t| == |stats|
  {
    seq(|stats|, a requires 0 <= a < |stats| => Counted(stats[a], w, models, obs, a))
  }

  /** Every component has learnt the frequencies of its share of the cases, and counts anew. */
  ghost predicate AllLearnt(before: seq<Stats>, after: seq<Stats>, ranges: seq<nat>, w: seq<real>,
                            models: seq<Params>, obs: seq<seq<int>>) {
    && |before| == |after| == |w| && AllLikely(w, models, obs)
    && (forall i :: 0 <= i < |ranges| ==> HaveVariable(obs, i))
    && forall a :: 0 <= a < |after| ==>
         Learnt(before[a], after[a], ranges, w, models, obs, a) && Fresh(after[a], ranges)
  }

  lemma EachLearns(stats: seq<Stats>, ranges: seq<nat>, w: seq<real>, models: seq<Params>, obs: seq<seq<int>>)
    requires AllLikely(w, models, obs) && |stats| == |w| && AllFitCounts(stats, obs)
    requires Schema(ranges) && forall o :: 0 <= o < |obs| ==> IsCase(obs[o], ranges)
    requires forall a :: 0 <= a < |stats| ==> StatsOk(stats[a], ranges)
    requires AllCountable(AllCounted(stats, w, models, obs), ranges)
    ensures AllLearnt(stats, AllUpdated(AllCounted(stats, w, models, obs), ranges), ranges, w, models, obs)
  {
    var counted := AllCounted(stats, w, models, obs);
    hide AllLikely, Fresh, Learnt;
    forall a | 0 <= a < |stats|
      ensures var t := Updated(counted[a], ranges);
              Learnt(stats[a], t, ranges, w, models, obs, a) && Fresh(t, ranges)
    {
      TotalsPositive(stats[a], ranges);
      StepLearns(stats[a], ranges, w, models, obs, a);
      UpdatedFresh(counted[a], ranges);
    }
  }

  lemma NothingCounted(stats: seq<Stats>, w: seq<real>, models: seq<Params>)
    requires |stats| == |w| == |models|
    ensures AllCounted(stats, w, models, []) == stats
  {}

  lemma CountedModels(stats: seq<Stats>, w: seq<real>, models: seq<Params>, obs: seq<seq<int>>)
    requires AllLikely(w, models, obs) && |stats| == |w| && AllFitCounts(stats, obs)
    ensures ModelsOf(AllCounted(stats, w, models, obs)) == ModelsOf(stats)
  {}

  lemma CountedMore(stats: seq<Stats>, w: seq<real>, models: seq<Params>, obs: seq<seq<int>>, i: nat)
    requires AllLikely(w, models, obs) && |stats| == |w| && AllFitCounts(stats, obs) && i < |obs|
    ensures var before := AllCounted(stats, w, models, obs[..i]);
            && (forall a :: 0 <= a < |before| ==> CountsFit(before[a], obs[i]))
            && AllCounted(stats, w, models, obs[..i + 1]) == AllAssigned(before, obs[i], Posterior(w, models, obs[i]))
  {
    var before := AllCounted(stats, w, models, obs[..i]);
    assert obs[..i + 1][..i] == obs[..i];
    forall a | 0 <= a < |stats|
      ensures CountsFit(before[a], obs[i])
      ensures Counted(stats[a], w, models, obs[..i + 1], a)
           == Assigned(before[a], obs[i], Posterior(w, models, obs[i])[a])
    {
      ShapeFits(stats[a], before[a], obs[i]);
    }
  }

  lemma AccountedMore(w: seq<real>, models: seq<Params>, obs: seq<seq<int>>, i: nat)
    requires AllLikely(w, models, obs) && i < |obs|
    ensures Accounted(w, models, obs[..i + 1]) == Added(Accounted(w, models, obs[..i]), Posterior(w, models, obs[i]))
  {
    assert obs[..i + 1][..i] == obs[..i];
  }

  /** The entries before `a` have been written, the others not yet. */
  ghost predicate Halfway<T>(start: seq<T>, s: seq<T>, goal: seq<T>, a: nat) {
    && |start| == |s| == |goal| && a <= |s|
    && forall i :: 0 <= i < |s| ==> s[i] == if i < a then goal[i] else start[i]
  }

  lemma HalfwayMore<T>(start: seq<T>, s: seq<T>, goal: seq<T>, a: nat)
    requires Halfway(start, s, goal, a) && a < |s|
    ensures s[a] == start[a] && Halfway(start, s[a := goal[a]], goal, a + 1)
  {}

  lemma HalfwayDone<T>(start: seq<T>, s: seq<T>, goal: seq<T>)
    requires Halfway(start, s, goal, |s|)
    ensures s == goal
  {}

  function Quotients(terms: seq<real>, total: real): (q: seq<real>)
    requires total != 0.0
    ensures |q| == |terms|
  {
    seq(|terms|, a requires 0 <= a < |terms| => Over(terms[a], total))
  }

  function Added(s: seq<real>, t: seq<real>): seq<real>
    requires |s| == |t|
  {
    seq(|s|, a requires 0 <= a < |s| => s[a] + t[a])
  }

  function AllAssigned(stats: seq<Stats>, x: seq<int>, shares: seq<real>): seq<Stats>
    requires |shares| == |stats| && forall a :: 0 <= a < |stats| ==> CountsFit(stats[a], x)
  {
    seq(|stats|, a requires 0 <= a < |stats| => Assigned(stats[a], x, shares[a]))
  }

  lemma AssignedAt(stats: seq<Stats>, x: seq<int>, shares: seq<real>, a: nat)
    requires |shares| == |stats| && a < |stats| && forall a :: 0 <= a < |stats| ==> CountsFit(stats[a], x)
    ensures CountsFit(stats[a], x)
    ensures |AllAssigned(stats, x, shares)| == |stats|
    ensures AllAssigned(stats, x, shares)[a] == Assigned(stats[a], x, shares[a])
  {}

  lemma AllCountsFit(stats: seq<Stats>, ranges: seq<nat>, x: seq<int>)
    requires IsCase(x, ranges) && forall a :: 0 <= a < |stats| ==> StatsOk(stats[a], ranges)
    ensures forall a :: 0 <= a < |stats| ==> CountsFit(stats[a], x)
  {}

  predicate AllCountable(stats: seq<Stats>, ranges: seq<nat>) {
    forall a :: 0 <= a < |stats| ==> Countable(stats[a], ranges)
  }

  function AllUpdated(stats: seq<Stats>, ranges: seq<nat>): seq<Stats>
    requires Schema(ranges) && AllCountable(stats, ranges)
  {
    seq(|stats|, a requires 0 <= a < |stats| => Updated(stats[a], ranges))
  }

  /** The components before `a` are updated, and merging the rest completes the merge of all. */
  ghost predicate Progress(start: seq<Stats>, ranges: seq<nat>, all: seq<Stats>, w0: seq<real>, w: seq<real>,
                           a: nat, last: nat) {
    && Schema(ranges) && AllCountable(start, ranges) && |w| == |w0| == |start| && a <= |start| && (a == 0 || last < a)
    && (forall i :: 0 <= i < |start| ==> Comparable(Some(AllUpdated(start, ranges)[i].probs), ranges))
    && Halfway(start, all, AllUpdated(start, ranges), a)
    && var models := ModelsOf(AllUpdated(start, ranges));
    && Merged(models, w, a, last) == Merged(models, w0, 0, 0)
  }

  lemma ProgressStart(start: seq<Stats>, ranges: seq<nat>, w0: seq<real>)
    requires Schema(ranges) && AllCountable(start, ranges) && |w0| == |start|
    requires forall i :: 0 <= i < |start| ==> Comparable(Some(AllUpdated(start, ranges)[i].probs), ranges)
    ensures Progress(start, ranges, start, w0, w0, 0, 0)
  {}

  lemma ProgressReady(start: seq<Stats>, ranges: seq<nat>, all: seq<Stats>, w0: seq<real>, w: seq<real>, a: nat,
                      last: nat)
    requires Progress(start, ranges, all, w0, w, a, last) && a < |start|
    ensures |all| == |start| && (a == 0 || last < a) && Countable(all[a], ranges) && Schema(ranges)
    ensures a > 0 ==> Comparable(Some(all[last].probs), ranges)
    ensures Comparable(None, ranges)
  {}

  lemma ProgressMore(start: seq<Stats>, ranges: seq<nat>, all: seq<Stats>, w0: seq<real>, w: seq<real>, a: nat,
                     last: nat, s: Stats, isDuplicate: bool, previous: Option<Params>)
    requires Progress(start, ranges, all, w0, w, a, last) && a < |start| && |all| == |start| && (a == 0 || last < a)
    requires previous == if a == 0 then None else Some(all[last].probs)
    requires Countable(all[a], ranges) && s == Updated(all[a], ranges) && Detects(isDuplicate, previous, s.probs)
    ensures isDuplicate ==> last < a
    ensures Progress(start, ranges, all[a := s], w0, Moved(w, isDuplicate, last, a), a + 1,
                     if isDuplicate then last else a)
  {
    var goal := AllUpdated(start, ranges);
    hide StatsOk, RowsOk, Updated, Countable, Comparable, Merged;
    HalfwayMore(start, all, goal, a);
    MergedNext(ModelsOf(goal), w, a, last, isDuplicate);
  }

  lemma ProgressEnd(start: seq<Stats>, ranges: seq<nat>, all: seq<Stats>, w0: seq<real>, w: seq<real>, last: nat)
    requires Progress(start, ranges, all, w0, w, |start|, last)
    ensures all == AllUpdated(start, ranges) && w == Merged(ModelsOf(all), w0, 0, 0)
  {
    HalfwayDone(start, all, AllUpdated(start, ranges));
  }

  function Moved(w: seq<real>, isDuplicate: bool, last: nat, a: nat): (m: seq<real>)
    requires a < |w| && (isDuplicate ==> last < a)
    ensures |m| == |w|
  {
    if isDuplicate then w[last := w[last] + w[a]][a := 0.0] else w
  }

  lemma MergedNext(models: seq<Params>, w: seq<real>, a: nat, last: nat, isDuplicate: bool)
    requires |models| == |w| && a < |w| && (a == 0 || last < a)
    requires isDuplicate <==> a > 0 && models[a] == models[last]
    ensures Merged(models, w, a, last)
         == Merged(models, Moved(w, isDuplicate, last, a), a + 1, if isDuplicate then last else a)
  {}

  lemma AllUpdatedOk(stats: seq<Stats>, ranges: seq<nat>)
    requires Schema(ranges) && forall a :: 0 <= a < |stats| ==> StatsOk(stats[a], ranges)
    ensures AllCountable(stats, ranges)
    ensures forall a :: 0 <= a < |stats| ==>
      StatsOk(AllUpdated(stats, ranges)[a], ranges) && Comparable(Some(AllUpdated(stats, ranges)[a].probs), ranges)
  {
    forall a | 0 <= a < |stats|
      ensures Countable(stats[a], ranges)
    {
      UpdatedOk(stats[a], ranges);
    }
    forall a | 0 <= a < |stats|
      ensures StatsOk(AllUpdated(stats, ranges)[a], ranges)
    {
      UpdatedOk(stats[a], ranges);
    }
  }

  method CountCase(s: Stats, obs: seq<int>, p: real) returns (t: Stats)
    requires CountsFit(s, obs)
    ensures t == Assigned(s, obs, p)
  {
    var counts, totals := s.counts, s.totals;
    for i := 0 to |obs|
      invariant |counts| == |totals| == |obs|
      invariant forall j :: i <= j < |obs| ==> counts[j] == s.counts[j] && totals[j] == s.totals[j]
      invariant counts[..i] == Assigned(s, obs, p).counts[..i]
      invariant totals[..i] == Assigned(s, obs, p).totals[..i]
    {
      var row, total := counts[i], totals[i];
      if obs[i] != UNKNOWN {
        row := row[obs[i] := row[obs[i]] + p];
        total := total + p;
      }
      counts, totals := Replaced(counts, i, row, Assigned(s, obs, p).counts),
                        Replaced(totals, i, total, Assigned(s, obs, p).totals);
    }
    assert counts == counts[..|obs|] && totals == totals[..|obs|];
    t := s.(counts := counts, totals := totals);
  }

  /** Writing entry `i` extends by one the part that agrees with `goal`. */
  function Replaced<T>(s: seq<T>, i: nat, x: T, ghost goal: seq<T>): (t: seq<T>)
    requires i < |s| == |goal| && s[..i] == goal[..i] && x == goal[i]
    ensures |t| == |s| && t[..i + 1] == goal[..i + 1] && forall j :: i < j < |s| ==> t[j] == s[j]
  {
    assert s[i := x][..i + 1] == s[..i] + [x] && goal[..i + 1] == goal[..i] + [goal[i]];
    s[i := x]
  }

  /** The row of one variable becomes its relative counts. */
  method NormalizedRow(counts: Row, total: real) returns (row: Row)
    requires total != 0.0
    ensures row == seq(|counts|, v requires 0 <= v < |counts| => Over(counts[v], total))
  {
    hide Over;
    row := [];
    for v := 0 to |counts|
      invariant |row| == v && forall u :: 0 <= u < v ==> row[u] == Over(counts[u], total)
    {
      row := row + [Over(counts[v], total)];
    }
  }

  predicate Comparable(previous: Option<Params>, ranges: seq<nat>) {
    match previous
    case None => true
    case Some(p) => |p| == |ranges| && forall i :: 0 <= i < |ranges| ==> |p[i]| == ranges[i]
  }

  ghost predicate Detects(isDuplicate: bool, previous: Option<Params>, probs: Params) {
    isDuplicate <==> previous.Some? && previous.value == probs
  }

  /** New parameters from the counts, compared on the way with those of an earlier component. */
  method UpdateStats(s: Stats, ranges: seq<nat>, previous: Option<Params>) returns (t: Stats, isDuplicate: bool)
    requires Schema(ranges) && Countable(s, ranges) && Comparable(previous, ranges)
    ensures t == Updated(s, ranges)
    ensures Detects(isDuplicate, previous, t.probs)
  {
    hide Over, Uniform;
    isDuplicate := previous.Some?;
    var probs: Params := [];
    for i := 0 to |ranges|
      invariant probs == Normalized(s.counts, s.totals)[..i]
      invariant isDuplicate <==> previous.Some? && probs == previous.value[..i]
    {
      var row := NormalizedRow(s.counts[i], s.totals[i]);
      assert row == Normalized(s.counts, s.totals)[i];
      if previous.Some? {
        PrefixesEqual(probs, row, previous.value, i);
        if isDuplicate {
          isDuplicate := SameRow(row, previous.value[i]);
        }
      }
      probs := probs + [row];
    }
    assert previous.Some? ==> previous.value[..|ranges|] == previous.value;
    t := Stats(probs, UniformParams(ranges), Ones(|ranges|));
  }

  lemma PrefixesEqual(p: Params, row: Row, q: Params, i: nat)
    requires |p| == i < |q|
    ensures p + [row] == q[..i + 1] <==> p == q[..i] && row == q[i]
  {
    assert q[..i + 1] == q[..i] + [q[i]];
    if p + [row] == q[..i] + [q[i]] {
      assert (p + [row])[..i] == p && (q[..i] + [q[i]])[..i] == q[..i];
      assert (p + [row])[i] == row && (q[..i] + [q[i]])[i] == q[i];
    }
  }

  method SameRow(p: Row, q: Row) returns (same: bool)
    requires |p| == |q|
    ensures same <==> p == q
  {
    for v := 0 to |p|
      invariant p[..v] == q[..v]
    {
      if p[v] != q[v] {
        return false;
      }
      assert p[..v + 1] == p[..v] + [p[v]] && q[..v + 1] == q[..v] + [q[v]];
    }
    assert p[..|p|] == p && q[..|p|] == q;
    same := true;
  }

  method Filled(values: seq<real>) returns (w: GrowArray<real>)
    ensures fresh(w) && fresh(w.slots) && w.Valid() && w.Contents() == values
  {
    w := new GrowArray<real>(16);
    for i := 0 to |values|
      invariant fresh(w) && fresh(w.slots) && w.Valid() && w.Contents() == values[..i]
    {
      w.Append(values[i]);
    }
  }

  lemma SharesMore(weights: seq<real>, models: seq<Params>, e: seq<int>, v: nat, range: nat, a: nat)
    requires |weights| == |models| && AllFit(models, e) && Likelihood(weights, models, e) > 0.0 && a < |weights|
    requires forall val :: 0 <= val < range ==> HasValue(models, v, val)
    ensures forall val :: 0 <= val < range ==>
      Sum(Shares(weights, models, e, v, val)[..a + 1])
      == Sum(Shares(weights, models, e, v, val)[..a]) + Times(Posterior(weights, models, e)[a], models[a][v][val])
  {
    hide Times, Over, Likelihood;
    forall val | 0 <= val < range && HasValue(models, v, val)
      ensures Sum(Shares(weights, models, e, v, val)[..a + 1])
           == Sum(Shares(weights, models, e, v, val)[..a]) + Times(Posterior(weights, models, e)[a], models[a][v][val])
    {
      SumPrefix(Shares(weights, models, e, v, val), a);
    }
  }

  lemma SharesDone(weights: seq<real>, models: seq<Params>, e: seq<int>, v: nat, range: nat, row: Row)
    requires |weights| == |models| && AllFit(models, e) && Likelihood(weights, models, e) > 0.0
    requires v < |e| && Missing(e[v]) && RowsSumToOne(models, v, range) && |row| == range
    requires forall val :: 0 <= val < range ==>
      HasValue(models, v, val) && row[val] == Sum(Shares(weights, models, e, v, val)[..|weights|])
    ensures IsMarginal(weights, models, e, v, range, row)
  {
    hide Times, Over, Likelihood;
    forall val | 0 <= val < range
      ensures row[val] == Marginal(weights, models, e, v, val)
    {
      var shares := Shares(weights, models, e, v, val);
      assert shares[..|weights|] == shares;
    }
    MarginalSums(weights, models, e, v, range, row);
  }

  ghost predicate IsMarginal(weights: seq<real>, models: seq<Params>, e: seq<int>, v: nat, range: nat, row: Row) {
    && |weights| == |models| && AllFit(models, e) && Likelihood(weights, models, e) > 0.0
    && |row| == range && Sum(row) == 1.0
    && forall val :: 0 <= val < range ==> HasValue(models, v, val) && row[val] == Marginal(weights, models, e, v, val)
  }

  lemma ModelRows(stats: seq<Stats>, ranges: seq<nat>, v: nat)
    requires v < |ranges| && forall a :: 0 <= a < |stats| ==> StatsOk(stats[a], ranges)
    ensures RowsSumToOne(ModelsOf(stats), v, ranges[v])
    ensures forall val :: 0 <= val < ranges[v] ==> HasValue(ModelsOf(stats), v, val)
    ensures forall a :: 0 <= a < |stats| ==> v < |stats[a].probs| && |stats[a].probs[v]| == ranges[v]
  {}

  method AddScaled(row: Row, w: real, probs: Row) returns (r: Row)
    requires |probs| == |row|
    ensures |r| == |row| && forall val :: 0 <= val < |row| ==> r[val] == row[val] + Times(w, probs[val])
  {
    hide Times;
    r := row;
    for val := 0 to |row|
      invariant |r| == |row|
      invariant forall u :: 0 <= u < |row| ==> r[u] == if u < val then row[u] + Times(w, probs[u]) else row[u]
    {
      r := r[val := r[val] + Times(w, probs[val])];
    }
  }

  ghost function ModelsOf(stats: seq<Stats>): (m: seq<Params>)
    ensures |m| == |stats|
  {
    seq(|stats|, a requires 0 <= a < |stats| => stats[a].probs)
  }

  lemma ProbMore(params: Params, x: seq<int>, i: nat)
    requires Fits(params, x) && i < |x|
    ensures Prob(params[..i + 1], x[..i + 1]) == Times(Prob(params[..i], x[..i]), Factor(params[i], x[i]))
  {
    assert params[..i + 1][..i] == params[..i] && x[..i + 1][..i] == x[..i];
  }

  lemma {:induction false} ProbZero(params: Params, x: seq<int>, i: nat)
    requires Fits(params, x) && i <= |x| && Prob(params[..i], x[..i]) == 0.0
    ensures Prob(params, x) == 0.0
    decreases |x| - i
  {
    if i == |x| {
      assert params[..i] == params && x[..i] == x;
    } else {
      ProbMore(params, x, i);
      TimesOne(Factor(params[i], x[i]));
      ProbZero(params, x, i + 1);
    }
  }

  lemma KeysNonneg(w: seq<real>, order: seq<nat>)
    requires w != [] && Nonneg(w) && IsSorting(order, Keys(w))
    ensures Nonneg(PrunedWeights(w, order))
  {}

  /** If some weight other than the first is positive, then so is the second in the order. */
  lemma SecondPositive(w: seq<real>, order: seq<nat>, b: nat)
    requires w != [] && Nonneg(w) && IsSorting(order, Keys(w)) && 1 <= b < |w| && w[b] > 0.0
    ensures |w| > 1 && PrunedWeights(w, order)[1] > 0.0
  {
    var keys := Keys(w);
    assert 0 in order && b in order;
    var i :| 0 <= i < |order| && order[i] == 0;
    var j :| 0 <= j < |order| && order[j] == b;
    var later := if i > j then i else j;
    assert keys[order[later]] > 0.0;
    if later > 1 {
      assert keys[order[1]] >= keys[order[later]];
    }
  }

  /** The first `kept` of the pruned weights, as `Prune` leaves them. */
  ghost predicate IsKept(w: seq<real>, order: seq<nat>, percentWeight: real, kept: nat)
    requires w != [] && IsSorting(order, Keys(w))
  {
    && 1 <= kept <= |w|
    && (forall i :: 1 <= i < kept ==> Sum(PrunedWeights(w, order)[..i]) < percentWeight)
    && (kept < |w| ==> Sum(PrunedWeights(w, order)[..kept]) >= percentWeight)
  }

  lemma FirstSum(w: seq<real>, order: seq<nat>)
    requires w != [] && IsSorting(order, Keys(w))
    ensures Sum(PrunedWeights(w, order)[..1]) == w[0]
  {
    SumMore([], w[0]);
    assert [] + [w[0]] == PrunedWeights(w, order)[..1];
  }

  lemma KeptBeyondFirst(w: seq<real>, order: seq<nat>, percentWeight: real, kept: nat)
    requires w != [] && Nonneg(w) && IsSorting(order, Keys(w)) && IsKept(w, order, percentWeight, kept) && kept > 1
    ensures percentWeight > 0.0
  {
    KeysNonneg(w, order);
    hide IsSorting;
    FirstSum(w, order);
    assert Sum(PrunedWeights(w, order)[..1]) < percentWeight;
  }

  lemma KeptSecond(w: seq<real>, order: seq<nat>, percentWeight: real, kept: nat)
    requires w != [] && Nonneg(w) && HasWeight(w) && IsSorting(order, Keys(w))
    requires IsKept(w, order, percentWeight, kept) && w[0] == 0.0 && percentWeight > 0.0
    ensures kept > 1 && PrunedWeights(w, order)[1] > 0.0
  {
    var b :| 0 <= b < |w| && w[b] > 0.0;
    SecondPositive(w, order, b);
    FirstSum(w, order);
  }

  /**
    Pruning leaves something to learn from exactly when the first component has weight or a positive
    share is to be kept.
  */
  lemma PruneLeavesWeight(w: seq<real>, order: seq<nat>, percentWeight: real, kept: nat)
    requires w != [] && Nonneg(w) && HasWeight(w) && IsSorting(order, Keys(w)) && IsKept(w, order, percentWeight, kept)
    ensures Nonneg(PrunedWeights(w, order)[..kept])
    ensures HasWeight(PrunedWeights(w, order)[..kept]) <==> w[0] > 0.0 || percentWeight > 0.0
  {
    var pruned := PrunedWeights(w, order);
    KeysNonneg(w, order);
    hide IsSorting, IsKept;
    assert pruned[0] == w[0] && forall i :: 0 <= i < kept ==> pruned[..kept][i] == pruned[i];
    if kept > 1 {
      KeptBeyondFirst(w, order, percentWeight, kept);
    }
    if w[0] == 0.0 && percentWeight > 0.0 {
      KeptSecond(w, order, percentWeight, kept);
    }
    assert (w[0] > 0.0 ==> pruned[..kept][0] > 0.0) && (kept > 1 ==> pruned[..kept][1] == pruned[1]);
  }

  lemma WeightLeft(w: seq<real>, order: seq<nat>, percentWeight: real, left: seq<real>)
    requires w != [] && Nonneg(w) && HasWeight(w) && IsSorting(order, Keys(w)) && 1 <= |left| <= |w|
    requires left == PrunedWeights(w, order)[..|left|]
    requires forall i :: 1 <= i < |left| ==> Sum(left[..i]) < percentWeight
    requires |left| < |w| ==> Sum(left) >= percentWeight
    ensures Nonneg(left) && (HasWeight(left) <==> w[0] > 0.0 || percentWeight > 0.0)
  {
    hide IsSorting, PrunedWeights;
    assert forall i :: 1 <= i < |left| ==> left[..i] == PrunedWeights(w, order)[..i];
    PruneLeavesWeight(w, order, percentWeight, |left|);
  }

  // ----- whose weight a component ends up with -----

  ghost predicate KeepsOwnWeights(w: seq<real>, order: seq<nat>)
    requires w != [] && IsSorting(order, Keys(w))
  {
    forall i :: 0 <= i < |w| ==> PrunedWeights(w, order)[i] == w[order[i]]
  }

  /** One sort leaves everyone their weight if it puts the first component first, or one that weighs the same. */
  lemma KeepsOwnAfter(w: seq<real>, order: seq<nat>)
    requires w != [] && IsSorting(order, Keys(w))
    ensures KeepsOwnWeights(w, order) <==> order[0] == 0 || w[order[0]] == 1.0 == w[0]
  {
    var pruned, keys := PrunedWeights(w, order), Keys(w);
    assert 0 in order;
    var j :| 0 <= j < |order| && order[j] == 0;
    assert forall i :: 0 < i < |w| && i != j ==> order[i] != 0 && pruned[i] == w[order[i]];
    if j > 0 {
      assert pruned[0] == w[0] && pruned[j] == 1.0;
      assert keys[order[0]] >= keys[order[j]];
    }
  }

  /** The indices below `n`. */
  ghost function Indices(n: nat): (s: set<nat>)
    ensures |s| == n && forall b: nat :: b in s <==> b < n
  {
    if n == 0 then {} else Indices(n - 1) + {n - 1}
  }

  lemma {:induction false} LargestOf(keys: seq<real>, rest: set<nat>) returns (c: nat)
    requires rest != {} && forall b :: b in rest ==> b < |keys|
    ensures c in rest && forall b :: b in rest ==> keys[c] >= keys[b]
    decreases |rest|
  {
    c :| c in rest;
    assert forall b :: b in rest ==> b == c || b in rest - {c};
    if rest - {c} != {} {
      var d := LargestOf(keys, rest - {c});
      c := if keys[d] >= keys[c] then d else c;
    }
  }

  lemma {:induction false} Descending(keys: seq<real>, rest: set<nat>) returns (order: seq<nat>)
    requires forall b :: b in rest ==> b < |keys|
    ensures |order| == |rest| && forall b :: b in order <==> b in rest
    ensures forall i, j :: 0 <= i < j < |order| ==>
              order[i] != order[j] && order[i] < |keys| && order[j] < |keys| && keys[order[i]] >= keys[order[j]]
    decreases |rest|
  {
    order := [];
    if rest != {} {
      var c := LargestOf(keys, rest);
      var tail := Descending(keys, rest - {c});
      order := [c] + tail;
    }
  }

  /** Any largest key may come first. */
  lemma LargestFirst(keys: seq<real>, c: nat) returns (order: seq<nat>)
    requires c < |keys| && forall b :: 0 <= b < |keys| ==> keys[c] >= keys[b]
    ensures IsSorting(order, keys) && order[0] == c
  {
    var all := Indices(|keys|);
    var tail := Descending(keys, all - {c});
    order := [c] + tail;
    assert forall i :: 0 < i < |order| ==> order[i] == tail[i - 1] && order[i] in tail;
  }

  /**
    Every component keeps its own weight, however ties are sorted, exactly when each other component
    weighs less than one, or just as much as the first.
  */
  lemma PruneKeepsOwnWeights(w: seq<real>)
    requires w != []
    ensures (forall order | IsSorting(order, Keys(w)) :: KeepsOwnWeights(w, order))
            <==> forall b :: 1 <= b < |w| ==> w[b] < 1.0 || w[b] == 1.0 == w[0]
  {
    var keys := Keys(w);
    if forall b :: 1 <= b < |w| ==> w[b] < 1.0 || w[b] == 1.0 == w[0] {
      forall order | IsSorting(order, keys)
        ensures KeepsOwnWeights(w, order)
      {
        FirstHasLargest(keys, order, 0);
        KeepsOwnAfter(w, order);
      }
    } else {
      var b :| 1 <= b < |w| && !(w[b] < 1.0 || w[b] == 1.0 == w[0]);
      var others := Indices(|w|) - {0};
      assert b in others && keys[b] == w[b];
      var c := LargestOf(keys, others);
      assert forall a :: 0 <= a < |w| ==> a == 0 || a in others;
      var order := LargestFirst(keys, c);
      KeepsOwnAfter(w, order);
    }
  }

  lemma FirstHasLargest(keys: seq<real>, order: seq<nat>, b: nat)
    requires IsSorting(order, keys) && b < |keys|
    ensures keys[order[0]] >= keys[b]
  {
    assert b in order;
    var j :| 0 <= j < |order| && order[j] == b;
  }

  /** For shares of one whole: when the first component weighs anything, or no other has the whole weight. */
  lemma PruneKeepsOwnShares(w: seq<real>)
    requires w != [] && Nonneg(w) && Sum(w) <= 1.0
    ensures (forall order | IsSorting(order, Keys(w)) :: KeepsOwnWeights(w, order))
            <==> w[0] > 0.0 || forall b :: 0 <= b < |w| ==> w[b] < 1.0
  {
    PruneKeepsOwnWeights(w);
    forall b | 1 <= b < |w|
      ensures w[0] + w[b] <= 1.0
    {
      TwoOfSum(w, 0, b);
    }
  }

  lemma TwoOfSum(w: seq<real>, i: nat, j: nat)
    requires Nonneg(w) && i < j < |w|
    ensures w[i] + w[j] <= Sum(w)
  {
    var rest := w[i := 0.0][j := 0.0];
    SumUpdate(w, i, 0.0);
    SumUpdate(w[i := 0.0], j, 0.0);
    SumNonneg(rest);
  }

  /** A tie can put another component first: the weights of the two are then exchanged. */
  lemma PruneTie()
    ensures var w: seq<real>, order: seq<nat> := [0.0, 1.0], [1, 0];
            && IsSorting(order, Keys(w))
            && PrunedWeights(w, order)[0] == 0.0 != w[order[0]]
            && PrunedWeights(w, order)[1] == 1.0 != w[order[1]]
  {
    var w: seq<real>, order: seq<nat> := [0.0, 1.0], [1, 0];
    assert Keys(w) == [1.0, 1.0];
    assert order[0] == 1 && order[1] == 0;
  }
}
