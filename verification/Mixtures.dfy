/**
  A mixture of naive Bayes models over discrete variables: what its parameters mean, and the laws that
  training and inference rest on.  Probabilities are exact reals.
*/
module Mixtures {
  import opened Reals
  import opened Sums

  const UNKNOWN := -99999999
  const UNTESTED := -9999999

  /** One probability for each value of a variable. */
  type Row = seq<real>

  /** One row for each variable. */
  type Params = seq<Row>

  /** A value of a variable, or a mark for a value that is missing. */
  predicate IsCell(x: int, range: nat) {
    x == UNKNOWN || x == UNTESTED || 0 <= x < range
  }

  predicate Fits(params: Params, x: seq<int>) {
    |params| == |x| && forall i :: 0 <= i < |x| ==> IsCell(x[i], |params[i]|)
  }

  /** A missing value does not count. */
  function Factor(row: Row, x: int): real
    requires IsCell(x, |row|)
  {
    if x == UNTESTED || x == UNKNOWN then 1.0 else row[x]
  }

  /** The probability of an observation in one component. */
  function Prob(params: Params, x: seq<int>): real
    requires Fits(params, x)
    decreases |x|
  {
    if x == [] then 1.0
    else
      var n := |x| - 1;
      Times(Prob(params[..n], x[..n]), Factor(params[n], x[n]))
  }

  ghost predicate AllFit(models: seq<Params>, x: seq<int>) {
    forall a :: 0 <= a < |models| ==> Fits(models[a], x)
  }

  /** The contribution of every component. */
  ghost function Terms(weights: seq<real>, models: seq<Params>, x: seq<int>): (t: seq<real>)
    requires |weights| == |models| && AllFit(models, x)
    ensures |t| == |weights|
  {
    seq(|weights|, a requires 0 <= a < |weights| => Times(Prob(models[a], x), weights[a]))
  }

  ghost function Likelihood(weights: seq<real>, models: seq<Params>, x: seq<int>): real
    requires |weights| == |models| && AllFit(models, x)
  {
    Sum(Terms(weights, models, x))
  }

  // ----- one variable at a time -----

  /** The factors of all variables but one. */
  function Others(params: Params, x: seq<int>, v: nat): real
    requires Fits(params, x) && v < |x|
    decreases |x|
  {
    var n := |x| - 1;
    if n == v then Prob(params[..n], x[..n])
    else Times(Others(params[..n], x[..n], v), Factor(params[n], x[n]))
  }

  lemma {:induction false} ProbSplit(params: Params, x: seq<int>, v: nat)
    requires Fits(params, x) && v < |x|
    ensures Prob(params, x) == Times(Others(params, x, v), Factor(params[v], x[v]))
    decreases |x|
  {
    hide Times, Factor;
    var n := |x| - 1;
    if n != v {
      ProbSplit(params[..n], x[..n], v);
      Swapped(Others(params[..n], x[..n], v), Factor(params[v], x[v]), Factor(params[n], x[n]));
    }
  }

  lemma {:induction false} OthersKept(params: Params, x: seq<int>, v: nat, y: int)
    requires Fits(params, x) && v < |x| && IsCell(y, |params[v]|)
    ensures Fits(params, x[v := y]) && Others(params, x[v := y], v) == Others(params, x, v)
    decreases |x|
  {
    hide Times, Prob;
    var n := |x| - 1;
    if n == v {
      assert x[v := y][..n] == x[..n];
    } else {
      OthersKept(params[..n], x[..n], v, y);
      assert x[v := y][..n] == x[..n][v := y];
    }
  }

  /** Filling in a missing value multiplies the probability by that value's entry. */
  lemma ProbSet(params: Params, x: seq<int>, v: nat, val: nat)
    requires Fits(params, x) && v < |x| && (x[v] == UNTESTED || x[v] == UNKNOWN) && val < |params[v]|
    ensures Fits(params, x[v := val]) && Prob(params, x[v := val]) == Times(Prob(params, x), params[v][val])
  {
    TimesOne(Others(params, x, v));
    hide Times, Prob, Others;
    OthersKept(params, x, v, val);
    ProbSplit(params, x, v);
    ProbSplit(params, x[v := val], v);
  }

  lemma {:induction false} ProbPositive(params: Params, x: seq<int>)
    requires Fits(params, x) && forall i :: 0 <= i < |params| ==> Positive(params[i])
    ensures Prob(params, x) > 0.0
    decreases |x|
  {
    hide Times;
    if x != [] {
      var n := |x| - 1;
      ProbPositive(params[..n], x[..n]);
      TimesPositive(Prob(params[..n], x[..n]), Factor(params[n], x[n]));
    }
  }

  // ----- evidence -----

  predicate Missing(x: int) {
    x == UNKNOWN || x == UNTESTED
  }

  /** Every component has a row for variable `v` in which `val` is a value. */
  ghost predicate HasValue(models: seq<Params>, v: nat, val: nat) {
    forall a :: 0 <= a < |models| ==> v < |models[a]| && val < |models[a][v]|
  }

  lemma FitsSet(models: seq<Params>, x: seq<int>, v: nat, val: nat)
    requires AllFit(models, x) && v < |x| && HasValue(models, v, val)
    ensures AllFit(models, x[v := val])
  {}

  /** The normalized weights of the components given the evidence. */
  ghost function Posterior(weights: seq<real>, models: seq<Params>, e: seq<int>): (t: seq<real>)
    requires |weights| == |models| && AllFit(models, e) && Likelihood(weights, models, e) > 0.0
    ensures |t| == |weights|
  {
    seq(|weights|, a requires 0 <= a < |weights| => 
      Over(Terms(weights, models, e)[a], Likelihood(weights, models, e)))
  }

  lemma PosteriorSums(weights: seq<real>, models: seq<Params>, e: seq<int>)
    requires |weights| == |models| && AllFit(models, e) && Likelihood(weights, models, e) > 0.0
    ensures Sum(Posterior(weights, models, e)) == 1.0
  {
    hide Times, Over;
    var p, t, total := Posterior(weights, models, e), Terms(weights, models, e), Likelihood(weights, models, e);
    forall a | 0 <= a < |t|
      ensures t[a] == Times(total, p[a])
    {
      OverTimes(t[a], total);
    }
    SumScaled(p, total, t);
    OnlyOne(Sum(p), total);
  }

  // ----- marginals -----

  /** What each component adds to the marginal of variable `v` at `val`. */
  ghost function Shares(weights: seq<real>, models: seq<Params>, e: seq<int>, v: nat, val: nat): (t: seq<real>)
    requires |weights| == |models| && AllFit(models, e) && Likelihood(weights, models, e) > 0.0
    requires HasValue(models, v, val)
    ensures |t| == |weights|
  {
    seq(|weights|, a requires 0 <= a < |weights| => 
      Times(Posterior(weights, models, e)[a], models[a][v][val]))
  }

  ghost function Marginal(weights: seq<real>, models: seq<Params>, e: seq<int>, v: nat, val: nat): real
    requires |weights| == |models| && AllFit(models, e) && Likelihood(weights, models, e) > 0.0
    requires HasValue(models, v, val)
  {
    Sum(Shares(weights, models, e, v, val))
  }

  lemma ShareScaled(total: real, prob: real, weight: real, p: real)
    requires total != 0.0
    ensures Times(Times(prob, p), weight) == Times(total, Times(Over(Times(prob, weight), total), p))
  {
    hide Times, Over;
    OverTimes(Times(prob, weight), total);
    Associates(total, Over(Times(prob, weight), total), p);
    Swapped(prob, p, weight);
  }

  /** A marginal is the ratio of likelihoods with and without the value: Bayes' rule. */
  lemma MarginalIsBayes(weights: seq<real>, models: seq<Params>, e: seq<int>, v: nat, val: nat)
    requires |weights| == |models| && AllFit(models, e) && Likelihood(weights, models, e) > 0.0
    requires v < |e| && Missing(e[v]) && HasValue(models, v, val)
    ensures AllFit(models, e[v := val])
    ensures Times(Likelihood(weights, models, e), Marginal(weights, models, e, v, val))
         == Likelihood(weights, models, e[v := val])
  {
    hide Times, Over, Prob;
    FitsSet(models, e, v, val);
    var total := Likelihood(weights, models, e);
    var shares, terms := Shares(weights, models, e, v, val), Terms(weights, models, e[v := val]);
    forall a | 0 <= a < |weights|
      ensures terms[a] == Times(total, shares[a])
    {
      ProbSet(models[a], e, v, val);
      ShareScaled(total, Prob(models[a], e), weights[a], models[a][v][val]);
    }
    SumScaled(shares, total, terms);
  }

  ghost predicate RowsSumToOne(models: seq<Params>, v: nat, range: nat) {
    forall a :: 0 <= a < |models| ==> v < |models[a]| && |models[a][v]| == range && Sum(models[a][v]) == 1.0
  }

  /** The likelihood for every value of one variable. */
  ghost function ByValue(weights: seq<real>, models: seq<Params>, e: seq<int>, v: nat, range: nat): (t: seq<real>)
    requires |weights| == |models| && AllFit(models, e) && v < |e| && Missing(e[v])
    requires RowsSumToOne(models, v, range)
    ensures |t| == range
  {
    seq(range, val requires 0 <= val < range => (FitsSet(models, e, v, val); Likelihood(weights, models, e[v := val])))
  }

  lemma LikelihoodMore(weights: seq<real>, models: seq<Params>, x: seq<int>)
    requires |weights| == |models| && AllFit(models, x) && weights != []
    ensures var n := |weights| - 1;
            Likelihood(weights, models, x)
              == Likelihood(weights[..n], models[..n], x) + Times(Prob(models[n], x), weights[n])
  {
    hide Times, Prob;
    var n := |weights| - 1;
    var t, p := Terms(weights, models, x), Terms(weights[..n], models[..n], x);
    assert forall a :: 0 <= a < n ==> t[a] == p[a];
    assert t[..n] == p;
  }

  /** Leaving a value unknown gives the sum over all its values. */
  lemma {:induction false} UnknownSums(weights: seq<real>, models: seq<Params>, e: seq<int>, v: nat, range: nat)
    requires |weights| == |models| && AllFit(models, e) && v < |e| && Missing(e[v])
    requires RowsSumToOne(models, v, range)
    ensures Sum(ByValue(weights, models, e, v, range)) == Likelihood(weights, models, e)
    decreases |weights|
  {
    hide Times, Prob, Likelihood;
    if weights == [] {
      NothingByValue(weights, models, e, v, range);
    } else {
      var n := |weights| - 1;
      var before := ByValue(weights[..n], models[..n], e, v, range);
      var row, c := models[n][v], Times(Prob(models[n], e), weights[n]);
      TimesOne(c);
      var last := seq(range, val requires 0 <= val < range => Times(c, row[val]));
      forall val | 0 <= val < range
        ensures ByValue(weights, models, e, v, range)[val] == before[val] + last[val]
      {
        FitsSet(models, e, v, val);
        LikelihoodMore(weights, models, e[v := val]);
        ProbSet(models[n], e, v, val);
        Swapped(Prob(models[n], e), row[val], weights[n]);
      }
      SumAdded(before, last, ByValue(weights, models, e, v, range));
      SumScaled(row, c, last);
      UnknownSums(weights[..n], models[..n], e, v, range);
      LikelihoodMore(weights, models, e);
    }
  }

  lemma NothingByValue(weights: seq<real>, models: seq<Params>, e: seq<int>, v: nat, range: nat)
    requires weights == [] && models == [] && v < |e| && Missing(e[v])
    ensures Sum(ByValue(weights, models, e, v, range)) == 0.0 && Likelihood(weights, models, e) == 0.0
  {
    var t := ByValue(weights, models, e, v, range);
    forall val | 0 <= val < range
      ensures t[val] == 0.0
    {
      assert Terms(weights, models, e[v := val]) == [];
    }
    SumZeros(t);
  }

  /** So the marginal of a variable sums to one. */
  lemma MarginalSums(weights: seq<real>, models: seq<Params>, e: seq<int>, v: nat, range: nat, marginal: seq<real>)
    requires |weights| == |models| && AllFit(models, e) && Likelihood(weights, models, e) > 0.0
    requires v < |e| && Missing(e[v]) && RowsSumToOne(models, v, range) && |marginal| == range
    requires forall val :: 0 <= val < range ==>
              HasValue(models, v, val) && marginal[val] == Marginal(weights, models, e, v, val)
    ensures Sum(marginal) == 1.0
  {
    hide Times, Over, Prob, Likelihood, Marginal;
    var total := Likelihood(weights, models, e);
    var likelihoods := ByValue(weights, models, e, v, range);
    forall val | 0 <= val < range
      ensures likelihoods[val] == Times(total, marginal[val])
    {
      MarginalIsBayes(weights, models, e, v, val);
    }
    SumScaled(marginal, total, likelihoods);
    UnknownSums(weights, models, e, v, range);
    OnlyOne(Sum(marginal), total);
  }

  // ----- the joint model given evidence -----

  /** Two partial observations of different variables. */
  predicate Apart(q: seq<int>, e: seq<int>) {
    |q| == |e| && forall i :: 0 <= i < |q| ==> Missing(q[i]) || Missing(e[i])
  }

  function Both(q: seq<int>, e: seq<int>): (m: seq<int>)
    requires |q| == |e|
    ensures |m| == |q|
  {
    seq(|q|, i requires 0 <= i < |q| => if Missing(q[i]) then e[i] else q[i])
  }

  lemma {:induction false} ProbBoth(params: Params, q: seq<int>, e: seq<int>)
    requires Fits(params, q) && Fits(params, e) && Apart(q, e)
    ensures Fits(params, Both(q, e)) && Prob(params, Both(q, e)) == Times(Prob(params, q), Prob(params, e))
    decreases |q|
  {
    TimesOne(1.0);
    hide Times;
    if q != [] {
      var n := |q| - 1;
      ProbBoth(params[..n], q[..n], e[..n]);
      assert Both(q, e)[..n] == Both(q[..n], e[..n]);
      Interchange(Prob(params[..n], q[..n]), Factor(params[n], q[n]), Prob(params[..n], e[..n]),
        Factor(params[n], e[n]));
    }
  }

  lemma Interchange(a: real, b: real, c: real, d: real)
    requires b == 1.0 || d == 1.0
    ensures Times(Times(a, b), Times(c, d)) == Times(Times(a, c), if b == 1.0 then d else b)
  {
    hide Times;
    TimesOne(a);
    TimesOne(c);
    if b == 1.0 { Associates(a, c, d); } else { Swapped(a, b, c); }
  }

  /** The model with the posterior weights answers queries as conditional probabilities given the evidence. */
  lemma JointConditions(weights: seq<real>, models: seq<Params>, q: seq<int>, e: seq<int>)
    requires |weights| == |models| && AllFit(models, q) && AllFit(models, e) && Apart(q, e)
    requires Likelihood(weights, models, e) > 0.0
    ensures AllFit(models, Both(q, e))
    ensures Times(Likelihood(weights, models, e), Likelihood(Posterior(weights, models, e), models, q))
         == Likelihood(weights, models, Both(q, e))
  {
    hide Times, Over, Prob;
    var total, posterior := Likelihood(weights, models, e), Posterior(weights, models, e);
    forall a | 0 <= a < |models|
      ensures Fits(models[a], Both(q, e))
    {
      ProbBoth(models[a], q, e);
    }
    var joint, both := Terms(posterior, models, q), Terms(weights, models, Both(q, e));
    forall a | 0 <= a < |weights|
      ensures both[a] == Times(total, joint[a])
    {
      ProbBoth(models[a], q, e);
      JointScaled(total, Prob(models[a], q), Prob(models[a], e), weights[a]);
    }
    SumScaled(joint, total, both);
  }

  lemma JointScaled(total: real, q: real, e: real, weight: real)
    requires total != 0.0
    ensures Times(Times(q, e), weight) == Times(total, Times(q, Over(Times(e, weight), total)))
  {
    hide Times, Over;
    var r := Over(Times(e, weight), total);
    OverTimes(Times(e, weight), total);
    Associates(total, q, r);
    Swapped(total, q, r);
    Commutes(Times(total, r), q);
    Associates(q, e, weight);
  }
}
