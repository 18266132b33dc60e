/** Finite sums of reals. */
module Sums {
  import opened Reals

  function Sum(s: seq<real>): real {
    if s == [] then 0.0 else Sum(s[..|s| - 1]) + s[|s| - 1]
  }

  lemma SumMore(s: seq<real>, x: real)
    ensures Sum(s + [x]) == Sum(s) + x
  {
    assert (s + [x])[..|s|] == s;
  }

  lemma SumPrefix(s: seq<real>, i: nat)
    requires i < |s|
    ensures Sum(s[..i + 1]) == Sum(s[..i]) + s[i]
  {
    assert s[..i + 1] == s[..i] + [s[i]];
    SumMore(s[..i], s[i]);
  }

  lemma {:induction false} SumUpdate(s: seq<real>, i: nat, x: real)
    requires i < |s|
    ensures Sum(s[i := x]) == Sum(s) - s[i] + x
    decreases |s|
  {
    var n := |s| - 1;
    if i < n {
      SumUpdate(s[..n], i, x);
      assert s[i := x][..n] == s[..n][i := x];
    } else {
      assert s[i := x][..n] == s[..n];
    }
  }

  lemma {:induction false} SumScaled(s: seq<real>, c: real, t: seq<real>)
    requires |t| == |s| && forall i :: 0 <= i < |s| ==> t[i] == Times(c, s[i])
    ensures Sum(t) == Times(c, Sum(s))
    decreases |s|
  {
    TimesOne(c);
    hide Times;
    if s != [] {
      var n := |s| - 1;
      SumScaled(s[..n], c, t[..n]);
      Distributes(c, Sum(s[..n]), s[n]);
    }
  }

  lemma {:induction false} SumAdded(s: seq<real>, t: seq<real>, u: seq<real>)
    requires |t| == |s| == |u| && forall i :: 0 <= i < |s| ==> u[i] == s[i] + t[i]
    ensures Sum(u) == Sum(s) + Sum(t)
    decreases |s|
  {
    if s != [] {
      var n := |s| - 1;
      SumAdded(s[..n], t[..n], u[..n]);
    }
  }

  lemma {:induction false} SumZeros(s: seq<real>)
    requires forall i :: 0 <= i < |s| ==> s[i] == 0.0
    ensures Sum(s) == 0.0
    decreases |s|
  {
    if s != [] {
      SumZeros(s[..|s| - 1]);
    }
  }

  lemma {:induction false} SumConstant(s: seq<real>, c: real)
    requires forall i :: 0 <= i < |s| ==> s[i] == c
    ensures Sum(s) == Times(c, |s| as real)
    decreases |s|
  {
    TimesOne(c);
    hide Times;
    if s != [] {
      var n := |s| - 1;
      SumConstant(s[..n], c);
      Distributes(c, n as real, 1.0);
    }
  }

  ghost predicate Nonneg(s: seq<real>) {
    forall i :: 0 <= i < |s| ==> s[i] >= 0.0
  }

  ghost predicate Positive(s: seq<real>) {
    forall i :: 0 <= i < |s| ==> s[i] > 0.0
  }

  lemma {:induction false} SumNonneg(s: seq<real>)
    requires Nonneg(s)
    ensures Sum(s) >= 0.0
    ensures forall i :: 0 <= i < |s| ==> Sum(s) >= s[i]
    decreases |s|
  {
    if s != [] {
      var p := s[..|s| - 1];
      SumNonneg(p);
      assert forall i :: 0 <= i < |p| ==> p[i] == s[i];
    }
  }

  /** Terms that are not negative sum to zero only if each of them is zero. */
  lemma SumPositive(s: seq<real>)
    requires Nonneg(s)
    ensures Sum(s) > 0.0 <==> exists i :: 0 <= i < |s| && s[i] > 0.0
  {
    SumNonneg(s);
    if forall i :: 0 <= i < |s| ==> s[i] <= 0.0 {
      SumZeros(s);
    }
  }
}
