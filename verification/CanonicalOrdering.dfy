/**
  Canonical ordering of idna_convert.class.php (Unicode Standard, section 3.11), for an arbitrary
  combining-class function.
*/
module CanonicalOrdering {
  type ClassOf = nat -> nat

  /** A pair that the standard allows to be exchanged. */
  predicate Reorderable(cc: ClassOf, a: nat, b: nat) {
    cc(a) > cc(b) != 0
  }

  predicate Ordered(cc: ClassOf, xs: seq<nat>) {
    forall i :: 0 < i < |xs| ==> !Reorderable(cc, xs[i - 1], xs[i])
  }

  function Exchanged(xs: seq<nat>, i: nat): (r: seq<nat>)
    requires 0 < i < |xs|
    ensures |r| == |xs|
  {
    xs[i - 1 := xs[i]][i := xs[i - 1]]
  }

  /** `x` moved left past everything it may be exchanged with. */
  function Insert(cc: ClassOf, s: seq<nat>, x: nat): seq<nat> {
    if s == [] || !Reorderable(cc, s[|s| - 1], x) then s + [x]
    else Insert(cc, s[..|s| - 1], x) + [s[|s| - 1]]
  }

  /** The canonically ordered form: stable insertion, left to right. */
  function Canonical(cc: ClassOf, xs: seq<nat>): seq<nat> {
    if xs == [] then [] else Insert(cc, Canonical(cc, xs[..|xs| - 1]), xs[|xs| - 1])
  }

  // ----- exchanging a reorderable pair does not change the canonical form -----

  lemma InsertAfter(cc: ClassOf, s: seq<nat>, l: nat, x: nat)
    ensures Insert(cc, s + [l], x) == if Reorderable(cc, l, x) then Insert(cc, s, x) + [l] else s + [l] + [x]
  {
    assert (s + [l])[..|s|] == s;
  }

  /** An insertion ends with the new element or, when that one moved, with the old last one. */
  lemma InsertLast(cc: ClassOf, s: seq<nat>, x: nat)
    ensures var r := Insert(cc, s, x);
            |r| > 0 && r[|r| - 1] == if s == [] || !Reorderable(cc, s[|s| - 1], x) then x else s[|s| - 1]
  {}

  lemma {:induction false} InsertCommutes(cc: ClassOf, s: seq<nat>, a: nat, b: nat)
    requires Reorderable(cc, a, b)
    ensures Insert(cc, Insert(cc, s, a), b) == Insert(cc, Insert(cc, s, b), a)
  {
    var sb := Insert(cc, s, b);
    if s != [] && Reorderable(cc, s[|s| - 1], a) {
      var init, l := s[..|s| - 1], s[|s| - 1];
      InsertCommutes(cc, init, a, b);
      InsertAfter(cc, Insert(cc, init, a), l, b);
      InsertAfter(cc, Insert(cc, init, b), l, a);
    } else {
      InsertAfter(cc, s, a, b);
      InsertLast(cc, s, b);
      assert Insert(cc, sb, a) == sb + [a];
    }
  }

  lemma {:induction false} ExchangeKeepsCanonical(cc: ClassOf, xs: seq<nat>, i: nat)
    requires 0 < i < |xs| && Reorderable(cc, xs[i - 1], xs[i])
    ensures Canonical(cc, Exchanged(xs, i)) == Canonical(cc, xs)
  {
    var n := |xs| - 1;
    var ys := Exchanged(xs, i);
    if i == n {
      var head := xs[..n - 1];
      assert xs[..n] == head + [xs[n - 1]] && ys[..n] == head + [xs[n]];
      assert (head + [xs[n - 1]])[..n - 1] == head && (head + [xs[n]])[..n - 1] == head;
      InsertCommutes(cc, Canonical(cc, head), xs[n - 1], xs[n]);
    } else {
      assert ys[..n] == Exchanged(xs[..n], i);
      ExchangeKeepsCanonical(cc, xs[..n], i);
    }
  }

  lemma {:induction false} OrderedIsCanonical(cc: ClassOf, xs: seq<nat>)
    requires Ordered(cc, xs)
    ensures Canonical(cc, xs) == xs
  {
    if xs == [] {
    } else {
      var n := |xs| - 1;
      OrderedIsCanonical(cc, xs[..n]);
      assert n > 0 ==> xs[..n][n - 1] == xs[n - 1];
      assert xs[..n] + [xs[n]] == xs;
    }
  }

  // ----- the algorithm -----

  /** The innermost loop: the element at `at` moves left until it fits. */
  method MoveLeft(cc: ClassOf, input: array<nat>, at: nat)
    requires 0 < at < input.Length
    requires Reorderable(cc, input[at - 1], input[at])
    requires Ordered(cc, input[..at])
    modifies input
    ensures Canonical(cc, input[..]) == Canonical(cc, old(input[..]))
    ensures Ordered(cc, input[..at + 1])
    ensures input[at] == old(input[at - 1])
    ensures input[at + 1..] == old(input[at + 1..])
  {
    hide Canonical;
    var next := cc(input[at]);
    var j := at;
    while j > 0
      invariant 0 <= j <= at
      invariant Canonical(cc, input[..]) == Canonical(cc, old(input[..]))
      invariant cc(input[j]) == next
      invariant input[at + 1..] == old(input[at + 1..])
      invariant j < at ==> input[at] == old(input[at - 1])
      invariant j == at ==> input[..] == old(input[..])
      invariant forall i :: 0 < i <= at && i != j ==> !Reorderable(cc, input[i - 1], input[i])
      invariant 0 < j < at ==> !Reorderable(cc, input[j - 1], input[j + 1])
    {
      if cc(input[j - 1]) <= next {
        break;
      }
      ghost var before := input[..];
      input[j], input[j - 1] := input[j - 1], input[j];
      assert input[..] == Exchanged(before, j);
      ExchangeKeepsCanonical(cc, before, j);
      j := j - 1;
    }
  }

  /** One pass of the `for` loop: afterwards the sequence is ordered. */
  method Pass(cc: ClassOf, input: array<nat>) returns (swapped: bool)
    modifies input
    ensures Canonical(cc, input[..]) == Canonical(cc, old(input[..]))
    ensures Ordered(cc, input[..])
    ensures Ordered(cc, old(input[..])) ==> !swapped
  {
    hide Canonical;
    swapped := false;
    if input.Length == 0 {
      return;
    }
    var last := cc(input[0]);
    var i := 0;
    while i < input.Length - 1
      invariant 0 <= i < input.Length
      invariant last == cc(input[i])
      invariant Ordered(cc, input[..i + 1])
      invariant Canonical(cc, input[..]) == Canonical(cc, old(input[..]))
      invariant swapped ==> !Ordered(cc, old(input[..]))
      invariant !swapped ==> input[..] == old(input[..])
    {
      var next := cc(input[i + 1]);
      if next != 0 && last > next {
        ghost var before := input[..];
        MoveLeft(cc, input, i + 1);
        assert !swapped ==> Reorderable(cc, before[i], before[i + 1]);
        swapped := true;
        next := last;
      }
      last := next;
      i := i + 1;
    }
    assert input[..i + 1] == input[..];
  }

  /** `_apply_cannonical_ordering`: passes until one makes no exchange. */
  method ApplyCanonicalOrdering(cc: ClassOf, input: array<nat>)
    modifies input
    ensures input[..] == Canonical(cc, old(input[..]))
  {
    var swap := true;
    ghost var passes := 0;
    while swap
      invariant Canonical(cc, input[..]) == Canonical(cc, old(input[..]))
      invariant !swap ==> Ordered(cc, input[..])
      invariant swap ==> passes <= 1
      invariant passes > 0 ==> Ordered(cc, input[..])
      decreases swap, 2 - passes
    {
      swap := Pass(cc, input);
      passes := passes + 1;
    }
    OrderedIsCanonical(cc, input[..]);
  }

  // ----- what the canonical form is -----

  function OfClass(cc: ClassOf, xs: seq<nat>, k: nat): seq<nat> {
    if xs == [] then []
    else OfClass(cc, xs[..|xs| - 1], k) + if cc(xs[|xs| - 1]) == k then [xs[|xs| - 1]] else []
  }

  lemma EmptyOrdered(cc: ClassOf)
    ensures Ordered(cc, [])
  {}

  lemma {:induction false} InsertOrdered(cc: ClassOf, s: seq<nat>, x: nat)
    requires Ordered(cc, s)
    ensures Ordered(cc, Insert(cc, s, x))
  {
    var r, n := Insert(cc, s, x), |s| - 1;
    if s != [] && Reorderable(cc, s[n], x) {
      InsertOrdered(cc, s[..n], x);
      InsertLast(cc, s[..n], x);
      forall i | 0 < i < |r|
        ensures !Reorderable(cc, r[i - 1], r[i])
      {}
    }
  }

  lemma {:induction false} InsertPermutes(cc: ClassOf, s: seq<nat>, x: nat)
    ensures multiset(Insert(cc, s, x)) == multiset(s) + multiset{x}
  {
    hide Reorderable;
    if s != [] && Reorderable(cc, s[|s| - 1], x) {
      InsertPermutes(cc, s[..|s| - 1], x);
      assert s == s[..|s| - 1] + [s[|s| - 1]];
    }
  }

  lemma OfClassAppend(cc: ClassOf, s: seq<nat>, x: nat, k: nat)
    ensures OfClass(cc, s + [x], k) == OfClass(cc, s, k) + (if cc(x) == k then [x] else [])
  {
    assert (s + [x])[..|s|] == s;
  }

  /** An insertion keeps the order within every class. */
  lemma {:induction false} InsertIsStable(cc: ClassOf, s: seq<nat>, x: nat, k: nat)
    ensures OfClass(cc, Insert(cc, s, x), k) == OfClass(cc, s, k) + (if cc(x) == k then [x] else [])
  {
    hide OfClass;
    if s != [] && Reorderable(cc, s[|s| - 1], x) {
      var init, l := s[..|s| - 1], s[|s| - 1];
      InsertIsStable(cc, init, x, k);
      OfClassAppend(cc, Insert(cc, init, x), l, k);
      assert s == init + [l];
      OfClassAppend(cc, init, l, k);
    } else {
      OfClassAppend(cc, s, x, k);
    }
  }

  lemma {:induction false} InsertKeepsStarters(cc: ClassOf, s: seq<nat>, x: nat)
    ensures var r := Insert(cc, s, x);
            && |r| == |s| + 1
            && (forall i :: 0 <= i < |s| && cc(s[i]) == 0 ==> r[i] == s[i])
            && (cc(x) == 0 ==> r[|s|] == x)
  {
    if s != [] && Reorderable(cc, s[|s| - 1], x) {
      InsertKeepsStarters(cc, s[..|s| - 1], x);
    }
  }

  /**
    The canonical form is an ordered, stable permutation that leaves starters where they are: within
    each combining class the order of the input is kept.
  */
  lemma {:induction false} CanonicalMeaning(cc: ClassOf, xs: seq<nat>, k: nat)
    ensures var r := Canonical(cc, xs);
            && |r| == |xs|
            && Ordered(cc, r)
            && multiset(r) == multiset(xs)
            && OfClass(cc, r, k) == OfClass(cc, xs, k)
            && (forall i :: 0 <= i < |xs| && cc(xs[i]) == 0 ==> r[i] == xs[i])
  {
    hide Insert, Ordered;
    if xs == [] {
      assert Ordered(cc, xs) by { EmptyOrdered(cc); }
    } else {
      var n := |xs| - 1;
      var s := Canonical(cc, xs[..n]);
      CanonicalMeaning(cc, xs[..n], k);
      InsertOrdered(cc, s, xs[n]);
      InsertPermutes(cc, s, xs[n]);
      InsertIsStable(cc, s, xs[n], k);
      InsertKeepsStarters(cc, s, xs[n]);
      assert xs == xs[..n] + [xs[n]];
      OfClassAppend(cc, xs[..n], xs[n], k);
      assert forall i :: 0 <= i < n ==> xs[..n][i] == xs[i];
    }
  }

  lemma OrderedIs(cc: ClassOf, xs: seq<nat>)
    ensures Ordered(cc, xs) <==> forall i :: 0 < i < |xs| ==> cc(xs[i]) == 0 || cc(xs[i - 1]) <= cc(xs[i])
  {}

  lemma {:induction false} InsertStaysBehind(cc: ClassOf, a: seq<nat>, b: seq<nat>, x: nat)
    requires b != [] && cc(b[0]) == 0
    ensures Insert(cc, a + b, x) == a + Insert(cc, b, x) && Insert(cc, b, x)[0] == b[0]
    decreases |b|
  {
    var n := |b| - 1;
    assert (a + b)[..|a + b| - 1] == a + b[..n] && (a + b)[|a + b| - 1] == b[n];
    if Reorderable(cc, b[n], x) {
      assert n > 0;
      InsertStaysBehind(cc, a, b[..n], x);
      assert a + (Insert(cc, b[..n], x) + [b[n]]) == (a + Insert(cc, b[..n], x)) + [b[n]];
    } else {
      assert a + (b + [x]) == (a + b) + [x];
    }
  }

  /** Nothing crosses a starter: what is before it and what is from it on are ordered by themselves. */
  lemma {:induction false} StarterSplits(cc: ClassOf, a: seq<nat>, b: seq<nat>)
    requires b != [] && cc(b[0]) == 0
    ensures Canonical(cc, a + b) == Canonical(cc, a) + Canonical(cc, b)
    ensures Canonical(cc, b) != [] && Canonical(cc, b)[0] == b[0]
    decreases |b|
  {
    var n := |b| - 1;
    assert (a + b)[..|a + b| - 1] == a + b[..n] && (a + b)[|a + b| - 1] == b[n];
    if n == 0 {
      assert Canonical(cc, []) == [];
      assert a + b[..n] == a;
      assert b == [b[0]] && Insert(cc, [], b[0]) == [b[0]];
      assert Insert(cc, Canonical(cc, a), b[0]) == Canonical(cc, a) + [b[0]];
    } else {
      StarterSplits(cc, a, b[..n]);
      InsertStaysBehind(cc, Canonical(cc, a), Canonical(cc, b[..n]), b[n]);
    }
  }
}
