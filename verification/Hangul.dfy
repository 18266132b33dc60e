/** Hangul decomposition and composition of idna_convert.class.php (Unicode Standard, section 3.12). */
module Hangul {
  import opened Sequences

  const S_BASE := 0xAC00
  const L_BASE := 0x1100
  const V_BASE := 0x1161
  const T_BASE := 0x11A7
  const L_COUNT := 19
  const V_COUNT := 21
  const T_COUNT := 28
  const N_COUNT := 588
  const S_COUNT := 11172

  predicate IsSyllable(c: nat) { S_BASE <= c < S_BASE + S_COUNT }
  predicate IsL(c: nat) { L_BASE <= c < L_BASE + L_COUNT }
  predicate IsV(c: nat) { V_BASE <= c < V_BASE + V_COUNT }
  predicate IsLV(c: nat) { IsSyllable(c) && (c - S_BASE) % T_COUNT == 0 }

  /** The source accepts one value more than there are trailing consonants, and the base itself. */
  predicate TakenAsT(c: nat) { T_BASE <= c <= T_BASE + T_COUNT }

  function LPart(c: nat): nat
    requires IsSyllable(c)
  {
    L_BASE + (c - S_BASE) / N_COUNT
  }

  function VPart(c: nat): nat
    requires IsSyllable(c)
  {
    V_BASE + (c - S_BASE) % N_COUNT / T_COUNT
  }

  function TPart(c: nat): nat
    requires IsSyllable(c)
  {
    T_BASE + (c - S_BASE) % T_COUNT
  }

  function Decompose(c: nat): seq<nat> {
    if !IsSyllable(c) then [c]
    else [LPart(c), VPart(c)] + if TPart(c) != T_BASE then [TPart(c)] else []
  }

  function DecomposeAll(xs: seq<nat>): seq<nat> {
    if xs == [] then [] else Decompose(xs[0]) + DecomposeAll(xs[1..])
  }

  /** Whether composition merges `c` into the code point `last` before it. */
  predicate Joins(last: nat, c: nat) {
    (IsL(last) && IsV(c)) || (IsLV(last) && TakenAsT(c))
  }

  function LVSyllable(l: nat, v: nat): nat
    requires IsL(l) && IsV(v)
  {
    S_BASE + ((l - L_BASE) * V_COUNT + (v - V_BASE)) * T_COUNT
  }

  function Joined(last: nat, c: nat): nat
    requires Joins(last, c)
  {
    if IsL(last) && IsV(c) then LVSyllable(last, c)
    else last + (c - T_BASE)
  }

  /** Composition of what follows, after an output that ends in `last`. */
  function ComposeAfter(last: nat, xs: seq<nat>): (r: seq<nat>)
    ensures 0 < |r| <= 1 + |xs|
    decreases |xs|
  {
    if xs == [] then [last]
    else if Joins(last, xs[0]) then ComposeAfter(Joined(last, xs[0]), xs[1..])
    else [last] + ComposeAfter(xs[0], xs[1..])
  }

  function Composed(xs: seq<nat>): seq<nat> {
    if xs == [] then [] else ComposeAfter(xs[0], xs[1..])
  }

  method Compose(input: seq<nat>) returns (result: seq<nat>)
    ensures result == Composed(input)
  {
    if input == [] {
      return [];
    }
    hide ComposeAfter, Joins, Joined;
    var last := input[0];
    result := [last];
    ghost var done := [];
    for i := 1 to |input|
      invariant result == done + [last]
      invariant done + ComposeAfter(last, input[i..]) == Composed(input)
    {
      var c := input[i];
      ghost var rest := input[i + 1..];
      assert input[i..] == [c] + rest;
      ComposeStep(last, c, rest);
      if Joins(last, c) {
        last := Joined(last, c);
        result := result[|result| - 1 := last];
      } else {
        ConcatAssociative(done, [last], ComposeAfter(c, rest));
        done := result;
        last := c;
        result := result + [c];
      }
    }
    assert input[|input|..] == [];
    ComposeNone(last);
  }

  // ----- composition after decomposition -----

  /** A syllable's own parts start a new output element and end as that syllable. */
  lemma RebuildSyllable(last: nat, c: nat, rest: seq<nat>)
    requires IsSyllable(c)
    ensures ComposeAfter(last, Decompose(c) + rest) == [last] + ComposeAfter(c, rest)
  {
    hide LPart, VPart, TPart, Joins, Joined, ComposeAfter;
    var l, v, t := LPart(c), VPart(c), TPart(c);
    PartsJoin(last, c);
    if t == T_BASE {
      assert Decompose(c) + rest == [l] + ([v] + rest);
      ComposeStep(last, l, [v] + rest);
      ComposeStep(l, v, rest);
    } else {
      assert Decompose(c) + rest == [l] + ([v] + ([t] + rest));
      ComposeStep(last, l, [v] + ([t] + rest));
      ComposeStep(l, v, [t] + rest);
      ComposeStep(Joined(l, v), t, rest);
    }
  }

  lemma PartsJoin(last: nat, c: nat)
    requires IsSyllable(c)
    ensures !Joins(last, LPart(c))
    ensures Joins(LPart(c), VPart(c))
    ensures var lv := Joined(LPart(c), VPart(c));
            if TPart(c) == T_BASE then lv == c else Joins(lv, TPart(c)) && Joined(lv, TPart(c)) == c
  {
    var s := c - S_BASE;
    var l, v := s / N_COUNT, s % N_COUNT / T_COUNT;
    assert l < L_COUNT && v < V_COUNT;
    assert (l * V_COUNT + v) * T_COUNT == s - s % T_COUNT;
  }

  lemma ComposeNone(last: nat)
    ensures ComposeAfter(last, []) == [last]
  {}

  lemma ComposeStep(last: nat, c: nat, rest: seq<nat>)
    ensures ComposeAfter(last, [c] + rest) ==
              if Joins(last, c) then ComposeAfter(Joined(last, c), rest) else [last] + ComposeAfter(c, rest)
  {
    assert ([c] + rest)[1..] == rest;
  }

  /** Every element contributes at most one output element, and a joining one contributes none. */
  lemma {:induction false} ComposedLength(last: nat, xs: seq<nat>)
    ensures |ComposeAfter(last, DecomposeAll(xs))| <= 1 + |xs|
    ensures xs != [] && Joins(last, xs[0]) ==> |ComposeAfter(last, DecomposeAll(xs))| <= |xs|
    decreases |xs|
  {
    if xs == [] {
    } else {
      var rest := DecomposeAll(xs[1..]);
      if IsSyllable(xs[0]) {
        RebuildSyllable(last, xs[0], rest);
        ComposedLength(xs[0], xs[1..]);
      } else {
        assert DecomposeAll(xs)[1..] == rest;
        ComposedLength(if Joins(last, xs[0]) then Joined(last, xs[0]) else xs[0], xs[1..]);
      }
    }
  }

  predicate NothingJoins(last: nat, xs: seq<nat>) {
    xs == [] || (!Joins(last, xs[0]) && forall i :: 0 < i < |xs| ==> !Joins(xs[i - 1], xs[i]))
  }

  lemma {:induction false} ComposeUndoes(last: nat, xs: seq<nat>)
    ensures ComposeAfter(last, DecomposeAll(xs)) == [last] + xs <==> NothingJoins(last, xs)
    decreases |xs|
  {
    if xs == [] {
    } else {
      var rest := DecomposeAll(xs[1..]);
      assert NothingJoins(last, xs) <==> !Joins(last, xs[0]) && NothingJoins(xs[0], xs[1..]);
      if Joins(last, xs[0]) {
        ComposedLength(last, xs);
      } else {
        if IsSyllable(xs[0]) {
          RebuildSyllable(last, xs[0], rest);
        } else {
          assert DecomposeAll(xs)[1..] == rest;
        }
        ComposeUndoes(xs[0], xs[1..]);
        assert [xs[0]] + xs[1..] == xs;
        assert ([last] + ComposeAfter(xs[0], rest))[1..] == ComposeAfter(xs[0], rest);
        assert ([last] + xs)[1..] == xs;
      }
    }
  }

  /**
    Decomposing every code point and composing again gives the sequence back exactly when no two
    neighbours would themselves be merged: a leading consonant before a vowel, or a syllable without
    trailing consonant before one of the 29 values taken as trailing.
  */
  lemma ComposeAfterDecompose(xs: seq<nat>)
    ensures Composed(DecomposeAll(xs)) == xs <==> forall i :: 0 < i < |xs| ==> !Joins(xs[i - 1], xs[i])
  {
    if xs == [] {
    } else {
      ComposeUndoes(0, xs);
      var parts := DecomposeAll(xs);
      assert ComposeAfter(0, parts) == [0] + Composed(parts);
      assert ([0] + Composed(parts))[1..] == Composed(parts);
      assert ([0] + xs)[1..] == xs;
    }
  }

  lemma SyllablesSurvive(xs: seq<nat>)
    requires forall i :: 0 <= i < |xs| ==> IsSyllable(xs[i])
    ensures Composed(DecomposeAll(xs)) == xs
  {
    ComposeAfterDecompose(xs);
  }

  /**
    What the source takes as trailing consonants beyond those of the standard: the value after the last
    one turns a syllable into the next one, and the base itself is swallowed.
  */
  lemma BeyondTrailing(c: nat)
    requires IsLV(c)
    ensures Composed([c, T_BASE + T_COUNT]) == [c + T_COUNT]
    ensures Composed([c, T_BASE]) == [c]
    ensures forall s :: IsSyllable(s) ==> TPart(s) < T_BASE + T_COUNT
    ensures forall s :: IsSyllable(s) && |Decompose(s)| == 3 ==> Decompose(s)[2] != T_BASE
  {
    ComposeStep(c, T_BASE + T_COUNT, []);
    ComposeStep(c, T_BASE, []);
    assert [c, T_BASE + T_COUNT][1..] == [T_BASE + T_COUNT] + [];
    assert [c, T_BASE][1..] == [T_BASE] + [];
  }

  /** The syllable with leading consonant `l`, vowel `v` and trailing consonant `t`, where zero means none. */
  lemma SyllableParts(l: nat, v: nat, t: nat)
    requires l < 19 && v < 21 && t < 28
    ensures Decompose(0xAC00 + (l * 21 + v) * 28 + t)
         == [0x1100 + l, 0x1161 + v] + if t == 0 then [] else [0x11A7 + t]
  {
    var s := (l * 21 + v) * 28 + t;
    assert s == l * 588 + (v * 28 + t) && v * 28 + t < 588;
    assert s / 588 == l && s % 588 == v * 28 + t && s % 28 == t;
    assert s % 588 / 28 == v;
    assert IsSyllable(0xAC00 + s);
  }

  /** Only syllables fall apart. */
  lemma OthersStay(c: nat)
    requires c < 0xAC00 || c > 0xD7A3
    ensures Decompose(c) == [c]
  {}

  /** Which neighbours are joined, and into what. */
  lemma JoinsAre(a: nat, b: nat)
    ensures Joins(a, b) <==>
              || (0x1100 <= a <= 0x1112 && 0x1161 <= b <= 0x1175)
              || (0xAC00 <= a <= 0xD7A3 && (a - 0xAC00) % 28 == 0 && 0x11A7 <= b <= 0x11C3)
    ensures Joins(a, b) ==>
              Joined(a, b) == if a <= 0x1112 then 0xAC00 + ((a - 0x1100) * 21 + (b - 0x1161)) * 28 else a + b - 0x11A7
  {}
}
