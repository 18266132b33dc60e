/**
  The numbers behind Punycode, written out: thresholds, digits, the bias and the decoder's insertion,
  as RFC 3492 gives them in sections 3.3, 5, 6.1 and 6.2, and two names encoded to their last letter.
*/
module PunycodeLaws {
  import opened Arith
  import opened Outcomes
  import opened Punycode

  // ----- thresholds and digits -----

  lemma ThresholdIs(k: int, bias: int)
    ensures Threshold(k, bias) == if k - bias < 1 then 1 else if k - bias > 26 then 26 else k - bias
  {}

  /** Letters are the digits 0 to 25 in either case, and the ten figures those from 26 to 35. */
  lemma DigitsAre(d: nat, c: nat)
    requires d < 36
    ensures EncodeDigit(d) == if d < 26 then 'a' as int + d else '0' as int + (d - 26)
    ensures 'a' as int <= c <= 'z' as int ==> IsDigit(c) && DigitValue(c) == c - 'a' as int
    ensures 'A' as int <= c <= 'Z' as int ==> IsDigit(c) && DigitValue(c) == c - 'A' as int
    ensures '0' as int <= c <= '9' as int ==> IsDigit(c) && DigitValue(c) == c - '0' as int + 26
    ensures IsDigit(c) ==>
              'a' as int <= c <= 'z' as int || 'A' as int <= c <= 'Z' as int || '0' as int <= c <= '9' as int
  {}

  /** The threshold of the j-th digit. */
  function DigitThreshold(j: nat, bias: int): nat {
    var t := 36 * (j + 1) - bias;
    if t < 1 then 1 else if t > 26 then 26 else t
  }

  /** What the j-th digit counts: the product of 36 - t over the digits before it. */
  function DigitWeight(j: nat, bias: int): nat {
    if j == 0 then 1 else DigitWeight(j - 1, bias) * (36 - DigitThreshold(j - 1, bias))
  }

  /** The sum of the digits from the j-th on, each times its weight. */
  function Denoted(ds: seq<nat>, j: nat, bias: int): nat
    decreases |ds|
  {
    if ds == [] then 0 else ds[0] * DigitWeight(j, bias) + Denoted(ds[1..], j + 1, bias)
  }

  /** An integer ends with the first digit below its threshold. */
  ghost predicate EndsAfter(ds: seq<nat>, n: nat, j: nat, bias: int) {
    && 0 < n <= |ds| && ds[n - 1] < DigitThreshold(j + n - 1, bias)
    && forall i :: 0 <= i < n - 1 ==> ds[i] >= DigitThreshold(j + i, bias)
  }

  lemma ReadFirst(ds: seq<nat>, j: nat, bias: int)
    requires ds != []
    ensures var w, k := DigitWeight(j, bias), 36 * (j + 1);
            var rest := ReadInteger(ds[1..], DigitWeight(j + 1, bias), 36 * (j + 2), bias);
            ReadInteger(ds, w, k, bias) ==
              if ds[0] < DigitThreshold(j, bias) then Some((ds[0] * w, 1))
              else match rest case None => None case Some((v, n)) => Some((ds[0] * w + v, n + 1))
  {
    ThresholdIs(36 * (j + 1), bias);
  }

  lemma DenotedFirst(ds: seq<nat>, n: nat, j: nat, bias: int)
    requires 0 < n <= |ds|
    ensures Denoted(ds[..n], j, bias) == ds[0] * DigitWeight(j, bias) + Denoted(ds[1..][..n - 1], j + 1, bias)
  {
    assert ds[..n][1..] == ds[1..][..n - 1];
  }

  lemma EndsLater(ds: seq<nat>, n: nat, j: nat, bias: int)
    requires ds != [] && n > 1 && ds[0] >= DigitThreshold(j, bias)
    ensures EndsAfter(ds, n, j, bias) <==> EndsAfter(ds[1..], n - 1, j + 1, bias)
  {
    if n <= |ds| {
      assert forall i :: 0 <= i < n - 1 ==> ds[1..][i] == ds[i + 1];
      if EndsAfter(ds[1..], n - 1, j + 1, bias) {
        forall i | 0 <= i < n - 1
          ensures ds[i] >= DigitThreshold(j + i, bias)
        {
          if i > 0 {
            assert ds[1..][i - 1] >= DigitThreshold(j + 1 + (i - 1), bias);
          }
        }
      }
      if EndsAfter(ds, n, j, bias) {
        forall i | 0 <= i < n - 2
          ensures ds[1..][i] >= DigitThreshold(j + 1 + i, bias)
        {
          assert ds[i + 1] >= DigitThreshold(j + (i + 1), bias);
        }
      }
    }
  }

  lemma {:induction false} ReadsSome(ds: seq<nat>, j: nat, bias: int)
    requires ReadInteger(ds, DigitWeight(j, bias), 36 * (j + 1), bias).Some?
    ensures EndsAfter(ds, ReadInteger(ds, DigitWeight(j, bias), 36 * (j + 1), bias).value.1, j, bias)
    decreases |ds|
  {
    if ds != [] {
      ReadFirst(ds, j, bias);
      hide ReadInteger, DigitThreshold, DigitWeight;
      if ds[0] >= DigitThreshold(j, bias) {
        ReadsSome(ds[1..], j + 1, bias);
        var m := ReadInteger(ds[1..], DigitWeight(j + 1, bias), 36 * (j + 2), bias).value.1;
        EndsLater(ds, m + 1, j, bias);
      }
    }
  }

  lemma {:induction false} ReadsDenoted(ds: seq<nat>, n: nat, j: nat, bias: int)
    requires EndsAfter(ds, n, j, bias)
    ensures ReadInteger(ds, DigitWeight(j, bias), 36 * (j + 1), bias) == Some((Denoted(ds[..n], j, bias), n))
    decreases |ds|
  {
    ReadFirst(ds, j, bias);
    DenotedFirst(ds, n, j, bias);
    if n == 1 {
      assert Denoted([], j + 1, bias) == 0;
    } else {
      assert ds[0] >= DigitThreshold(j + 0, bias);
      EndsLater(ds, n, j, bias);
      hide ReadInteger, DigitThreshold, DigitWeight, Denoted;
      ReadsDenoted(ds[1..], n - 1, j + 1, bias);
    }
  }

  /** What the reading loop finds: digits up to the first one below its threshold, and their weighted sum. */
  lemma IntegerIs(ds: seq<nat>, bias: int, v: nat, n: nat)
    ensures ReadInteger(ds, 1, 36, bias) == Some((v, n))
       <==> EndsAfter(ds, n, 0, bias) && v == Denoted(ds[..n], 0, bias)
  {
    hide EndsAfter, Denoted;
    var r := ReadInteger(ds, DigitWeight(0, bias), 36 * (0 + 1), bias);
    if r.Some? {
      ReadsSome(ds, 0, bias);
      ReadsDenoted(ds, r.value.1, 0, bias);
    }
    if EndsAfter(ds, n, 0, bias) {
      ReadsDenoted(ds, n, 0, bias);
    }
  }

  // ----- the bias -----

  /** `d` divided by 35, `n` times over. */
  function Divided(d: nat, n: nat): nat {
    if n == 0 then d else Divided(d / 35, n - 1)
  }

  function Power35(n: nat): (p: nat)
    ensures p > 0
  {
    if n == 0 then 1 else 35 * Power35(n - 1)
  }

  lemma {:induction false} DividedIs(d: nat, n: nat)
    ensures Divided(d, n) == d / Power35(n)
  {
    if n > 0 {
      DividedIs(d / 35, n - 1);
      DividedTwice(d, Power35(n - 1));
    }
  }

  lemma DividedTwice(d: nat, p: nat)
    requires p > 0
    ensures d / (35 * p) == d / 35 / p
  {
    var a, b := d / 35 / p, d / 35 % p;
    assert d / 35 == a * p + b;
    QuotientOf(d, a, 35 * b + d % 35, 35 * p);
  }

  /** It takes `n` divisions to bring `d` down to 455. */
  ghost predicate Reduced(d: nat, n: nat) {
    Divided(d, n) <= 455 && forall m: nat :: m < n ==> Divided(d, m) > 455
  }

  function Fraction(e: nat): int {
    36 * e / (e + 38)
  }

  lemma {:induction false} TailIs(d: nat, k: nat) returns (n: nat)
    ensures Reduced(d, n)
    ensures AdaptTail(d, k) == k + 36 * n + Fraction(Divided(d, n))
    decreases d
  {
    if d <= 455 {
      n := 0;
    } else {
      var m := TailIs(d / 35, k + 36);
      n := m + 1;
    }
  }

  ghost predicate IsTail(bias: int, d: nat) {
    exists n: nat :: Reduced(d, n) && bias == 36 * n + Fraction(Divided(d, n))
  }

  /** The bias after an integer, as section 6.1 has it. */
  ghost predicate IsBias(bias: int, delta: nat, points: nat, first: bool)
    requires points > 0
  {
    var scaled := if first then delta / 700 else delta / 2;
    var d: int := scaled + scaled / points;
    d >= 0 && IsTail(bias, d)
  }

  lemma ReducedOnce(d: nat, n: nat, m: nat)
    requires Reduced(d, n) && Reduced(d, m)
    ensures n == m
  {}

  lemma TailBias(d: nat, bias: int)
    ensures bias == AdaptTail(d, 0) <==> IsTail(bias, d)
  {
    var n := TailIs(d, 0);
    hide AdaptTail, Divided, Reduced, Fraction;
    if IsTail(bias, d) {
      var m: nat :| Reduced(d, m) && bias == 36 * m + Fraction(Divided(d, m));
      ReducedOnce(d, n, m);
    }
  }

  lemma BiasIs(delta: nat, points: nat, first: bool, bias: int)
    requires points > 0
    ensures bias == AdaptedBias(delta, points, first) <==> IsBias(bias, delta, points, first)
  {
    TailBias(Dampened(delta, points, first), bias);
    hide AdaptTail, IsTail;
  }

  // ----- the decoder's state -----

  /** One insertion: `delta` states on, where the states of one code point are as many as there are places. */
  lemma InsertIs(s: Decoder, delta: nat)
    ensures var places := |s.text| + 1;
            var at, r := (s.idx + delta) % places, Insert(s, delta);
            && r.code == s.code + (s.idx + delta) / places
            && r.text == s.text[..at] + [r.code] + s.text[at..]
            && r.idx == at + 1 && !r.first
            && IsBias(r.bias, delta, places, s.first)
  {
    BiasIs(delta, |s.text| + 1, s.first, AdaptedBias(delta, |s.text| + 1, s.first));
  }

  lemma StartsAt(literal: seq<nat>)
    ensures StartState(literal) == Decoder(literal, 72, 0, 128, true)
  {}

  /** `i` is where the last hyphen of `s` is. */
  predicate IsLastHyphen(s: seq<nat>, i: nat) {
    i < |s| && s[i] == '-' as int && forall j :: i < j < |s| ==> s[j] != '-' as int
  }

  /** A name is cut at its last hyphen; the hyphens of the prefix have no letters before them. */
  lemma PartsAre(s: seq<nat>, i: nat)
    requires IsLastHyphen(s, i)
    ensures DigitPart(s) == s[i + 1..] && LiteralPart(s) == if i > 4 then s[4..i] else []
  {}

  /** "xn--". */
  const XN: seq<nat> := ['x' as int, 'n' as int, '-' as int, '-' as int]

  lemma GuardsAre(s: seq<nat>, c: nat)
    ensures Rejected(s) <==> !(XN <= s) || s == XN || s == XN + ['0' as int]
    ensures Refused(s) <==> XN <= s || forall i :: 0 <= i < |s| ==> s[i] <= 'z' as int
    ensures Copied(c) <==>
              || c == '-' as int || '0' as int <= c <= '9' as int || c in [58, 59, 60, 61, 62, 63]
              || 'A' as int <= c <= 'Z' as int || 'a' as int <= c <= 'z' as int || c == 123
  {
    assert XN == PREFIX;
    if XN <= s {
      assert s == XN + s[4..];
    }
  }

  // ----- the encoder's deltas -----

  lemma {:induction false} ScanUpTo(xs: seq<nat>, c: nat, i: nat, p: nat, delta: nat)
    requires c <= MAX_UCS && i <= p <= |xs| && forall j :: i <= j < p ==> xs[j] != c
    ensures Deltas(xs, c, i, delta) == Deltas(xs, c, p, delta + |Keep(xs[i..p], c)|)
    decreases p - i
  {
    if i < p {
      var d := if xs[i] < c then delta + 1 else delta;
      ScanUpTo(xs, c, i + 1, p, d);
      assert xs[i..p] == [xs[i]] + xs[i + 1..p];
      KeepConcat([xs[i]], xs[i + 1..p], c);
      KeepSingle(xs[i], c);
    }
  }

  lemma KeepSingle(x: nat, c: nat)
    ensures Keep([x], c) == if x < c then [x] else []
  {
    assert [x][..0] == [] && Keep([], c) == [];
  }

  /**
    The delta of the first occurrence of a code point, at `p`: so many states for each code point that is
    passed over as there are places among the smaller ones, and one for each smaller one before it.
  */
  lemma DeltaOfFirst(xs: seq<nat>, c0: nat, c: nat, p: nat, delta: nat)
    requires c0 <= c <= MAX_UCS && p < |xs| && xs[p] == c && forall i :: 0 <= i < |xs| ==> xs[i] < c0 || c <= xs[i]
    requires forall i :: 0 <= i < p ==> xs[i] != c
    ensures delta + (c - c0) * (|Keep(xs, c)| + 1) + |Keep(xs[..p], c)| >= 0
    ensures Deltas(xs, c0, 0, delta)
         == [delta + (c - c0) * (|Keep(xs, c)| + 1) + |Keep(xs[..p], c)|] + Deltas(xs, c, p + 1, 0)
  {
    var width := |Keep(xs, c)| + 1;
    KeepGap(xs, c0, c);
    SkipTo(xs, c0, c - c0, width, delta);
    var d: nat := delta + (c - c0) * width;
    ScanUpTo(xs, c, 0, p, d);
    assert xs[0..p] == xs[..p];
    hide Keep;
  }

  /** Each further occurrence: one state for each smaller code point since the last. */
  lemma DeltaOfNext(xs: seq<nat>, c: nat, i: nat, p: nat)
    requires c <= MAX_UCS && i <= p < |xs| && xs[p] == c && forall j :: i <= j < p ==> xs[j] != c
    ensures Deltas(xs, c, i, 0) == [|Keep(xs[i..p], c)|] + Deltas(xs, c, p + 1, 0)
  {
    ScanUpTo(xs, c, i, p, 0);
    hide Keep;
  }

  /** After the last occurrence: one state for each smaller code point that follows, and one for the next code point. */
  lemma DeltaAfterLast(xs: seq<nat>, c: nat, i: nat)
    requires c <= MAX_UCS && i <= |xs| && forall j :: i <= j < |xs| ==> xs[j] != c
    ensures Deltas(xs, c, i, 0) == Deltas(xs, c + 1, 0, |Keep(xs[i..], c)| + 1)
  {
    ScanWithout(xs, c, i, 0);
  }

  // ----- two names -----

  function Codes(s: string): (r: seq<nat>)
    ensures |r| == |s|
  {
    seq(|s|, i requires 0 <= i < |s| => s[i] as int)
  }

  /** A code point that occurs once: one delta, and where the scan for the next code point starts. */
  lemma DeltaOfOnly(xs: seq<nat>, c0: nat, c: nat, p: nat, delta: nat, smaller: nat, before: nat, after: nat)
    requires c0 <= c <= MAX_UCS && p < |xs| && xs[p] == c
    requires forall i :: 0 <= i < |xs| && i != p ==> xs[i] < c0 || c < xs[i]
    requires smaller == |Keep(xs, c)| && before == |Keep(xs[..p], c)| && after == |Keep(xs[p + 1..], c)|
    ensures delta + (c - c0) * (smaller + 1) + before >= 0
    ensures Deltas(xs, c0, 0, delta)
         == [delta + (c - c0) * (smaller + 1) + before] + Deltas(xs, c + 1, 0, after + 1)
  {
    DeltaOfFirst(xs, c0, c, p, delta);
    DeltaAfterLast(xs, c, p + 1);
  }

  lemma UmlautDeltas(xs: seq<nat>)
    requires xs == [0xE4, 0xF6, 0xFC]
    ensures Deltas(xs, 128, 0, 0) == [100, 36, 18]
  {
    hide Deltas, Keep;
    UmlautsKept(xs);
    var a, o, u := 0xE4, 0xF6, 0xFC;
    DeltaOfOnly(xs, 128, a, 0, 0, 0, 0, 0);
    DeltaOfOnly(xs, a + 1, o, 1, 1, 1, 1, 0);
    DeltaOfOnly(xs, o + 1, u, 2, 1, 2, 2, 0);
    NothingLeft(xs, u + 1, 0, 1);
  }

  lemma UmlautsKept(xs: seq<nat>)
    requires xs == [0xE4, 0xF6, 0xFC]
    ensures |Keep(xs, 0xE4)| == |Keep(xs[..0], 0xE4)| == |Keep(xs[1..], 0xE4)| == 0
    ensures |Keep(xs, 0xF6)| == |Keep(xs[..1], 0xF6)| == 1 && |Keep(xs[2..], 0xF6)| == 0
    ensures |Keep(xs, 0xFC)| == |Keep(xs[..2], 0xFC)| == 2 && |Keep(xs[3..], 0xFC)| == 0
  {
    var a, o, u := xs[0], xs[1], xs[2];
    assert xs[..0] == [] && xs[..1] == [a] && xs[..2] == [a] + [o] && xs == ([a] + [o]) + [u];
    assert xs[1..] == [o] + [u] && xs[2..] == [u] && xs[3..] == [];
    hide Keep;
    KeepThree(a, o, u, a);
    KeepThree(a, o, u, o);
    KeepThree(a, o, u, u);
  }

  lemma KeepThree(a: nat, o: nat, u: nat, c: nat)
    requires a < o < u && c in [a, o, u]
    ensures Keep([], c) == []
    ensures |Keep([a], c)| == if a < c then 1 else 0
    ensures |Keep([u], c)| == 0
    ensures |Keep([o] + [u], c)| == if o < c then 1 else 0
    ensures |Keep([a] + [o], c)| == (if a < c then 1 else 0) + if o < c then 1 else 0
    ensures |Keep(([a] + [o]) + [u], c)| == (if a < c then 1 else 0) + if o < c then 1 else 0
  {
    KeepSingle(a, c);
    KeepSingle(o, c);
    KeepSingle(u, c);
    KeepConcat([a], [o], c);
    KeepConcat([o], [u], c);
    KeepConcat([a] + [o], [u], c);
  }

  lemma DigitStep(q: nat, k: nat, bias: int)
    ensures Digits(q, k, bias) == var t := Threshold(k, bias);
              if q < t then [q] else [t + (q - t) % (36 - t)] + Digits((q - t) / (36 - t), k + 36, bias)
  {}

  lemma UmlautDigits()
    ensures Digits(100, 36, 72) == [30, 2, 0] && Digits(36, 36, 0) == [26, 1] && Digits(18, 36, 14) == [18]
  {
    ThresholdIs(36, 72);
    ThresholdIs(72, 72);
    ThresholdIs(108, 72);
    ThresholdIs(36, 0);
    ThresholdIs(72, 0);
    ThresholdIs(36, 14);
    hide Digits, Threshold;
    DigitStep(100, 36, 72);
    DigitStep(2, 72, 72);
    DigitStep(0, 108, 72);
    DigitStep(36, 36, 0);
    DigitStep(1, 72, 0);
    DigitStep(18, 36, 14);
  }

  lemma UmlautBiases()
    ensures AdaptedBias(100, 1, true) == 0 && AdaptedBias(36, 2, false) == 14
  {}

  lemma SpellFirst(delta: nat, rest: seq<nat>, points: nat, bias: int, first: bool)
    ensures Spell([delta] + rest, points, bias, first)
         == Spelled(Digits(delta, 36, bias)) + Spell(rest, points + 1, AdaptedBias(delta, points + 1, first), false)
  {
    assert ([delta] + rest)[1..] == rest;
  }

  lemma UmlautsSpelled()
    ensures Spell([100, 36, 18], 0, 72, true) == Codes("4ca0bs")
  {
    UmlautDigits();
    UmlautBiases();
    UmlautLetters();
    var bias3 := AdaptedBias(18, 3, false);
    hide Digits, AdaptedBias, Spelled, Spell, Codes;
    SpellFirst(100, [36, 18], 0, 72, true);
    SpellFirst(36, [18], 1, 0, false);
    SpellFirst(18, [], 2, 14, false);
    SpellNone(3, bias3, false);
    assert [100] + [36, 18] == [100, 36, 18] && [36] + [18] == [36, 18] && [18] + [] == [18];
  }

  lemma UmlautLetters()
    ensures Spelled([30, 2, 0]) == Codes("4ca") && Spelled([26, 1]) == Codes("0b") && Spelled([18]) == Codes("s")
    ensures Codes("4ca") + (Codes("0b") + (Codes("s") + [])) == Codes("4ca0bs")
  {}

  /** The encoding of three umlauts, which no other initial bias, damping or skew gives. */
  lemma UmlautsEncoded(xs: seq<nat>)
    requires xs == [0xE4, 0xF6, 0xFC]
    ensures Admissible(xs) && !Refused(xs) && ReferenceEncoding(xs) == Codes("xn--4ca0bs")
  {
    assert xs[0] == 0xE4 != PREFIX[0];
    UmlautDeltas(xs);
    UmlautsSpelled();
    NoneCopied(xs);
    hide Deltas, Spell, CopiedPart, Copied;
    assert PREFIX == Codes("xn--");
    assert Codes("xn--") + [] + [] + Codes("4ca0bs") == Codes("xn--4ca0bs");
  }

  lemma {:induction false} NoneCopied(xs: seq<nat>)
    requires forall i :: 0 <= i < |xs| ==> xs[i] >= 128
    ensures CopiedPart(xs) == []
  {
    if xs != [] {
      NoneCopied(xs[..|xs| - 1]);
    }
  }
}
