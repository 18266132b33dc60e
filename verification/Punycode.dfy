/**
  The Punycode encoder and decoder of idna_convert.class.php.

  Strings and code point arrays are both sequences of numbers: a string is the sequence of its byte
  values.  PHP integers are mathematical integers here, and nameprep is the identity.
*/
module Punycode {
  import opened Arith
  import opened Outcomes
  import Ucs4

  const BASE := 36
  const TMIN := 1
  const TMAX := 26
  const SKEW := 38
  const DAMP := 700
  const INITIAL_BIAS := 72
  const INITIAL_N := 0x80
  const MAX_UCS := 0x10FFFF
  const HYPHEN := 0x2D
  const PREFIX: seq<nat> := [0x78, 0x6E, 0x2D, 0x2D]   // "xn--"

  // ----- bias adaptation (RFC 3492, section 6.1) -----

  function Threshold(k: int, bias: int): (t: int)
    ensures TMIN <= t <= TMAX
  {
    if k <= bias then TMIN else if k >= bias + TMAX then TMAX else k - bias
  }

  function BiasAt(delta: nat, k: nat): nat {
    QuotientNonneg((BASE - TMIN + 1) * delta, delta + SKEW);
    k + (BASE - TMIN + 1) * delta / (delta + SKEW)
  }

  function AdaptTail(delta: nat, k: nat): nat {
    if delta > (BASE - TMIN) * TMAX / 2 then AdaptTail(delta / (BASE - TMIN), k + BASE)
    else BiasAt(delta, k)
  }

  function Dampened(delta: nat, points: nat, first: bool): nat
    requires points > 0
  {
    var scaled := if first then delta / DAMP else delta / 2;
    QuotientNonneg(scaled, points);
    scaled + scaled / points
  }

  function AdaptedBias(delta: nat, points: nat, first: bool): nat
    requires points > 0
  {
    AdaptTail(Dampened(delta, points, first), 0)
  }

  method Adapt(delta: nat, points: nat, first: bool) returns (bias: nat)
    requires points > 0
    ensures bias == AdaptedBias(delta, points, first)
  {
    hide BiasAt;
    var d: nat := Dampened(delta, points, first);
    var k: nat := 0;
    while d > (BASE - TMIN) * TMAX / 2
      invariant AdaptTail(d, k) == AdaptedBias(delta, points, first)
    {
      d := d / (BASE - TMIN);
      k := k + BASE;
    }
    bias := BiasAt(d, k);
  }

  // ----- variable-length integers (RFC 3492, sections 3.3 and 6.3) -----

  /** The digits of section 6.3, computed with integer division. */
  function Digits(q: nat, k: nat, bias: int): (ds: seq<nat>)
    ensures |ds| > 0
    ensures forall d :: d in ds ==> d < BASE
    ensures ds[|ds| - 1] < TMAX
    decreases q
  {
    var t := Threshold(k, bias);
    if q < t then [q]
    else
      assert (q - t) / (BASE - t) < q by { QuotientShrinks(q, t); }
      [t + (q - t) % (BASE - t)] + Digits((q - t) / (BASE - t), k + BASE, bias)
  }

  lemma QuotientShrinks(q: nat, t: int)
    requires TMIN <= t <= TMAX && t <= q
    ensures 0 <= (q - t) / (BASE - t) < q
  {
    QuotientAtMost(q - t, BASE - t);
  }

  /** One generalized integer read from the front of `ds`: its value and its length. */
  function ReadInteger(ds: seq<nat>, w: nat, k: nat, bias: int): (r: Option<(nat, nat)>)
    ensures r.Some? ==> 0 < r.value.1 <= |ds|
    decreases |ds|
  {
    if ds == [] then None
    else
      var t := Threshold(k, bias);
      if ds[0] < t then Some((ds[0] * w, 1))
      else
        match ReadInteger(ds[1..], w * (BASE - t), k + BASE, bias)
        case None => None
        case Some((v, n)) => Some((ds[0] * w + v, n + 1))
  }

  lemma DigitWeights(q: int, t: int, w: int)
    requires TMIN <= t <= TMAX && t <= q
    ensures (t + (q - t) % (BASE - t)) * w + ((q - t) / (BASE - t)) * (w * (BASE - t)) == q * w
  {
    var m := BASE - t;
    var a, b := (q - t) / m, (q - t) % m;
    assert q - t == a * m + b;
    assert a * (w * m) == (a * m) * w;
  }

  /** Digits are self-delimiting: whatever follows, exactly they are read, and they denote `q`. */
  lemma {:induction false} SelfDelimiting(q: nat, w: nat, k: nat, bias: int, suffix: seq<nat>)
    ensures ReadInteger(Digits(q, k, bias) + suffix, w, k, bias) == Some((q * w, |Digits(q, k, bias)|))
    decreases q
  {
    var t := Threshold(k, bias);
    var ds := Digits(q, k, bias);
    if q < t {
    } else {
      QuotientShrinks(q, t);
      var rest := Digits((q - t) / (BASE - t), k + BASE, bias);
      SelfDelimiting((q - t) / (BASE - t), w * (BASE - t), k + BASE, bias, suffix);
      assert (ds + suffix)[1..] == rest + suffix;
      DigitWeights(q, t, w);
    }
  }

  lemma RealOrder(y: real, m: int, a: int)
    requires m > 0
    ensures y * m as real >= (a * m) as real ==> y >= a as real
    ensures y * m as real < (a * m) as real ==> y < a as real
  {
    assert (a * m) as real == a as real * m as real;
    assert (y - a as real) * m as real == y * m as real - a as real * m as real;
  }

  lemma FloorOfQuotient(y: real, n: int, m: int)
    requires m > 0 && n as real <= y * m as real < (n + 1) as real
    ensures y.Floor == n / m
  {
    var a := n / m;
    assert n == a * m + n % m;
    assert (a + 1) * m >= n + 1;
    RealOrder(y, m, a);
    RealOrder(y, m, a + 1);
    assert a as real <= y < (a + 1) as real;
  }

  /** The source never floors `$q`; its integer part is what the integer algorithm holds. */
  lemma UnflooredStep(x: real, t: int)
    requires TMIN <= t <= TMAX && x >= t as real
    ensures (x - t as real).Floor == x.Floor - t
    ensures var y := (x - t as real) / (BASE - t) as real;
            y >= 0.0 && y.Floor == (x.Floor - t) / (BASE - t)
  {
    var m := BASE - t;
    var y := (x - t as real) / m as real;
    assert y * m as real == x - t as real;
    FloorOfQuotient(y, x.Floor - t, m);
  }

  function EncodeDigit(d: nat): nat {
    d + 22 + 75 * (if d < 26 then 1 else 0)
  }

  predicate IsDigit(cp: nat) {
    48 <= cp <= 57 || 65 <= cp <= 90 || 97 <= cp <= 122
  }

  function DecodeDigit(cp: nat): int {
    if cp - 48 < 10 then cp - 22
    else if cp - 65 < 26 then cp - 65
    else if cp - 97 < 26 then cp - 97
    else BASE
  }

  /** The digit a valid character stands for. */
  function DigitValue(cp: nat): (d: nat)
    requires IsDigit(cp)
    ensures d < BASE
  {
    DecodeDigit(cp)
  }

  function Spelled(ds: seq<nat>): (s: seq<nat>)
    ensures |s| == |ds|
  {
    seq(|ds|, i requires 0 <= i < |ds| => EncodeDigit(ds[i]))
  }

  function DigitValues(s: seq<nat>): (ds: seq<nat>)
    requires forall i :: 0 <= i < |s| ==> IsDigit(s[i])
    ensures |ds| == |s|
  {
    seq(|s|, i requires 0 <= i < |s| => DigitValue(s[i]))
  }

  lemma SpellStep(q: nat, k: nat, bias: int)
    ensures var t := Threshold(k, bias);
            if q < t then Spelled(Digits(q, k, bias)) == [EncodeDigit(q)]
            else
              && 0 <= (q - t) / (BASE - t) < q
              && Spelled(Digits(q, k, bias)) ==
                   [EncodeDigit(t + (q - t) % (BASE - t))] +
                   Spelled(Digits((q - t) / (BASE - t), k + BASE, bias))
  {
    hide Threshold, EncodeDigit;
    if q >= Threshold(k, bias) { QuotientShrinks(q, Threshold(k, bias)); }
  }

  /** The digit loop of `_encode`, with the real-valued quotient the source uses. */
  method EmitInteger(delta: nat, bias: int) returns (s: seq<nat>)
    ensures s == Spelled(Digits(delta, BASE, bias))
  {
    hide Threshold, Digits, Spelled, EncodeDigit;
    s := [];
    var q: real := delta as real;
    var k: nat := BASE;
    while q >= Threshold(k, bias) as real
      invariant q >= 0.0
      invariant s + Spelled(Digits(q.Floor, k, bias)) == Spelled(Digits(delta, BASE, bias))
      decreases q.Floor
    {
      var t := Threshold(k, bias);
      UnflooredStep(q, t);
      SpellStep(q.Floor, k, bias);
      s := s + [EncodeDigit(t + (q - t as real).Floor % (BASE - t))];
      q := (q - t as real) / (BASE - t) as real;
      k := k + BASE;
    }
    SpellStep(q.Floor, k, bias);
    s := s + [EncodeDigit(q.Floor)];
  }

  lemma SpelledDigits(ds: seq<nat>)
    requires forall d :: d in ds ==> d < BASE
    ensures forall i :: 0 <= i < |ds| ==> IsDigit(Spelled(ds)[i])
    ensures DigitValues(Spelled(ds)) == ds
  {
    forall i | 0 <= i < |ds|
      ensures IsDigit(Spelled(ds)[i]) && DigitValue(Spelled(ds)[i]) == ds[i]
    {
      assert ds[i] in ds;
    }
  }

  // ----- the encoder's reference: visit every code point and every position -----

  /** The code points that `_encode` copies to its output unchanged. */
  predicate Copied(c: nat) {
    || 0x2F < c < 0x40
    || 0x40 < c < 0x5B
    || 0x60 < c <= 0x7B
    || c == 0x2D
  }

  function CopiedPart(xs: seq<nat>): seq<nat> {
    if xs == [] then []
    else CopiedPart(xs[..|xs| - 1]) + if Copied(xs[|xs| - 1]) then [xs[|xs| - 1]] else []
  }

  /** Every code point is either copied or reachable by the search for the next code point. */
  predicate Admissible(xs: seq<nat>) {
    forall i :: 0 <= i < |xs| ==> Copied(xs[i]) || INITIAL_N <= xs[i] <= MAX_UCS
  }

  /**
    The deltas of a scan that tries each code point in turn instead of searching for the next one:
    every decoder state that is passed over counts one.
  */
  ghost function Deltas(xs: seq<nat>, c: nat, i: nat, delta: nat): seq<nat>
    requires c <= MAX_UCS + 1 && i <= |xs|
    decreases MAX_UCS + 1 - c, |xs| - i
  {
    if c > MAX_UCS then []
    else if i == |xs| then Deltas(xs, c + 1, 0, delta + 1)
    else if xs[i] < c then Deltas(xs, c, i + 1, delta + 1)
    else if xs[i] == c then [delta] + Deltas(xs, c, i + 1, 0)
    else Deltas(xs, c, i + 1, delta)
  }

  function Spell(deltas: seq<nat>, points: nat, bias: int, first: bool): seq<nat> {
    if deltas == [] then []
    else
      Spelled(Digits(deltas[0], BASE, bias)) +
      Spell(deltas[1..], points + 1, AdaptedBias(deltas[0], points + 1, first), false)
  }

  lemma SpellNone(points: nat, bias: int, first: bool)
    ensures Spell([], points, bias, first) == []
  {}

  ghost function ReferenceEncoding(xs: seq<nat>): seq<nat> {
    var basic := CopiedPart(xs);
    if |basic| == |xs| then basic
    else
      PREFIX + basic + (if basic != [] then [HYPHEN] else []) +
      Spell(Deltas(xs, INITIAL_N, 0, 0), |basic|, INITIAL_BIAS, true)
  }

  /** The two guards at the head of `_encode`: already encoded, or nothing to encode. */
  predicate Refused(xs: seq<nat>) {
    PREFIX <= xs || forall i :: 0 <= i < |xs| ==> xs[i] <= 0x7A
  }

  // ----- selections of the input -----

  /** The elements below `bound`, in order. */
  function Keep(xs: seq<nat>, bound: nat): (ys: seq<nat>)
    ensures |ys| <= |xs|
  {
    if xs == [] then []
    else Keep(xs[..|xs| - 1], bound) + if xs[|xs| - 1] < bound then [xs[|xs| - 1]] else []
  }

  lemma {:induction false} KeepConcat(a: seq<nat>, b: seq<nat>, bound: nat)
    ensures Keep(a + b, bound) == Keep(a, bound) + Keep(b, bound)
  {
    if b == [] {
      assert a + b == a;
    } else {
      KeepConcat(a, b[..|b| - 1], bound);
      assert (a + b)[..|a + b| - 1] == a + b[..|b| - 1];
    }
  }

  lemma {:induction false} KeepAll(xs: seq<nat>, bound: nat)
    ensures |Keep(xs, bound)| == |xs| <==> forall i :: 0 <= i < |xs| ==> xs[i] < bound
    ensures |Keep(xs, bound)| == |xs| ==> Keep(xs, bound) == xs
  {
    if xs == [] {
    } else {
      var n := |xs| - 1;
      KeepAll(xs[..n], bound);
      assert xs == xs[..n] + [xs[n]];
      assert forall i :: 0 <= i < n ==> xs[..n][i] == xs[i];
    }
  }

  /** Raising the bound over values that do not occur changes nothing. */
  lemma {:induction false} KeepGap(xs: seq<nat>, lo: nat, hi: nat)
    requires lo <= hi
    requires forall i :: 0 <= i < |xs| ==> xs[i] < lo || hi <= xs[i]
    ensures Keep(xs, lo) == Keep(xs, hi)
  {
    if xs == [] {
    } else {
      KeepGap(xs[..|xs| - 1], lo, hi);
    }
  }

  lemma {:induction false} CopiedIsKept(xs: seq<nat>)
    requires Admissible(xs)
    ensures CopiedPart(xs) == Keep(xs, INITIAL_N)
  {
    if xs == [] {
    } else {
      CopiedIsKept(xs[..|xs| - 1]);
    }
  }

  /**
    What the decoder holds when the encoder's scan for code point `c` stands at position `i`: left of
    `i` everything up to `c`, from `i` on everything below `c`.
  */
  function Placed(xs: seq<nat>, c: nat, i: nat): seq<nat>
    requires i <= |xs|
  {
    Keep(xs[..i], c + 1) + Keep(xs[i..], c)
  }

  lemma PlacedStep(xs: seq<nat>, c: nat, i: nat)
    requires i < |xs|
    ensures Keep(xs[..i + 1], c + 1) == Keep(xs[..i], c + 1) + (if xs[i] <= c then [xs[i]] else [])
    ensures Keep(xs[i..], c) == (if xs[i] < c then [xs[i]] else []) + Keep(xs[i + 1..], c)
  {
    assert xs[..i + 1][..i] == xs[..i];
    assert xs[i..] == [xs[i]] + xs[i + 1..];
    KeepConcat([xs[i]], xs[i + 1..], c);
    assert [xs[i]][..0] == [];
  }

  lemma PlacedEnd(xs: seq<nat>, c: nat)
    ensures Placed(xs, c, |xs|) == Keep(xs, c + 1)
    ensures Placed(xs, c, 0) == Keep(xs, c)
    ensures Keep(xs[..0], c + 1) == []
    ensures Keep(xs[..|xs|], c + 1) == Keep(xs, c + 1)
  {
    assert xs[..|xs|] == xs && xs[0..] == xs;
    assert xs[..0] == [] && xs[|xs|..] == [];
  }

  // ----- the encoder -----

  /** A scan that meets no occurrence of `c` only counts the smaller code points. */
  lemma {:induction false} ScanWithout(xs: seq<nat>, c: nat, i: nat, delta: nat)
    requires c <= MAX_UCS && i <= |xs|
    requires forall j :: i <= j < |xs| ==> xs[j] != c
    ensures Deltas(xs, c, i, delta) == Deltas(xs, c + 1, 0, delta + |Keep(xs[i..], c)| + 1)
    decreases |xs| - i
  {
    if i == |xs| {
    } else {
      PlacedStep(xs, c, i);
      ScanWithout(xs, c, i + 1, if xs[i] < c then delta + 1 else delta);
    }
  }

  /** Searching for the next code point and multiplying is the same as trying each one. */
  lemma {:induction false} SkipTo(xs: seq<nat>, c: nat, n: nat, width: nat, delta: nat)
    requires c + n <= MAX_UCS && width == |Keep(xs, c)| + 1
    requires forall i :: 0 <= i < |xs| ==> xs[i] < c || c + n <= xs[i]
    ensures n * width >= 0
    ensures Deltas(xs, c, 0, delta) == Deltas(xs, c + n, 0, delta + n * width)
    decreases n
  {
    if n == 0 {
    } else {
      ScanWithout(xs, c, 0, delta);
      assert xs[0..] == xs;
      KeepGap(xs, c, c + 1);
      OneMoreRow(n - 1, width);
      SkipTo(xs, c + 1, n - 1, width, delta + width);
    }
  }

  lemma {:induction false} NothingLeft(xs: seq<nat>, c: nat, i: nat, delta: nat)
    requires c <= MAX_UCS + 1 && i <= |xs|
    requires forall j :: 0 <= j < |xs| ==> xs[j] < c
    ensures Deltas(xs, c, i, delta) == []
    decreases MAX_UCS + 1 - c, |xs| - i
  {
    if c > MAX_UCS {
    } else if i == |xs| {
      NothingLeft(xs, c + 1, 0, delta + 1);
    } else {
      NothingLeft(xs, c, i + 1, delta + 1);
    }
  }

  /** The smallest code point in [cur, MAX_UCS], or MAX_UCS when there is none. */
  function NextCode(xs: seq<nat>, cur: nat): (next: nat)
    ensures next <= MAX_UCS
    ensures (cur <= next && exists i :: 0 <= i < |xs| && xs[i] == next) || next == MAX_UCS
    ensures forall j :: 0 <= j < |xs| && cur <= xs[j] <= MAX_UCS ==> next <= xs[j]
  {
    if xs == [] then MAX_UCS
    else
      var next, last := NextCode(xs[..|xs| - 1], cur), xs[|xs| - 1];
      if cur <= last <= next then last else next
  }

  method FindNext(xs: seq<nat>, cur: nat) returns (next: nat)
    ensures next == NextCode(xs, cur)
  {
    next := MAX_UCS;
    for i := 0 to |xs|
      invariant next == NextCode(xs[..i], cur)
    {
      assert xs[..i + 1][..i] == xs[..i];
      if xs[i] >= cur && xs[i] <= next {
        next := xs[i];
      }
    }
    assert xs[..|xs|] == xs;
  }

  method CopyBasic(xs: seq<nat>) returns (basic: seq<nat>)
    ensures basic == CopiedPart(xs)
  {
    basic := [];
    for i := 0 to |xs|
      invariant basic == CopiedPart(xs[..i])
    {
      assert xs[..i + 1][..i] == xs[..i];
      if Copied(xs[i]) {
        basic := basic + [xs[i]];
      }
    }
    assert xs[..|xs|] == xs;
  }

  /** One scan of the input for code point `c`, as in the second inner loop of `_encode`. */
  method ScanFor(xs: seq<nat>, c: nat, delta0: nat, points0: nat, bias0: int, first0: bool)
    returns (out: seq<nat>, delta: nat, points: nat, bias: int, first: bool)
    requires c <= MAX_UCS && points0 == |Keep(xs, c)|
    ensures points == |Keep(xs, c + 1)|
    ensures out + Spell(Deltas(xs, c + 1, 0, delta + 1), points, bias, first)
         == Spell(Deltas(xs, c, 0, delta0), points0, bias0, first0)
  {
    hide AdaptedBias, Digits, Keep;
    out, delta, points, bias, first := [], delta0, points0, bias0, first0;
    PlacedEnd(xs, c);
    for i := 0 to |xs|
      invariant points == |Placed(xs, c, i)|
      invariant out + Spell(Deltas(xs, c, i, delta), points, bias, first)
             == Spell(Deltas(xs, c, 0, delta0), points0, bias0, first0)
    {
      PlacedStep(xs, c, i);
      if xs[i] < c {
        delta := delta + 1;
      } else if xs[i] == c {
        var digits := EmitInteger(delta, bias);
        ghost var rest := Deltas(xs, c, i + 1, 0);
        assert ([delta] + rest)[1..] == rest;
        ghost var before := out;
        out := out + digits;
        bias := Adapt(delta, points + 1, first);
        points := points + 1;
        delta := 0;
        first := false;
        assert before + (digits + Spell(rest, points, bias, first)) == out + Spell(rest, points, bias, first);
      }
    }
  }

  /** The head of the outer loop of `_encode`: move to the next code point that occurs. */
  method Advance(xs: seq<nat>, cur: nat, points: nat, delta0: nat) returns (next: nat, delta: nat)
    requires Admissible(xs) && INITIAL_N <= cur && points == |Keep(xs, cur)| < |xs|
    ensures cur <= next <= MAX_UCS && points == |Keep(xs, next)|
    ensures exists i :: 0 <= i < |xs| && xs[i] == next
    ensures Deltas(xs, next, 0, delta) == Deltas(xs, cur, 0, delta0)
  {
    next := FindNext(xs, cur);
    NextIsPresent(xs, cur);
    SkipTo(xs, cur, next - cur, points + 1, delta0);
    KeepGap(xs, cur, next);
    delta := delta0 + (next - cur) * (points + 1);
  }

  /** The outer loop of `_encode`: everything after the prefix, the copied part and the hyphen. */
  method EncodeExtended(xs: seq<nat>, points0: nat) returns (out: seq<nat>)
    requires Admissible(xs) && points0 == |Keep(xs, INITIAL_N)|
    ensures out == Spell(Deltas(xs, INITIAL_N, 0, 0), points0, INITIAL_BIAS, true)
  {
    hide AdaptedBias, Deltas, Keep, Spell;
    var first, bias, points := true, INITIAL_BIAS, points0;
    var cur: nat, delta: nat := INITIAL_N, 0;
    out := [];
    while points < |xs|
      invariant INITIAL_N <= cur <= MAX_UCS + 1 && points == |Keep(xs, cur)|
      invariant out + Spell(Deltas(xs, cur, 0, delta), points, bias, first)
             == Spell(Deltas(xs, INITIAL_N, 0, 0), points0, INITIAL_BIAS, true)
      decreases |xs| - points
    {
      cur, delta := Advance(xs, cur, points, delta);
      KeepGrows(xs, cur);
      var digits;
      digits, delta, points, bias, first := ScanFor(xs, cur, delta, points, bias, first);
      delta := delta + 1;
      cur := cur + 1;
      ghost var rest := Spell(Deltas(xs, cur, 0, delta), points, bias, first);
      assert out + (digits + rest) == (out + digits) + rest;
      out := out + digits;
    }
    KeepAll(xs, cur);
    NothingLeft(xs, cur, 0, delta);
    SpellNone(points, bias, first);
    assert out + [] == out;
  }

  /** While elements remain, the search finds one of them. */
  lemma NextIsPresent(xs: seq<nat>, cur: nat)
    requires Admissible(xs) && INITIAL_N <= cur && |Keep(xs, cur)| < |xs|
    ensures cur <= NextCode(xs, cur) && exists i :: 0 <= i < |xs| && xs[i] == NextCode(xs, cur)
  {
    KeepAll(xs, cur);
    var i :| 0 <= i < |xs| && xs[i] >= cur;
    if NextCode(xs, cur) == MAX_UCS { assert xs[i] == MAX_UCS; }
  }

  method Encode(xs: seq<nat>) returns (r: Option<seq<nat>>)
    requires Refused(xs) || Admissible(xs)
    ensures r == if Refused(xs) then None else Some(ReferenceEncoding(xs))
  {
    if PREFIX <= xs {
      return None;
    }
    var encodable := false;
    for i := 0 to |xs|
      invariant !encodable
      invariant forall j :: 0 <= j < i ==> xs[j] <= 0x7A
    {
      if xs[i] > 0x7A {
        encodable := true;
        break;
      }
    }
    if !encodable {
      return None;
    }
    var encoded := CopyBasic(xs);
    var points := |encoded|;
    if points == |xs| {
      return Some(encoded);
    }
    encoded := PREFIX + encoded;
    if points > 0 {
      encoded := encoded + [HYPHEN];
    }
    CopiedIsKept(xs);
    var extended := EncodeExtended(xs, points);
    assert points == 0 ==> encoded == PREFIX + [] + [];
    return Some(encoded + extended);
  }

  /** A pass over a code point that occurs consumes at least one element. */
  lemma {:induction false} KeepGrows(xs: seq<nat>, c: nat)
    requires exists i :: 0 <= i < |xs| && xs[i] == c
    ensures |Keep(xs, c)| < |Keep(xs, c + 1)|
  {
    var n := |xs| - 1;
    assert xs == xs[..n] + [xs[n]];
    if exists i :: 0 <= i < n && xs[i] == c {
      assert forall i :: 0 <= i < n ==> xs[..n][i] == xs[i];
      KeepGrows(xs[..n], c);
    } else {
      KeepGap(xs[..n], c, c + 1);
    }
  }

  // ----- the decoder -----

  /** The decoder between two insertions: `code` was inserted last, just left of `idx`. */
  datatype Decoder = Decoder(text: seq<nat>, bias: int, idx: nat, code: nat, first: bool)

  /** Inserting the code point that lies `delta` decoder states ahead. */
  function Insert(s: Decoder, delta: nat): Decoder {
    var n := |s.text| + 1;
    var i := s.idx + delta;
    var at, code := i % n, s.code + i / n;
    Decoder(s.text[..at] + [code] + s.text[at..], AdaptedBias(delta, n, s.first), at + 1, code, false)
  }

  function RunDeltas(s: Decoder, deltas: seq<nat>): Decoder
    decreases |deltas|
  {
    if deltas == [] then s else RunDeltas(Insert(s, deltas[0]), deltas[1..])
  }

  /** Reading deltas off the digits until they are used up; None when the last integer is cut short. */
  function RunDigits(s: Decoder, ds: seq<nat>): Option<Decoder>
    decreases |ds|
  {
    if ds == [] then Some(s)
    else
      match ReadInteger(ds, 1, BASE, s.bias)
      case None => None
      case Some((v, n)) => RunDigits(Insert(s, v), ds[n..])
  }

  function LastHyphen(s: seq<nat>): (p: int)
    ensures -1 <= p < |s|
    ensures p >= 0 ==> s[p] == HYPHEN
    ensures forall i :: p < i < |s| ==> s[i] != HYPHEN
  {
    if s == [] then -1 else if s[|s| - 1] == HYPHEN then |s| - 1 else LastHyphen(s[..|s| - 1])
  }

  datatype DecodeError = NotPunycode | EmptyString | NotEncodable

  /** The characters before the last hyphen, when that hyphen lies beyond the prefix. */
  function LiteralPart(s: seq<nat>): seq<nat> {
    var p := LastHyphen(s);
    if p > |PREFIX| then s[|PREFIX|..p] else []
  }

  function DigitPart(s: seq<nat>): seq<nat> {
    s[LastHyphen(s) + 1..]
  }

  function StartState(literal: seq<nat>): Decoder {
    Decoder(literal, INITIAL_BIAS, 0, INITIAL_N, true)
  }

  /** Digits only after the last hyphen, and no integer cut short: the decoder itself checks neither. */
  predicate Complete(s: seq<nat>) {
    && (forall i :: 0 <= i < |DigitPart(s)| ==> IsDigit(DigitPart(s)[i]))
    && RunDigits(StartState(LiteralPart(s)), DigitValues(DigitPart(s))).Some?
  }

  predicate Rejected(s: seq<nat>) {
    !(PREFIX <= s) || s[|PREFIX|..] == [] || s[|PREFIX|..] == [0x30]
  }

  function DecodedText(s: seq<nat>): seq<nat>
    requires Complete(s)
  {
    RunDigits(StartState(LiteralPart(s)), DigitValues(DigitPart(s))).value.text
  }

  function DecodeSpec(s: seq<nat>): Result<seq<nat>, DecodeError>
    requires Rejected(s) || Complete(s)
  {
    if !(PREFIX <= s) then Err(NotPunycode)
    else if Rejected(s) then Err(EmptyString)
    else
      match Ucs4.ToUtf8(DecodedText(s))
      case Some(bytes) => Ok(bytes)
      case None => Err(NotEncodable)
  }

  /** Making room for one element by moving the tail up, as the PHP array loop does. */
  method InsertAt(text: seq<nat>, idx: nat, code: nat) returns (r: seq<nat>)
    requires idx <= |text|
    ensures r == text[..idx] + [code] + text[idx..]
  {
    var n := |text|;
    r := text + [code];
    var i := n;
    while i > idx
      invariant idx <= i <= n && |r| == n + 1
      invariant r[..i] == text[..i] && r[i + 1..] == text[i..]
    {
      r := r[i := r[i - 1]];
      i := i - 1;
    }
    r := r[idx := code];
  }

  lemma ReadStep(ds: seq<nat>, pos: nat, w: nat, k: nat, bias: int)
    requires pos < |ds|
    ensures var t, next := Threshold(k, bias), w * (BASE - Threshold(k, bias));
            if ds[pos] < t then ReadInteger(ds[pos..], w, k, bias) == Some((ds[pos] * w, 1))
            else
              var rest := ReadInteger(ds[pos + 1..], next, k + BASE, bias);
              && rest.Some? == ReadInteger(ds[pos..], w, k, bias).Some?
              && (rest.Some? ==> pos + 1 < |ds| && ReadInteger(ds[pos..], w, k, bias)
                                 == Some((ds[pos] * w + rest.value.0, 1 + rest.value.1)))
  {
    hide Threshold;
    assert ds[pos..][1..] == ds[pos + 1..];
  }

  /** The inner loop of `_decode`: read one integer, accumulating it into `idx`. */
  method ReadDelta(ds: seq<nat>, from: nat, idx0: nat, bias: int) returns (idx: nat, pos: nat)
    requires from < |ds| && ReadInteger(ds[from..], 1, BASE, bias).Some?
    ensures from < pos <= |ds|
    ensures ReadInteger(ds[from..], 1, BASE, bias) == Some((idx - idx0, pos - from))
  {
    hide Threshold, ReadInteger;
    idx, pos := idx0, from;
    var w: nat, k: nat := 1, BASE;
    ghost var whole := ReadInteger(ds[from..], 1, BASE, bias);
    while true
      invariant from <= pos < |ds| && ReadInteger(ds[pos..], w, k, bias).Some?
      invariant var rest := ReadInteger(ds[pos..], w, k, bias).value;
                whole == Some((idx - idx0 + rest.0, pos - from + rest.1))
      decreases |ds| - pos
    {
      ReadStep(ds, pos, w, k, bias);
      var digit := ds[pos];
      pos := pos + 1;
      idx := idx + digit * w;
      var t := Threshold(k, bias);
      if digit < t {
        return;
      }
      w := w * (BASE - t);
      k := k + BASE;
    }
  }

  /** The body of the outer loop of `_decode`, once `idx` has been advanced by a delta. */
  method InsertNext(text0: seq<nat>, bias0: int, old_idx: nat, idx0: nat, code0: nat, first: bool)
    returns (text: seq<nat>, bias: int, idx: nat, code: nat)
    requires old_idx <= idx0
    ensures Decoder(text, bias, idx, code, false)
         == Insert(Decoder(text0, bias0, old_idx, code0, first), idx0 - old_idx)
  {
    var n := |text0| + 1;
    bias := Adapt(idx0 - old_idx, n, first);
    code := code0 + idx0 / n;
    idx := idx0 % n;
    text := InsertAt(text0, idx, code);
    idx := idx + 1;
  }

  /** The outer loop of `_decode`, on the digits that follow the literal part. */
  method DecodeDigits(literal: seq<nat>, ds: seq<nat>) returns (text: seq<nat>)
    requires RunDigits(StartState(literal), ds).Some?
    ensures text == RunDigits(StartState(literal), ds).value.text
  {
    hide Insert, ReadInteger;
    text := literal;
    var first, bias := true, INITIAL_BIAS;
    var idx: nat, code: nat, pos: nat := 0, INITIAL_N, 0;
    assert ds[0..] == ds;
    while pos < |ds|
      invariant pos <= |ds|
      invariant RunDigits(Decoder(text, bias, idx, code, first), ds[pos..]) == RunDigits(StartState(literal), ds)
    {
      ghost var old_pos := pos;
      var old_idx := idx;
      idx, pos := ReadDelta(ds, pos, idx, bias);
      assert ds[old_pos..][pos - old_pos..] == ds[pos..];
      text, bias, idx, code := InsertNext(text, bias, old_idx, idx, code, first);
      first := false;
    }
  }

  method Decode(s: seq<nat>) returns (r: Result<seq<nat>, DecodeError>)
    requires Rejected(s) || Complete(s)
    ensures r == DecodeSpec(s)
  {
    if !(PREFIX <= s) {
      return Err(NotPunycode);
    }
    if s[|PREFIX|..] == [] || s[|PREFIX|..] == [0x30] {
      return Err(EmptyString);
    }
    var text := DecodeDigits(LiteralPart(s), DigitValues(DigitPart(s)));
    match Ucs4.ToUtf8(text)
    case Some(bytes) => r := Ok(bytes);
    case None => r := Err(NotEncodable);
  }

  // ----- round trip -----

  /** The decoder's progress towards the encoder's scan of code point `c` at position `i`. */
  ghost predicate InStep(xs: seq<nat>, c: nat, i: nat, delta: nat, s: Decoder)
    requires i <= |xs|
  {
    && s.text == Placed(xs, c, i)
    && s.code <= c
    && delta + s.idx == (c - s.code) * (|s.text| + 1) + |Keep(xs[..i], c + 1)|
  }

  /** At an occurrence of the code point, the delta takes the decoder exactly to it. */
  lemma InStepInsert(xs: seq<nat>, c: nat, i: nat, delta: nat, s: Decoder)
    requires i < |xs| && xs[i] == c && InStep(xs, c, i, delta, s)
    ensures InStep(xs, c, i + 1, 0, Insert(s, delta))
  {
    var left, right := Keep(xs[..i], c + 1), Keep(xs[i..], c);
    var n := |s.text| + 1;
    DivModUnique(c - s.code, |left|, n);
    PlacedStep(xs, c, i);
    assert s.text[..|left|] == left && s.text[|left|..] == right;
    assert left + [c] + right == (left + [c]) + right;
    assert (c - c) * (n + 1) == 0;
  }

  lemma InStepEnd(xs: seq<nat>, c: nat, delta: nat, s: Decoder)
    requires InStep(xs, c, |xs|, delta, s)
    ensures InStep(xs, c + 1, 0, delta + 1, s)
  {
    PlacedEnd(xs, c);
    PlacedEnd(xs, c + 1);
    OneMoreRow(c - s.code, |s.text| + 1);
  }

  /**
    Encoder and decoder move in lock-step: whenever the encoder emits a delta, the decoder's bias,
    index and code after taking it are those the encoder assumes, and the run ends with the input.
  */
  lemma {:induction false} LockStep(xs: seq<nat>, c: nat, i: nat, delta: nat, s: Decoder)
    requires c <= MAX_UCS + 1 && i <= |xs| && (c > MAX_UCS ==> i == 0)
    requires forall j :: 0 <= j < |xs| ==> xs[j] <= MAX_UCS
    requires InStep(xs, c, i, delta, s)
    ensures RunDeltas(s, Deltas(xs, c, i, delta)).text == xs
    decreases MAX_UCS + 1 - c, |xs| - i
  {
    if c > MAX_UCS {
      PlacedEnd(xs, c);
      KeepAll(xs, c);
    } else if i == |xs| {
      InStepEnd(xs, c, delta, s);
      LockStep(xs, c + 1, 0, delta + 1, s);
    } else if xs[i] == c {
      InStepInsert(xs, c, i, delta, s);
      var rest := Deltas(xs, c, i + 1, 0);
      assert ([delta] + rest)[1..] == rest;
      LockStep(xs, c, i + 1, 0, Insert(s, delta));
    } else {
      PlacedStep(xs, c, i);
      LockStep(xs, c, i + 1, if xs[i] < c then delta + 1 else delta, s);
    }
  }

  lemma RunFirst(s: Decoder, delta: nat, tail: seq<nat>)
    ensures RunDigits(s, Digits(delta, BASE, s.bias) + tail) == RunDigits(Insert(s, delta), tail)
  {
    var head := Digits(delta, BASE, s.bias);
    SelfDelimiting(delta, 1, BASE, s.bias, tail);
    assert (head + tail)[|head|..] == tail;
  }

  lemma DigitValuesConcat(a: seq<nat>, b: seq<nat>)
    requires forall i :: 0 <= i < |a| ==> IsDigit(a[i])
    requires forall i :: 0 <= i < |b| ==> IsDigit(b[i])
    ensures forall i :: 0 <= i < |a + b| ==> IsDigit((a + b)[i])
    ensures DigitValues(a + b) == DigitValues(a) + DigitValues(b)
  {}

  /** The decoder reads back exactly the deltas that were spelled. */
  lemma {:induction false} ReadSpelled(s: Decoder, deltas: seq<nat>)
    ensures var text := Spell(deltas, |s.text|, s.bias, s.first);
            && (forall i :: 0 <= i < |text| ==> IsDigit(text[i]))
            && RunDigits(s, DigitValues(text)) == Some(RunDeltas(s, deltas))
    decreases |deltas|
  {
    hide AdaptedBias, Digits, ReadInteger, DigitValue, EncodeDigit;
    if deltas == [] {
    } else {
      var head := Digits(deltas[0], BASE, s.bias);
      var next := Insert(s, deltas[0]);
      var tail := Spell(deltas[1..], |next.text|, next.bias, next.first);
      ReadSpelled(next, deltas[1..]);
      SpelledDigits(head);
      DigitValuesConcat(Spelled(head), tail);
      RunFirst(s, deltas[0], DigitValues(tail));
    }
  }

  lemma LastHyphenSplit(a: seq<nat>, b: seq<nat>)
    requires a != [] && a[|a| - 1] == HYPHEN
    requires forall i :: 0 <= i < |b| ==> b[i] != HYPHEN
    ensures LastHyphen(a + b) == |a| - 1
  {
    assert (a + b)[|a| - 1] == HYPHEN;
    assert forall i :: |a| <= i < |a + b| ==> (a + b)[i] == b[i - |a|];
  }

  /** The last character of a spelling is a letter, so the remainder never looks like "0". */
  lemma {:induction false} SpellEndsInLetter(deltas: seq<nat>, points: nat, bias: int, first: bool)
    requires deltas != []
    ensures var s := Spell(deltas, points, bias, first);
            s != [] && 97 <= s[|s| - 1] <= 122
  {
    if |deltas| == 1 {
      assert deltas[1..] == [];
    } else {
      SpellEndsInLetter(deltas[1..], points + 1, AdaptedBias(deltas[0], points + 1, first), false);
    }
  }

  lemma SplitEncoding(basic: seq<nat>, digits: seq<nat>)
    requires forall i :: 0 <= i < |digits| ==> IsDigit(digits[i])
    ensures var s := PREFIX + basic + (if basic != [] then [HYPHEN] else []) + digits;
            LiteralPart(s) == basic && DigitPart(s) == digits
  {
    var head := PREFIX + basic + (if basic != [] then [HYPHEN] else []);
    LastHyphenSplit(head, digits);
    assert (head + digits)[|head|..] == digits;
    if basic != [] {
      assert (head + digits)[|PREFIX|..|head| - 1] == basic;
    }
  }

  lemma EncodingNotRejected(basic: seq<nat>, deltas: seq<nat>)
    requires deltas != []
    ensures !Rejected(PREFIX + basic + (if basic != [] then [HYPHEN] else []) +
                      Spell(deltas, |basic|, INITIAL_BIAS, true))
  {
    var digits := Spell(deltas, |basic|, INITIAL_BIAS, true);
    SpellEndsInLetter(deltas, |basic|, INITIAL_BIAS, true);
    var head := PREFIX + basic + (if basic != [] then [HYPHEN] else []);
    assert PREFIX <= head;
    var rest := (head + digits)[|PREFIX|..];
    assert rest[|rest| - 1] == digits[|digits| - 1];
  }

  /** Running the decoder over the deltas of an admissible input ends with that input. */
  lemma DeltasRebuild(xs: seq<nat>)
    requires Admissible(xs)
    ensures RunDeltas(StartState(CopiedPart(xs)), Deltas(xs, INITIAL_N, 0, 0)).text == xs
  {
    CopiedIsKept(xs);
    PlacedEnd(xs, INITIAL_N);
    LockStep(xs, INITIAL_N, 0, 0, StartState(CopiedPart(xs)));
  }

  /**
    Decoding an encoding gives back the code points, for every admissible input that holds something
    to encode and does not carry the prefix already.
  */
  lemma RoundTrip(xs: seq<nat>)
    requires Admissible(xs) && !(PREFIX <= xs)
    requires exists i :: 0 <= i < |xs| && xs[i] >= INITIAL_N
    ensures !Refused(xs)
    ensures var s := ReferenceEncoding(xs);
            !Rejected(s) && Complete(s) && DecodedText(s) == xs
  {
    var basic, deltas := CopiedPart(xs), Deltas(xs, INITIAL_N, 0, 0);
    CopiedIsKept(xs);
    KeepAll(xs, INITIAL_N);
    DeltasRebuild(xs);
    assert deltas != [];
    ReadSpelled(StartState(basic), deltas);
    SplitEncoding(basic, Spell(deltas, |basic|, INITIAL_BIAS, true));
    EncodingNotRejected(basic, deltas);
  }

  // ----- when the encoder's outer loop ends -----

  function Occurrences(xs: seq<nat>, c: nat): nat {
    if xs == [] then 0
    else Occurrences(xs[..|xs| - 1], c) + if xs[|xs| - 1] == c then 1 else 0
  }

  /** `cur_code` and `codecount` at the head of the outer loop. */
  datatype Progress = Progress(cur: nat, count: nat)

  function AfterPasses(xs: seq<nat>, n: nat): Progress {
    if n == 0 then Progress(INITIAL_N, |CopiedPart(xs)|)
    else
      var p := AfterPasses(xs, n - 1);
      var next := NextCode(xs, p.cur);
      Progress(next + 1, p.count + Occurrences(xs, next))
  }

  /** The loop guard `codecount < deco_len` fails after some number of passes. */
  ghost predicate Finishes(xs: seq<nat>) {
    exists n: nat :: AfterPasses(xs, n).count >= |xs|
  }

  method CountOccurrences(xs: seq<nat>, c: nat) returns (n: nat)
    ensures n == Occurrences(xs, c)
  {
    n := 0;
    for i := 0 to |xs|
      invariant n == Occurrences(xs[..i], c)
    {
      assert xs[..i + 1][..i] == xs[..i];
      if xs[i] == c {
        n := n + 1;
      }
    }
    assert xs[..|xs|] == xs;
  }

  lemma PassBegins(xs: seq<nat>)
    ensures AfterPasses(xs, 0) == Progress(INITIAL_N, |CopiedPart(xs)|)
  {}

  lemma PassMore(xs: seq<nat>, n: nat)
    ensures var p := AfterPasses(xs, n);
            var next := NextCode(xs, p.cur);
            AfterPasses(xs, n + 1) == Progress(next + 1, p.count + Occurrences(xs, next))
  {}

  /** After `n` passes the guard still holds, and so it did before each of them. */
  ghost predicate StillShort(xs: seq<nat>, n: nat) {
    forall m :: 0 <= m < n ==> AfterPasses(xs, m).count < |xs|
  }

  lemma ShortMore(xs: seq<nat>, n: nat)
    ensures StillShort(xs, 0)
    ensures StillShort(xs, n) && AfterPasses(xs, n).count < |xs| ==> StillShort(xs, n + 1)
  {}

  /** The outer loop with its guard, as far as the code point and the count are concerned. */
  method OuterLoop(xs: seq<nat>) returns (cur: nat, count: nat, ghost passes: nat)
    requires Finishes(xs)
    ensures Progress(cur, count) == AfterPasses(xs, passes) && count >= |xs| && StillShort(xs, passes)
  {
    ghost var enough: nat :| AfterPasses(xs, enough).count >= |xs|;
    hide *;
    var basic := CopyBasic(xs);
    cur, count, passes := INITIAL_N, |basic|, 0;
    PassBegins(xs);
    ShortMore(xs, 0);
    while count < |xs|
      invariant passes <= enough && Progress(cur, count) == AfterPasses(xs, passes) && StillShort(xs, passes)
      decreases enough - passes
    {
      ShortMore(xs, passes);
      cur, count := OnePass(xs, cur, count, passes);
      passes := passes + 1;
    }
  }

  method OnePass(xs: seq<nat>, cur0: nat, count0: nat, ghost passes: nat) returns (cur: nat, count: nat)
    requires Progress(cur0, count0) == AfterPasses(xs, passes)
    ensures Progress(cur, count) == AfterPasses(xs, passes + 1)
  {
    PassMore(xs, passes);
    cur := FindNext(xs, cur0);
    var found := CountOccurrences(xs, cur);
    cur, count := cur + 1, count0 + found;
  }

  lemma {:induction false} OccursCounted(xs: seq<nat>, c: nat)
    ensures Occurrences(xs, c) > 0 <==> exists i :: 0 <= i < |xs| && xs[i] == c
    ensures |Keep(xs, c + 1)| == |Keep(xs, c)| + Occurrences(xs, c)
  {
    if xs == [] {
    } else {
      var n := |xs| - 1;
      OccursCounted(xs[..n], c);
      assert forall i :: 0 <= i < n ==> xs[..n][i] == xs[i];
      if i :| 0 <= i < |xs| && xs[i] == c {
        assert i < n ==> xs[..n][i] == c;
      }
    }
  }

  /** An admissible input loses at least one element per pass. */
  lemma {:induction false} AdmissibleFinishes(xs: seq<nat>, n: nat)
    requires Admissible(xs)
    ensures var p := AfterPasses(xs, n);
            p.count >= |xs| || (p.count >= n && p.cur >= INITIAL_N && p.count == |Keep(xs, p.cur)|)
  {
    hide NextCode, Keep, Occurrences;
    if n == 0 {
      CopiedIsKept(xs);
    } else {
      AdmissibleFinishes(xs, n - 1);
      var p := AfterPasses(xs, n - 1);
      var next := NextCode(xs, p.cur);
      OccursCounted(xs, next);
      if p.count < |xs| {
        NextIsPresent(xs, p.cur);
        KeepGap(xs, p.cur, next);
      }
    }
  }

  /** With the largest code point present every pass encodes something, if need be that one again. */
  lemma {:induction false} LargestKeepsCounting(xs: seq<nat>, n: nat)
    requires exists i :: 0 <= i < |xs| && xs[i] == MAX_UCS
    ensures AfterPasses(xs, n).count >= n
  {
    hide NextCode, Occurrences;
    if n == 0 {
    } else {
      LargestKeepsCounting(xs, n - 1);
      OccursCounted(xs, NextCode(xs, AfterPasses(xs, n - 1).cur));
    }
  }

  /** The elements that are copied, or that the search has passed. */
  function Reached(xs: seq<nat>, cur: nat): (n: nat)
    ensures n <= |xs|
  {
    if xs == [] then 0
    else
      var x := xs[|xs| - 1];
      Reached(xs[..|xs| - 1], cur) + if Copied(x) || (INITIAL_N <= x < cur && x <= MAX_UCS) then 1 else 0
  }

  lemma {:induction false} ReachedGrows(xs: seq<nat>, cur: nat, next: nat)
    requires INITIAL_N <= cur <= next <= MAX_UCS
    ensures Reached(xs, next + 1) >= Reached(xs, cur) + Occurrences(xs, next)
  {
    if xs == [] {
    } else {
      ReachedGrows(xs[..|xs| - 1], cur, next);
    }
  }

  lemma {:induction false} StuckNotReached(xs: seq<nat>, cur: nat)
    requires !Admissible(xs)
    ensures Reached(xs, cur) < |xs|
  {
    var n := |xs| - 1;
    var k :| 0 <= k < |xs| && !Copied(xs[k]) && !(INITIAL_N <= xs[k] <= MAX_UCS);
    if k < n {
      assert xs[..n][k] == xs[k];
      StuckNotReached(xs[..n], cur);
    }
  }

  lemma {:induction false} CopiedReached(xs: seq<nat>, cur: nat)
    ensures |CopiedPart(xs)| <= Reached(xs, cur)
  {
    if xs == [] {
    } else {
      CopiedReached(xs[..|xs| - 1], cur);
    }
  }

  lemma {:induction false} StuckNeverFinishes(xs: seq<nat>, n: nat)
    requires !Admissible(xs) && forall i :: 0 <= i < |xs| ==> xs[i] != MAX_UCS
    ensures var p := AfterPasses(xs, n);
            INITIAL_N <= p.cur && p.count <= Reached(xs, p.cur) < |xs|
  {
    hide NextCode, Occurrences, Reached;
    StuckNotReached(xs, AfterPasses(xs, n).cur);
    if n == 0 {
      CopiedReached(xs, INITIAL_N);
    } else {
      StuckNeverFinishes(xs, n - 1);
      var p := AfterPasses(xs, n - 1);
      var next := NextCode(xs, p.cur);
      OccursCounted(xs, next);
      if p.cur <= next {
        ReachedGrows(xs, p.cur, next);
      } else {
        CopiedReached(xs, next + 1);
        ReachedBeyond(xs, p.cur);
      }
    }
  }

  /** Past MAX_UCS the search reaches nothing more. */
  lemma {:induction false} ReachedBeyond(xs: seq<nat>, cur: nat)
    requires cur > MAX_UCS
    ensures Reached(xs, cur) == Reached(xs, MAX_UCS + 1)
  {
    if xs == [] {
    } else {
      ReachedBeyond(xs[..|xs| - 1], cur);
    }
  }

  /**
    The outer loop ends exactly on inputs whose code points are all copied or searchable, and on those
    that hold U+10FFFF, which is then encoded again in every further pass.
  */
  lemma FinishesExactly(xs: seq<nat>)
    ensures Finishes(xs) <==> Admissible(xs) || exists i :: 0 <= i < |xs| && xs[i] == MAX_UCS
  {
    if Admissible(xs) {
      AdmissibleFinishes(xs, |xs|);
    } else if exists i :: 0 <= i < |xs| && xs[i] == MAX_UCS {
      LargestKeepsCounting(xs, |xs|);
    } else {
      forall n: nat
        ensures AfterPasses(xs, n).count < |xs|
      {
        StuckNeverFinishes(xs, n);
      }
    }
  }

  /** An exclamation mark is neither copied nor searched for: "!ü" is not refused, and never encoded. */
  lemma StuckExample()
    ensures !Refused([0x21, 0xFC]) && !Finishes([0x21, 0xFC])
  {
    var xs: seq<nat> := [0x21, 0xFC];
    FinishesExactly(xs);
    assert xs[0] == 0x21 && xs[1] == 0xFC;
  }
}
