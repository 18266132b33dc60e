/**
  Products and quotients of reals, under names: proofs hide what they stand for and call the laws they
  need.
*/
module Reals {
  function Times(a: real, b: real): real { a * b }

  function Over(a: real, b: real): real
    requires b != 0.0
  {
    a / b
  }

  lemma TimesOne(a: real)
    ensures Times(a, 1.0) == a && Times(1.0, a) == a && Times(a, 0.0) == 0.0 && Times(0.0, a) == 0.0
  {}

  lemma Commutes(a: real, b: real)
    ensures Times(a, b) == Times(b, a)
  {}

  lemma Associates(a: real, b: real, c: real)
    ensures Times(Times(a, b), c) == Times(a, Times(b, c))
  {}

  lemma Distributes(c: real, x: real, y: real)
    ensures Times(c, x + y) == Times(c, x) + Times(c, y)
  {}

  lemma Swapped(a: real, b: real, c: real)
    ensures Times(Times(a, b), c) == Times(Times(a, c), b)
  {
    Associates(a, b, c);
    Commutes(b, c);
    Associates(a, c, b);
  }

  lemma TimesPositive(a: real, b: real)
    requires a > 0.0 && b > 0.0
    ensures Times(a, b) > 0.0
  {}

  lemma TimesNonneg(a: real, b: real)
    requires a >= 0.0 && b >= 0.0
    ensures Times(a, b) >= 0.0
    ensures Times(a, b) > 0.0 <==> a > 0.0 && b > 0.0
  {}

  lemma OverTimes(x: real, y: real)
    requires y != 0.0
    ensures Times(y, Over(x, y)) == x
  {}

  lemma OverNonneg(x: real, y: real)
    requires x >= 0.0 && y > 0.0
    ensures Over(x, y) >= 0.0 && (Over(x, y) > 0.0 <==> x > 0.0)
  {}

  lemma OverSelf(x: real)
    requires x != 0.0
    ensures Over(x, x) == 1.0
  {}

  lemma OverSum(x: real, y: real, z: real)
    requires z != 0.0
    ensures Over(x + y, z) == Over(x, z) + Over(y, z)
  {}

  lemma OnlyOne(x: real, total: real)
    requires total == Times(total, x) && total != 0.0
    ensures x == 1.0
  {}
}
