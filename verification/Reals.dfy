/** Exact arithmetic, step by step. */
module Reals {

  function Abs(x: real): real { if x < 0.0 then -x else x }

  // Products and quotients of reals, named so that proofs can rewrite their arguments.

  function Times(a: real, b: real): real { a * b }

  function Over(a: real, b: real): real
    requires b != 0.0
  {
    a / b
  }

  lemma TimesNonNeg(a: real, b: real)
    requires a >= 0.0 && b >= 0.0
    ensures Times(a, b) >= 0.0
  {
  }

  lemma TimesPos(a: real, b: real)
    requires a > 0.0 && b > 0.0
    ensures Times(a, b) > 0.0
  {
  }

  lemma OverTimes(a: real, b: real)
    requires b != 0.0
    ensures Times(Over(a, b), b) == a
  {
  }

  lemma Minus(a: real, b: real, c: real)
    ensures Times(a - b, c) == Times(a, c) - Times(b, c)
  {
  }

  lemma TimesMinus(a: real, b: real)
    ensures Times(-a, b) == -Times(a, b)
  {
    Minus(0.0, a, b);
    assert Times(0.0, b) == 0.0;
  }

  lemma One(a: real)
    ensures Times(a, 1.0) == a && Times(1.0, a) == a && Over(a, 1.0) == a
  {
  }

  lemma Below(a: real, b: real, c: real)
    requires c > 0.0
    ensures a <= b <==> Times(a, c) <= Times(b, c)
  {
    Minus(a, b, c);
    if a > b {
      TimesPos(a - b, c);
    } else {
      Minus(b, a, c);
      TimesNonNeg(b - a, c);
    }
  }

  lemma AbsTimes(a: real, c: real)
    requires c > 0.0
    ensures Abs(Times(a, c)) == Times(Abs(a), c)
  {
    TimesMinus(a, c);
    TimesNonNeg(Abs(a), c);
    if Times(a, c) == 0.0 && a != 0.0 {
      TimesPos(Abs(a), c);
    }
  }

  /** Distances scale. */
  lemma Scales(a: real, b: real, e: real, c: real)
    requires c > 0.0
    ensures Abs(a - b) <= e <==> Abs(Times(a, c) - Times(b, c)) <= Times(e, c)
  {
    Minus(a, b, c);
    AbsTimes(a - b, c);
    Below(Abs(a - b), e, c);
  }
}
