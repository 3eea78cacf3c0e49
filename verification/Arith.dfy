/** Small facts about numbers. */
module Arith {

  function Min(a: nat, b: nat): nat {
    if a < b then a else b
  }

  function Max(a: nat, b: nat): nat {
    if a < b then b else a
  }

  function Pow2(n: nat): nat {
    if n == 0 then 1 else 2 * Pow2(n - 1)
  }

  lemma {:induction false} Pow2Sum(a: nat, b: nat)
    ensures Pow2(a + b) == Pow2(a) * Pow2(b)
  {
    if a > 0 {
      Pow2Sum(a - 1, b);
      TwiceTimes(Pow2(a - 1), Pow2(b));
    }
  }

  lemma TwiceTimes(a: nat, b: nat)
    ensures 2 * a * b == 2 * (a * b)
  {}

  lemma {:induction false} Pow2Monotone(a: nat, b: nat)
    requires a <= b
    ensures Pow2(a) <= Pow2(b)
  {
    if a < b {
      Pow2Monotone(a, b - 1);
    }
  }

  lemma SquareMonotone(a: nat, b: nat)
    requires a <= b
    ensures a * a <= b * b
  {
    assert b * b - a * a == (b - a) * (b + a);
  }

  lemma TimesMonotone(a: int, b: int, r: nat)
    requires a <= b
    ensures a * r <= b * r
  {
    assert b * r - a * r == (b - a) * r;
  }

  /** d halved k times, rounding down. */
  function Halved(d: nat, k: nat): nat {
    if k == 0 then d else Halved(d / 2, k - 1)
  }

  lemma {:induction false} HalfAgain(d: nat, k: nat)
    ensures Halved(d, k) / 2 == Halved(d, k + 1)
  {
    if k > 0 {
      HalfAgain(d / 2, k - 1);
    }
  }

  lemma {:induction false} HalvedAway(d: nat, k: nat)
    ensures d < Pow2(k) <==> Halved(d, k) == 0
  {
    if k > 0 {
      HalvedAway(d / 2, k - 1);
    }
  }
}
