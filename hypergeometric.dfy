/** The hypergeometric distribution, in exact arithmetic.

    Drawing `draws` items without replacement from `total` items of which
    `marked` are marked, the number X of marked items drawn has
      P(X = i) = C(marked, i) * C(total - marked, draws - i) / C(total, draws).
    The enrichment test reports `1 - cdf(k - 1)`, which is the upper tail
    P(X >= k). Probabilities are reals here, not doubles. */
module Hypergeometric {

  /** The binomial coefficient C(n, k), zero outside 0 <= k <= n. */
  function Choose(n: nat, k: int): (r: nat)
    ensures 0 <= k <= n ==> r > 0
    decreases n
  {
    if k < 0 || k > n then 0
    else if k == 0 || k == n then 1
    else Choose(n - 1, k - 1) + Choose(n - 1, k)
  }

  /** Pascal's rule, for every k. */
  lemma Pascal(n: nat, k: int)
    ensures Choose(n + 1, k) == Choose(n, k) + Choose(n, k - 1)
  {
  }

  /** C(a, i) * C(b, n - i): the number of draws of size n from a marked and
      b unmarked items that take exactly i marked ones. */
  function Weight(a: nat, b: nat, n: nat, i: int): nat
  {
    Choose(a, i) * Choose(b, n - i)
  }

  /** Sum of Weight(a, b, n, i) for 0 <= i < hi. */
  function Conv(a: nat, b: nat, n: nat, hi: nat): nat
  {
    if hi == 0 then 0 else Conv(a, b, n, hi - 1) + Weight(a, b, n, hi - 1)
  }

  /** Sum of Weight(a, b, n, i) for k <= i <= n. */
  function Tail(a: nat, b: nat, n: nat, k: nat): nat
    decreases n + 1 - k
  {
    if k > n then 0 else Weight(a, b, n, k) + Tail(a, b, n, k + 1)
  }

  lemma {:induction false} ConvOfNoMarked(b: nat, n: nat, hi: nat)
    requires hi >= 1
    ensures Conv(0, b, n, hi) == Choose(b, n)
  {
    if hi > 1 {
      ConvOfNoMarked(b, n, hi - 1);
    }
  }

  /** Pascal's rule lifted to the partial sums. */
  lemma {:induction false} ConvPascal(a: nat, b: nat, n: nat, hi: nat)
    requires n >= 1 && hi >= 1
    ensures Conv(a + 1, b, n, hi) == Conv(a, b, n, hi) + Conv(a, b, n - 1, hi - 1)
  {
    var i := hi - 1;
    if hi > 1 {
      ConvPascal(a, b, n, hi - 1);
    }
    WeightPascal(a, b, n, i);
  }

  lemma WeightPascal(a: nat, b: nat, n: nat, i: int)
    requires n >= 1
    ensures Weight(a + 1, b, n, i) == Weight(a, b, n, i) + Weight(a, b, n - 1, i - 1)
  {
    Pascal(a, i);
    assert (n - 1) - (i - 1) == n - i;
    Distribute(Choose(a, i), Choose(a, i - 1), Choose(b, n - i));
  }

  lemma Distribute(x: int, y: int, z: int)
    ensures (x + y) * z == x * z + y * z
  {
  }

  /** Vandermonde's identity: summed over all i, the weights count every
      draw of size n from a + b items. */
  lemma {:induction false} Vandermonde(a: nat, b: nat, n: nat)
    ensures Conv(a, b, n, n + 1) == Choose(a + b, n)
  {
    if a == 0 {
      ConvOfNoMarked(b, n, n + 1);
    } else if n == 0 {
      assert Conv(a, b, 0, 1) == Weight(a, b, 0, 0);
    } else {
      ConvPascal(a - 1, b, n, n + 1);
      Vandermonde(a - 1, b, n);
      Vandermonde(a - 1, b, n - 1);
      Pascal(a - 1 + b, n);
    }
  }

  /** Past i = n every weight is zero. */
  lemma {:induction false} ConvSaturates(a: nat, b: nat, n: nat, hi: nat)
    requires hi >= n + 1
    ensures Conv(a, b, n, hi) == Conv(a, b, n, n + 1)
  {
    if hi > n + 1 {
      ConvSaturates(a, b, n, hi - 1);
      assert Choose(b, n - (hi - 1)) == 0;
    }
  }

  lemma {:induction false} ConvMonotone(a: nat, b: nat, n: nat, lo: nat, hi: nat)
    requires lo <= hi
    ensures Conv(a, b, n, lo) <= Conv(a, b, n, hi)
  {
    if lo < hi {
      ConvMonotone(a, b, n, lo, hi - 1);
    }
  }

  /** The lower part and the upper part add up to the whole sum. */
  lemma {:induction false} ConvPlusTail(a: nat, b: nat, n: nat, k: nat)
    requires k <= n + 1
    ensures Conv(a, b, n, k) + Tail(a, b, n, k) == Conv(a, b, n, n + 1)
    decreases n + 1 - k
  {
    if k <= n {
      ConvPlusTail(a, b, n, k + 1);
    }
  }

  /** A p-value as scipy returns it: a number, or NaN when the distribution's
      parameters are out of range. */
  datatype PValue = Num(value: real) | NaN

  /** The parameters scipy's `hypergeom(M, n, N)` accepts: a non-empty
      population, and neither the marked count nor the draws exceeding it. */
  predicate ValidParams(total: nat, marked: nat, draws: nat)
  {
    0 < total && marked <= total && draws <= total
  }

  lemma RatioInUnit(part: nat, whole: nat)
    requires part <= whole && whole > 0
    ensures 0.0 <= part as real / whole as real <= 1.0
  {
  }

  lemma RatioComplement(below: nat, above: nat, whole: nat)
    requires below + above == whole && whole > 0
    ensures 1.0 - below as real / whole as real == above as real / whole as real
  {
    var w := whole as real;
    var b := below as real;
    var a := above as real;
    assert b + a == w;
    SameDenominator(b, a, w);
  }

  lemma SameDenominator(x: real, y: real, w: real)
    requires w > 0.0 && x + y == w
    ensures 1.0 - x / w == y / w
  {
    assert x / w + y / w == (x + y) / w;
  }

  lemma RatioMonotone(x: nat, y: nat, whole: nat)
    requires x <= y && whole > 0
    ensures x as real / whole as real <= y as real / whole as real
    ensures x < y ==> x as real / whole as real < y as real / whole as real
  {
  }

  /** `hypergeom.cdf(x, total, marked, draws)`: P(X <= x), or NaN. */
  function HypergeomCdf(x: int, total: nat, marked: nat, draws: nat): (p: PValue)
    ensures p.NaN? <==> !ValidParams(total, marked, draws)
    ensures p.Num? ==> 0.0 <= p.value <= 1.0
  {
    if !ValidParams(total, marked, draws) then NaN
    else if x < 0 then Num(0.0)
    else
      var all := Choose(total, draws);
      var below := Conv(marked, total - marked, draws, x + 1);
      var top := if x + 1 <= draws + 1 then draws + 1 else x + 1;
      Vandermonde(marked, total - marked, draws);
      ConvMonotone(marked, total - marked, draws, x + 1, top);
      ConvSaturates(marked, total - marked, draws, top);
      RatioInUnit(below, all);
      Num(below as real / all as real)
  }

  /** `1 - pv` on a p-value; NaN stays NaN. */
  function Complement(p: PValue): PValue
  {
    match p
    case Num(v) => Num(1.0 - v)
    case NaN => NaN
  }

  /** P(X >= k), exactly. */
  function UpperTail(total: nat, marked: nat, draws: nat, k: nat): real
    requires ValidParams(total, marked, draws)
  {
    Tail(marked, total - marked, draws, k) as real / Choose(total, draws) as real
  }

  /** `1 - cdf(k - 1)` is the probability of drawing k or more marked items,
      and it lies in [0, 1]. */
  lemma UpperTailFromCdf(total: nat, marked: nat, draws: nat, k: nat)
    requires ValidParams(total, marked, draws)
    ensures Complement(HypergeomCdf(k - 1, total, marked, draws)) == Num(UpperTail(total, marked, draws, k))
    ensures 0.0 <= UpperTail(total, marked, draws, k) <= 1.0
  {
    var b := total - marked;
    var all := Choose(total, draws);
    Vandermonde(marked, b, draws);
    assert all > 0;
    var tail := Tail(marked, b, draws, k);
    var below := if k == 0 then 0 else Conv(marked, b, draws, k);
    if k <= draws + 1 {
      ConvPlusTail(marked, b, draws, k);
    } else {
      ConvSaturates(marked, b, draws, k);
    }
    assert below + tail == all;
    RatioComplement(below, tail, all);
    RatioInUnit(tail, all);
  }

  lemma PositiveProduct(x: nat, y: nat)
    requires x > 0 && y > 0
    ensures x * y > 0
  {
  }

  /** A larger overlap never has a larger p-value, and inside the support of
      the distribution it has a strictly smaller one. */
  lemma UpperTailDecreasing(total: nat, marked: nat, draws: nat, k: nat)
    requires ValidParams(total, marked, draws)
    ensures UpperTail(total, marked, draws, k + 1) <= UpperTail(total, marked, draws, k)
    ensures k <= marked && k <= draws && draws - k <= total - marked ==>
              UpperTail(total, marked, draws, k + 1) < UpperTail(total, marked, draws, k)
  {
    var b := total - marked;
    var w := if k > draws then 0 else Weight(marked, b, draws, k);
    assert Tail(marked, b, draws, k) == w + Tail(marked, b, draws, k + 1);
    if k <= marked && k <= draws && draws - k <= b {
      PositiveProduct(Choose(marked, k), Choose(b, draws - k));
    }
    RatioMonotone(Tail(marked, b, draws, k + 1), Tail(marked, b, draws, k), Choose(total, draws));
  }
}
