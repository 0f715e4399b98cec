/** The arithmetic of repaying a loan, in exact reals. */
module LoanMath {

  function Times(a: real, b: real): real
  {
    a * b
  }

  function Pow(q: real, k: nat): real
  {
    if k == 0 then 1.0 else Times(q, Pow(q, k - 1))
  }

  lemma MulPos(a: real, b: real)
    requires a > 0.0 && b > 0.0
    ensures a * b > 0.0
  {
  }

  lemma MulMono(a: real, b: real, c: real)
    requires a <= b && 0.0 <= c
    ensures a * c <= b * c
  {
    assert (b - a) * c >= 0.0;
  }

  lemma {:induction false} PowGrows(q: real, k: nat)
    requires q > 1.0
    ensures Pow(q, k) >= 1.0 && Pow(q, k + 1) > Pow(q, k)
    ensures k > 0 ==> Pow(q, k) > 1.0
  {
    hide Times;
    if k > 0 {
      PowGrows(q, k - 1);
    }
    TimesGrows(q, Pow(q, k));
  }

  lemma TimesGrows(q: real, p: real)
    requires q > 1.0 && p >= 1.0
    ensures Times(q, p) > p
  {
    MulPos(q - 1.0, p);
    assert q * p - p == (q - 1.0) * p;
  }

  lemma {:induction false} PowMono(q: real, j: nat, k: nat)
    requires q > 1.0 && j <= k
    ensures Pow(q, j) <= Pow(q, k)
    decreases k - j
  {
    if j < k {
      PowGrows(q, j);
      PowMono(q, j + 1, k);
    }
  }

  /** The monthly payment that clears debt `s` in `n` months at monthly rate `r`. */
  function Instalment(s: real, r: real, n: nat): real
    requires r > 0.0 && n > 0
  {
    PowGrows(1.0 + r, n);
    s * (r * Pow(1.0 + r, n)) / (Pow(1.0 + r, n) - 1.0)
  }

  /** A debt after one month's interest and a payment of `x`. */
  function Pay(b: real, r: real, x: real): real
  {
    b * (1.0 + r) - x
  }

  /** The debt after `k` payments of `x`. */
  function Balance(s: real, r: real, x: real, k: nat): real
  {
    if k == 0 then s else Pay(Balance(s, r, x, k - 1), r, x)
  }

  lemma Cancel(a: real, r: real)
    requires a * r == 0.0 && r != 0.0
    ensures a == 0.0
  {
  }

  lemma DivMul(a: real, r: real)
    requires r != 0.0
    ensures (a / r) * r == a
  {
  }

  /** The closed form derived in the program's documentation, for growth factor `p`. */
  function ClosedForm(s: real, r: real, x: real, p: real): real
    requires r != 0.0
  {
    s * p - x * (p - 1.0) / r
  }

  lemma ClosedStep(s: real, r: real, x: real, p: real)
    requires r != 0.0
    ensures Pay(ClosedForm(s, r, x, p), r, x) == ClosedForm(s, r, x, Times(1.0 + r, p))
    ensures ClosedForm(s, r, x, 1.0) == s
  {
    var q := 1.0 + r;
    var c, d := x * (p - 1.0) / r, x * (q * p - 1.0) / r;
    DivMul(x * (p - 1.0), r);
    DivMul(x * (q * p - 1.0), r);
    ClosedAlgebra(s, p, q, r, x, c, d);
    DivMul(x * (1.0 - 1.0), r);
    Cancel(x * (1.0 - 1.0) / r, r);
  }

  lemma ClosedAlgebra(s: real, p: real, q: real, r: real, x: real, c: real, d: real)
    requires q == 1.0 + r && r != 0.0
    requires c * r == x * (p - 1.0) && d * r == x * (q * p - 1.0)
    ensures (s * p - c) * q - x == s * (q * p) - d
  {
    var e := d - c * q - x;
    assert e * r == d * r - (c * r) * q - x * r;
    assert (c * r) * q == x * (p - 1.0) * q;
    assert x * (q * p - 1.0) - x * (p - 1.0) * q - x * r == x * (q - 1.0 - r);
    Cancel(e, r);
    assert (s * p - c) * q == s * (q * p) - c * q;
  }

  lemma {:induction false} BalanceClosedForm(s: real, r: real, x: real, k: nat)
    requires r != 0.0
    ensures Balance(s, r, x, k) == ClosedForm(s, r, x, Pow(1.0 + r, k))
  {
    hide Pay, ClosedForm, Times;
    ClosedStep(s, r, x, if k == 0 then 1.0 else Pow(1.0 + r, k - 1));
    if k > 0 {
      BalanceClosedForm(s, r, x, k - 1);
    }
  }

  /** Debt `b` is the part `(big - p) / (big - 1)` of debt `s`. */
  ghost predicate Fraction(s: real, big: real, p: real, b: real)
  {
    b * (big - 1.0) == s * (big - p)
  }

  lemma FractionStep(s: real, big: real, p: real, r: real, b: real, x: real)
    requires Fraction(s, big, p, b) && x * (big - 1.0) == s * (r * big)
    ensures Fraction(s, big, Times(1.0 + r, p), Pay(b, r, x))
  {
    var q, d := 1.0 + r, big - 1.0;
    assert (b * q - x) * d == (b * d) * q - x * d;
    assert s * (big - p) * q - s * (r * big) == s * ((big - p) * q - r * big);
    assert (big - p) * q - r * big == big - q * p;
  }

  /** With the payment of `Instalment`, the debt is a fixed fraction of the original one. */
  lemma {:induction false} BalanceFraction(s: real, r: real, n: nat, k: nat)
    requires r > 0.0 && n > 0
    ensures Fraction(s, Pow(1.0 + r, n), Pow(1.0 + r, k), Balance(s, r, Instalment(s, r, n), k))
  {
    var big, x := Pow(1.0 + r, n), Instalment(s, r, n);
    if k == 0 {
      assert s * (big - 1.0) == s * (big - 1.0);
    } else {
      BalanceFraction(s, r, n, k - 1);
      PowGrows(1.0 + r, n);
      DivMul(s * (r * big), big - 1.0);
      FractionStep(s, big, Pow(1.0 + r, k - 1), r, Balance(s, r, x, k - 1), x);
      hide Fraction, Instalment, Times, Pay;
    }
  }

  /** The payment clears the debt exactly at the last month, and not before; meanwhile the debt falls. */
  lemma InstalmentClears(s: real, r: real, n: nat, k: nat)
    requires r > 0.0 && n > 0 && s > 0.0
    ensures var x := Instalment(s, r, n);
      && Balance(s, r, x, n) == 0.0
      && (k < n ==> Balance(s, r, x, k) > 0.0 && Balance(s, r, x, k + 1) < Balance(s, r, x, k))
  {
    hide Pow, Balance, Instalment;
    var q, big, x := 1.0 + r, Pow(1.0 + r, n), Instalment(s, r, n);
    PowGrows(q, n);
    BalanceFraction(s, r, n, n);
    assert Balance(s, r, x, n) * (big - 1.0) == s * (big - big) == 0.0;
    Cancel(Balance(s, r, x, n), big - 1.0);
    if k < n {
      BalanceFraction(s, r, n, k);
      BalanceFraction(s, r, n, k + 1);
      PowGrows(q, k);
      PowMono(q, k + 1, n);
      var p, p' := Pow(q, k), Pow(q, k + 1);
      MulPos(s, big - p);
      PosQuotient(Balance(s, r, x, k), big - 1.0);
      MulPos(s, p' - p);
      FallStep(s, big, p, p', Balance(s, r, x, k), Balance(s, r, x, k + 1));
    }
  }

  lemma PosQuotient(a: real, d: real)
    requires a * d > 0.0 && d > 0.0
    ensures a > 0.0
  {
    if a <= 0.0 { MulMono(a, 0.0, d); }
  }

  lemma NonNegQuotient(a: real, d: real)
    requires a * d >= 0.0 && d > 0.0
    ensures a >= 0.0
  {
    if a < 0.0 { MulPos(-a, d); }
  }

  lemma FallStep(s: real, big: real, p: real, p': real, b: real, b': real)
    requires big > 1.0 && b * (big - 1.0) == s * (big - p) && b' * (big - 1.0) == s * (big - p')
    requires s * (p' - p) > 0.0
    ensures b' < b
  {
    assert (b - b') * (big - 1.0) == s * (p' - p);
    PosQuotient(b - b', big - 1.0);
  }

  /** Growth by `big` in `n` months is on average at least growth by `p` in `k` months. */
  ghost predicate Convex(k: real, big: real, n: real, p: real)
  {
    k * (big - 1.0) >= n * (p - 1.0)
  }

  /** Growth by `p` in `k` months is at most `k` times the month's growth at level `m`. */
  ghost predicate Bounded(q: real, k: real, p: real, m: real)
  {
    p - 1.0 <= k * (m * (q - 1.0))
  }

  /** Compound growth is convex: the average growth per month rises with time. */
  lemma {:induction false} GrowthConvex(q: real, k: nat, n: nat)
    requires q > 1.0 && k <= n
    ensures Convex(k as real, Pow(q, n), n as real, Pow(q, k))
    decreases n - k
  {
    if k < n {
      hide Convex, Bounded, Times;
      GrowthConvex(q, k, n - 1);
      GrowthBound(q, k, n - 1);
      ConvexStep(q, Pow(q, n - 1), Pow(q, k), k as real, (n - 1) as real);
      assert (n - 1) as real + 1.0 == n as real;
    }
  }

  lemma ConvexStep(q: real, m: real, p: real, k: real, n: real)
    requires Convex(k, m, n, p) && Bounded(q, k, p, m)
    ensures Convex(k, Times(q, m), n + 1.0, p)
  {
    assert k * (q * m - 1.0) == k * (m - 1.0) + k * (m * (q - 1.0));
    assert (n + 1.0) * (p - 1.0) == n * (p - 1.0) + (p - 1.0);
  }

  lemma {:induction false} GrowthBound(q: real, k: nat, m: nat)
    requires q > 1.0 && k <= m + 1
    ensures Bounded(q, k as real, Pow(q, k), Pow(q, m))
  {
    if k > 0 {
      hide Bounded, Times;
      GrowthBound(q, k - 1, m);
      PowMono(q, k - 1, m);
      BoundStep(q, (k - 1) as real, Pow(q, k - 1), Pow(q, m));
      assert (k - 1) as real + 1.0 == k as real;
    }
  }

  lemma BoundStep(q: real, k: real, p: real, m: real)
    requires q > 1.0 && Bounded(q, k, p, m) && p <= m
    ensures Bounded(q, k + 1.0, Times(q, p), m)
  {
    var g := m * (q - 1.0);
    MulMono(p, m, q - 1.0);
    assert q * p - 1.0 == (p - 1.0) + p * (q - 1.0);
    assert (k + 1.0) * g == k * g + g;
  }

  /** The straight line from `s` to zero in `n` months. */
  function Line(s: real, n: nat, k: nat): real
    requires n > 0
  {
    s * (n as real - k as real) / n as real
  }

  /** The instalment debt stays on or above the straight line. */
  lemma AboveLine(s: real, r: real, n: nat, k: nat)
    requires r > 0.0 && n > 0 && k <= n && s >= 0.0
    ensures Balance(s, r, Instalment(s, r, n), k) >= Line(s, n, k)
  {
    hide Pow, Balance, Instalment;
    var q, big := 1.0 + r, Pow(1.0 + r, n);
    var b, l := Balance(s, r, Instalment(s, r, n), k), Line(s, n, k);
    PowGrows(q, n);
    BalanceFraction(s, r, n, k);
    GrowthConvex(q, k, n);
    DivMul(s * (n as real - k as real), n as real);
    LineStep(s, big, Pow(q, k), n as real, k as real, b, l);
  }

  lemma LineStep(s: real, big: real, p: real, n: real, k: real, b: real, l: real)
    requires big > 1.0 && n > 0.0 && s >= 0.0
    requires b * (big - 1.0) == s * (big - p) && l * n == s * (n - k)
    requires k * (big - 1.0) >= n * (p - 1.0)
    ensures b >= l
  {
    var d := big - 1.0;
    assert n * (big - p) - (n - k) * d == k * d - n * (p - 1.0);
    assert (b - l) * (d * n) == (b * d) * n - (l * n) * d;
    assert (b * d) * n - (l * n) * d == s * (n * (big - p) - (n - k) * d);
    MulMono(0.0, k * d - n * (p - 1.0), s);
    MulPos(d, n);
    NonNegQuotient(b - l, d * n);
  }
}
