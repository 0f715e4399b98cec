/** Euclid's algorithm with its trace, the linear combination read off it, and linear congruences. */
module NumberTheory {

  import opened Options

  function Mul(a: int, b: int): int
  {
    a * b
  }

  /** `d` divides `a`. */
  ghost predicate Divides(d: int, a: int)
  {
    exists k :: a == Mul(d, k)
  }

  function Abs(x: int): nat
  {
    if x < 0 then -x else x
  }

  function Quot(x: nat, y: nat): nat
    requires y > 0
  {
    x / y
  }

  /** Division that truncates toward zero. */
  function TDiv(a: int, b: int): int
    requires b != 0
  {
    var q: int := Quot(Abs(a), Abs(b));
    if (a < 0) == (b < 0) then q else -q
  }

  function TRem(a: int, b: int): (r: int)
    requires b != 0
    ensures Abs(r) < Abs(b)
  {
    TRemSmall(a, b);
    a - Mul(TDiv(a, b), b)
  }

  lemma TRemSmall(a: int, b: int)
    requires b != 0
    ensures Abs(a - Mul(TDiv(a, b), b)) < Abs(b)
    ensures Abs(a) < Abs(b) ==> TDiv(a, b) == 0
  {
    hide Mul, Quot;
    DivMod(Abs(a), Abs(b));
    MulSigns(Quot(Abs(a), Abs(b)), b);
  }

  /** The quotient is cut off toward zero, and the remainder has the sign of the dividend. */
  lemma Truncates(a: int, b: int)
    requires b != 0
    ensures a == Mul(TDiv(a, b), b) + TRem(a, b)
    ensures Abs(Mul(TDiv(a, b), b)) <= Abs(a) < Abs(Mul(TDiv(a, b), b)) + Abs(b)
    ensures 0 <= a ==> 0 <= TRem(a, b)
    ensures a <= 0 ==> TRem(a, b) <= 0
  {
    hide Mul, Quot;
    DivMod(Abs(a), Abs(b));
    MulSigns(Quot(Abs(a), Abs(b)), b);
    NotNegative(Quot(Abs(a), Abs(b)), Abs(b));
  }

  lemma NotNegative(x: nat, y: nat)
    ensures 0 <= Mul(x, y)
  {
  }

  lemma DivMod(x: nat, y: nat)
    requires y > 0
    ensures 0 <= x - Mul(Quot(x, y), y) < y
    ensures x < y ==> Quot(x, y) == 0
  {
    assert x == y * (x / y) + x % y;
  }

  lemma MulSigns(q: int, b: int)
    ensures Mul(-q, b) == -Mul(q, b) == Mul(q, -b)
  {
  }

  /** The last nonzero remainder. */
  function Euclid(a: int, b: int): int
    decreases Abs(b)
  {
    if b == 0 then a else Euclid(b, TRem(a, b))
  }

  /** The quotients of the trace. */
  function Quotients(a: int, b: int): seq<int>
    decreases Abs(b)
  {
    if b == 0 then [] else [TDiv(a, b)] + Quotients(b, TRem(a, b))
  }

  /** Entry `i` of a sequence in which each entry is the one before last minus a quotient times the
      last: the remainders, when it starts with the two numbers themselves. */
  function Recur(first: int, second: int, qs: seq<int>, i: nat): int
    requires i <= |qs| + 1
  {
    if i == 0 then first
    else if i == 1 then second
    else Recur(first, second, qs, i - 2) - Mul(qs[i - 2], Recur(first, second, qs, i - 1))
  }

  /** The coefficients of `a` and `b` after `i` steps of the recurrence. */
  function CoeffA(qs: seq<int>, i: nat): int
    requires i <= |qs| + 1
  {
    Recur(1, 0, qs, i)
  }

  function CoeffB(qs: seq<int>, i: nat): int
    requires i <= |qs| + 1
  {
    Recur(0, 1, qs, i)
  }

  /** Every remainder is its linear combination of the two numbers. */
  lemma {:induction false} RemainderIsCombination(a: int, b: int, qs: seq<int>, i: nat)
    requires i <= |qs| + 1
    ensures Recur(a, b, qs, i) == Mul(a, CoeffA(qs, i)) + Mul(b, CoeffB(qs, i))
  {
    if i >= 2 {
      RemainderIsCombination(a, b, qs, i - 2);
      RemainderIsCombination(a, b, qs, i - 1);
      CombinationStep(a, b, CoeffA(qs, i - 2), CoeffB(qs, i - 2), qs[i - 2], CoeffA(qs, i - 1), CoeffB(qs, i - 1));
      hide Mul;
    }
  }

  lemma CombinationStep(a: int, b: int, x: int, y: int, q: int, x': int, y': int)
    ensures Mul(a, x) + Mul(b, y) - Mul(q, Mul(a, x') + Mul(b, y'))
      == Mul(a, x - Mul(q, x')) + Mul(b, y - Mul(q, y'))
  {
  }

  /** Dropping the first step shifts the trace. */
  lemma {:induction false} RecurShift(first: int, second: int, qs: seq<int>, i: nat)
    requires qs != [] && i <= |qs|
    ensures Recur(first, second, qs, i + 1) == Recur(second, first - Mul(qs[0], second), qs[1..], i)
  {
    hide Mul;
    if i >= 2 {
      RecurShift(first, second, qs, i - 2);
      RecurShift(first, second, qs, i - 1);
      assert qs[1..][i - 2] == qs[i - 1];
    }
  }

  /** The trace ends with the last nonzero remainder and a zero. */
  lemma {:induction false} TraceEnds(a: int, b: int)
    ensures var qs := Quotients(a, b);
      Recur(a, b, qs, |qs|) == Euclid(a, b) && Recur(a, b, qs, |qs| + 1) == 0
    decreases Abs(b)
  {
    if b != 0 {
      hide Mul;
      TraceEnds(b, TRem(a, b));
      var qs := Quotients(a, b);
      assert qs[1..] == Quotients(b, TRem(a, b));
      RecurShift(a, b, qs, |qs| - 1);
      RecurShift(a, b, qs, |qs|);
    }
  }

  lemma DividesLinear(d: int, a: int, b: int, x: int, y: int)
    requires Divides(d, a) && Divides(d, b)
    ensures Divides(d, Mul(a, x) + Mul(b, y))
  {
    var i :| a == Mul(d, i);
    var j :| b == Mul(d, j);
    assert Mul(Mul(d, i), x) + Mul(Mul(d, j), y) == Mul(d, i * x + j * y);
  }

  /** The last nonzero remainder divides both numbers. */
  lemma {:induction false} EuclidDivides(a: int, b: int)
    ensures Divides(Euclid(a, b), a) && Divides(Euclid(a, b), b)
    decreases Abs(b)
  {
    if b == 0 {
      assert a == Mul(a, 1) && b == Mul(a, 0);
    } else {
      var q, r, g := TDiv(a, b), TRem(a, b), Euclid(a, b);
      EuclidDivides(b, r);
      DividesLinear(g, b, r, q, 1);
      assert Mul(b, q) + Mul(r, 1) == a;
    }
  }

  /** The recurrence gives a Bezout identity. */
  lemma Bezout(a: int, b: int)
    ensures var qs := Quotients(a, b);
      Mul(a, CoeffA(qs, |qs|)) + Mul(b, CoeffB(qs, |qs|)) == Euclid(a, b)
  {
    var qs := Quotients(a, b);
    TraceEnds(a, b);
    RemainderIsCombination(a, b, qs, |qs|);
  }

  /** A greatest common divisor, up to sign: it divides both and every common divisor divides it. */
  lemma EuclidIsGcd(a: int, b: int, d: int)
    ensures Divides(Euclid(a, b), a) && Divides(Euclid(a, b), b)
    ensures Divides(d, a) && Divides(d, b) ==> Divides(d, Euclid(a, b))
    ensures a != 0 || b != 0 ==> Euclid(a, b) != 0
  {
    EuclidDivides(a, b);
    Bezout(a, b);
    if Divides(d, a) && Divides(d, b) {
      var qs := Quotients(a, b);
      DividesLinear(d, a, b, CoeffA(qs, |qs|), CoeffB(qs, |qs|));
    }
    if Euclid(a, b) == 0 {
      var i :| a == Mul(0, i);
      var j :| b == Mul(0, j);
    }
  }

  // ---- the program

  /** The greatest common divisor, with the sign that truncating division gives it. */
  method EuclideanGcd(a: int, b: int) returns (g: int)
    ensures g == Euclid(a, b)
    ensures Divides(g, a) && Divides(g, b) && forall d :: Divides(d, a) && Divides(d, b) ==> Divides(d, g)
  {
    forall d ensures Divides(d, a) && Divides(d, b) ==> Divides(d, Euclid(a, b)) {
      EuclidIsGcd(a, b, d);
    }
    EuclidIsGcd(a, b, 1);
    hide Divides, Mul, TDiv;
    if a == 0 && b == 0 {
      return 0;
    } else if a == 0 && b != 0 {
      ZeroDividend(b);
      return b;
    } else if a != 0 && b == 0 {
      return a;
    }
    var x, y := a, b;
    while y != 0
      invariant Euclid(x, y) == Euclid(a, b)
      decreases Abs(y)
    {
      var q := TDiv(x, y);
      var r := x - Mul(q, y);
      TRemSmall(x, y);
      x, y := y, r;
    }
    return x;
  }

  lemma ZeroDividend(b: int)
    requires b != 0
    ensures TRem(0, b) == 0 && Euclid(0, b) == b && Quotients(0, b) == [0]
  {
    TRemSmall(0, b);
  }

  /** Reads the coefficients off the last equation. A polynomial without `a` or without `b` has one
      generator only, so its only coefficient is taken for that of `a` and the other is missing. */
  function ReadOff(x: int, y: int): (Option<int>, Option<int>)
  {
    if x != 0 && y != 0 then (Some(x), Some(y))
    else if x != 0 then (Some(x), None)
    else if y != 0 then (Some(y), None)
    else (None, None)
  }

  /** What the linear-combination function returns for two nonzero numbers. */
  function Combination(a: int, b: int): (Option<int>, Option<int>)
  {
    var qs := Quotients(a, b);
    ReadOff(CoeffA(qs, |qs|), CoeffB(qs, |qs|))
  }

  /** Solves a*x + b*y = gcd(a, b). The Euclid trace is kept, then the equations are built up. */
  method EuclideanLinearCombination(a: int, b: int) returns (x1: Option<int>, y1: Option<int>, g: int)
    ensures g == Euclid(a, b)
    ensures a != 0 && b != 0 ==> (x1, y1) == Combination(a, b)
    ensures a == 0 || b == 0 ==> x1.Some? && y1.Some? && Mul(a, x1.value) + Mul(b, y1.value) == g
  {
    if a == 0 && b == 0 {
      return Some(0), Some(0), 0;
    } else if a == 0 && b != 0 {
      ZeroDividend(b);
      return Some(0), Some(1), b;
    } else if a != 0 && b == 0 {
      return Some(1), Some(0), a;
    }
    var qs;
    qs, g := Trace(a, b);
    var last := LastEquation(qs);
    var read := ReadOff(last.0, last.1);
    x1, y1 := read.0, read.1;
  }

  /** Euclid's algorithm, keeping quotients and remainders. */
  method Trace(a: int, b: int) returns (qs: seq<int>, g: int)
    requires b != 0
    ensures qs == Quotients(a, b) && qs != [] && g == Euclid(a, b)
  {
    hide TDiv, Mul;
    var rs, x, y := [a, b], a, b;
    qs := [];
    while y != 0
      invariant Quotients(a, b) == qs + Quotients(x, y) && Euclid(a, b) == Euclid(x, y)
      invariant |rs| == |qs| + 2 && rs[|qs|] == x && rs[|qs| + 1] == y
      invariant qs == [] ==> y != 0
      decreases Abs(y)
    {
      var q := TDiv(x, y);
      var r := x - Mul(q, y);
      TRemSmall(x, y);
      assert qs + ([q] + Quotients(y, r)) == (qs + [q]) + Quotients(y, r);
      qs := qs + [q];
      x, y := y, r;
      rs := rs + [r];
    }
    g := x;
  }

  /** The equations for the remainders, as pairs of coefficients; the last one is for the gcd. */
  method LastEquation(qs: seq<int>) returns (last: (int, int))
    requires qs != []
    ensures last == (CoeffA(qs, |qs|), CoeffB(qs, |qs|))
  {
    hide Mul;
    var eqs := [(1, 0), (0, 1)];
    var i := 0;
    while i < |qs| - 1
      invariant 0 <= i <= |qs| - 1 && |eqs| == i + 2
      invariant forall k :: 0 <= k < |eqs| ==> eqs[k] == (CoeffA(qs, k), CoeffB(qs, k))
    {
      var p, n := eqs[i], eqs[i + 1];
      eqs := eqs + [(p.0 - Mul(qs[i], n.0), p.1 - Mul(qs[i], n.1))];
      i := i + 1;
    }
    last := eqs[|eqs| - 1];
  }

  // ---- when the pair read off is a solution

  lemma DividesRem(a: int, b: int)
    requires b != 0
    ensures Divides(b, a) <==> TRem(a, b) == 0
  {
    var q, r := TDiv(a, b), TRem(a, b);
    if r == 0 {
      assert a == Mul(b, q);
    }
    if Divides(b, a) {
      var k :| a == Mul(b, k);
      SmallMultiple(b, k - q, r);
    }
    hide TDiv;
  }

  lemma AbsMul(b: int, k: int)
    ensures Abs(Mul(b, k)) == Mul(Abs(b), Abs(k))
  {
    MulSigns(b, k);
    MulSigns(-b, k);
    if b >= 0 && k >= 0 {
      MulGrows(b, k);
    } else if b >= 0 {
      MulGrows(b, -k);
    } else if k >= 0 {
      MulGrows(-b, k);
    } else {
      MulGrows(-b, -k);
    }
    hide Mul;
  }

  lemma {:induction false} MulGrows(y: nat, j: nat)
    ensures Mul(y, j) >= 0 && (j >= 1 ==> Mul(y, j) >= y) && (j >= 2 && y > 0 ==> Mul(y, j) > y)
  {
    if j > 0 {
      MulGrows(y, j - 1);
      assert Mul(y, j) == Mul(y, j - 1) + y;
    }
  }

  lemma SmallMultiple(b: int, k: int, r: int)
    requires r == Mul(b, k) && Abs(r) < Abs(b)
    ensures r == 0
  {
    AbsMul(b, k);
    MulGrows(Abs(b), Abs(k));
    assert Mul(b, 0) == 0;
    hide Mul;
  }

  lemma DividesTrans(d: int, e: int, a: int)
    requires Divides(d, e) && Divides(e, a)
    ensures Divides(d, a)
  {
    var i :| e == Mul(d, i);
    var j :| a == Mul(e, j);
    assert a == Mul(d, i * j);
  }

  /** If one number divides the other, one of the two coefficients is zero and goes missing. */
  lemma DegenerateTrace(a: int, b: int)
    requires a != 0 && b != 0
    ensures Divides(b, a) ==> Quotients(a, b) == [TDiv(a, b)] && Combination(a, b) == (Some(1), None)
    ensures Divides(a, b) && !Divides(b, a) ==>
      Quotients(a, b) == [0, TDiv(b, a)] && Combination(a, b) == (Some(1), None)
  {
    DividesRem(a, b);
    DividesRem(b, a);
    if Divides(b, a) {
      hide Divides, TDiv;
      assert Quotients(b, 0) == [];
      OneStep(TDiv(a, b));
    } else if Divides(a, b) {
      SmallerDivisor(a, b);
      TRemSmall(a, b);
      assert TRem(a, b) == a by { assert Mul(0, b) == 0; }
      hide Divides, TDiv;
      assert Quotients(b, a) == [TDiv(b, a)] + Quotients(a, 0);
      assert Quotients(a, 0) == [];
      TwoSteps(TDiv(b, a));
    }
  }

  lemma OneStep(q: int)
    ensures CoeffA([q], 1) == 0 && CoeffB([q], 1) == 1
  {
  }

  lemma TwoSteps(q: int)
    ensures CoeffA([0, q], 2) == 1 && CoeffB([0, q], 2) == 0
  {
    var qs := [0, q];
    assert Recur(1, 0, qs, 2) == Recur(1, 0, qs, 0) - Mul(qs[0], Recur(1, 0, qs, 1));
    assert Recur(0, 1, qs, 2) == Recur(0, 1, qs, 0) - Mul(qs[0], Recur(0, 1, qs, 1));
  }

  lemma SmallerDivisor(a: int, b: int)
    requires b != 0 && Divides(a, b) && !Divides(b, a)
    ensures Abs(a) < Abs(b)
  {
    var k :| b == Mul(a, k);
    AbsMul(a, k);
    MulGrows(Abs(a), Abs(k));
    assert Mul(a, 0) == 0 && Mul(a, 1) == a && Mul(a, -1) == -a;
    if k == 1 || k == -1 {
      assert a == Mul(b, k);
    }
    hide Mul;
  }

  lemma NeitherZero(a: int, b: int, x: int, y: int, g: int)
    requires Mul(a, x) + Mul(b, y) == g && Divides(g, a) && Divides(g, b)
    requires !Divides(a, b) && !Divides(b, a)
    ensures x != 0 && y != 0
  {
    assert Mul(a, 0) == 0 && Mul(b, 0) == 0;
    if x == 0 {
      assert Divides(b, g);
      DividesTrans(b, g, a);
    }
    if y == 0 {
      assert Divides(a, g);
      DividesTrans(a, g, b);
    }
  }

  /** For nonzero numbers the returned pair is a solution exactly when neither divides the other. */
  lemma ReadOffExactly(a: int, b: int)
    requires a != 0 && b != 0
    ensures var (x, y) := Combination(a, b);
      (x.Some? && y.Some? && Mul(a, x.value) + Mul(b, y.value) == Euclid(a, b))
        <==> !Divides(a, b) && !Divides(b, a)
  {
    var qs := Quotients(a, b);
    var x, y, g := CoeffA(qs, |qs|), CoeffB(qs, |qs|), Euclid(a, b);
    DegenerateTrace(a, b);
    Bezout(a, b);
    EuclidIsGcd(a, b, 1);
    if !Divides(a, b) && !Divides(b, a) {
      NeitherZero(a, b, x, y, g);
    }
    hide Divides, Mul;
  }

  /** For example, 6 and 3: the pair should be (0, 1), but (1, missing) comes back. */
  lemma ReadOffExample()
    ensures Combination(6, 3) == (Some(1), None) && Euclid(6, 3) == 3
  {
    assert 6 == Mul(3, 2);
    DegenerateTrace(6, 3);
    DividesRem(6, 3);
    assert Euclid(6, 3) == Euclid(3, 0);
  }

  // ---- linear congruences

  /** `x` solves a*x = c (mod m). */
  ghost predicate Solves(a: int, c: int, m: int, x: int)
  {
    Divides(m, Mul(a, x) - c)
  }

  /** `sols` lists every residue class of solutions once. */
  ghost predicate Complete(a: int, c: int, m: int, sols: seq<int>)
  {
    && (forall i :: 0 <= i < |sols| ==> Solves(a, c, m, sols[i]))
    && (forall i, j :: 0 <= i < j < |sols| ==> !Divides(m, sols[i] - sols[j]))
    && (forall z :: Solves(a, c, m, z) ==> exists i :: 0 <= i < |sols| && Divides(m, z - sols[i]))
  }

  lemma TDivExact(g: int, w: int)
    requires g != 0
    ensures TDiv(Mul(g, w), g) == w
  {
    hide TDiv, Mul;
    var q := TDiv(Mul(g, w), g);
    TRemSmall(Mul(g, w), g);
    MulDiff(g, w, q);
    SmallMultiple(g, w - q, Mul(g, w - q));
    MulCancel(g, w, q);
  }

  lemma MulDiff(g: int, w: int, q: int)
    ensures Mul(g, w) - Mul(q, g) == Mul(g, w - q)
  {
  }

  lemma MulCancel(g: int, x: int, y: int)
    requires g != 0 && Mul(g, x) - Mul(y, g) == 0
    ensures x == y
  {
    assert g * (x - y) == 0;
  }

  /** The numbers behind a solvable congruence. */
  datatype Parts = Parts(a: int, c: int, m: int, g: int, a': int, m': int, t: int, x: int, y: int)
  {
    ghost predicate Ok()
    {
      && a == Mul(g, a') && m == Mul(g, m') && c == Mul(g, t)
      && Mul(a, x) + Mul(m, y) == g && m != 0 && g != 0
    }
  }

  /** The starting solution, from the coefficient that was read off. */
  lemma StartSolves(p: Parts, u: int)
    requires p.Ok() && (u == p.x || p.x == 0)
    ensures Solves(p.a, p.c, p.m, Mul(u, p.t))
  {
    if u == p.x {
      StartAlgebra(p.a, p.m, p.g, p.t, p.x, p.y);
      assert Mul(p.a, Mul(u, p.t)) - p.c == Mul(p.m, -(p.y * p.t));
    } else {
      OtherAlgebra(p.a, p.m, p.g, p.a', p.t, p.y, u);
      assert Mul(p.a, Mul(u, p.t)) - p.c == Mul(p.m, p.y * (p.a' * u * p.t - p.t));
    }
  }

  lemma StartAlgebra(a: int, m: int, g: int, t: int, x: int, y: int)
    requires a * x + m * y == g
    ensures a * (x * t) - g * t == m * -(y * t)
  {
    assert g * t == (a * x + m * y) * t;
  }

  lemma OtherAlgebra(a: int, m: int, g: int, a': int, t: int, y: int, u: int)
    requires m * y == g && a == g * a'
    ensures a * (u * t) - g * t == m * (y * (a' * u * t - t))
  {
    assert m * (y * (a' * u * t - t)) == (m * y) * (a' * u * t - t);
  }

  lemma EachSolves(p: Parts, x0: int, k: int)
    requires p.Ok() && Solves(p.a, p.c, p.m, x0)
    ensures Solves(p.a, p.c, p.m, x0 + Mul(k, p.m'))
  {
    var w :| Mul(p.a, x0) - p.c == Mul(p.m, w);
    EachAlgebra(p.a, p.m, p.g, p.a', p.m', x0, k);
    assert Mul(p.a, x0 + Mul(k, p.m')) - p.c == Mul(p.m, w + p.a' * k);
  }

  lemma EachAlgebra(a: int, m: int, g: int, a': int, m': int, x0: int, k: int)
    requires a == g * a' && m == g * m'
    ensures a * (x0 + k * m') == a * x0 + m * (a' * k)
  {
    assert a * (k * m') == (g * m') * (a' * k);
  }

  lemma Incongruent(p: Parts, x0: int, i: int, j: int)
    requires p.Ok() && 0 <= i < j < p.g
    ensures !Divides(p.m, (x0 + Mul(i, p.m')) - (x0 + Mul(j, p.m')))
  {
    if Divides(p.m, (x0 + Mul(i, p.m')) - (x0 + Mul(j, p.m'))) {
      var w :| (x0 + Mul(i, p.m')) - (x0 + Mul(j, p.m')) == Mul(p.m, w);
      DifferenceAlgebra(p.m, p.g, p.m', i, j, w);
      SmallMultiple(p.g, w, i - j);
    }
  }

  lemma DifferenceAlgebra(m: int, g: int, m': int, i: int, j: int, w: int)
    requires m == g * m' && m != 0 && i * m' - j * m' == m * w
    ensures i - j == Mul(g, w)
  {
    assert (i - j - g * w) * m' == 0;
  }

  lemma Covers(p: Parts, x0: int, z: int) returns (k: int)
    requires p.Ok() && 0 < p.g && Solves(p.a, p.c, p.m, x0) && Solves(p.a, p.c, p.m, z)
    ensures 0 <= k < p.g && Divides(p.m, z - (x0 + Mul(k, p.m')))
  {
    var w1 :| Mul(p.a, z) - p.c == Mul(p.m, w1);
    var w2 :| Mul(p.a, x0) - p.c == Mul(p.m, w2);
    var d, w := z - x0, w1 - w2;
    assert p.a * d == p.m * w;
    var s := w * p.x + p.y * d;
    CoverAlgebra(p, d, w, s);
    k := s % p.g;
    var j := s / p.g;
    WrapAlgebra(p.m, p.g, p.m', d, s, k, j);
  }

  lemma CoverAlgebra(p: Parts, d: int, w: int, s: int)
    requires p.Ok() && p.a * d == p.m * w && s == w * p.x + p.y * d
    ensures d == p.m' * s
  {
    CancelBoth(p.g, p.a', p.m', d, w);
    CancelSum(p.g, p.a', p.m', p.x, p.y);
    UnitAlgebra(p.a', p.m', p.x, p.y, d, w);
  }

  lemma CancelBoth(g: int, a: int, m: int, d: int, w: int)
    requires g != 0 && (g * a) * d == (g * m) * w
    ensures a * d == m * w
  {
    assert g * (a * d - m * w) == (g * a) * d - (g * m) * w;
  }

  lemma CancelSum(g: int, a: int, m: int, x: int, y: int)
    requires g != 0 && (g * a) * x + (g * m) * y == g
    ensures a * x + m * y == 1
  {
    assert g * (a * x + m * y - 1) == (g * a) * x + (g * m) * y - g;
  }

  lemma UnitAlgebra(a': int, m': int, x: int, y: int, d: int, w: int)
    requires a' * x + m' * y == 1 && a' * d == m' * w
    ensures d == m' * (w * x + y * d)
  {
    assert d * (a' * x + m' * y) == (a' * d) * x + m' * (y * d);
    assert (m' * w) * x == m' * (w * x);
  }

  lemma WrapAlgebra(m: int, g: int, m': int, d: int, s: int, k: int, j: int)
    requires m == g * m' && d == m' * s && s == g * j + k
    ensures Divides(m, d - Mul(k, m'))
  {
    assert m' * s - k * m' == (g * m') * j;
    assert d - Mul(k, m') == Mul(m, j);
  }

  /** The numbers behind the congruence, when the gcd divides `c`. */
  lemma FindParts(a: int, c: int, m: int) returns (p: Parts)
    requires m != 0 && Divides(Euclid(a, m), c)
    ensures p.Ok() && p.a == a && p.c == c && p.m == m && p.g == Euclid(a, m)
    ensures var qs := Quotients(a, m); p.x == CoeffA(qs, |qs|) && p.y == CoeffB(qs, |qs|)
  {
    var g, qs := Euclid(a, m), Quotients(a, m);
    EuclidIsGcd(a, m, 1);
    Bezout(a, m);
    var a' :| a == Mul(g, a');
    var m' :| m == Mul(g, m');
    var t :| c == Mul(g, t);
    p := Parts(a, c, m, g, a', m', t, CoeffA(qs, |qs|), CoeffB(qs, |qs|));
    hide Mul;
  }

  /** A solvable congruence has its gcd dividing `c`. */
  lemma SolvableDivides(a: int, c: int, m: int, z: int)
    requires Solves(a, c, m, z)
    ensures Divides(Euclid(a, m), c)
  {
    var w :| Mul(a, z) - c == Mul(m, w);
    EuclidIsGcd(a, m, 1);
    DividesLinear(Euclid(a, m), a, m, z, -w);
    assert c == Mul(a, z) + Mul(m, -w);
  }

  /** The list x0, x0 + m', x0 + 2m', ... of length g is complete. */
  lemma ListComplete(p: Parts, x0: int, sols: seq<int>)
    requires p.Ok() && 0 < p.g && Solves(p.a, p.c, p.m, x0)
    requires |sols| == p.g && forall k :: 0 <= k < |sols| ==> sols[k] == x0 + Mul(k, p.m')
    ensures Complete(p.a, p.c, p.m, sols)
  {
    hide Mul, Divides, Solves;
    forall i | 0 <= i < |sols| ensures Solves(p.a, p.c, p.m, sols[i]) {
      EachSolves(p, x0, i);
    }
    forall i, j | 0 <= i < j < |sols| ensures !Divides(p.m, sols[i] - sols[j]) {
      Incongruent(p, x0, i, j);
    }
    forall z | Solves(p.a, p.c, p.m, z) ensures exists i :: 0 <= i < |sols| && Divides(p.m, z - sols[i]) {
      var k := Covers(p, x0, z);
      assert Divides(p.m, z - sols[k]);
    }
  }

  /** The coefficient that was read off is that of `a`, or that one is zero. */
  lemma ReadOffUsable(a: int, m: int)
    requires a != 0 && m != 0
    ensures Combination(a, m).0.Some?
    ensures var qs := Quotients(a, m); Combination(a, m).0.value == CoeffA(qs, |qs|) || CoeffA(qs, |qs|) == 0
  {
    Bezout(a, m);
    EuclidIsGcd(a, m, 1);
    assert Mul(a, 0) == 0 && Mul(m, 0) == 0;
    hide Mul;
  }

  /** Solves a*x = c (mod m). The list is complete exactly when the gcd comes out positive or does
      not divide `c`; it always comes out positive for positive `a` and `m`. */
  method LinearCongruence(a: int, c: int, m: int) returns (r: Option<seq<int>>)
    ensures r.None? <==> a == 0 || m == 0
    ensures r.Some? ==>
      var g := Euclid(a, m);
      && (Complete(a, c, m, r.value) <==> 0 < g || !Divides(g, c))
      && |r.value| == (if 0 < g && Divides(g, c) then g else 0)
      && (!Divides(g, c) ==> forall z :: !Solves(a, c, m, z))
      && forall k :: 0 <= k < |r.value| ==>
           Combination(a, m).0.Some? && Mul(g, r.value[k]) == Mul(Combination(a, m).0.value, c) + Mul(k, m)
    ensures 0 < a && 0 < m ==> Complete(a, c, m, r.value)
  {
    if a == 0 || m == 0 {
      return None;
    }
    hide Complete, Mul, TDiv, Divides, Solves;
    EuclidIsGcd(a, m, 1);
    if 0 < a && 0 < m {
      PositiveGcd(a, m);
    }
    var u, _, g := EuclideanLinearCombination(a, m);
    ReadOffUsable(a, m);
    DividesTest(g, c);
    if Mul(TDiv(c, g), g) != c {
      NoneComplete(a, c, m);
      return Some([]);
    }
    ghost var p := FindParts(a, c, m);
    var x0 := TDiv(Mul(u.value, c), g);
    StartValue(p, u.value);
    StartSolves(p, u.value);
    var sols := SolutionList(x0, m, g, p);
    forall k | 0 <= k < |sols| ensures Mul(g, sols[k]) == Mul(u.value, c) + Mul(k, m) {
      ListValue(p, u.value, k);
    }
    if 0 < g {
      ListComplete(p, x0, sols);
    } else {
      MissesAll(p, x0, sols);
    }
    return Some(sols);
  }

  /** For example, 6x = 3 (mod -3): the gcd comes out as -3, and the list is empty though 0 solves it. */
  method NegativeGcdMisses() returns (r: Option<seq<int>>)
    ensures r == Some([]) && Solves(6, 3, -3, 0)
  {
    r := LinearCongruence(6, 3, -3);
    assert Mul(6, 0) - 3 == Mul(-3, 1);
    NegativeGcd();
  }

  lemma NegativeGcd()
    ensures Euclid(6, -3) == -3
  {
    assert TRem(6, -3) == 0;
    assert Euclid(6, -3) == Euclid(-3, 0);
  }

  /** One solution per residue class, `m / g` apart. */
  method SolutionList(x0: int, m: int, g: int, ghost p: Parts) returns (sols: seq<int>)
    requires p.Ok() && p.m == m && p.g == g
    ensures |sols| == if 0 < g then g else 0
    ensures forall i :: 0 <= i < |sols| ==> sols[i] == x0 + Mul(i, p.m')
  {
    hide Mul, TDiv;
    sols := [];
    var k := 0;
    while k < g
      invariant 0 <= k && (0 < g ==> k <= g) && (g <= 0 ==> k == 0) && |sols| == k
      invariant forall i :: 0 <= i < k ==> sols[i] == x0 + Mul(i, p.m')
    {
      StepValue(p, k);
      sols := sols + [x0 + TDiv(Mul(k, m), g)];
      k := k + 1;
    }
  }

  lemma {:induction false} PositiveGcd(a: int, m: int)
    requires 0 <= a && 0 <= m && (0 < a || 0 < m)
    ensures 0 < Euclid(a, m)
    decreases Abs(m)
  {
    if m > 0 {
      DivMod(a, m);
      PositiveGcd(m, TRem(a, m));
    }
  }

  lemma DividesTest(g: int, c: int)
    requires g != 0
    ensures Mul(TDiv(c, g), g) == c <==> Divides(g, c)
  {
    DividesRem(c, g);
  }

  lemma StartValue(p: Parts, u: int)
    requires p.Ok()
    ensures TDiv(Mul(u, p.c), p.g) == Mul(u, p.t)
  {
    assert Mul(u, p.c) == Mul(p.g, Mul(u, p.t));
    TDivExact(p.g, Mul(u, p.t));
  }

  lemma StepValue(p: Parts, k: int)
    requires p.Ok()
    ensures TDiv(Mul(k, p.m), p.g) == Mul(k, p.m')
  {
    assert Mul(k, p.m) == Mul(p.g, Mul(k, p.m'));
    TDivExact(p.g, Mul(k, p.m'));
  }

  lemma ListValue(p: Parts, u: int, k: int)
    requires p.Ok()
    ensures Mul(p.g, Mul(u, p.t) + Mul(k, p.m')) == Mul(u, p.c) + Mul(k, p.m)
  {
    assert Mul(u, p.c) == Mul(p.g, Mul(u, p.t));
    assert Mul(k, p.m) == Mul(p.g, Mul(k, p.m'));
  }

  lemma NoneComplete(a: int, c: int, m: int)
    requires !Divides(Euclid(a, m), c)
    ensures Complete(a, c, m, []) && forall z :: !Solves(a, c, m, z)
  {
    forall z ensures !Solves(a, c, m, z) {
      if Solves(a, c, m, z) { SolvableDivides(a, c, m, z); }
    }
    hide Solves, Divides;
  }

  /** The empty list misses the starting solution. */
  lemma MissesAll(p: Parts, x0: int, sols: seq<int>)
    requires Solves(p.a, p.c, p.m, x0) && sols == []
    ensures !Complete(p.a, p.c, p.m, sols)
  {
    hide Solves, Divides;
  }

  // ---- perfect squares

  function Square(k: int): int
  {
    k * k
  }

  /** Binary search for a square root. Zero is a square that it misses. */
  method IsSquare(n: int) returns (yes: bool)
    ensures yes <==> n != 0 && exists k :: Square(k) == n
  {
    var low, high := 1, n;
    while low <= high
      invariant 1 <= low && high <= n
      invariant forall k :: 1 <= k < low ==> Square(k) < n
      invariant forall k :: k > high && k >= 1 ==> Square(k) > n || n < 1
      decreases high - low
    {
      var mid := (low + high) / 2;
      var power := Square(mid);
      if power > n {
        forall k | k > mid - 1 ensures Square(k) > n { SquareMono(mid, k); }
        high := mid - 1;
      } else if power < n {
        forall k | 1 <= k < mid + 1 ensures Square(k) < n { SquareMono(k, mid); }
        low := mid + 1;
      } else {
        return true;
      }
    }
    forall k ensures n == 0 || Square(k) != n {
      assert Square(k) == Square(-k);
      if k == 0 { assert Square(0) == 0; }
      SquareNonNeg(k);
    }
    return false;
  }

  /** Zero is a square, but the search starts at one. */
  method ZeroMissed() returns (yes: bool)
    ensures !yes && Square(0) == 0
  {
    yes := IsSquare(0);
  }

  lemma SquareMono(j: int, k: int)
    requires 0 <= j <= k
    ensures Square(j) <= Square(k)
  {
    assert (k - j) * (k + j) >= 0;
  }

  lemma SquareNonNeg(k: int)
    ensures Square(k) >= 0
  {
  }
}
