/**
  The home loan calculator: a provident-fund ("social") and a commercial loan repaid side by
  side, by equal principal or by equal instalments, with an optional lump sum against the
  commercial loan and a fund account that pays what it can.
  */
module Loans {
  import opened LoanMath

  const PRECISION: real := 0.01

  datatype Scheme = EqualPrincipal | EqualInstalment

  datatype Loan = Loan(
    socialDebt: real, commercialDebt: real, fundBal: real, fundMonthly: real,
    socialRate: real, commercialRate: real, socialMonths: nat, commercialMonths: nat,
    oncePay: real, onceIdx: int)

  datatype Record = Record(
    idx: nat, isOnce: bool, socialBal: real, socialInterest: real,
    commercialBal: real, commercialInterest: real, extraPay: real,
    fundRemain: real, socialRemain: real, commercialRemain: real)

  // ---- one loan

  /** One month's payment: principal, interest and the debt left. */
  datatype Payment = Payment(bal: real, interest: real, remain: real)

  /** A loan in progress: the debt, the monthly quota (principal part or whole instalment), and the
      totals paid so far. */
  datatype Track = Track(remain: real, quota: real, paid: real, interest: real)

  /** Debt, rate and term are such that the program does not divide by zero. */
  predicate Payable(scheme: Scheme, rate: real, months: int)
  {
    0 < months && (scheme.EqualInstalment? ==> rate > 0.0)
  }

  function Quota(scheme: Scheme, debt: real, rate: real, months: nat): real
    requires Payable(scheme, rate, months)
  {
    if scheme.EqualPrincipal? then debt / months as real else Instalment(debt, rate / 12.0, months)
  }

  function Clamp(x: real): real
  {
    if x <= 0.0 then 0.0 else x
  }

  function MonthPayment(scheme: Scheme, remain: real, quota: real, rate: real): Payment
  {
    if remain < PRECISION then Payment(0.0, 0.0, remain)
    else if scheme.EqualPrincipal? then
      Payment(quota, Times(remain, rate) / 12.0, Clamp(remain - quota))
    else
      var next := Pay(remain, rate / 12.0, quota);
      Payment(remain - next, quota - (remain - next), Clamp(next))
  }

  function PayMonth(scheme: Scheme, t: Track, rate: real): Track
  {
    var p := MonthPayment(scheme, t.remain, t.quota, rate);
    Track(p.remain, t.quota, t.paid + p.bal, t.interest + p.interest)
  }

  function PayMonths(scheme: Scheme, t: Track, rate: real, k: nat): Track
  {
    if k == 0 then t else PayMonth(scheme, PayMonths(scheme, t, rate, k - 1), rate)
  }

  /** A lump sum with `left` months to go. */
  function PayOnce(scheme: Scheme, t: Track, rate: real, amount: real, left: nat): Track
    requires Payable(scheme, rate, left)
  {
    Track(t.remain - amount, Quota(scheme, t.remain - amount, rate, left), t.paid + amount, t.interest)
  }

  function Start(scheme: Scheme, debt: real, rate: real, months: nat): Track
    requires Payable(scheme, rate, months)
  {
    Track(debt, Quota(scheme, debt, rate, months), 0.0, 0.0)
  }

  // ---- its closed form

  /** The debt after `k` of `m` months, without the program's rounding threshold. */
  function Curve(scheme: Scheme, s: real, rate: real, m: nat, k: nat): real
    requires Payable(scheme, rate, m)
  {
    if scheme.EqualPrincipal? then Line(s, m, k)
    else Balance(s, rate / 12.0, Instalment(s, rate / 12.0, m), k)
  }

  function SumCurve(scheme: Scheme, s: real, rate: real, m: nat, k: nat): real
    requires Payable(scheme, rate, m)
  {
    if k == 0 then 0.0 else SumCurve(scheme, s, rate, m, k - 1) + Curve(scheme, s, rate, m, k - 1)
  }

  /** The debt before the last payment is above the program's threshold, or there is no debt. */
  predicate Substantial(scheme: Scheme, s: real, rate: real, m: nat)
    requires Payable(scheme, rate, m)
  {
    s == 0.0 || (s > 0.0 && Curve(scheme, s, rate, m, m - 1) >= PRECISION)
  }

  lemma LineAt(s: real, m: nat, k: nat)
    requires 0 < m
    ensures Line(s, m, k) == Times(m as real - k as real, s / m as real)
  {
    var n, j, a := m as real, m as real - k as real, s / m as real;
    DivMul(s, n);
    DivMul(s * j, n);
    LineValue(s, n, j, a, s * j / n);
  }

  lemma LineValue(s: real, n: real, j: real, a: real, l: real)
    requires n > 0.0 && a * n == s && l * n == s * j
    ensures l == Times(j, a)
  {
    assert (l - j * a) * n == l * n - j * (a * n);
    Cancel(l - j * a, n);
  }

  lemma TimesFacts(n: real, k: real, a: real)
    ensures Times(n - k, a) - Times(n - (k + 1.0), a) == a
    ensures Times(n - n, a) == 0.0
    ensures a >= 0.0 && n - k >= 1.0 ==> Times(n - k, a) >= a
  {
    if a >= 0.0 && n - k >= 1.0 {
      MulMono(1.0, n - k, a);
    }
  }

  lemma LineFacts(s: real, m: nat, k: nat)
    requires 0 < m
    ensures Line(s, m, 0) == s && Line(s, m, m) == 0.0
    ensures Line(s, m, k) - Line(s, m, k + 1) == s / m as real
    ensures s >= 0.0 && k < m ==> Line(s, m, k) >= s / m as real
  {
    var n, a := m as real, s / m as real;
    DivMul(s, n);
    assert Times(n - 0.0, a) == s;
    if s >= 0.0 {
      NonNegQuotient(a, n);
    }
    hide Times, Line;
    LineAt(s, m, 0);
    LineAt(s, m, m);
    LineAt(s, m, k);
    LineAt(s, m, k + 1);
    TimesFacts(n, k as real, a);
  }

  /** Positive until the last month, never rising, and zero at the end. */
  lemma CurveFalls(scheme: Scheme, s: real, rate: real, m: nat, k: nat)
    requires Payable(scheme, rate, m) && s > 0.0 && k < m
    ensures Curve(scheme, s, rate, m, 0) == s && Curve(scheme, s, rate, m, m) == 0.0
    ensures 0.0 < Curve(scheme, s, rate, m, k) && Curve(scheme, s, rate, m, k + 1) < Curve(scheme, s, rate, m, k)
    ensures Curve(scheme, s, rate, m, k) >= Line(s, m, k)
  {
    DivMul(s, m as real);
    PosQuotient(s / m as real, m as real);
    LineFacts(s, m, k);
    if scheme.EqualInstalment? {
      InstalmentClears(s, rate / 12.0, m, k);
      AboveLine(s, rate / 12.0, m, k);
    }
    hide Line, Instalment;
  }

  lemma {:induction false} CurveAboveLast(scheme: Scheme, s: real, rate: real, m: nat, k: nat)
    requires Payable(scheme, rate, m) && s > 0.0 && k < m
    ensures Curve(scheme, s, rate, m, k) >= Curve(scheme, s, rate, m, m - 1)
    decreases m - k
  {
    hide Curve;
    if k < m - 1 {
      CurveFalls(scheme, s, rate, m, k);
      CurveAboveLast(scheme, s, rate, m, k + 1);
    }
  }

  /** Without debt there is nothing to pay. */
  lemma CurveZero(scheme: Scheme, rate: real, m: nat, k: nat)
    requires Payable(scheme, rate, m)
    ensures Curve(scheme, 0.0, rate, m, k) == 0.0 == Quota(scheme, 0.0, rate, m)
  {
    if scheme.EqualPrincipal? {
      LineAt(0.0, m, k);
    } else {
      var r := rate / 12.0;
      var big := Pow(1.0 + r, m);
      PowGrows(1.0 + r, m);
      DivMul(0.0 * (r * big), big - 1.0);
      Cancel(Instalment(0.0, r, m), big - 1.0);
      ZeroBalance(r, k);
    }
  }

  /** A month on the curve: the payment leads to the next point, and its interest part is the
      month's interest on the debt. */
  lemma MonthOnCurve(scheme: Scheme, s: real, rate: real, m: nat, k: nat)
    requires Payable(scheme, rate, m) && Substantial(scheme, s, rate, m) && k < m
    ensures var here, next := Curve(scheme, s, rate, m, k), Curve(scheme, s, rate, m, k + 1);
      MonthPayment(scheme, here, Quota(scheme, s, rate, m), rate) == Payment(here - next, Times(here, rate) / 12.0, next)
  {
    if s == 0.0 {
      CurveZero(scheme, rate, m, k);
      CurveZero(scheme, rate, m, k + 1);
    } else {
      CurveAboveLast(scheme, s, rate, m, k);
      CurveFalls(scheme, s, rate, m, k);
      if k + 1 < m {
        CurveFalls(scheme, s, rate, m, k + 1);
      }
      LineFacts(s, m, k);
      InterestPart(Curve(scheme, s, rate, m, k), rate, Quota(scheme, s, rate, m));
      hide Line, Pay, Times, Instalment;
    }
  }

  lemma InterestPart(b: real, rate: real, x: real)
    ensures x - (b - Pay(b, rate / 12.0, x)) == Times(b, rate) / 12.0
  {
  }

  lemma {:induction false} ZeroBalance(r: real, k: nat)
    ensures Balance(0.0, r, 0.0, k) == 0.0
  {
    if k > 0 {
      ZeroBalance(r, k - 1);
    }
  }

  /** Interest so far on the curve. */
  function InterestOn(scheme: Scheme, s: real, rate: real, m: nat, k: nat): real
    requires Payable(scheme, rate, m)
  {
    Times(SumCurve(scheme, s, rate, m, k), rate) / 12.0
  }

  lemma InterestStep(a: real, b: real, rate: real)
    ensures Times(a, rate) / 12.0 + Times(b, rate) / 12.0 == Times(a + b, rate) / 12.0
    ensures Times(0.0, rate) / 12.0 == 0.0
  {
  }

  /** The program's month-by-month computation follows the closed form for the whole term. */
  lemma {:induction false} FollowsCurve(scheme: Scheme, t: Track, rate: real, m: nat, k: nat)
    requires Payable(scheme, rate, m) && Substantial(scheme, t.remain, rate, m) && k <= m
    requires t.quota == Quota(scheme, t.remain, rate, m)
    ensures var c := Curve(scheme, t.remain, rate, m, k);
      PayMonths(scheme, t, rate, k) ==
        Track(c, t.quota, t.paid + (t.remain - c), t.interest + InterestOn(scheme, t.remain, rate, m, k))
  {
    var s := t.remain;
    if k == 0 {
      if s == 0.0 { CurveZero(scheme, rate, m, 0); } else { CurveFalls(scheme, s, rate, m, 0); }
      InterestStep(0.0, 0.0, rate);
      hide Curve, Quota;
    } else {
      hide Curve, Quota, MonthPayment, Times;
      FollowsCurve(scheme, t, rate, m, k - 1);
      MonthOnCurve(scheme, s, rate, m, k - 1);
      InterestStep(SumCurve(scheme, s, rate, m, k - 1), Curve(scheme, s, rate, m, k - 1), rate);
    }
  }

  /** After the term the debt is gone and nothing more is paid. */
  lemma {:induction false} StaysPaid(scheme: Scheme, t: Track, rate: real, m: nat, k: nat)
    requires Payable(scheme, rate, m) && Substantial(scheme, t.remain, rate, m) && m <= k
    requires t.quota == Quota(scheme, t.remain, rate, m)
    ensures PayMonths(scheme, t, rate, k) ==
      Track(0.0, t.quota, t.paid + t.remain, t.interest + InterestOn(scheme, t.remain, rate, m, m))
    decreases k
  {
    if k == m {
      FollowsCurve(scheme, t, rate, m, m);
      if t.remain == 0.0 { CurveZero(scheme, rate, m, m); } else { CurveFalls(scheme, t.remain, rate, m, 0); }
      hide Curve, Quota, InterestOn, PayMonths;
    } else {
      StaysPaid(scheme, t, rate, m, k - 1);
      hide Quota, InterestOn;
    }
  }

  lemma PayMono(b: real, c: real, r: real, x: real)
    requires b > c && r > 0.0
    ensures Pay(b, r, x) > Pay(c, r, x)
  {
    MulPos(b - c, 1.0 + r);
  }

  /** A debt whose last month is below the threshold is never quite repaid. */
  lemma {:induction false} NeverClears(scheme: Scheme, s: real, rate: real, m: nat, k: nat)
    requires Payable(scheme, rate, m) && s > 0.0 && !Substantial(scheme, s, rate, m)
    ensures PayMonths(scheme, Start(scheme, s, rate, m), rate, k).remain > 0.0
    ensures PayMonths(scheme, Start(scheme, s, rate, m), rate, k).quota == Quota(scheme, s, rate, m)
  {
    if k > 0 {
      NeverClears(scheme, s, rate, m, k - 1);
      CurveFalls(scheme, s, rate, m, m - 1);
      LineFacts(s, m, m - 1);
      var t := PayMonths(scheme, Start(scheme, s, rate, m), rate, k - 1);
      var last := Curve(scheme, s, rate, m, m - 1);
      if scheme.EqualInstalment? && t.remain >= PRECISION {
        PayMono(t.remain, last, rate / 12.0, t.quota);
      }
      hide Line, Pay, Times, Instalment;
    }
  }

  /** Exactly when the schedule repays the whole debt by its last month. */
  lemma ClearsExactly(scheme: Scheme, s: real, rate: real, m: nat)
    requires Payable(scheme, rate, m) && s >= 0.0
    ensures PayMonths(scheme, Start(scheme, s, rate, m), rate, m).remain == 0.0 <==> Substantial(scheme, s, rate, m)
    ensures s / m as real >= PRECISION ==> Substantial(scheme, s, rate, m)
  {
    if s > 0.0 {
      CurveFalls(scheme, s, rate, m, m - 1);
      LineFacts(s, m, m - 1);
    }
    hide Curve, Line, Quota, PayMonths;
    if Substantial(scheme, s, rate, m) {
      StaysPaid(scheme, Start(scheme, s, rate, m), rate, m, m);
    } else {
      NeverClears(scheme, s, rate, m, m);
    }
    if s == 0.0 {
      DivMul(s, m as real);
      Cancel(s / m as real, m as real);
    }
  }

  /** m + (m - 1) + ... over the first k terms. */
  function Triangle(m: real, k: real): real
  {
    m * k - k * (k - 1.0) / 2.0
  }

  /** For example, five cents over ten months: half a cent is left for ever. */
  lemma SmallDebtStays(rate: real, k: nat)
    ensures PayMonths(EqualPrincipal, Start(EqualPrincipal, 0.05, rate, 10), rate, k).remain > 0.0
  {
    LineFacts(0.05, 10, 9);
    assert Line(0.05, 10, 9) == 0.005;
    NeverClears(EqualPrincipal, 0.05, rate, 10, k);
  }

  /** A debt below a cent, or overpaid by the lump sum, is left as it is. */
  lemma {:induction false} BelowThresholdStays(scheme: Scheme, t: Track, rate: real, k: nat)
    requires t.remain < 0.01
    ensures PayMonths(scheme, t, rate, k) == t
  {
    if k > 0 {
      BelowThresholdStays(scheme, t, rate, k - 1);
    }
  }

  lemma TriangleFacts(m: real, k: real, a: real)
    ensures Times(Triangle(m, k), a) + Times(m - k, a) == Times(Triangle(m, k + 1.0), a)
    ensures Times(Triangle(m, 0.0), a) == 0.0
    ensures Times(Triangle(m, m), a) == Times(m + 1.0, Times(m, a)) / 2.0
  {
    assert Triangle(m, k) + (m - k) == Triangle(m, k + 1.0);
    assert Triangle(m, m) == (m + 1.0) * m / 2.0;
  }

  lemma {:induction false} SumLine(s: real, rate: real, m: nat, k: nat)
    requires 0 < m
    ensures SumCurve(EqualPrincipal, s, rate, m, k) == Times(Triangle(m as real, k as real), s / m as real)
  {
    hide Line, Times, Triangle;
    if k == 0 {
      TriangleFacts(m as real, 0.0, s / m as real);
    } else {
      SumLine(s, rate, m, k - 1);
      LineAt(s, m, k - 1);
      TriangleFacts(m as real, (k - 1) as real, s / m as real);
      assert (k - 1) as real + 1.0 == k as real;
    }
  }

  /** Equal principal: the total interest is principal * rate * (months + 1) / 24. */
  lemma PrincipalInterest(s: real, rate: real, m: nat)
    requires 0 < m
    ensures InterestOn(EqualPrincipal, s, rate, m, m) == s * rate * (m as real + 1.0) / 24.0
  {
    SumLine(s, rate, m, m);
    TriangleFacts(m as real, 0.0, s / m as real);
    DivMul(s, m as real);
    assert Times(m as real, s / m as real) == s;
    var sum := SumCurve(EqualPrincipal, s, rate, m, m);
    assert sum == Times(m as real + 1.0, s) / 2.0;
    hide SumCurve, Triangle;
    HalfTwelfth(s, rate, m as real + 1.0, sum);
  }

  lemma HalfTwelfth(s: real, rate: real, n: real, sum: real)
    requires sum == Times(n, s) / 2.0
    ensures Times(sum, rate) / 12.0 == s * rate * n / 24.0
  {
    assert (n * s / 2.0) * rate == n * s * rate / 2.0;
  }

  lemma {:induction false} SumAboveLine(s: real, rate: real, m: nat, k: nat)
    requires rate > 0.0 && 0 < m && k <= m && s >= 0.0
    ensures SumCurve(EqualPrincipal, s, rate, m, k) <= SumCurve(EqualInstalment, s, rate, m, k)
  {
    if k > 0 {
      SumAboveLine(s, rate, m, k - 1);
      AboveLine(s, rate / 12.0, m, k - 1);
    }
  }

  /** On the same loan, equal principal never costs more interest than equal instalments. */
  lemma PrincipalCheaper(s: real, rate: real, m: nat)
    requires rate > 0.0 && 0 < m && s / m as real >= PRECISION
    ensures var p := PayMonths(EqualPrincipal, Start(EqualPrincipal, s, rate, m), rate, m);
      var i := PayMonths(EqualInstalment, Start(EqualInstalment, s, rate, m), rate, m);
      && p.remain == i.remain == 0.0 && p.paid == i.paid == s
      && p.interest == s * rate * (m as real + 1.0) / 24.0
      && p.interest <= i.interest
  {
    hide Curve, Quota, PayMonths, Substantial, InterestOn;
    PositiveDebt(s, m);
    ClearsExactly(EqualPrincipal, s, rate, m);
    ClearsExactly(EqualInstalment, s, rate, m);
    StaysPaid(EqualPrincipal, Start(EqualPrincipal, s, rate, m), rate, m, m);
    StaysPaid(EqualInstalment, Start(EqualInstalment, s, rate, m), rate, m, m);
    PrincipalInterest(s, rate, m);
    InterestAboveLine(s, rate, m);
  }

  lemma PositiveDebt(s: real, m: nat)
    requires 0 < m && s / m as real >= PRECISION
    ensures s > 0.0
  {
    DivMul(s, m as real);
    MulPos(s / m as real, m as real);
  }

  lemma InterestAboveLine(s: real, rate: real, m: nat)
    requires rate > 0.0 && 0 < m && s >= 0.0
    ensures InterestOn(EqualPrincipal, s, rate, m, m) <= InterestOn(EqualInstalment, s, rate, m, m)
  {
    SumAboveLine(s, rate, m, m);
    hide SumCurve;
    MulMono(SumCurve(EqualPrincipal, s, rate, m, m), SumCurve(EqualInstalment, s, rate, m, m), rate);
  }

  // ---- the lump sum

  /** The commercial loan after `k` months, with a lump sum of `amount` after month `at`. */
  function WithOnce(scheme: Scheme, s: real, rate: real, m: nat, amount: real, at: nat, k: nat): Track
    requires Payable(scheme, rate, m) && 0 < at < m
  {
    var start := Start(scheme, s, rate, m);
    if k < at then PayMonths(scheme, start, rate, k)
    else PayMonths(scheme, PayOnce(scheme, PayMonths(scheme, start, rate, at), rate, amount, m - at), rate, k - at)
  }

  /** A lump sum re-levels the payments so that the debt still reaches zero in the same last month,
      and the principal repaid is the original debt. */
  lemma OnceStillClears(scheme: Scheme, s: real, rate: real, m: nat, amount: real, at: nat, k: nat)
    requires Payable(scheme, rate, m) && 0 < at < m <= k
    requires Substantial(scheme, s, rate, m)
    requires Substantial(scheme, Curve(scheme, s, rate, m, at) - amount, rate, m - at)
    ensures var t := WithOnce(scheme, s, rate, m, amount, at, k);
      && t.remain == 0.0 && t.paid == s
      && t.interest == InterestOn(scheme, s, rate, m, at)
                       + InterestOn(scheme, Curve(scheme, s, rate, m, at) - amount, rate, m - at, m - at)
  {
    hide Curve, Quota, PayMonths, Substantial, InterestOn;
    FollowsCurve(scheme, Start(scheme, s, rate, m), rate, m, at);
    var t := PayOnce(scheme, PayMonths(scheme, Start(scheme, s, rate, m), rate, at), rate, amount, m - at);
    StaysPaid(scheme, t, rate, m - at, k - at);
  }

  // ---- both loans and the fund, month by month

  ghost predicate Computable(scheme: Scheme, loan: Loan)
  {
    && Payable(scheme, loan.socialRate, loan.socialMonths)
    && Payable(scheme, loan.commercialRate, loan.commercialMonths)
    && (loan.oncePay > 1.0 && 0 < loan.onceIdx <= Months(loan) ==> loan.onceIdx < loan.commercialMonths)
  }

  function Months(loan: Loan): nat
  {
    if loan.socialMonths > loan.commercialMonths then loan.socialMonths else loan.commercialMonths
  }

  /** The lump sum takes place. */
  predicate Once(loan: Loan)
  {
    loan.oncePay > 1.0 && 0 < loan.onceIdx <= Months(loan)
  }

  ghost function Social(scheme: Scheme, loan: Loan, k: nat): Track
    requires Computable(scheme, loan)
  {
    PayMonths(scheme, Start(scheme, loan.socialDebt, loan.socialRate, loan.socialMonths), loan.socialRate, k)
  }

  ghost function Commercial(scheme: Scheme, loan: Loan, k: nat): Track
    requires Computable(scheme, loan)
  {
    if Once(loan) then
      WithOnce(scheme, loan.commercialDebt, loan.commercialRate, loan.commercialMonths, loan.oncePay, loan.onceIdx, k)
    else
      PayMonths(scheme, Start(scheme, loan.commercialDebt, loan.commercialRate, loan.commercialMonths), loan.commercialRate, k)
  }

  /** Pays the net amount due out of the fund as far as that goes: what the borrower pays, and the
      fund afterwards. A negative net amount goes into the fund. */
  function Settle(netting: real, fund: real): (real, real)
  {
    if netting > PRECISION then
      if fund > PRECISION then
        if fund > netting then (0.0, fund - netting) else (netting - fund, 0.0)
      else (netting, fund)
    else (netting, fund + -netting)
  }

  /** The payments of month `k`. */
  ghost function SocialPayment(scheme: Scheme, loan: Loan, k: nat): Payment
    requires Computable(scheme, loan)
  {
    MonthPayment(scheme, Social(scheme, loan, k).remain, Social(scheme, loan, k).quota, loan.socialRate)
  }

  ghost function CommercialPayment(scheme: Scheme, loan: Loan, k: nat): Payment
    requires Computable(scheme, loan)
  {
    MonthPayment(scheme, Commercial(scheme, loan, k).remain, Commercial(scheme, loan, k).quota, loan.commercialRate)
  }

  /** What falls due in month `k`, before the fund's monthly deposit. */
  ghost function Due(scheme: Scheme, loan: Loan, k: nat): real
    requires Computable(scheme, loan)
  {
    var s, c := SocialPayment(scheme, loan, k), CommercialPayment(scheme, loan, k);
    s.bal + s.interest + c.bal + c.interest
  }

  ghost function Fund(scheme: Scheme, loan: Loan, k: nat): real
    requires Computable(scheme, loan)
  {
    if k == 0 then loan.fundBal
    else Settle(Due(scheme, loan, k - 1) - loan.fundMonthly, Fund(scheme, loan, k - 1)).1
  }

  /** What the borrower pays in month `k` on top of the fund. */
  ghost function Own(scheme: Scheme, loan: Loan, k: nat): real
    requires Computable(scheme, loan)
  {
    var netting := Due(scheme, loan, k) - loan.fundMonthly;
    if netting > PRECISION then Settle(netting, Fund(scheme, loan, k)).0 else 0.0
  }

  ghost function TotalDue(scheme: Scheme, loan: Loan, k: nat): real
    requires Computable(scheme, loan)
  {
    if k == 0 then 0.0 else TotalDue(scheme, loan, k - 1) + Due(scheme, loan, k - 1)
  }

  ghost function TotalOwn(scheme: Scheme, loan: Loan, k: nat): real
    requires Computable(scheme, loan)
  {
    if k == 0 then 0.0 else TotalOwn(scheme, loan, k - 1) + Own(scheme, loan, k - 1)
  }

  lemma MonthConserved(scheme: Scheme, loan: Loan, k: nat)
    requires Computable(scheme, loan)
    ensures Fund(scheme, loan, k + 1) - Fund(scheme, loan, k) + Due(scheme, loan, k)
      == loan.fundMonthly + Own(scheme, loan, k)
  {
    hide Due;
  }

  /** No money appears or disappears: over any number of months, the change of the fund plus what
      fell due is what was deposited plus what the borrower paid. */
  lemma {:induction false} FundConserved(scheme: Scheme, loan: Loan, k: nat)
    requires Computable(scheme, loan)
    ensures Fund(scheme, loan, k) - loan.fundBal + TotalDue(scheme, loan, k)
      == Times(k as real, loan.fundMonthly) + TotalOwn(scheme, loan, k)
  {
    if k > 0 {
      hide Due, Own;
      FundConserved(scheme, loan, k - 1);
      MonthConserved(scheme, loan, k - 1);
      hide Fund;
      TimesFacts(k as real, 0.0, loan.fundMonthly);
      assert k as real - 1.0 == (k - 1) as real;
      hide Times;
    } else {
      assert Times(0.0, loan.fundMonthly) == 0.0;
    }
  }

  /** The rounding threshold can overdraw the fund, but by no more than a cent a month. */
  lemma {:induction false} FundFloor(scheme: Scheme, loan: Loan, k: nat)
    requires Computable(scheme, loan) && loan.fundBal >= 0.0
    ensures Fund(scheme, loan, k) >= -PRECISION * k as real
    ensures k > 0 ==> Own(scheme, loan, k - 1) >= 0.0
  {
    hide Due;
    if k > 0 {
      FundFloor(scheme, loan, k - 1);
    }
  }

  // ---- the program

  /** Who pays what in month `k`: the fund as far as it goes, then the borrower. With more than a cent
      due and in the fund, the fund pays all it can; a fund of a cent or less is not touched; and when
      no more than a cent is due, the fund takes it, or takes in what is left of the deposit. */
  lemma FundPaysFirst(scheme: Scheme, loan: Loan, k: nat)
    requires Computable(scheme, loan)
    ensures var net := Due(scheme, loan, k) - loan.fundMonthly;
      var fund, after, own := Fund(scheme, loan, k), Fund(scheme, loan, k + 1), Own(scheme, loan, k);
      && (net > 0.01 && fund > 0.01 ==>
            && own >= 0.0 && after >= 0.0 && (own > 0.0 ==> after == 0.0)
            && own + (fund - after) == net && (fund > net ==> own == 0.0))
      && (net > 0.01 && fund <= 0.01 ==> own == net && after == fund)
      && (net <= 0.01 ==> own == 0.0 && after == fund - net)
    ensures Own(scheme, loan, k) > 0.0 ==> Fund(scheme, loan, k + 1) <= 0.01
  {
    hide Due;
  }

  /** What the record of month `k` shows. */
  lemma RecordShows(scheme: Scheme, loan: Loan, k: nat)
    requires Computable(scheme, loan)
    ensures var r := MonthRecord(scheme, loan, k);
      var net := r.socialBal + r.socialInterest + r.commercialBal + r.commercialInterest - loan.fundMonthly;
      && r.idx == k && !r.isOnce && net == Due(scheme, loan, k) - loan.fundMonthly
      && r.fundRemain == Fund(scheme, loan, k + 1)
      && r.extraPay == (if net > 0.01 then Own(scheme, loan, k) else net)
  {
  }

  ghost function MonthRecord(scheme: Scheme, loan: Loan, k: nat): Record
    requires Computable(scheme, loan)
  {
    var s, c := SocialPayment(scheme, loan, k), CommercialPayment(scheme, loan, k);
    var pay := Settle(Due(scheme, loan, k) - loan.fundMonthly, Fund(scheme, loan, k));
    Record(k, false, s.bal, s.interest, c.bal, c.interest, pay.0, pay.1, s.remain, c.remain)
  }

  ghost function OnceRecord(scheme: Scheme, loan: Loan, k: nat): Record
    requires Computable(scheme, loan)
  {
    var m := MonthRecord(scheme, loan, k);
    Record(k, true, 0.0, 0.0, loan.oncePay, 0.0, loan.oncePay, m.fundRemain, m.socialRemain, m.commercialRemain - loan.oncePay)
  }

  /** The records of the first `k` months: one a month, and one for the lump sum. */
  ghost function Records(scheme: Scheme, loan: Loan, k: nat): seq<Record>
    requires Computable(scheme, loan)
  {
    if k == 0 then []
    else
      Records(scheme, loan, k - 1) + [MonthRecord(scheme, loan, k - 1)]
      + if Once(loan) && loan.onceIdx == k then [OnceRecord(scheme, loan, k - 1)] else []
  }

  /** One more month, and the lump sum if it is due. */
  lemma TracksStep(scheme: Scheme, loan: Loan, k: nat)
    requires Computable(scheme, loan) && k < Months(loan)
    ensures Social(scheme, loan, k + 1) == PayMonth(scheme, Social(scheme, loan, k), loan.socialRate)
    ensures Once(loan) && loan.onceIdx == k + 1 ==>
      Commercial(scheme, loan, k + 1) == PayOnce(scheme, PayMonth(scheme, Commercial(scheme, loan, k), loan.commercialRate),
        loan.commercialRate, loan.oncePay, loan.commercialMonths - k - 1)
    ensures !(Once(loan) && loan.onceIdx == k + 1) ==>
      Commercial(scheme, loan, k + 1) == PayMonth(scheme, Commercial(scheme, loan, k), loan.commercialRate)
  {
    hide Quota, MonthPayment;
  }

  lemma MonthBooked(scheme: Scheme, loan: Loan, k: nat)
    requires Computable(scheme, loan) && k < Months(loan)
    ensures var s, c := SocialPayment(scheme, loan, k), CommercialPayment(scheme, loan, k);
      && Social(scheme, loan, k + 1) == Track(s.remain, Social(scheme, loan, k).quota,
           Social(scheme, loan, k).paid + s.bal, Social(scheme, loan, k).interest + s.interest)
      && PayMonth(scheme, Commercial(scheme, loan, k), loan.commercialRate) ==
           Track(c.remain, Commercial(scheme, loan, k).quota,
             Commercial(scheme, loan, k).paid + c.bal, Commercial(scheme, loan, k).interest + c.interest)
  {
    hide Quota, MonthPayment;
    TracksStep(scheme, loan, k);
  }

  lemma RecordsStep(scheme: Scheme, loan: Loan, k: nat)
    requires Computable(scheme, loan)
    ensures Fund(scheme, loan, k + 1) == MonthRecord(scheme, loan, k).fundRemain
    ensures !(Once(loan) && loan.onceIdx == k + 1) ==>
      Records(scheme, loan, k + 1) == Records(scheme, loan, k) + [MonthRecord(scheme, loan, k)]
    ensures Once(loan) && loan.onceIdx == k + 1 ==>
      Records(scheme, loan, k + 1) ==
        (Records(scheme, loan, k) + [MonthRecord(scheme, loan, k)]) + [OnceRecord(scheme, loan, k)]
  {
    hide Due, SocialPayment, CommercialPayment;
  }

  /** The records follow the two loans: each shows what was repaid and the interest since the one
      before, and what is left. The lump sum is paid by the borrower and leaves the fund alone. */
  lemma RecordsFollow(scheme: Scheme, loan: Loan, k: nat)
    requires Computable(scheme, loan) && k < Months(loan)
    ensures var r, s, s' := MonthRecord(scheme, loan, k), Social(scheme, loan, k), Social(scheme, loan, k + 1);
      s'.paid == s.paid + r.socialBal && s'.interest == s.interest + r.socialInterest && s'.remain == r.socialRemain
    ensures var r, c, c' := MonthRecord(scheme, loan, k), Commercial(scheme, loan, k), Commercial(scheme, loan, k + 1);
      var once := if loan.oncePay > 1.0 && loan.onceIdx == k + 1 then loan.oncePay else 0.0;
      && c'.paid == c.paid + r.commercialBal + once && c'.interest == c.interest + r.commercialInterest
      && c'.remain == r.commercialRemain - once
    ensures loan.oncePay > 1.0 && loan.onceIdx == k + 1 ==>
      var r := OnceRecord(scheme, loan, k);
      && r.idx == k && r.isOnce && r.commercialBal == r.extraPay == loan.oncePay
      && r.socialBal == r.socialInterest == r.commercialInterest == 0.0 && r.fundRemain == Fund(scheme, loan, k + 1)
      && r.socialRemain == Social(scheme, loan, k + 1).remain && r.commercialRemain == Commercial(scheme, loan, k + 1).remain
  {
    TracksStep(scheme, loan, k);
    MonthBooked(scheme, loan, k);
    hide SocialPayment, CommercialPayment, Social, Commercial, Quota, PayMonth, Due;
  }

  /** Where the records of the months and of the lump sum are. */
  lemma {:induction false} RecordAt(scheme: Scheme, loan: Loan, n: nat, k: nat)
    requires Computable(scheme, loan) && k < n <= Months(loan)
    ensures |Records(scheme, loan, n)| == n + (if loan.oncePay > 1.0 && 0 < loan.onceIdx <= n then 1 else 0)
    ensures Records(scheme, loan, n)[k + (if loan.oncePay > 1.0 && 0 < loan.onceIdx <= k then 1 else 0)]
      == MonthRecord(scheme, loan, k)
    ensures loan.oncePay > 1.0 && loan.onceIdx == k + 1 ==>
      Records(scheme, loan, n)[k + 1] == OnceRecord(scheme, loan, k)
  {
    hide MonthRecord, OnceRecord, Computable;
    if n > 1 {
      RecordAt(scheme, loan, n - 1, if k < n - 1 then k else 0);
    }
  }

  /** Principal and interest of both loans, added up over the records. */
  datatype Totals = Totals(socialBal: real, socialInterest: real, commercialBal: real, commercialInterest: real)

  function Added(records: seq<Record>): Totals
  {
    if records == [] then Totals(0.0, 0.0, 0.0, 0.0)
    else
      var t, r := Added(records[..|records| - 1]), records[|records| - 1];
      Totals(t.socialBal + r.socialBal, t.socialInterest + r.socialInterest,
             t.commercialBal + r.commercialBal, t.commercialInterest + r.commercialInterest)
  }

  lemma AddedAppend(records: seq<Record>, r: Record)
    ensures var t := Added(records);
      Added(records + [r]) == Totals(t.socialBal + r.socialBal, t.socialInterest + r.socialInterest,
                                     t.commercialBal + r.commercialBal, t.commercialInterest + r.commercialInterest)
  {
    assert (records + [r])[..|records|] == records;
  }

  /** The records add up to what both loans have been paid, and the last one shows what is left. */
  lemma {:induction false} RecordsAddUp(scheme: Scheme, loan: Loan, n: nat)
    requires Computable(scheme, loan) && n <= Months(loan)
    ensures var s, c := Social(scheme, loan, n), Commercial(scheme, loan, n);
      && Added(Records(scheme, loan, n)) == Totals(s.paid, s.interest, c.paid, c.interest)
      && (n > 0 ==>
            var rs := Records(scheme, loan, n);
            rs != [] && rs[|rs| - 1].socialRemain == s.remain && rs[|rs| - 1].commercialRemain == c.remain)
  {
    if n == 0 {
      ScheduleStart(scheme, loan);
      hide Quota;
    } else {
      var k := n - 1;
      RecordsAddUp(scheme, loan, k);
      RecordsFollow(scheme, loan, k);
      RecordsStep(scheme, loan, k);
      AddedAppend(Records(scheme, loan, k), MonthRecord(scheme, loan, k));
      AddedAppend(Records(scheme, loan, k) + [MonthRecord(scheme, loan, k)], OnceRecord(scheme, loan, k));
      hide MonthRecord, OnceRecord, Social, Commercial, Fund, Records, Added, Computable;
    }
  }

  lemma ScheduleStart(scheme: Scheme, loan: Loan)
    requires Computable(scheme, loan)
    ensures Social(scheme, loan, 0) == Start(scheme, loan.socialDebt, loan.socialRate, loan.socialMonths)
    ensures Commercial(scheme, loan, 0) == Start(scheme, loan.commercialDebt, loan.commercialRate, loan.commercialMonths)
    ensures Fund(scheme, loan, 0) == loan.fundBal && Records(scheme, loan, 0) == []
  {
  }

  /** The month loop shared by both repayment schemes. */
  method Schedule(scheme: Scheme, loan: Loan) returns (records: seq<Record>, social: Track, commercial: Track)
    requires Computable(scheme, loan)
    ensures records == Records(scheme, loan, Months(loan))
    ensures social == Social(scheme, loan, Months(loan))
    ensures commercial == Commercial(scheme, loan, Months(loan))
  {
    var months := Months(loan);
    social := Start(scheme, loan.socialDebt, loan.socialRate, loan.socialMonths);
    commercial := Start(scheme, loan.commercialDebt, loan.commercialRate, loan.commercialMonths);
    var fund := loan.fundBal;
    records := [];
    var i := 0;
    ScheduleStart(scheme, loan);
    hide Quota, MonthPayment, Settle, Social, Commercial, Fund, Records, Start, PayOnce, PayMonth;
    while i < months
      invariant 0 <= i <= months
      invariant social == Social(scheme, loan, i) && commercial == Commercial(scheme, loan, i)
      invariant fund == Fund(scheme, loan, i) && records == Records(scheme, loan, i)
    {
      MonthBooked(scheme, loan, i);
      TracksStep(scheme, loan, i);
      RecordsStep(scheme, loan, i);
      var s := MonthPayment(scheme, social.remain, social.quota, loan.socialRate);
      social := Track(s.remain, social.quota, social.paid + s.bal, social.interest + s.interest);
      var c := MonthPayment(scheme, commercial.remain, commercial.quota, loan.commercialRate);
      commercial := Track(c.remain, commercial.quota, commercial.paid + c.bal, commercial.interest + c.interest);

      var netting := s.bal + s.interest + c.bal + c.interest - loan.fundMonthly;
      var pay := Settle(netting, fund);
      fund := pay.1;
      var record := Record(i, false, s.bal, s.interest, c.bal, c.interest, pay.0, fund, social.remain, commercial.remain);
      assert record == MonthRecord(scheme, loan, i);
      records := records + [record];

      if loan.oncePay > 1.0 && loan.onceIdx == i + 1 {
        record := Record(i, true, 0.0, 0.0, loan.oncePay, 0.0, loan.oncePay, fund, social.remain,
                         commercial.remain - loan.oncePay);
        assert record == OnceRecord(scheme, loan, i);
        records := records + [record];
        commercial := PayOnce(scheme, commercial, loan.commercialRate, loan.oncePay, loan.commercialMonths - i - 1);
      }
      i := i + 1;
    }
  }

  /** Both loans, and what is left after the lump sum, stay above the rounding threshold until their
      last payment. */
  ghost predicate Repayable(scheme: Scheme, loan: Loan)
    requires Computable(scheme, loan)
  {
    && Substantial(scheme, loan.socialDebt, loan.socialRate, loan.socialMonths)
    && Substantial(scheme, loan.commercialDebt, loan.commercialRate, loan.commercialMonths)
    && (Once(loan) ==>
          Substantial(scheme, Curve(scheme, loan.commercialDebt, loan.commercialRate, loan.commercialMonths, loan.onceIdx) - loan.oncePay,
                      loan.commercialRate, loan.commercialMonths - loan.onceIdx))
  }

  lemma BothClear(scheme: Scheme, loan: Loan)
    requires Computable(scheme, loan) && Repayable(scheme, loan)
    ensures var s, c := Social(scheme, loan, Months(loan)), Commercial(scheme, loan, Months(loan));
      && s.remain == c.remain == 0.0 && s.paid == loan.socialDebt && c.paid == loan.commercialDebt
      && s.interest == InterestOn(scheme, loan.socialDebt, loan.socialRate, loan.socialMonths, loan.socialMonths)
      && (Once(loan) || c.interest ==
            InterestOn(scheme, loan.commercialDebt, loan.commercialRate, loan.commercialMonths, loan.commercialMonths))
  {
    hide Substantial, InterestOn, Curve, Quota, PayMonths;
    var n, s, c := Months(loan), loan.socialMonths, loan.commercialMonths;
    StaysPaid(scheme, Start(scheme, loan.socialDebt, loan.socialRate, s), loan.socialRate, s, n);
    if Once(loan) {
      OnceStillClears(scheme, loan.commercialDebt, loan.commercialRate, c, loan.oncePay, loan.onceIdx, n);
      hide WithOnce;
    } else {
      StaysPaid(scheme, Start(scheme, loan.commercialDebt, loan.commercialRate, c), loan.commercialRate, c, n);
    }
  }

  /** The debt in every monthly record of an equal-instalment schedule, up to the month of the lump sum,
      is the documented closed form. */
  lemma InstalmentRecords(loan: Loan, k: nat)
    requires Computable(EqualInstalment, loan) && Repayable(EqualInstalment, loan)
    requires k < loan.commercialMonths && (Once(loan) ==> k + 1 <= loan.onceIdx)
    ensures var r := loan.commercialRate / 12.0;
      var x := Instalment(loan.commercialDebt, r, loan.commercialMonths);
      MonthRecord(EqualInstalment, loan, k).commercialRemain == ClosedForm(loan.commercialDebt, r, x, Pow(1.0 + r, k + 1))
  {
    var r, n := loan.commercialRate / 12.0, loan.commercialMonths;
    var start := Start(EqualInstalment, loan.commercialDebt, loan.commercialRate, n);
    FollowsCurve(EqualInstalment, start, loan.commercialRate, n, k);
    MonthOnCurve(EqualInstalment, loan.commercialDebt, loan.commercialRate, n, k);
    BalanceClosedForm(loan.commercialDebt, r, Instalment(loan.commercialDebt, r, n), k + 1);
    hide Substantial, InterestOn, MonthPayment, PayMonths, Balance, ClosedForm, Instalment, Due, Fund, Settle, SocialPayment;
  }

  /** One record a month of the longer loan, and one for a lump sum of more than one within that time;
      together they make up the totals. */
  predicate AddUp(loan: Loan, records: seq<Record>, principal: real, interest: real)
  {
    var t := Added(records);
    var months := if loan.socialMonths > loan.commercialMonths then loan.socialMonths else loan.commercialMonths;
    && |records| == months + (if loan.oncePay > 1.0 && 0 < loan.onceIdx <= months then 1 else 0)
    && principal == t.socialBal + t.commercialBal && interest == t.socialInterest + t.commercialInterest
  }

  /** Each debt is repaid over the records, and the last one shows no debt. */
  predicate Settled(loan: Loan, records: seq<Record>)
  {
    var n, t := |records|, Added(records);
    && t.socialBal == loan.socialDebt && t.commercialBal == loan.commercialDebt
    && n > 0 && records[n - 1].socialRemain == records[n - 1].commercialRemain == 0.0
  }

  /** Equal principal: records, principal and interest as printed. */
  method CalRepayEqPrincipal(loan: Loan) returns (records: seq<Record>, principal: real, interest: real)
    requires Computable(EqualPrincipal, loan)
    ensures records == Records(EqualPrincipal, loan, Months(loan))
    ensures AddUp(loan, records, principal, interest)
    ensures Repayable(EqualPrincipal, loan) ==> principal == loan.socialDebt + loan.commercialDebt
    ensures Repayable(EqualPrincipal, loan) ==> Settled(loan, records)
    ensures Repayable(EqualPrincipal, loan) && !Once(loan) ==>
      interest == loan.socialDebt * loan.socialRate * (loan.socialMonths as real + 1.0) / 24.0
        + loan.commercialDebt * loan.commercialRate * (loan.commercialMonths as real + 1.0) / 24.0
  {
    hide Repayable, InterestOn, Social, Commercial, Records, MonthRecord, OnceRecord, Added;
    var social, commercial;
    records, social, commercial := Schedule(EqualPrincipal, loan);
    RecordsAddUp(EqualPrincipal, loan, Months(loan));
    RecordAt(EqualPrincipal, loan, Months(loan), 0);
    principal := social.paid + commercial.paid;
    interest := social.interest + commercial.interest;
    PrincipalInterest(loan.socialDebt, loan.socialRate, loan.socialMonths);
    PrincipalInterest(loan.commercialDebt, loan.commercialRate, loan.commercialMonths);
    if Repayable(EqualPrincipal, loan) {
      BothClear(EqualPrincipal, loan);
    }
  }

  /** Equal instalments: records, principal and interest as printed. The interest is never less
      than with equal principal. */
  method CalRepayEqPrincipalAndInterest(loan: Loan) returns (records: seq<Record>, principal: real, interest: real)
    requires Computable(EqualInstalment, loan)
    ensures records == Records(EqualInstalment, loan, Months(loan))
    ensures AddUp(loan, records, principal, interest)
    ensures Repayable(EqualInstalment, loan) ==> principal == loan.socialDebt + loan.commercialDebt
    ensures Repayable(EqualInstalment, loan) ==> Settled(loan, records)
    ensures Repayable(EqualInstalment, loan) && !Once(loan) && loan.socialDebt >= 0.0 && loan.commercialDebt >= 0.0 ==>
      interest >= loan.socialDebt * loan.socialRate * (loan.socialMonths as real + 1.0) / 24.0
        + loan.commercialDebt * loan.commercialRate * (loan.commercialMonths as real + 1.0) / 24.0
  {
    hide Repayable, InterestOn, Social, Commercial, Records, MonthRecord, OnceRecord, Added;
    var social, commercial;
    records, social, commercial := Schedule(EqualInstalment, loan);
    RecordsAddUp(EqualInstalment, loan, Months(loan));
    RecordAt(EqualInstalment, loan, Months(loan), 0);
    principal := social.paid + commercial.paid;
    interest := social.interest + commercial.interest;
    PrincipalInterest(loan.socialDebt, loan.socialRate, loan.socialMonths);
    PrincipalInterest(loan.commercialDebt, loan.commercialRate, loan.commercialMonths);
    if loan.socialDebt >= 0.0 && loan.commercialDebt >= 0.0 {
      InterestAboveLine(loan.socialDebt, loan.socialRate, loan.socialMonths);
      InterestAboveLine(loan.commercialDebt, loan.commercialRate, loan.commercialMonths);
    }
    if Repayable(EqualInstalment, loan) {
      BothClear(EqualInstalment, loan);
    }
  }
}
