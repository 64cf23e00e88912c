/** The loan calculator of app.py: the fixed monthly payment and the total
    repaid for an equal-payment (annuity) mortgage, over exact reals. */
module LoanCalculator {
  import opened RealPowers

  /** The only failure `calculate_loan` can run into in exact arithmetic:
      Python's ZeroDivisionError. */
  datatype CalcError = ZeroDivision

  datatype Result<T> = Ok(value: T) | Err(error: CalcError)

  /** The pair `(monthly_payment, total_payment)` that `calculate_loan` returns. */
  datatype Quote = Quote(monthlyPayment: real, totalPayment: real)

  /** One loan as entered in the form: amount, annual rate in percent, term in
      years and down payment. */
  datatype LoanTerms = LoanTerms(loanAmount: real, annualRatePercent: real, termYears: nat, downPayment: real)
  {
    function Principal(): real
    {
      loanAmount - downPayment
    }
  }

  /** The monthly interest rate as a fraction: annual percent / 100 / 12. */
  function MonthlyRate(annualRatePercent: real): real
  {
    annualRatePercent / 100.0 / 12.0
  }

  /** One plus the monthly rate: the factor the balance grows by each month. */
  function Growth(annualRatePercent: real): real
  {
    1.0 + MonthlyRate(annualRatePercent)
  }

  /** Twelve payments a year. */
  function PaymentCount(termYears: nat): nat
  {
    termYears * 12
  }

  /** `calculate_loan(loan_amount, annual_interest_rate, loan_term_years,
      down_payment=0)`. A non-positive principal gives `(0, 0)`; a zero
      rate splits the principal evenly; otherwise the annuity closed form
      `P * r * (1+r)^n / ((1+r)^n - 1)` is used. The total is the payment
      times the number of payments. A division by zero is an `Err`. */
  function CalculateLoan(loanAmount: real, annualRatePercent: real, termYears: nat, downPayment: real := 0.0): (r: Result<Quote>)
    ensures loanAmount - downPayment <= 0.0 ==> r == Ok(Quote(0.0, 0.0))
    ensures r.Ok? ==> r.value.totalPayment == r.value.monthlyPayment * PaymentCount(termYears) as real
  {
    var principal := loanAmount - downPayment;
    if principal <= 0.0 then
      Ok(Quote(0.0, 0.0))
    else
      var rate := MonthlyRate(annualRatePercent);
      var n := PaymentCount(termYears);
      if rate == 0.0 then
        if n == 0 then Err(ZeroDivision)
        else
          var payment := principal / n as real;
          Ok(Quote(payment, payment * n as real))
      else
        var growth := Pow(1.0 + rate, n);
        if growth - 1.0 == 0.0 then Err(ZeroDivision)
        else
          var payment := principal * (rate * growth) / (growth - 1.0);
          Ok(Quote(payment, payment * n as real))
  }

  function CalculateTerms(t: LoanTerms): Result<Quote>
  {
    CalculateLoan(t.loanAmount, t.annualRatePercent, t.termYears, t.downPayment)
  }

  /** The down payment enters only through the principal `loan_amount -
      down_payment`, and it defaults to zero. */
  lemma DownPaymentOnlyReducesPrincipal(loanAmount: real, annualRatePercent: real, termYears: nat, downPayment: real)
    ensures CalculateLoan(loanAmount, annualRatePercent, termYears, downPayment)
         == CalculateLoan(loanAmount - downPayment, annualRatePercent, termYears)
  {
    var n := PaymentCount(termYears);
    if loanAmount - downPayment > 0.0 && MonthlyRate(annualRatePercent) != 0.0 {
      var growth := Pow(1.0 + MonthlyRate(annualRatePercent), n);
      assert (loanAmount - downPayment - 0.0) * (MonthlyRate(annualRatePercent) * growth)
          == (loanAmount - downPayment) * (MonthlyRate(annualRatePercent) * growth);
    }
  }

  /** The calculation fails exactly when there is something to amortise and
      either the term is zero (division by zero payments) or the annual rate
      is -2400 %, the one nonzero rate at which `(1+r)^n - 1` vanishes
      (`1 + r == -1` and `n` is always even). */
  lemma CalculateLoanFailsExactly(loanAmount: real, annualRatePercent: real, termYears: nat, downPayment: real)
    ensures CalculateLoan(loanAmount, annualRatePercent, termYears, downPayment).Err?
        <==> loanAmount - downPayment > 0.0 && (termYears == 0 || annualRatePercent == -2400.0)
  {
    var n := PaymentCount(termYears);
    if termYears > 0 && MonthlyRate(annualRatePercent) != 0.0 {
      PowEqualsOneEven(Growth(annualRatePercent), n);
    }
  }

  /** With a positive rate and at least one year, the annuity denominator
      `(1+r)^n - 1` is strictly positive, so the division is defined. */
  lemma AnnuityDenominatorPositive(annualRatePercent: real, termYears: nat)
    requires annualRatePercent > 0.0 && termYears >= 1
    ensures Pow(Growth(annualRatePercent), PaymentCount(termYears)) - 1.0 > 0.0
  {
    PowAboveOne(Growth(annualRatePercent), PaymentCount(termYears));
  }

  /** Reference definition of what a monthly payment means: the balance left
      after `k` months when each month the balance first grows by the monthly
      rate and then one payment is subtracted. It is a specification of the
      annuity formula only. */
  function BalanceAfter(principal: real, rate: real, payment: real, k: nat): real
  {
    if k == 0 then principal
    else BalanceAfter(principal, rate, payment, k - 1) * (1.0 + rate) - payment
  }

  lemma {:induction false} BalanceClosedForm(principal: real, rate: real, payment: real, k: nat)
    ensures BalanceAfter(principal, rate, payment, k)
         == principal * Pow(1.0 + rate, k) - payment * GeomSum(1.0 + rate, k)
  {
    if k > 0 {
      var x := 1.0 + rate;
      BalanceClosedForm(principal, rate, payment, k - 1);
      calc {
        BalanceAfter(principal, rate, payment, k);
        (principal * Pow(x, k - 1) - payment * GeomSum(x, k - 1)) * x - payment;
        { assert (principal * Pow(x, k - 1)) * x == principal * Pow(x, k);
          assert (payment * GeomSum(x, k - 1)) * x == payment * (GeomSum(x, k - 1) * x); }
        principal * Pow(x, k) - payment * (GeomSum(x, k - 1) * x + 1.0);
        principal * Pow(x, k) - payment * GeomSum(x, k);
      }
    }
  }

  lemma AnnuitySolvesEquation(p: real, rate: real, big: real, s: real)
    requires s * rate == big - 1.0 && big - 1.0 != 0.0
    ensures (p * (rate * big) / (big - 1.0)) * s == p * big
  {
    var d := big - 1.0;
    calc {
      (p * (rate * big) / d) * s;
      (p * big) * (s * rate) / d;
      (p * big) * d / d;
    }
  }

  /** `pb - m * s` vanishes only at the root `m0` of `pb == m0 * s`. */
  lemma AffineRoot(bal: real, pb: real, m: real, m0: real, s: real)
    requires s != 0.0 && bal == pb - m * s && pb == m0 * s
    ensures bal == 0.0 <==> m == m0
  {
    assert bal == (m0 - m) * s;
    if bal == 0.0 {
      assert m0 - m == bal / s;
    }
  }

  /** From `m * s == p * g` with `s == n` and `g == 1` it follows that `m > 0` and `t == m * n == p`. */
  lemma ZeroRateArithmetic(p: real, m: real, t: real, s: real, g: real, n: real)
    requires p > 0.0 && n > 0.0 && s == n && g == 1.0 && m * s == p * g && t == m * n
    ensures m > 0.0 && t == p
  {
    assert m == p / n;
  }

  /** From `m * s == p * g` with `0 < s < n * g` it follows that `m > 0` and `t == m * n > p`. */
  lemma PaymentsExceedPrincipal(p: real, m: real, t: real, s: real, g: real, n: real)
    requires p > 0.0 && g > 0.0 && 0.0 < s < n * g && m * s == p * g && t == m * n
    ensures m > 0.0 && t > p
  {
    assert m == (p * g) / s;
    assert m * (n * g) > m * s;
    assert (m * n - p) * g > 0.0;
    assert m * n - p == ((m * n - p) * g) / g;
  }

  /** Whenever a positive principal is quoted, the payment solves the annuity
      equation `M * (1 + g + ... + g^(n-1)) == P * g^n` for the growth factor
      `g`, and the geometric sum is nonzero. */
  lemma PaymentEquation(loanAmount: real, annualRatePercent: real, termYears: nat, downPayment: real, q: Quote)
    requires CalculateLoan(loanAmount, annualRatePercent, termYears, downPayment) == Ok(q)
    requires loanAmount - downPayment > 0.0
    ensures GeomSum(Growth(annualRatePercent), PaymentCount(termYears)) != 0.0
    ensures q.monthlyPayment * GeomSum(Growth(annualRatePercent), PaymentCount(termYears))
         == (loanAmount - downPayment) * Pow(Growth(annualRatePercent), PaymentCount(termYears))
  {
    var p := loanAmount - downPayment;
    var rate := MonthlyRate(annualRatePercent);
    var x := Growth(annualRatePercent);
    var n := PaymentCount(termYears);
    var m := q.monthlyPayment;
    if rate == 0.0 {
      GeomSumOfOne(n);
      PowOfOne(n);
      assert m == p / n as real;
    } else {
      var big := Pow(x, n);
      var s := GeomSum(x, n);
      GeomSumTimesRate(x, n);
      assert s * rate == big - 1.0;
      assert big - 1.0 != 0.0;
      assert m == p * (rate * big) / (big - 1.0);
      AnnuitySolvesEquation(p, rate, big, s);
    }
  }

  /** A fixed monthly payment `m` pays the loan off exactly at its last month. */
  predicate PaysOff(loanAmount: real, annualRatePercent: real, termYears: nat, downPayment: real, m: real)
  {
    BalanceAfter(loanAmount - downPayment, MonthlyRate(annualRatePercent), m, PaymentCount(termYears)) == 0.0
  }

  lemma ClearingPayment(p: real, rate: real, n: nat, m: real, m0: real)
    requires GeomSum(1.0 + rate, n) != 0.0
    requires m0 * GeomSum(1.0 + rate, n) == p * Pow(1.0 + rate, n)
    ensures BalanceAfter(p, rate, m, n) == 0.0 <==> m == m0
  {
    BalanceClosedForm(p, rate, m, n);
    AffineRoot(BalanceAfter(p, rate, m, n), p * Pow(1.0 + rate, n), m, m0, GeomSum(1.0 + rate, n));
  }

  /** The quoted payment is the one and only fixed payment that pays the
      principal off exactly at the last of the `n` months. */
  lemma PaymentClearsLoanExactly(loanAmount: real, annualRatePercent: real, termYears: nat, downPayment: real, q: Quote)
    requires CalculateLoan(loanAmount, annualRatePercent, termYears, downPayment) == Ok(q)
    requires loanAmount - downPayment > 0.0
    ensures forall m: real :: PaysOff(loanAmount, annualRatePercent, termYears, downPayment, m) <==> m == q.monthlyPayment
  {
    PaymentEquation(loanAmount, annualRatePercent, termYears, downPayment, q);
    forall m: real
      ensures PaysOff(loanAmount, annualRatePercent, termYears, downPayment, m) <==> m == q.monthlyPayment
    {
      ClearingPayment(loanAmount - downPayment, MonthlyRate(annualRatePercent), PaymentCount(termYears), m, q.monthlyPayment);
    }
  }

  /** With at least one year and a non-negative rate a positive principal is
      always quoted, with a positive payment; at zero rate the payments add up
      to the principal, at a positive rate to strictly more. */
  lemma PositiveLoanQuote(loanAmount: real, annualRatePercent: real, termYears: nat, downPayment: real)
    requires loanAmount - downPayment > 0.0
    requires annualRatePercent >= 0.0 && termYears >= 1
    ensures CalculateLoan(loanAmount, annualRatePercent, termYears, downPayment).Ok?
    ensures CalculateLoan(loanAmount, annualRatePercent, termYears, downPayment).value.monthlyPayment > 0.0
    ensures annualRatePercent == 0.0 ==>
      CalculateLoan(loanAmount, annualRatePercent, termYears, downPayment).value.totalPayment == loanAmount - downPayment
    ensures annualRatePercent > 0.0 ==>
      CalculateLoan(loanAmount, annualRatePercent, termYears, downPayment).value.totalPayment > loanAmount - downPayment
  {
    CalculateLoanFailsExactly(loanAmount, annualRatePercent, termYears, downPayment);
    var q := CalculateLoan(loanAmount, annualRatePercent, termYears, downPayment).value;
    PaymentEquation(loanAmount, annualRatePercent, termYears, downPayment, q);
    QuoteArithmetic(loanAmount - downPayment, annualRatePercent, PaymentCount(termYears), q);
  }

  /** The arithmetic behind `PositiveLoanQuote`, once the payment equation holds. */
  lemma QuoteArithmetic(p: real, annualRatePercent: real, n: nat, q: Quote)
    requires p > 0.0 && annualRatePercent >= 0.0 && n >= 1
    requires q.totalPayment == q.monthlyPayment * n as real
    requires q.monthlyPayment * GeomSum(Growth(annualRatePercent), n) == p * Pow(Growth(annualRatePercent), n)
    ensures q.monthlyPayment > 0.0
    ensures annualRatePercent == 0.0 ==> q.totalPayment == p
    ensures annualRatePercent > 0.0 ==> q.totalPayment > p
  {
    var x := Growth(annualRatePercent);
    if annualRatePercent == 0.0 {
      assert x == 1.0;
      GeomSumOfOne(n);
      PowOfOne(n);
      ZeroRateArithmetic(p, q.monthlyPayment, q.totalPayment, GeomSum(x, n), Pow(x, n), n as real);
    } else {
      GeomSumBelow(x, n);
      PowPositive(x, n);
      PaymentsExceedPrincipal(p, q.monthlyPayment, q.totalPayment, GeomSum(x, n), Pow(x, n), n as real);
    }
  }

  /** Two solutions `m1 * s1 == p * g1` and `m2 * s2 == p * g2` are ordered
      like the ratios `g / s`. */
  lemma RatioOrder(p: real, m1: real, s1: real, g1: real, m2: real, s2: real, g2: real)
    requires p > 0.0 && s1 > 0.0 && s2 > 0.0
    requires m1 * s1 == p * g1 && m2 * s2 == p * g2 && s1 * g2 > s2 * g1
    ensures m1 < m2
  {
    var ss := s1 * s2;
    assert ss > 0.0;
    assert m1 * ss == p * (g1 * s2);
    assert m2 * ss == p * (g2 * s1);
    assert p * (g2 * s1) > p * (g1 * s2);
    assert (m2 - m1) * ss > 0.0;
  }

  lemma TotalsKeepOrder(m1: real, m2: real, t1: real, t2: real, n: real)
    requires m1 < m2 && n > 0.0 && t1 == m1 * n && t2 == m2 * n
    ensures t1 < t2
  {
  }

  /** For the same principal and term, a strictly higher non-negative rate
      gives a strictly higher monthly payment and a strictly higher total. */
  lemma HigherRateCostsMore(loanAmount: real, lowRate: real, highRate: real, termYears: nat, downPayment: real)
    requires loanAmount - downPayment > 0.0
    requires 0.0 <= lowRate < highRate && termYears >= 1
    ensures CalculateLoan(loanAmount, lowRate, termYears, downPayment).Ok?
    ensures CalculateLoan(loanAmount, highRate, termYears, downPayment).Ok?
    ensures CalculateLoan(loanAmount, lowRate, termYears, downPayment).value.monthlyPayment
          < CalculateLoan(loanAmount, highRate, termYears, downPayment).value.monthlyPayment
    ensures CalculateLoan(loanAmount, lowRate, termYears, downPayment).value.totalPayment
          < CalculateLoan(loanAmount, highRate, termYears, downPayment).value.totalPayment
  {
    var p := loanAmount - downPayment;
    var n := PaymentCount(termYears);
    var x1, x2 := Growth(lowRate), Growth(highRate);
    PositiveLoanQuote(loanAmount, lowRate, termYears, downPayment);
    PositiveLoanQuote(loanAmount, highRate, termYears, downPayment);
    var q1 := CalculateLoan(loanAmount, lowRate, termYears, downPayment).value;
    var q2 := CalculateLoan(loanAmount, highRate, termYears, downPayment).value;
    PaymentEquation(loanAmount, lowRate, termYears, downPayment, q1);
    PaymentEquation(loanAmount, highRate, termYears, downPayment, q2);
    SumOverPowDecreasing(x1, x2, n);
    GeomSumAtLeastOne(x1, n);
    GeomSumAtLeastOne(x2, n);
    RatioOrder(p, q1.monthlyPayment, GeomSum(x1, n), Pow(x1, n), q2.monthlyPayment, GeomSum(x2, n), Pow(x2, n));
    TotalsKeepOrder(q1.monthlyPayment, q2.monthlyPayment, q1.totalPayment, q2.totalPayment, n as real);
  }
}
