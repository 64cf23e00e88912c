/** The side-by-side comparison at the end of app.py: which of two loans
    costs less in total, and by how much. */
module LoanComparison {
  import opened LoanCalculator

  /** The message shown under the comparison heading. */
  datatype Verdict =
    | NotComparable           // one of the loans has nothing to borrow
    | ACheaper(saving: real)  // loan A's total is lower by `saving`
    | BCheaper(saving: real)  // loan B's total is lower by `saving`
    | AboutTheSame            // the totals are equal

  /** Swaps the roles of loan A and loan B in a verdict. */
  function Mirror(v: Verdict): Verdict
  {
    match v
    case NotComparable => NotComparable
    case ACheaper(s) => BCheaper(s)
    case BCheaper(s) => ACheaper(s)
    case AboutTheSame => AboutTheSame
  }

  /** The verdict from both principals and both totals: given only when both
      principals are positive, then naming the loan with the strictly lower
      total and the (positive) difference, or "about the same". */
  function Compare(principalA: real, totalA: real, principalB: real, totalB: real): (v: Verdict)
    ensures v.NotComparable? <==> !(principalA > 0.0 && principalB > 0.0)
    ensures v.ACheaper? <==> principalA > 0.0 && principalB > 0.0 && totalA < totalB
    ensures v.BCheaper? <==> principalA > 0.0 && principalB > 0.0 && totalB < totalA
    ensures v.AboutTheSame? <==> principalA > 0.0 && principalB > 0.0 && totalA == totalB
    ensures v.ACheaper? ==> totalA + v.saving == totalB
    ensures v.BCheaper? ==> totalB + v.saving == totalA
    ensures (v.ACheaper? || v.BCheaper?) ==> v.saving > 0.0
  {
    if principalA > 0.0 && principalB > 0.0 then
      if totalA < totalB then ACheaper(totalB - totalA)
      else if totalB < totalA then BCheaper(totalA - totalB)
      else AboutTheSame
    else
      NotComparable
  }

  /** Comparing B with A gives the mirror image of comparing A with B. */
  lemma CompareIsSymmetric(principalA: real, totalA: real, principalB: real, totalB: real)
    ensures Compare(principalB, totalB, principalA, totalA) == Mirror(Compare(principalA, totalA, principalB, totalB))
  {
  }

  /** The whole results-and-comparison flow for two loans: each loan is
      quoted (a failing quote aborts the page), then the two totals are
      compared. */
  function CompareLoans(a: LoanTerms, b: LoanTerms): (r: Result<Verdict>)
    ensures r.Err? <==> ((a.Principal() > 0.0 && (a.termYears == 0 || a.annualRatePercent == -2400.0))
                      || (b.Principal() > 0.0 && (b.termYears == 0 || b.annualRatePercent == -2400.0)))
    ensures r.Ok? ==> (r.value.NotComparable? <==> a.Principal() <= 0.0 || b.Principal() <= 0.0)
    ensures r.Ok? ==> CalculateTerms(a).Ok? && CalculateTerms(b).Ok?
    ensures r.Ok? ==> r.value == Compare(a.Principal(), CalculateTerms(a).value.totalPayment,
                                         b.Principal(), CalculateTerms(b).value.totalPayment)
  {
    CalculateLoanFailsExactly(a.loanAmount, a.annualRatePercent, a.termYears, a.downPayment);
    CalculateLoanFailsExactly(b.loanAmount, b.annualRatePercent, b.termYears, b.downPayment);
    match CalculateTerms(a)
    case Err(e) => Err(e)
    case Ok(qa) =>
      match CalculateTerms(b)
      case Err(e) => Err(e)
      case Ok(qb) => Ok(Compare(a.Principal(), qa.totalPayment, b.Principal(), qb.totalPayment))
  }

  /** The ranges the input widgets allow: amount 1,000,000..500,000,000 yen,
      down payment 0..amount, annual rate 0.1..10 %, term 1..50 years. */
  predicate FromInputWidgets(t: LoanTerms)
  {
    && 1000000.0 <= t.loanAmount <= 500000000.0
    && 0.0 <= t.downPayment <= t.loanAmount
    && 0.1 <= t.annualRatePercent <= 10.0
    && 1 <= t.termYears <= 50
  }

  /** Inputs the widgets allow never make the page fail, and the verdict is
      given exactly when both down payments are below their loan amounts. */
  lemma WidgetInputsAlwaysCompare(a: LoanTerms, b: LoanTerms)
    requires FromInputWidgets(a) && FromInputWidgets(b)
    ensures CompareLoans(a, b).Ok?
    ensures CompareLoans(a, b).value.NotComparable?
        <==> (a.downPayment == a.loanAmount || b.downPayment == b.loanAmount)
  {
  }

  /** Two loans with the same amount, down payment and term: the one with the
      strictly lower non-negative rate is reported cheaper. */
  lemma LowerRateIsReportedCheaper(a: LoanTerms, b: LoanTerms)
    requires a.loanAmount == b.loanAmount && a.downPayment == b.downPayment && a.termYears == b.termYears
    requires a.Principal() > 0.0 && a.termYears >= 1
    requires 0.0 <= a.annualRatePercent < b.annualRatePercent
    ensures CompareLoans(a, b).Ok? && CompareLoans(a, b).value.ACheaper?
  {
    HigherRateCostsMore(a.loanAmount, a.annualRatePercent, b.annualRatePercent, a.termYears, a.downPayment);
  }

  /** A loan compared with itself is "about the same". */
  lemma SameLoanIsAboutTheSame(a: LoanTerms)
    requires a.Principal() > 0.0 && CalculateTerms(a).Ok?
    ensures CompareLoans(a, a) == Ok(AboutTheSame)
  {
  }
}
