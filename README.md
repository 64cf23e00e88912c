# Loan comparison calculator — Dafny model

The application compares two fixed-rate mortgages ("loan A" and "loan B")
side by side. For each loan it takes the amount borrowed, a down payment,
an annual interest rate in percent and a term in years. It then computes
two figures. The first is the fixed monthly payment of an equal-payment
(annuity) loan. The second is the total repaid. Finally it says which
loan is cheaper in total, and by how much.

This project models that logic over Dafny's exact `real` numbers:

- `powers.dfy`, module `RealPowers`: exact powers `Pow(x, n)` and geometric
  sums `GeomSum(x, n)`, with the facts about them that the loan proofs use.
- `loan.dfy`, module `LoanCalculator`: `CalculateLoan` models
  `calculate_loan`, including its default `down_payment=0`. A Python
  `ZeroDivisionError` becomes `Err(ZeroDivision)`.
- `comparison.dfy`, module `LoanComparison`: `Compare` is the verdict over
  the two principals and the two totals. `CompareLoans` is the whole
  quote-then-compare flow for two loans.

The model is the exact-arithmetic idealisation of the float code. The
annuity formula is given meaning by a reference definition,
`BalanceAfter`. Each month the balance grows by the monthly rate, and then
one payment is subtracted. The main result is `PaymentClearsLoanExactly`:
the quoted payment is the one and only fixed payment that brings the
balance to exactly zero after the last of the `n` months.

`app.py` has no fallback for a zero denominator. When the zero-rate split
or the annuity formula divides by zero, Python raises `ZeroDivisionError`;
the model returns `Err(ZeroDivision)` in exactly those cases.

## Model

| member | source | states |
|---|---|---|
| LoanCalculator.CalculateLoan | app.py:100-119 | A principal (amount minus down payment) of zero or less gives `(0, 0)`, whatever the rate and term. Whenever a quote is returned, the total is the monthly payment times `12 × years`. |
| LoanCalculator.DownPaymentOnlyReducesPrincipal | app.py:100-104 | The down payment acts only through `loan_amount − down_payment`. It defaults to 0, so the result equals quoting the reduced amount with no down payment. |
| LoanCalculator.CalculateLoanFailsExactly | app.py:104-116 | The calculation fails with a division by zero exactly when the principal is positive and either the term is 0 years or the annual rate is −2400 %. That rate is the only nonzero rate that makes `(1+r)^n − 1` vanish, because `n = 12 × years` is even. |
| LoanCalculator.AnnuityDenominatorPositive | app.py:114-116 | With a positive rate and a term of at least one year, `(1+r)^n − 1 > 0`, so the annuity division is defined. |
| LoanCalculator.PaymentEquation | app.py:108-116 | Whenever a positive principal is quoted, the payment `M` solves `M·(1 + g + … + g^(n−1)) = P·g^n` for `g = 1 + annual/100/12`, and that geometric sum is nonzero. This covers both the zero-rate split `P/n` and the closed form `P·r·(1+r)^n / ((1+r)^n − 1)`. |
| LoanCalculator.PaymentClearsLoanExactly | app.py:108-116 | For a quoted positive principal, a fixed monthly payment `m` leaves a zero balance after the `n`-th month if and only if `m` is the quoted payment. |
| LoanCalculator.PositiveLoanQuote | app.py:104-118 | With a positive principal, a non-negative rate and at least one year, a quote is always returned and its payment is positive. At 0 % the total equals the principal. At a positive rate the total is strictly more than the principal. |
| LoanCalculator.HigherRateCostsMore | app.py:108-118 | For the same principal and term, a strictly higher non-negative rate gives a strictly higher monthly payment and a strictly higher total. |
| LoanComparison.Compare | app.py:170-178 | No verdict unless both principals are positive. Otherwise: A is cheaper if and only if its total is lower, with saving `total_b − total_a`. B is cheaper if and only if its total is lower, with saving `total_a − total_b`. "About the same" if and only if the totals are equal. Any saving reported is positive. |
| LoanComparison.CompareIsSymmetric | app.py:170-176 | Swapping loans A and B swaps the verdict: A-cheaper becomes B-cheaper with the same saving. |
| LoanComparison.CompareLoans | app.py:151-178 | For every pair of loans, the page fails if and only if some loan has a positive principal and either a 0-year term or a −2400 % rate. When it does not fail, no verdict is given exactly when one of the principals is zero or less, and otherwise the verdict is `Compare` of the two principals and the two quoted totals. |
| LoanComparison.WidgetInputsAlwaysCompare | app.py:128-141 | For inputs within the widgets' ranges (amount 1,000,000–500,000,000, down payment up to the amount, rate 0.1–10 %, term 1–50 years), the page never fails. No verdict is given exactly when a down payment equals its loan amount. |
| LoanComparison.LowerRateIsReportedCheaper | app.py:170-172 | For two loans with the same amount, down payment and term, the one with the strictly lower non-negative rate is reported cheaper. |
| LoanComparison.SameLoanIsAboutTheSame | app.py:175-176 | A quoted loan compared with itself is reported as "about the same". |

## Left out

- The Streamlit page is not modelled: page setup, styling, columns, widgets, metric cards and the error, info and markdown messages (app.py:1-97, 121-166, 180-181). Only the input ranges the widgets enforce are modelled, as `FromInputWidgets`.
- The `int(...)` truncation and `:,` thousands separators of displayed amounts are display formatting and are not modelled.
- IEEE-754 floating point is not modelled. Amounts and rates are exact reals and `**` is the exact power. Float rounding and `OverflowError` in `**` are not captured.
- CalculateLoanFailsExactly: the "exactly when" holds in exact arithmetic only. In floats, a nonzero monthly rate below about 1.1e-16 (an annual rate near 1e-14 %) makes `1 + r` round to 1.0. The denominator at app.py:116 is then 0.0 and Python raises `ZeroDivisionError`, while the model returns a quote.
- CalculateLoan: the term is a natural number. A negative term is accepted by Python (`**` with a negative exponent) but never produced by the 1–50 slider, so it is not modelled.
- There is no month-by-month schedule in `app.py`: no balance trace, rate changes, extra payments or equal-principal repayment. `BalanceAfter` is only a reference definition that gives the closed form its meaning.
- No concrete quote is evaluated in a proof: for a realistic term, the exact value of `Pow(1 + r, n)` has far too many digits.
