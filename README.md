# Fixed-rate amortization engine (mortgage.py)

A Dafny model of the `Mortgage` amortization engine. A mortgage is built from a
nominal semi-annual rate, a term in years, a loan amount and a `Modality`. For
the accelerated-weekly modality, `set_up` sizes the weekly payment: a quarter
of the monthly annuity payment over `term*12` months at the monthly effective
rate `j12`. The engine then keeps the weekly effective rate `j`. It defines
three closed forms in the period index `k`:

- the outstanding balance (present value);
- the accrued interest;
- the accrued capital.

The per-period queries `interest(k)`, `capital(k)`, `accrued_interest(k)` and
`accrued_capital(k)` evaluate them.

The model works over exact reals. `(1 + j)^k` is an integer power
(`Powers.Pow`; a negative exponent is a reciprocal), because the source's `k`
is an integer symbol and `interest(0)` evaluates the balance at `k = -1`. The
mortgage is an immutable datatype (`Amortization.Mortgage`) with pure
functions of `k`, since the source stores its constants once and never
updates them. `Amortization.New` models the constructor and `Amortization.SetUp`
models `set_up`. Each fails with a `SetupError` where the source has no value:

- `UnsupportedModality`: `set_up` returns `None` for `montly` and `weekly`,
  and the tuple unpacking in the constructor then fails.
- `ZeroRate`: a zero `j12` or `j52`.
- `ZeroAnnuity`: a zero term, which makes the annuity factor zero.

For the last two the source does not raise: its symbolic arithmetic yields
NaN or complex infinity. The model reports an error instead of a value.

The project has three modules: `Powers` (integer powers), `Amortization`
(the data model, `SetUp`, `New`, the closed forms and the field identities
behind them) and `Schedule` (what the closed forms mean over a payment
schedule). Each closed form is proved against an independent reference
definition:

- the balance against the level-payment recurrence;
- accrued interest and capital against the running sums of the per-period
  interest and capital;
- the annuity factor against the sum of its monthly discount factors.

The file holds no clamping of negative balances, no zero-rate branch and no
break-even (equilibrium) computation, so the model has none either. Past
payoff, the balance simply goes negative, as it does in the code.
The balance strictly decreases from every period to the next exactly in the
amortizing case, where the payment exceeds the interest on the loan.

## Model

| member | source | states |
|---|---|---|
| Powers.PowNat | mortgage.py:22 | a natural power of a positive base is positive, and of a non-zero base is non-zero |
| Powers.Pow | mortgage.py:32 | an integer power of a non-zero base is non-zero, and positive for a positive base |
| Powers.PowNegate | mortgage.py:32 | x^n and x^-n are reciprocals for every integer n |
| Powers.PowSucc | mortgage.py:22 | x^(n+1) == x^n * x for every integer n, negative included |
| Powers.PowIsOneIff | mortgage.py:32 | for a positive base other than 1, x^n == 1 exactly when n == 0; for n > 0, x^n > 1 exactly when x > 1 |
| Amortization.MonthlyAnnuitySign | mortgage.py:32 | the annuity factor (1-(1+j12)^(-term*12))/j12 is zero exactly when term == 0 and positive exactly when term > 0, for any rate above -1 other than 0 |
| Amortization.MonthlyAnnuityIsDiscountSum | mortgage.py:32 | the annuity factor equals the sum of the discount factors (1+j12)^-t for t = 1..term*12 |
| Amortization.AnnuityClosedForm | mortgage.py:32 | (1-q^-n)/j equals the sum of q^-t for t = 1..n, with q = 1+j |
| Amortization.SetUp | mortgage.py:26-34 | fails with UnsupportedModality for every modality but accelerated weekly; otherwise fails exactly when j12 == 0 or term == 0; when it succeeds, the rate returned is j52, 4*payment*annuity == loan, and payment > 0 whenever loan > 0 and term > 0 |
| Amortization.New | mortgage.py:12-24 | fails exactly when the modality is unsupported or a rate or the term is zero; otherwise stores the four inputs and the two rates, sizes the payment so that 4*payment*annuity == loan, and the balance at period 0 is the loan |
| Schedule.PresentValueRecurrence | mortgage.py:22 | the balance closed form satisfies PV(k+1) == PV(k)*(1+j) - payment for every integer k |
| Schedule.PresentValueSolvesRecurrence | mortgage.py:22 | PV(0) == loan, and PV(k) equals the balance built by the recurrence from the loan, for every k >= 0 |
| Schedule.CapitalIsBalanceDrop | mortgage.py:36-41 | capital(k) == payment - interest(k) is exactly the drop in balance PV(k-1) - PV(k) |
| Schedule.BalanceDrop | mortgage.py:22 | from period k to k+1 the balance falls by exactly (1+j)^k * (payment - j*loan), for every integer k |
| Schedule.BalanceDecreasesIff | mortgage.py:22 | the balance strictly decreases from k to k+1 exactly when payment > j*loan (the amortizing case), in both directions, for every integer k |
| Schedule.AccruedInterestStep | mortgage.py:23 | the accrued-interest closed form grows from k-1 to k by exactly interest(k) == j*PV(k-1) |
| Schedule.AccruedInterestIsRunningSum | mortgage.py:23 | accrued_interest(0) == 0, and accrued_interest(k) == interest(1) + ... + interest(k) |
| Schedule.AccruedCapitalIsPrincipalRepaid | mortgage.py:22-24 | accrued_capital(k) == loan - PV(k): the capital accrued is the principal repaid |
| Schedule.AccruedCapitalIsRunningSum | mortgage.py:24 | accrued_capital(k) == capital(1) + ... + capital(k) |
| Schedule.AccountingIdentity | mortgage.py:43-49 | accrued interest plus accrued capital is k payments, both for the running sums and for the closed forms |
| Schedule.MonthlyEquivalentPaysOff | mortgage.py:31-33 | a monthly loan at rate j12 paying four times the weekly payment each month has a balance of exactly 0 after term*12 months |

## Left out

- Rate conversion `(1 + i/2)^(2/m) - 1` (mortgage.py:27-29) has a fractional exponent, which exact reals cannot express. `j12` and `j52` are parameters of `SetUp` and `New`, which require each to exceed -1, as the formula does for every nominal rate above -2 (every positive rate in particular). The nominal rate is stored but not used.
- The symbolic-algebra machinery (`Symbol`, `simplify`, `subs`, `lambdify`, numpy evaluation) is not modelled. The closed forms are written directly as real-valued functions.
- Floating-point rounding is not modelled: all arithmetic is exact.
- For a zero `j12` or a zero term, the source computes NaN or complex infinity instead of raising. The model returns `ZeroRate` or `ZeroAnnuity` instead.
- For a zero `j52`, the source builds closed forms that divide by zero. The model returns `ZeroRate` instead.
- Clamping of a negative balance, the zero-rate limiting formula and the break-even period are not in mortgage.py, so they are not in the model.
