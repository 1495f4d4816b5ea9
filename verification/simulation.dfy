/** `PlafondService.simulateLoan`: choosing the plafond a simulation uses,
    and the flat-rate installment calculator.

    The calculator is `BigDecimal` arithmetic with HALF_UP rounding at
    fixed scales; here every decimal is its unscaled integer. Money has
    scale 2 (cents), the stored rate has scale 2 (hundredths of a percent),
    and the rate and year factors have scale 8. */
module Simulation {
  import opened Wrappers
  import opened FixedPoint
  import Plafonds
  import Seqs

  /** 10^8: the unscaled value of 1 at scale 8. */
  const Scale8 := 100_000_000
  /** Unscaled value of 100 for a percentage stored at scale 2. */
  const PercentScale := 10_000

  // ---------------------------------------------------------------------
  // The calculator
  // ---------------------------------------------------------------------

  /** `annualRatePercent.divide(100, 8, HALF_UP)` for a rate stored with
      two decimals: the division is exact, so no rounding happens. */
  function RateFactor(rate: int): (f: int)
    ensures f == rate * 10_000
  {
    DivHalfUpExact(rate * 10_000, PercentScale);
    assert rate * Scale8 == (rate * 10_000) * PercentScale;
    DivHalfUp(rate * Scale8, PercentScale)
  }

  /** `tenorMonths.divide(12, 8, HALF_UP)`: the tenor in years at scale 8,
      rounded; exact whenever the tenor is a whole number of quarters. */
  function YearsFactor(tenor: int): (y: int)
    ensures IsHalfUpQuotient(tenor * Scale8, 12, y)
    ensures tenor >= 0 ==> y >= 0
    ensures tenor == 0 ==> y == 0
    ensures tenor % 3 == 0 ==> y == (tenor / 3) * 25_000_000
  {
    if tenor % 3 == 0 then
      var k := (tenor / 3) * 25_000_000;
      assert tenor * Scale8 == k * 12;
      DivHalfUpExact(k, 12);
      DivHalfUp(tenor * Scale8, 12)
    else
      DivHalfUp(tenor * Scale8, 12)
  }

  lemma MulSign(a: int, b: int)
    ensures a >= 0 && b >= 0 ==> a * b >= 0
    ensures a == 0 || b == 0 ==> a * b == 0
  {
  }

  /** `rateDecimal * years` as an unscaled value of scale 16; the
      products of `BigDecimal.multiply` are exact, so grouping them this
      way does not change the result. */
  function InterestFactor(rate: int, tenor: int): (k: int)
    ensures rate >= 0 && tenor >= 0 ==> k >= 0
    ensures rate == 0 || tenor == 0 ==> k == 0
  {
    var f := RateFactor(rate);
    var y := YearsFactor(tenor);
    MulSign(f, y);
    f * y
  }

  /** `principal * rateDecimal * years`, rounded HALF_UP to cents: the
      unscaled product has scale 2 + 8 + 8, hence the divisor 10^16. */
  function TotalInterest(principal: int, rate: int, tenor: int): (i: int)
    ensures IsHalfUpQuotient(principal * InterestFactor(rate, tenor), Scale8 * Scale8, i)
    ensures principal >= 0 && rate >= 0 && tenor >= 0 ==> i >= 0
    ensures rate == 0 || principal == 0 || tenor == 0 ==> i == 0
  {
    var k := InterestFactor(rate, tenor);
    MulSign(principal, k);
    DivHalfUp(principal * k, Scale8 * Scale8)
  }

  /** `principal.add(totalInterest).setScale(2, HALF_UP)` for a principal
      in whole cents: the interest has scale 2 as well, so the rounding
      changes nothing. A principal with more decimals is not modelled. */
  function TotalPayment(principal: int, rate: int, tenor: int): (t: int)
    ensures t - principal == TotalInterest(principal, rate, tenor)
    ensures principal >= 0 && rate >= 0 && tenor >= 0 ==> t >= principal
    ensures rate == 0 ==> t == principal
  {
    principal + TotalInterest(principal, rate, tenor)
  }

  /** `totalPayment.divide(tenorMonths, 2, HALF_UP)`; a zero tenor is the
      `ArithmeticException` of a division by zero. */
  function MonthlyInstallment(total: int, tenor: int): (m: Option<int>)
    ensures m.None? <==> tenor == 0
    ensures m.Some? ==> 2 * Abs(total - m.value * tenor) <= Abs(tenor)
    ensures m.Some? ==> IsHalfUpQuotient(total, tenor, m.value)
  {
    if tenor == 0 then None else Some(DivHalfUp(total, tenor))
  }

  /** Paying the rounded installment every month misses the total by at
      most half a cent per month. */
  lemma InstallmentWithinHalfCentPerMonth(principal: int, rate: int, tenor: int)
    requires tenor > 0
    ensures var total := TotalPayment(principal, rate, tenor);
      var m := MonthlyInstallment(total, tenor).value;
      -tenor <= 2 * (m * tenor - total) <= tenor
  {
    var total := TotalPayment(principal, rate, tenor);
    var m := MonthlyInstallment(total, tenor).value;
    assert 2 * Abs(total - m * tenor) <= tenor;
  }

  /** With a fixed rate and tenor, more principal never means less interest. */
  lemma InterestMonotoneInPrincipal(p1: int, p2: int, rate: int, tenor: int)
    requires p1 <= p2
    requires rate >= 0 && tenor >= 0
    ensures TotalInterest(p1, rate, tenor) <= TotalInterest(p2, rate, tenor)
    ensures TotalPayment(p1, rate, tenor) <= TotalPayment(p2, rate, tenor)
  {
    var k := InterestFactor(rate, tenor);
    if k > 0 {
      MulLessEqual(p1, p2, k);
    }
    DivHalfUpMonotone(p1 * k, p2 * k, Scale8 * Scale8);
  }

  /** The documented example: 10,000,000.00 at 1.50% a year over 12
      months costs 150,000.00 interest, 10,150,000.00 in total, and
      845,833.33 a month. */
  lemma WorkedExample()
    ensures TotalInterest(1_000_000_000, 150, 12) == 15_000_000
    ensures TotalPayment(1_000_000_000, 150, 12) == 1_015_000_000
    ensures MonthlyInstallment(1_015_000_000, 12) == Some(84_583_333)
  {
    assert RateFactor(150) == 1_500_000;
    assert YearsFactor(12) == Scale8;
    assert 1_000_000_000 * 1_500_000 * Scale8 == 15_000_000 * (Scale8 * Scale8);
    DivHalfUpExact(15_000_000, Scale8 * Scale8);
    assert DivHalfUpNat(1_015_000_000, 12) == 84_583_333;
  }

  // ---------------------------------------------------------------------
  // Choosing the plafond
  // ---------------------------------------------------------------------

  datatype SimulationRequest = SimulationRequest(amount: int, tenor: int, plafondId: Option<int>)

  datatype Simulation = Simulation(
    loanAmount: int,
    tenorMonth: int,
    interestRate: int,
    monthlyInstallment: int,
    totalInterest: int,
    totalPayment: int,
    plafondId: nat)

  datatype SimulationError =
    | PlafondNotFound(id: int)
    | TenorExceedsMaximum(requested: int, maximum: int)
    | NoSuitablePlafond
    | AmountExceedsLimit(maximum: int)
    | DivisionByZero

  /** Index of the first row with the lowest interest rate. The stream's
      `min` is a reduction with `BinaryOperator.minBy`, which keeps the
      earlier element on a tie. */
  function FirstMinRate(s: seq<Plafonds.Plafond>): (k: nat)
    requires |s| > 0
    ensures k < |s|
    ensures forall j :: 0 <= j < |s| ==> s[k].interestRate <= s[j].interestRate
    ensures forall j :: 0 <= j < k ==> s[j].interestRate > s[k].interestRate
  {
    if |s| == 1 then 0
    else
      var m := FirstMinRate(s[1..]) + 1;
      if s[0].interestRate <= s[m].interestRate then 0 else m
  }

  /** The candidates of a simulation without a plafond id: active rows of
      exactly the requested tenor whose maximum covers the amount. */
  function Candidates(c: Plafonds.Catalog, amount: int, tenor: int): (r: seq<Plafonds.Plafond>)
    ensures forall p :: p in r <==> p in c.rows && p.isActive && p.tenorMonth == tenor && p.maxAmount >= amount
  {
    Seqs.Filter(Plafonds.FindByTenor(c, tenor), (p: Plafonds.Plafond) => p.maxAmount >= amount)
  }

  /** The plafond a simulation uses. With an id: the live row with that id,
      refused when the requested tenor exceeds its tenor. Without: the
      first lowest-rate candidate. */
  function SelectPlafond(c: Plafonds.Catalog, req: SimulationRequest): (r: Result<Plafonds.Plafond, SimulationError>)
    ensures req.plafondId.Some? ==> match Plafonds.IndexOfLive(c, req.plafondId.value)
      case None => r == Err(PlafondNotFound(req.plafondId.value))
      case Some(k) =>
        if req.tenor > c.rows[k].tenorMonth then r == Err(TenorExceedsMaximum(req.tenor, c.rows[k].tenorMonth))
        else r == Ok(c.rows[k])
    ensures req.plafondId.None? ==> (r == Err(NoSuitablePlafond) <==> |Candidates(c, req.amount, req.tenor)| == 0)
    ensures req.plafondId.None? ==> (r.Ok? <==> |Candidates(c, req.amount, req.tenor)| > 0)
    ensures req.plafondId.None? && r.Ok? ==>
      && r.value in Candidates(c, req.amount, req.tenor)
      && forall p :: p in Candidates(c, req.amount, req.tenor) ==> r.value.interestRate <= p.interestRate
  {
    match req.plafondId
    case Some(id) =>
      (match Plafonds.IndexOfLive(c, id)
       case None => Err(PlafondNotFound(id))
       case Some(k) =>
         if req.tenor > c.rows[k].tenorMonth then Err(TenorExceedsMaximum(req.tenor, c.rows[k].tenorMonth))
         else Ok(c.rows[k]))
    case None =>
      var cs := Candidates(c, req.amount, req.tenor);
      if |cs| == 0 then Err(NoSuitablePlafond) else Ok(cs[FirstMinRate(cs)])
  }

  /** `simulateLoan`: select, check the amount against the selected
      plafond, then run the calculator with the plafond's rate and the
      requested amount and tenor. */
  function SimulateLoan(c: Plafonds.Catalog, req: SimulationRequest): (r: Result<Simulation, SimulationError>)
    ensures SelectPlafond(c, req).Err? ==> r == Err(SelectPlafond(c, req).error)
    ensures SelectPlafond(c, req).Ok? && req.amount > SelectPlafond(c, req).value.maxAmount
      ==> r == Err(AmountExceedsLimit(SelectPlafond(c, req).value.maxAmount))
    ensures r == Err(DivisionByZero) <==> SelectPlafond(c, req).Ok? && req.amount <= SelectPlafond(c, req).value.maxAmount && req.tenor == 0
    ensures r.Ok? <==> SelectPlafond(c, req).Ok? && req.amount <= SelectPlafond(c, req).value.maxAmount && req.tenor != 0
    ensures r.Ok? ==> var p := SelectPlafond(c, req).value;
      && req.amount <= p.maxAmount
      && r.value.plafondId == p.id
      && r.value.interestRate == p.interestRate
      && r.value.loanAmount == req.amount && r.value.tenorMonth == req.tenor
      && r.value.totalInterest == TotalInterest(req.amount, p.interestRate, req.tenor)
      && r.value.totalPayment == r.value.loanAmount + r.value.totalInterest
      && IsHalfUpQuotient(r.value.totalPayment, req.tenor, r.value.monthlyInstallment)
    ensures r.Ok? && req.plafondId.Some? ==> r.value.plafondId == req.plafondId.value
  {
    var p :- SelectPlafond(c, req);
    if req.amount > p.maxAmount then Err(AmountExceedsLimit(p.maxAmount))
    else
      var total := TotalPayment(req.amount, p.interestRate, req.tenor);
      match MonthlyInstallment(total, req.tenor)
      case None => Err(DivisionByZero)
      case Some(m) =>
        Ok(Simulation(req.amount, req.tenor, p.interestRate, m,
                      TotalInterest(req.amount, p.interestRate, req.tenor), total, p.id))
  }

  /** Without a plafond id, the amount check after selection can never
      fire: every candidate already covers the amount. */
  lemma AutoSelectionCoversAmount(c: Plafonds.Catalog, req: SimulationRequest)
    requires req.plafondId.None?
    requires SelectPlafond(c, req).Ok?
    ensures SimulateLoan(c, req).Err? ==> SimulateLoan(c, req) == Err(DivisionByZero)
  {
    var p := SelectPlafond(c, req).value;
    assert p in Candidates(c, req.amount, req.tenor);
  }
}
