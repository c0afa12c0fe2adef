/**
 * The term-life pricing engine: present-value discounting, the net premium by
 * the equivalence principle and the prospective net-premium reserve schedule.
 * Amounts, rates and probabilities are exact reals; `math.Pow` with an integer
 * exponent is the recursive `Pow`.
 */
module Actuarial {

  /** Mortality rates qx indexed by age. */
  type MortalityTable = seq<real>

  /** The input parameters of a policy as the engine sees them. */
  datatype PolicyHolder = PolicyHolder(
    Age: int,
    Term: int,
    SumAssured: real,
    InterestRate: real,
    TableName: string)

  /** The output of the `/calculate` endpoint's engine calls. */
  datatype CalculationResult = CalculationResult(NetPremium: real, ReserveSchedule: seq<real>)

  // ---------------------------------------------------------------------------
  // Discounting
  // ---------------------------------------------------------------------------

  /** `b` raised to a non-negative integer power. */
  function Pow(b: real, n: nat): (r: real)
    ensures b != 0.0 ==> r != 0.0
    ensures b > 0.0 ==> r > 0.0
  {
    if n == 0 then 1.0 else b * Pow(b, n - 1)
  }

  /** Discounting is defined wherever the discount base `1 + rate` is not zero. */
  predicate DiscountDefined(interestRate: real)
  {
    1.0 + interestRate != 0.0
  }

  /** The value today of `amount` paid after `years` years at `interestRate`. */
  function PresentValue(amount: real, interestRate: real, years: nat): (r: real)
    requires DiscountDefined(interestRate)
    ensures years == 0 ==> r == amount
    ensures amount >= 0.0 && interestRate > -1.0 ==> r >= 0.0
  {
    amount / Pow(1.0 + interestRate, years)
  }

  /** One more year of waiting divides the present value by `1 + rate`. */
  lemma PresentValueStep(amount: real, interestRate: real, years: nat)
    requires DiscountDefined(interestRate)
    ensures PresentValue(amount, interestRate, years + 1)
         == PresentValue(amount, interestRate, years) / (1.0 + interestRate)
  {
    var b, p := 1.0 + interestRate, Pow(1.0 + interestRate, years);
    assert Pow(b, years + 1) == b * p;
    assert amount / (b * p) == (amount / p) / b;
  }

  /** Present value is linear in the amount. */
  lemma PresentValueScales(k: real, amount: real, interestRate: real, years: nat)
    requires DiscountDefined(interestRate)
    ensures PresentValue(k * amount, interestRate, years) == k * PresentValue(amount, interestRate, years)
  {
    var p := Pow(1.0 + interestRate, years);
    assert (k * amount) / p == k * (amount / p);
  }

  // ---------------------------------------------------------------------------
  // The actuarial sums, over the `n` ages of a table from `start` on
  // ---------------------------------------------------------------------------

  /** The ages `start .. start + n - 1` all index the table (nothing is read when `n` is 0). */
  predicate Window(table: MortalityTable, start: int, n: nat)
  {
    n == 0 || (0 <= start && start + n <= |table|)
  }

  /** Every rate of the table is a probability. */
  predicate ValidRates(table: MortalityTable)
  {
    forall i :: 0 <= i < |table| ==> 0.0 <= table[i] <= 1.0
  }

  /** The probability that a life aged `start` survives `n` years: the product of `1 - q` over those years. */
  function Survival(table: MortalityTable, start: int, n: nat): real
    requires Window(table, start, n)
  {
    if n == 0 then 1.0 else Survival(table, start, n - 1) * (1.0 - table[start + n - 1])
  }

  /**
   * The expected present value of a death benefit `sumAssured` paid at the end
   * of the year of death, for deaths in the first `n` years from age `start`.
   */
  function BenefitPV(table: MortalityTable, start: int, n: nat, sumAssured: real, interestRate: real): real
    requires Window(table, start, n) && DiscountDefined(interestRate)
  {
    if n == 0 then 0.0
    else
      BenefitPV(table, start, n - 1, sumAssured, interestRate)
      + Survival(table, start, n - 1) * table[start + n - 1] * PresentValue(sumAssured, interestRate, n)
  }

  /**
   * The expected present value of a premium of 1 paid at the start of each of
   * the first `n` years while the life aged `start` survives.
   */
  function AnnuityPV(table: MortalityTable, start: int, n: nat, interestRate: real): real
    requires Window(table, start, n) && DiscountDefined(interestRate)
  {
    if n == 0 then 0.0
    else
      AnnuityPV(table, start, n - 1, interestRate)
      + Survival(table, start, n - 1) * PresentValue(1.0, interestRate, n - 1)
  }

  /** Over no years nothing is paid: both sums are zero and survival is certain. */
  lemma NoYears(table: MortalityTable, start: int, sumAssured: real, interestRate: real)
    requires DiscountDefined(interestRate)
    ensures Survival(table, start, 0) == 1.0
    ensures BenefitPV(table, start, 0, sumAssured, interestRate) == 0.0
    ensures AnnuityPV(table, start, 0, interestRate) == 0.0
  {
  }

  /** One more year of survival multiplies by the probability `1 - q` of surviving it. */
  lemma SurvivalStep(table: MortalityTable, start: int, n: nat)
    requires Window(table, start, n + 1)
    ensures Survival(table, start, n + 1) == Survival(table, start, n) * (1.0 - table[start + n])
  {
  }

  /** One more year added to the benefit sum (the unfolding the loops rely on). */
  lemma BenefitStep(table: MortalityTable, start: int, n: nat, sumAssured: real, interestRate: real)
    requires Window(table, start, n + 1) && DiscountDefined(interestRate)
    ensures BenefitPV(table, start, n + 1, sumAssured, interestRate)
         == BenefitPV(table, start, n, sumAssured, interestRate)
            + Survival(table, start, n) * table[start + n] * PresentValue(sumAssured, interestRate, n + 1)
  {
  }

  /** One more year added to the premium annuity (the unfolding the loops rely on). */
  lemma AnnuityStep(table: MortalityTable, start: int, n: nat, interestRate: real)
    requires Window(table, start, n + 1) && DiscountDefined(interestRate)
    ensures AnnuityPV(table, start, n + 1, interestRate)
         == AnnuityPV(table, start, n, interestRate) + Survival(table, start, n) * PresentValue(1.0, interestRate, n)
  {
  }

  // ---------------------------------------------------------------------------
  // Net premium and reserves: specification
  // ---------------------------------------------------------------------------

  /** The number of policy years the loops run over: `Term`, or none when `Term` is not positive. */
  function Years(p: PolicyHolder): nat
  {
    if p.Term < 0 then 0 else p.Term
  }

  /** The ages `Age .. Age + Term - 1` index the table; the engine reads no other entry. */
  predicate InBounds(p: PolicyHolder, table: MortalityTable)
  {
    Window(table, p.Age, Years(p))
  }

  /** The net premium by the equivalence principle; 0 when the premium annuity is worth 0. */
  function NetPremiumOf(p: PolicyHolder, table: MortalityTable): real
    requires InBounds(p, table) && DiscountDefined(p.InterestRate)
  {
    var premiums := AnnuityPV(table, p.Age, Years(p), p.InterestRate);
    if premiums == 0.0 then 0.0
    else BenefitPV(table, p.Age, Years(p), p.SumAssured, p.InterestRate) / premiums
  }

  /**
   * The prospective reserve at duration `t`: the benefits of the remaining
   * `Term - t` years minus the net premiums still to come, valued at age
   * `Age + t`; zero at the end of the term.
   */
  function ReserveAt(p: PolicyHolder, table: MortalityTable, netPremium: real, t: nat): real
    requires InBounds(p, table) && DiscountDefined(p.InterestRate)
    requires t <= p.Term
  {
    if t == p.Term then 0.0
    else
      BenefitPV(table, p.Age + t, p.Term - t, p.SumAssured, p.InterestRate)
      - netPremium * AnnuityPV(table, p.Age + t, p.Term - t, p.InterestRate)
  }

  // ---------------------------------------------------------------------------
  // Net premium and reserves: the engine's loops
  // ---------------------------------------------------------------------------

  /** The running product `px` of `1 - q` over the `n` ages from `start` (the innermost loops of both functions). */
  method SurvivalProbability(table: MortalityTable, start: int, n: nat) returns (px: real)
    requires Window(table, start, n)
    ensures px == Survival(table, start, n)
  {
    px := 1.0;
    var i := 0;
    while i < n
      invariant 0 <= i <= n
      invariant px == Survival(table, start, i)
    {
      px := px * (1.0 - table[start + i]);
      i := i + 1;
    }
  }

  /**
   * The loop both functions run over the `n` policy years from age `start`:
   * year by year it adds the expected discounted death benefit and the expected
   * discounted unit premium.
   */
  method ExpectedValues(table: MortalityTable, start: int, n: nat, sumAssured: real, interestRate: real)
    returns (deathBenefits: real, premiums: real)
    requires Window(table, start, n) && DiscountDefined(interestRate)
    ensures deathBenefits == BenefitPV(table, start, n, sumAssured, interestRate)
    ensures premiums == AnnuityPV(table, start, n, interestRate)
  {
    // Each step only needs the one-year unfoldings below; the definitions of
    // the factors they mention stay out of the proof.
    hide Pow, Survival;
    deathBenefits, premiums := 0.0, 0.0;
    var t := 0;
    while t < n
      invariant 0 <= t <= n
      invariant deathBenefits == BenefitPV(table, start, t, sumAssured, interestRate)
      invariant premiums == AnnuityPV(table, start, t, interestRate)
    {
      var px := SurvivalProbability(table, start, t);
      var qx := table[start + t];
      var deathBenefit := PresentValue(sumAssured, interestRate, t + 1);
      deathBenefits := deathBenefits + px * qx * deathBenefit;
      var premiumAnnuity := PresentValue(1.0, interestRate, t);
      premiums := premiums + px * premiumAnnuity;
      BenefitStep(table, start, t, sumAssured, interestRate);
      AnnuityStep(table, start, t, interestRate);
      assert deathBenefits == BenefitPV(table, start, t + 1, sumAssured, interestRate);
      assert premiums == AnnuityPV(table, start, t + 1, interestRate);
      t := t + 1;
    }
  }

  /** The net premium of a term-life policy: expected death benefits over the expected unit-premium annuity. */
  method NetPremium(p: PolicyHolder, table: MortalityTable) returns (premium: real)
    requires InBounds(p, table) && DiscountDefined(p.InterestRate)
    ensures premium == NetPremiumOf(p, table)
    ensures p.Term <= 0 ==> premium == 0.0
  {
    var expectedFutureDeathBenefit, expectedFuturePremiums :=
      ExpectedValues(table, p.Age, Years(p), p.SumAssured, p.InterestRate);
    if expectedFuturePremiums == 0.0 {
      return 0.0;
    }
    return expectedFutureDeathBenefit / expectedFuturePremiums;
  }

  /**
   * The reserve schedule for durations `0 .. Term`: a buffer of `Term + 1`
   * zeros filled entry by entry; entry `t < Term` re-runs the expected-value
   * loop from age `Age + t` over the remaining `Term - t` years.
   */
  method NetPremiumReserves(p: PolicyHolder, table: MortalityTable, netPremium: real) returns (reserves: seq<real>)
    requires p.Term >= -1
    requires InBounds(p, table) && DiscountDefined(p.InterestRate)
    ensures |reserves| == p.Term + 1
    ensures forall t :: 0 <= t <= p.Term ==> reserves[t] == ReserveAt(p, table, netPremium, t)
    ensures p.Term >= 0 ==> reserves[p.Term] == 0.0
  {
    // Entry `t` is the difference of the two sums the loop returns; their
    // definitions stay out of the proof.
    hide BenefitPV, AnnuityPV, Survival, Pow;
    var buffer := new real[p.Term + 1](_ => 0.0);
    var t := 0;
    while t <= p.Term
      invariant 0 <= t <= p.Term + 1
      invariant forall k :: 0 <= k < t ==> buffer[k] == ReserveAt(p, table, netPremium, k)
    {
      if t == p.Term {
        buffer[t] := 0.0;
        t := t + 1;
        continue;
      }
      var futureDeathBenefit, futurePremiums :=
        ExpectedValues(table, p.Age + t, p.Term - t, p.SumAssured, p.InterestRate);
      buffer[t] := futureDeathBenefit - netPremium * futurePremiums;
      t := t + 1;
    }
    reserves := buffer[..];
  }
}
