/**
 * What the term-life engine promises, proved about the specification
 * functions the engine's loops compute: only the window of the table that the
 * policy covers is read, the sums are non-negative for genuine probabilities,
 * everything scales linearly with the sum assured, the reserve is zero at issue
 * and has a closed form in the last policy year, and the worked example of the
 * engine's tests comes out within its tolerance.
 */
module ActuarialProperties {
  import opened Actuarial

  // ---------------------------------------------------------------------------
  // Index safety: only the ages the policy covers are read
  // ---------------------------------------------------------------------------

  /** Two tables that agree on the ages `start .. start + n - 1` give the same three sums. */
  lemma {:induction false} SumsReadOnlyWindow(t1: MortalityTable, t2: MortalityTable, start: int, n: nat,
                                              sumAssured: real, interestRate: real)
    requires Window(t1, start, n) && Window(t2, start, n) && DiscountDefined(interestRate)
    requires forall i :: start <= i < start + n ==> t1[i] == t2[i]
    ensures Survival(t1, start, n) == Survival(t2, start, n)
    ensures BenefitPV(t1, start, n, sumAssured, interestRate) == BenefitPV(t2, start, n, sumAssured, interestRate)
    ensures AnnuityPV(t1, start, n, interestRate) == AnnuityPV(t2, start, n, interestRate)
  {
    hide Pow, Survival, BenefitPV, AnnuityPV;
    if n > 0 {
      var m := n - 1;
      SumsReadOnlyWindow(t1, t2, start, m, sumAssured, interestRate);
      SurvivalStep(t1, start, m);
      SurvivalStep(t2, start, m);
      BenefitStep(t1, start, m, sumAssured, interestRate);
      BenefitStep(t2, start, m, sumAssured, interestRate);
      AnnuityStep(t1, start, m, interestRate);
      AnnuityStep(t2, start, m, interestRate);
    } else {
      NoYears(t1, start, sumAssured, interestRate);
      NoYears(t2, start, sumAssured, interestRate);
    }
  }

  /** The net premium reads the table only at ages `Age .. Age + Term - 1`. */
  lemma NetPremiumReadsOnlyWindow(p: PolicyHolder, t1: MortalityTable, t2: MortalityTable)
    requires InBounds(p, t1) && InBounds(p, t2) && DiscountDefined(p.InterestRate)
    requires forall i :: p.Age <= i < p.Age + p.Term ==> t1[i] == t2[i]
    ensures NetPremiumOf(p, t1) == NetPremiumOf(p, t2)
  {
    SumsReadOnlyWindow(t1, t2, p.Age, Years(p), p.SumAssured, p.InterestRate);
  }

  /** The reserve at duration `t` reads the table only at ages `Age + t .. Age + Term - 1`. */
  lemma ReserveReadsOnlyWindow(p: PolicyHolder, t1: MortalityTable, t2: MortalityTable, netPremium: real, t: nat)
    requires InBounds(p, t1) && InBounds(p, t2) && DiscountDefined(p.InterestRate)
    requires t <= p.Term
    requires forall i :: p.Age + t <= i < p.Age + p.Term ==> t1[i] == t2[i]
    ensures ReserveAt(p, t1, netPremium, t) == ReserveAt(p, t2, netPremium, t)
  {
    if t < p.Term {
      SumsReadOnlyWindow(t1, t2, p.Age + t, p.Term - t, p.SumAssured, p.InterestRate);
    }
  }

  // ---------------------------------------------------------------------------
  // Signs
  // ---------------------------------------------------------------------------

  /** With rates in [0, 1], a survival probability is itself a probability. */
  lemma {:induction false} SurvivalIsProbability(table: MortalityTable, start: int, n: nat)
    requires Window(table, start, n) && ValidRates(table)
    ensures 0.0 <= Survival(table, start, n) <= 1.0
  {
    hide Pow, Survival;
    if n > 0 {
      var m := n - 1;
      SurvivalIsProbability(table, start, m);
      SurvivalStep(table, start, m);
      var s, q := Survival(table, start, m), table[start + m];
      assert 0.0 <= s * (1.0 - q) <= s by {
        assert 0.0 <= 1.0 - q <= 1.0;
      }
    } else {
      NoYears(table, start, 0.0, 0.0);
    }
  }

  /** The expected present value of a non-negative death benefit is non-negative. */
  lemma {:induction false} BenefitNonNegative(table: MortalityTable, start: int, n: nat,
                                              sumAssured: real, interestRate: real)
    requires Window(table, start, n) && ValidRates(table)
    requires sumAssured >= 0.0 && interestRate > -1.0
    ensures BenefitPV(table, start, n, sumAssured, interestRate) >= 0.0
  {
    hide Pow, Survival, BenefitPV;
    if n > 0 {
      var m := n - 1;
      BenefitNonNegative(table, start, m, sumAssured, interestRate);
      SurvivalIsProbability(table, start, m);
      BenefitStep(table, start, m, sumAssured, interestRate);
      var s, q, v := Survival(table, start, m), table[start + m], PresentValue(sumAssured, interestRate, m + 1);
      assert s * q * v >= 0.0 by {
        assert s * q >= 0.0;
      }
    } else {
      NoYears(table, start, sumAssured, interestRate);
    }
  }

  /**
   * The premium annuity of a policy that runs at least one year is worth at
   * least 1: the premium due at issue is paid for sure and undiscounted.
   */
  lemma {:induction false} AnnuityAtLeastOne(table: MortalityTable, start: int, n: nat, interestRate: real)
    requires n >= 1 && Window(table, start, n) && ValidRates(table)
    requires interestRate > -1.0
    ensures AnnuityPV(table, start, n, interestRate) >= 1.0
  {
    hide Pow, Survival, AnnuityPV;
    var m := n - 1;
    AnnuityStep(table, start, m, interestRate);
    SurvivalIsProbability(table, start, m);
    var s, v := Survival(table, start, m), PresentValue(1.0, interestRate, m);
    assert s * v >= 0.0;
    if m >= 1 {
      AnnuityAtLeastOne(table, start, m, interestRate);
    } else {
      NoYears(table, start, 0.0, interestRate);
    }
  }

  /** The net premium is never negative for genuine probabilities, a non-negative sum assured and rate above -100%. */
  lemma NetPremiumNonNegative(p: PolicyHolder, table: MortalityTable)
    requires InBounds(p, table) && ValidRates(table)
    requires p.SumAssured >= 0.0 && p.InterestRate > -1.0
    ensures NetPremiumOf(p, table) >= 0.0
  {
    hide Pow, Survival, BenefitPV, AnnuityPV;
    var n := Years(p);
    BenefitNonNegative(table, p.Age, n, p.SumAssured, p.InterestRate);
    if n >= 1 {
      AnnuityAtLeastOne(table, p.Age, n, p.InterestRate);
    } else {
      NoYears(table, p.Age, p.SumAssured, p.InterestRate);
    }
  }

  /** A policy that runs at least one year never takes the engine's zero-annuity branch. */
  lemma NetPremiumIsRatio(p: PolicyHolder, table: MortalityTable)
    requires p.Term >= 1 && InBounds(p, table) && ValidRates(table) && p.InterestRate > -1.0
    ensures AnnuityPV(table, p.Age, p.Term, p.InterestRate) >= 1.0
    ensures NetPremiumOf(p, table)
         == BenefitPV(table, p.Age, p.Term, p.SumAssured, p.InterestRate) / AnnuityPV(table, p.Age, p.Term, p.InterestRate)
  {
    hide Pow, Survival, BenefitPV, AnnuityPV;
    AnnuityAtLeastOne(table, p.Age, p.Term, p.InterestRate);
  }

  // ---------------------------------------------------------------------------
  // Linearity in the sum assured
  // ---------------------------------------------------------------------------

  /** The same policy with the sum assured multiplied by `k`. */
  function ScaledCover(p: PolicyHolder, k: real): (q: PolicyHolder)
    ensures q.SumAssured == k * p.SumAssured
    ensures q.Age == p.Age && q.Term == p.Term && q.InterestRate == p.InterestRate && q.TableName == p.TableName
  {
    p.(SumAssured := k * p.SumAssured)
  }

  /** The expected death benefit is linear in the sum assured. */
  lemma {:induction false} BenefitScales(table: MortalityTable, start: int, n: nat, k: real,
                                         sumAssured: real, interestRate: real)
    requires Window(table, start, n) && DiscountDefined(interestRate)
    ensures BenefitPV(table, start, n, k * sumAssured, interestRate) == k * BenefitPV(table, start, n, sumAssured, interestRate)
  {
    hide Pow, Survival, BenefitPV, PresentValue;
    if n > 0 {
      var m := n - 1;
      BenefitScales(table, start, m, k, sumAssured, interestRate);
      BenefitStep(table, start, m, sumAssured, interestRate);
      BenefitStep(table, start, m, k * sumAssured, interestRate);
      PresentValueScales(k, sumAssured, interestRate, n);
      var s, q, v := Survival(table, start, m), table[start + m], PresentValue(sumAssured, interestRate, n);
      assert s * q * (k * v) == k * (s * q * v);
    } else {
      NoYears(table, start, sumAssured, interestRate);
      NoYears(table, start, k * sumAssured, interestRate);
    }
  }

  /** Multiplying the sum assured by `k` multiplies the net premium by `k` (doubling the cover doubles the premium). */
  lemma NetPremiumScales(p: PolicyHolder, table: MortalityTable, k: real)
    requires InBounds(p, table) && DiscountDefined(p.InterestRate)
    ensures NetPremiumOf(ScaledCover(p, k), table) == k * NetPremiumOf(p, table)
  {
    hide Pow, Survival, BenefitPV, AnnuityPV;
    var n, sa, q := Years(p), p.SumAssured, ScaledCover(p, k);
    BenefitScales(table, p.Age, n, k, sa, p.InterestRate);
    var b, a := BenefitPV(table, p.Age, n, sa, p.InterestRate), AnnuityPV(table, p.Age, n, p.InterestRate);
    assert q.SumAssured == k * sa;
    assert BenefitPV(table, q.Age, Years(q), q.SumAssured, q.InterestRate) == k * b;
    if a != 0.0 {
      assert (k * b) / a == k * (b / a);
    }
  }

  /** Scaling the sum assured and the net premium by `k` scales every reserve by `k`. */
  lemma ReserveScales(p: PolicyHolder, table: MortalityTable, netPremium: real, k: real, t: nat)
    requires InBounds(p, table) && DiscountDefined(p.InterestRate)
    requires t <= p.Term
    ensures ReserveAt(ScaledCover(p, k), table, k * netPremium, t) == k * ReserveAt(p, table, netPremium, t)
  {
    hide Pow, Survival, BenefitPV, AnnuityPV;
    if t < p.Term {
      var start, n, sa, q := p.Age + t, p.Term - t, p.SumAssured, ScaledCover(p, k);
      BenefitScales(table, start, n, k, sa, p.InterestRate);
      var b, a := BenefitPV(table, start, n, sa, p.InterestRate), AnnuityPV(table, start, n, p.InterestRate);
      assert q.SumAssured == k * sa;
      assert BenefitPV(table, q.Age + t, q.Term - t, q.SumAssured, q.InterestRate) == k * b;
      assert k * b - (k * netPremium) * a == k * (b - netPremium * a);
    }
  }

  /** The whole reserve schedule, valued with each policy's own net premium, is linear in the sum assured. */
  lemma ScheduleScales(p: PolicyHolder, table: MortalityTable, k: real)
    requires InBounds(p, table) && DiscountDefined(p.InterestRate)
    ensures forall t: nat :: t <= p.Term ==>
      ReserveAt(ScaledCover(p, k), table, NetPremiumOf(ScaledCover(p, k), table), t)
      == k * ReserveAt(p, table, NetPremiumOf(p, table), t)
  {
    hide Pow, Survival, BenefitPV, AnnuityPV, NetPremiumOf, ReserveAt;
    NetPremiumScales(p, table, k);
    forall t: nat | t <= p.Term
      ensures ReserveAt(ScaledCover(p, k), table, NetPremiumOf(ScaledCover(p, k), table), t)
           == k * ReserveAt(p, table, NetPremiumOf(p, table), t)
    {
      var netPremium := NetPremiumOf(p, table);
      ReserveScales(p, table, netPremium, k, t);
      assert NetPremiumOf(ScaledCover(p, k), table) == k * netPremium;
    }
  }

  // ---------------------------------------------------------------------------
  // The reserve at issue and in the last policy year
  // ---------------------------------------------------------------------------

  /**
   * Valued with the policy's own net premium, the reserve at issue is zero:
   * at duration 0 the reserve loop computes the same two sums as the premium.
   */
  lemma ReserveAtIssueIsZero(p: PolicyHolder, table: MortalityTable)
    requires p.Term >= 1 && InBounds(p, table) && ValidRates(table) && p.InterestRate > -1.0
    ensures ReserveAt(p, table, NetPremiumOf(p, table), 0) == 0.0
  {
    hide Pow, Survival, BenefitPV, AnnuityPV;
    NetPremiumIsRatio(p, table);
    var b, a := BenefitPV(table, p.Age, p.Term, p.SumAssured, p.InterestRate), AnnuityPV(table, p.Age, p.Term, p.InterestRate);
    assert b - (b / a) * a == 0.0;
  }

  /**
   * One year before the end of the term the reserve is the discounted expected
   * claim of that year minus the one premium still due.
   */
  lemma FinalYearReserve(p: PolicyHolder, table: MortalityTable, netPremium: real)
    requires p.Term >= 1 && InBounds(p, table) && DiscountDefined(p.InterestRate)
    ensures ReserveAt(p, table, netPremium, p.Term - 1)
         == p.SumAssured * table[p.Age + p.Term - 1] / (1.0 + p.InterestRate) - netPremium
  {
    var start, b := p.Age + p.Term - 1, 1.0 + p.InterestRate;
    var q := table[start];
    assert Pow(b, 1) == b;
    assert BenefitPV(table, start, 1, p.SumAssured, p.InterestRate) == q * (p.SumAssured / b);
    assert AnnuityPV(table, start, 1, p.InterestRate) == 1.0;
    assert q * (p.SumAssured / b) == p.SumAssured * q / b;
  }

  // ---------------------------------------------------------------------------
  // The worked example of the engine's tests
  // ---------------------------------------------------------------------------

  /** A 100-age table with q35 = 0.002, q36 = 0.003, q37 = 0.004 and zero elsewhere. */
  function TestTable(): (table: MortalityTable)
    ensures |table| == 100 && ValidRates(table)
    ensures table[35] == 0.002 && table[36] == 0.003 && table[37] == 0.004
  {
    seq(100, i => if i == 35 then 0.002 else if i == 36 then 0.003 else if i == 37 then 0.004 else 0.0)
  }

  /** Age 35, a two-year term, sum assured 1000, interest 5%. */
  function TestPolicy(): PolicyHolder
  {
    PolicyHolder(35, 2, 1000.0, 0.05, "")
  }

  /** The example's net premium is 5.094 / 2.1504 exactly, within 0.0001 of 2.36879. */
  lemma TestNetPremium()
    ensures NetPremiumOf(TestPolicy(), TestTable()) == 5.094 / 2.1504
    ensures 2.36879 - 0.0001 < NetPremiumOf(TestPolicy(), TestTable()) < 2.36879 + 0.0001
  {
    var table := TestTable();
    assert Pow(1.05, 1) == 1.05;
    assert Pow(1.05, 2) == 1.1025;
    assert Survival(table, 35, 1) == 0.998;
    assert BenefitPV(table, 35, 1, 1000.0, 0.05) == 2.0 / 1.05;
    assert BenefitPV(table, 35, 2, 1000.0, 0.05) == 2.0 / 1.05 + 2.994 / 1.1025;
    assert AnnuityPV(table, 35, 1, 0.05) == 1.0;
    assert AnnuityPV(table, 35, 2, 0.05) == 1.0 + 0.998 / 1.05;
  }

  /** The example's reserves are 0, 1.05 / 2.1504 = 0.48828125 and 0, each within 0.0001 of 0, 0.48835 and 0. */
  lemma TestReserves()
    ensures ReserveAt(TestPolicy(), TestTable(), NetPremiumOf(TestPolicy(), TestTable()), 0) == 0.0
    ensures ReserveAt(TestPolicy(), TestTable(), NetPremiumOf(TestPolicy(), TestTable()), 1) == 0.48828125
    ensures ReserveAt(TestPolicy(), TestTable(), NetPremiumOf(TestPolicy(), TestTable()), 2) == 0.0
    ensures 0.48835 - 0.0001 < ReserveAt(TestPolicy(), TestTable(), NetPremiumOf(TestPolicy(), TestTable()), 1) < 0.48835 + 0.0001
  {
    var p, table := TestPolicy(), TestTable();
    TestNetPremium();
    ReserveAtIssueIsZero(p, table);
    FinalYearReserve(p, table, 5.094 / 2.1504);
  }
}
