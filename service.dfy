/**
 * The actuarial service: policy validation, table lookup, single-policy
 * pricing through the full-premium calculator, the fail-fast batch and the
 * portfolio analysis that skips the policies it cannot price.
 *
 * The full-premium calculator is not part of this model; it is a parameter
 * (`PremiumCalculator`) about which nothing is assumed.
 */
module Services {
  import opened Wrappers
  import opened Text
  import opened Actuarial
  import opened Registry
  import opened Tally

  // ---------------------------------------------------------------------------
  // Data
  // ---------------------------------------------------------------------------

  /** A policy as the service receives it; `Gender` carries the requested table name. */
  datatype Policy = Policy(
    Age: int,
    Term: int,
    CoverageAmount: real,
    InterestRate: real,
    Gender: string,
    ProductType: string,
    SmokerStatus: string,
    HealthRating: string,
    RatingFactor: real,
    DeferralPeriod: int)

  /** The priced policy. */
  datatype PremiumCalculation = PremiumCalculation(
    NetPremium: real,
    GrossPremium: real,
    ReserveSchedule: seq<real>,
    ProductType: string,
    ExpenseDetails: map<string, real>,
    AnnualPayout: real,
    TotalPremiumCost: real,
    RiskAssessment: map<string, real>)

  /** The engine's full-premium calculation: prices a validated policy on a table; it reports no error. */
  type PremiumCalculator = (Policy, MortalityTable) -> PremiumCalculation

  // The texts of the service's errors.
  const AgeOutOfRangeText := "age must be between 0 and 120"
  const NegativeTermText := "term must be positive"
  const NonPositiveCoverageText := "coverage amount must be positive"
  const InterestRateOutOfRangeText := "interest rate must be between 0 and 1"
  const TableNotFoundPrefix := "mortality table '"
  const TableNotFoundSuffix := "' not found"
  const NoPoliciesText := "no policies provided"
  const TooManyPoliciesText := "too many policies (max 100)"
  const PolicyFailedPrefix := "failed to calculate policy "
  const NoValidPoliciesText := "no valid policies found"

  /** Everything the service can refuse, with the message it reports. */
  datatype ServiceError =
    | AgeOutOfRange
    | NegativeTerm
    | NonPositiveCoverage
    | InterestRateOutOfRange
    | TableNotFound(tableName: string)
    | NoPolicies
    | TooManyPolicies
    | PolicyFailed(position: nat, cause: ServiceError)
    | NoValidPolicies
  {
    /** The error's text; a batch failure names the policy's 1-based position and wraps its cause's text. */
    function Message(): string
    {
      match this
      case AgeOutOfRange => AgeOutOfRangeText
      case NegativeTerm => NegativeTermText
      case NonPositiveCoverage => NonPositiveCoverageText
      case InterestRateOutOfRange => InterestRateOutOfRangeText
      case TableNotFound(name) => TableNotFoundPrefix + name + TableNotFoundSuffix
      case NoPolicies => NoPoliciesText
      case TooManyPolicies => TooManyPoliciesText
      case PolicyFailed(position, cause) => PolicyFailedPrefix + NatToString(position) + ": " + cause.Message()
      case NoValidPolicies => NoValidPoliciesText
    }
  }

  /** The first and the fourth character of an error's text, which tell the kinds of error apart. */
  function Key(e: ServiceError): (char, char)
  {
    match e
    case AgeOutOfRange => ('a', ' ')
    case NegativeTerm => ('t', 'm')
    case NonPositiveCoverage => ('c', 'e')
    case InterestRateOutOfRange => ('i', 'e')
    case TableNotFound(_) => ('m', 't')
    case NoPolicies => ('n', 'p')
    case TooManyPolicies => ('t', ' ')
    case PolicyFailed(_, _) => ('f', 'l')
    case NoValidPolicies => ('n', 'v')
  }

  /** The key characters of the fixed texts and prefixes. */
  lemma TextKeys()
    ensures |AgeOutOfRangeText| >= 4 && AgeOutOfRangeText[0] == 'a' && AgeOutOfRangeText[3] == ' '
    ensures |NegativeTermText| >= 4 && NegativeTermText[0] == 't' && NegativeTermText[3] == 'm'
    ensures |NonPositiveCoverageText| >= 4 && NonPositiveCoverageText[0] == 'c' && NonPositiveCoverageText[3] == 'e'
    ensures |InterestRateOutOfRangeText| >= 4 && InterestRateOutOfRangeText[0] == 'i' && InterestRateOutOfRangeText[3] == 'e'
    ensures |TableNotFoundPrefix| >= 4 && TableNotFoundPrefix[0] == 'm' && TableNotFoundPrefix[3] == 't'
    ensures |NoPoliciesText| >= 4 && NoPoliciesText[0] == 'n' && NoPoliciesText[3] == 'p'
    ensures |TooManyPoliciesText| >= 4 && TooManyPoliciesText[0] == 't' && TooManyPoliciesText[3] == ' '
    ensures |PolicyFailedPrefix| >= 4 && PolicyFailedPrefix[0] == 'f' && PolicyFailedPrefix[3] == 'l'
    ensures |NoValidPoliciesText| >= 4 && NoValidPoliciesText[0] == 'n' && NoValidPoliciesText[3] == 'v'
  {
  }

  /** An error's text begins with its key characters. */
  lemma MessageKey(e: ServiceError)
    ensures |e.Message()| >= 4 && e.Message()[0] == Key(e).0 && e.Message()[3] == Key(e).1
  {
    TextKeys();
    hide AgeOutOfRangeText, NegativeTermText, NonPositiveCoverageText, InterestRateOutOfRangeText,
      TableNotFoundPrefix, TableNotFoundSuffix, NoPoliciesText, TooManyPoliciesText, PolicyFailedPrefix,
      NoValidPoliciesText;
    match e
    case TableNotFound(name) =>
      assert e.Message() == TableNotFoundPrefix + name + TableNotFoundSuffix;
    case PolicyFailed(position, cause) =>
      assert e.Message() == PolicyFailedPrefix + NatToString(position) + ": " + cause.Message();
    case _ =>
  }

  /** Errors of different kinds have different keys. */
  lemma KeysTellKindsApart(e1: ServiceError, e2: ServiceError)
    requires Key(e1) == Key(e2)
    ensures e1.TableNotFound? <==> e2.TableNotFound?
    ensures e1.PolicyFailed? <==> e2.PolicyFailed?
    ensures !e1.TableNotFound? && !e1.PolicyFailed? ==> e1 == e2
  {
  }

  /**
   * Every error text identifies its error: different errors are reported with
   * different texts, so a batch failure's text determines the failing
   * position and its cause.
   */
  lemma {:induction false} MessagesIdentifyErrors(e1: ServiceError, e2: ServiceError)
    ensures e1.Message() == e2.Message() <==> e1 == e2
    decreases e1
  {
    if e1.Message() == e2.Message() {
      MessageKey(e1);
      MessageKey(e2);
      KeysTellKindsApart(e1, e2);
      if e1.PolicyFailed? {
        PolicyFailedTextsAgree(e1.position, e1.cause, e2.position, e2.cause);
        MessagesIdentifyErrors(e1.cause, e2.cause);
      } else if e1.TableNotFound? {
        TableNotFoundTextsAgree(e1.tableName, e2.tableName);
      }
    }
  }

  /** Two "not found" texts agree only for the same table name. */
  lemma TableNotFoundTextsAgree(n1: string, n2: string)
    requires TableNotFound(n1).Message() == TableNotFound(n2).Message()
    ensures n1 == n2
  {
    var m1, m2 := TableNotFound(n1).Message(), TableNotFound(n2).Message();
    assert m1 == TableNotFoundPrefix + n1 + TableNotFoundSuffix && m2 == TableNotFoundPrefix + n2 + TableNotFoundSuffix;
    assert |n1| == |n2|;
    forall k | 0 <= k < |n1| ensures n1[k] == n2[k] {
      assert m1[|TableNotFoundPrefix| + k] == n1[k] && m2[|TableNotFoundPrefix| + k] == n2[k];
    }
  }

  /** The text of a batch failure: the prefix, the position in decimal, a colon and the cause's text. */
  lemma PolicyFailedText(position: nat, cause: ServiceError)
    ensures PolicyFailed(position, cause).Message() == PolicyFailedPrefix + NatToString(position) + (": " + cause.Message())
  {
  }

  /** Two batch-failure texts agree only for the same position and the same cause text. */
  lemma PolicyFailedTextsAgree(i1: nat, c1: ServiceError, i2: nat, c2: ServiceError)
    requires PolicyFailed(i1, c1).Message() == PolicyFailed(i2, c2).Message()
    ensures i1 == i2 && c1.Message() == c2.Message()
  {
    PolicyFailedText(i1, c1);
    PolicyFailedText(i2, c2);
    hide ServiceError.Message;
    var d1, d2 := NatToString(i1), NatToString(i2);
    var r1, r2 := ": " + c1.Message(), ": " + c2.Message();
    DigitsBeforeColon(PolicyFailedPrefix, d1, d2, r1, r2);
    NatToStringInjective(i1, i2);
    assert c1.Message() == r1[2..] && c2.Message() == r2[2..];
  }

  /** The largest batch the service accepts. */
  const MaxBatchSize: nat := 100

  // ---------------------------------------------------------------------------
  // A single policy
  // ---------------------------------------------------------------------------

  /**
   * The policy checks, in order: age in [0, 120], term not negative (a zero
   * term passes), positive coverage, interest rate in [0, 1]; the first one
   * that fails is reported.
   */
  function ValidatePolicy(p: Policy): (r: Outcome<ServiceError>)
    ensures r == Pass <==> 0 <= p.Age <= 120 && p.Term >= 0 && p.CoverageAmount > 0.0 && 0.0 <= p.InterestRate <= 1.0
    ensures r == Fail(AgeOutOfRange) <==> !(0 <= p.Age <= 120)
    ensures r == Fail(NegativeTerm) <==> 0 <= p.Age <= 120 && p.Term < 0
    ensures r == Fail(NonPositiveCoverage) <==> 0 <= p.Age <= 120 && p.Term >= 0 && p.CoverageAmount <= 0.0
    ensures r == Fail(InterestRateOutOfRange)
        <==> 0 <= p.Age <= 120 && p.Term >= 0 && p.CoverageAmount > 0.0 && !(0.0 <= p.InterestRate <= 1.0)
  {
    if p.Age < 0 || p.Age > 120 then Fail(AgeOutOfRange)
    else if p.Term < 0 then Fail(NegativeTerm)
    else if p.CoverageAmount <= 0.0 then Fail(NonPositiveCoverage)
    else if p.InterestRate < 0.0 || p.InterestRate > 1.0 then Fail(InterestRateOutOfRange)
    else Pass
  }

  /**
   * The table for a requested name: the name is lower-cased, an empty name
   * means "male", and a missing table is reported under the resolved name.
   */
  function GetMortalityTable(tables: TableRegistry, gender: string): (r: Result<MortalityTable, ServiceError>)
    ensures r.Ok? <==> ResolveTableName(gender) in tables
    ensures r.Ok? ==> r.value == tables[ResolveTableName(gender)]
    ensures r.Err? ==> r.error == TableNotFound(ResolveTableName(gender))
  {
    var tableName := ResolveTableName(gender);
    if tableName in tables then Ok(tables[tableName]) else Err(TableNotFound(tableName))
  }

  /** The lookup does not depend on letter case. */
  lemma GetMortalityTableIgnoresCase(tables: TableRegistry, gender: string)
    ensures GetMortalityTable(tables, ToLower(gender)) == GetMortalityTable(tables, gender)
  {
    ResolveIgnoresCase(gender);
  }

  /**
   * Prices one policy: a validation failure is reported first, then a missing
   * table; the calculator is consulted only when both pass.
   */
  function CalculatePremium(tables: TableRegistry, calculator: PremiumCalculator, p: Policy): Result<PremiumCalculation, ServiceError>
  {
    match ValidatePolicy(p)
    case Fail(e) => Err(e)
    case Pass =>
      match GetMortalityTable(tables, p.Gender)
      case Err(e) => Err(e)
      case Ok(table) => Ok(calculator(p, table))
  }

  /**
   * The guards of `CalculatePremium`, in order: a validation failure is
   * reported as is, then a missing table; only a valid policy with a known
   * table reaches the calculator, whose result is returned unchanged.
   */
  lemma CalculatePremiumGuards(tables: TableRegistry, calculator: PremiumCalculator, p: Policy)
    ensures ValidatePolicy(p).Fail? ==> CalculatePremium(tables, calculator, p) == Err(ValidatePolicy(p).error)
    ensures ValidatePolicy(p).Pass? && ResolveTableName(p.Gender) !in tables
            ==> CalculatePremium(tables, calculator, p) == Err(TableNotFound(ResolveTableName(p.Gender)))
    ensures CalculatePremium(tables, calculator, p).Ok? <==> ValidatePolicy(p).Pass? && ResolveTableName(p.Gender) in tables
    ensures CalculatePremium(tables, calculator, p).Ok?
            ==> CalculatePremium(tables, calculator, p).value == calculator(p, tables[ResolveTableName(p.Gender)])
  {
  }

  // ---------------------------------------------------------------------------
  // The batch
  // ---------------------------------------------------------------------------

  /**
   * The policies priced in order, stopping at the first failure, which is
   * reported with its 1-based position.
   */
  function CalculateAll(tables: TableRegistry, calculator: PremiumCalculator, policies: seq<Policy>)
    : Result<seq<PremiumCalculation>, ServiceError>
    decreases |policies|
  {
    if policies == [] then Ok([])
    else
      var n := |policies|;
      match CalculateAll(tables, calculator, policies[..n - 1])
      case Err(e) => Err(e)
      case Ok(results) =>
        match CalculatePremium(tables, calculator, policies[n - 1])
        case Err(e) => Err(PolicyFailed(n, e))
        case Ok(result) => Ok(results + [result])
  }

  /** Pricing one more policy of the list: the step the batch loop takes. */
  lemma CalculateAllStep(tables: TableRegistry, calculator: PremiumCalculator, policies: seq<Policy>, i: nat)
    requires i < |policies|
    ensures CalculateAll(tables, calculator, policies[..i + 1])
         == match CalculateAll(tables, calculator, policies[..i])
            case Err(e) => Err(e)
            case Ok(results) =>
              match CalculatePremium(tables, calculator, policies[i])
              case Err(e) => Err(PolicyFailed(i + 1, e))
              case Ok(result) => Ok(results + [result])
  {
    assert policies[..i + 1][..i] == policies[..i];
  }

  /** The batch succeeds exactly when every policy prices, and then holds each policy's result at its position. */
  lemma {:induction false} CalculateAllSucceeds(tables: TableRegistry, calculator: PremiumCalculator, policies: seq<Policy>)
    ensures CalculateAll(tables, calculator, policies).Ok?
        <==> forall i :: 0 <= i < |policies| ==> CalculatePremium(tables, calculator, policies[i]).Ok?
    ensures CalculateAll(tables, calculator, policies).Ok? ==>
      var results := CalculateAll(tables, calculator, policies).value;
      |results| == |policies| &&
      forall i :: 0 <= i < |policies| ==> results[i] == CalculatePremium(tables, calculator, policies[i]).value
    decreases |policies|
  {
    hide CalculatePremium;
    if policies != [] {
      var n := |policies|;
      var init := policies[..n - 1];
      CalculateAllSucceeds(tables, calculator, init);
      assert forall i :: 0 <= i < n - 1 ==> init[i] == policies[i];
    }
  }

  /** A failing batch reports the first failing policy, at its 1-based position, with that policy's own error. */
  lemma {:induction false} CalculateAllFailsAtFirst(tables: TableRegistry, calculator: PremiumCalculator, policies: seq<Policy>, i: nat)
    requires i < |policies| && CalculatePremium(tables, calculator, policies[i]).Err?
    requires forall j :: 0 <= j < i ==> CalculatePremium(tables, calculator, policies[j]).Ok?
    ensures CalculateAll(tables, calculator, policies) == Err(PolicyFailed(i + 1, CalculatePremium(tables, calculator, policies[i]).error))
    decreases |policies|
  {
    hide CalculatePremium;
    var n := |policies|;
    var init := policies[..n - 1];
    if i < n - 1 {
      assert init[i] == policies[i];
      CalculateAllFailsAtFirst(tables, calculator, init, i);
    } else {
      CalculateAllSucceeds(tables, calculator, init);
      assert forall j :: 0 <= j < n - 1 ==> init[j] == policies[j];
    }
  }

  /** Once a prefix fails, every longer prefix fails the same way. */
  lemma {:induction false} CalculateAllStopsAtFailure(tables: TableRegistry, calculator: PremiumCalculator, policies: seq<Policy>, i: nat)
    requires i <= |policies| && CalculateAll(tables, calculator, policies[..i]).Err?
    ensures CalculateAll(tables, calculator, policies) == CalculateAll(tables, calculator, policies[..i])
    decreases |policies| - i
  {
    hide CalculatePremium;
    if i == |policies| {
      assert policies[..i] == policies;
    } else {
      assert policies[..i + 1][..i] == policies[..i];
      CalculateAllStopsAtFailure(tables, calculator, policies, i + 1);
    }
  }

  /** Sum of the net premiums of the results. */
  function TotalNetPremium(results: seq<PremiumCalculation>): real
    decreases |results|
  {
    if results == [] then 0.0 else TotalNetPremium(results[..|results| - 1]) + results[|results| - 1].NetPremium
  }

  /** Sum of the gross premiums of the results. */
  function TotalGrossPremium(results: seq<PremiumCalculation>): real
    decreases |results|
  {
    if results == [] then 0.0 else TotalGrossPremium(results[..|results| - 1]) + results[|results| - 1].GrossPremium
  }

  /** The product types of the results, in order. */
  function ProductTypes(results: seq<PremiumCalculation>): (r: seq<string>)
    ensures |r| == |results|
    decreases |results|
  {
    if results == [] then [] else ProductTypes(results[..|results| - 1]) + [results[|results| - 1].ProductType]
  }

  /** The batch summary; the averages are not modelled, the totals they are computed from are. */
  datatype BatchSummary = BatchSummary(
    TotalPolicies: nat,
    TotalNetPremium: real,
    TotalGrossPremium: real,
    ProductTypeCounts: map<string, int>)

  datatype BatchCalculationResponse = BatchCalculationResponse(Results: seq<PremiumCalculation>, Summary: BatchSummary)

  /** What a successful batch reports about its results. */
  function SummaryOf(results: seq<PremiumCalculation>): BatchSummary
  {
    BatchSummary(|results|, TotalNetPremium(results), TotalGrossPremium(results), Counts(ProductTypes(results)))
  }

  /** The batch: an empty list and one over `MaxBatchSize` are refused; otherwise all policies priced, fail-fast. */
  function BatchOf(tables: TableRegistry, calculator: PremiumCalculator, policies: seq<Policy>)
    : Result<BatchCalculationResponse, ServiceError>
  {
    if |policies| == 0 then Err(NoPolicies)
    else if |policies| > MaxBatchSize then Err(TooManyPolicies)
    else
      match CalculateAll(tables, calculator, policies)
      case Err(e) => Err(e)
      case Ok(results) => Ok(BatchCalculationResponse(results, SummaryOf(results)))
  }

  /** The batch loop: each policy is priced in turn, appended, and added to the totals and the product counters. */
  method CalculateBatch(tables: TableRegistry, calculator: PremiumCalculator, policies: seq<Policy>)
    returns (r: Result<BatchCalculationResponse, ServiceError>)
    ensures r == BatchOf(tables, calculator, policies)
  {
    hide CalculateAll, CalculatePremium, TotalNetPremium, TotalGrossPremium, Counts, ProductTypes, Increment;
    if |policies| == 0 {
      return Err(NoPolicies);
    }
    if |policies| > MaxBatchSize {
      return Err(TooManyPolicies);
    }
    var results: seq<PremiumCalculation> := [];
    var totalNetPremium, totalGrossPremium := 0.0, 0.0;
    var productCounts: map<string, int> := map[];
    var i := 0;
    NothingCalculated(tables, calculator);
    assert policies[..i] == [];
    while i < |policies|
      invariant 0 <= i <= |policies|
      invariant CalculateAll(tables, calculator, policies[..i]) == Ok(results)
      invariant totalNetPremium == TotalNetPremium(results)
      invariant totalGrossPremium == TotalGrossPremium(results)
      invariant productCounts == Counts(ProductTypes(results))
    {
      CalculateAllStep(tables, calculator, policies, i);
      var result := CalculatePremium(tables, calculator, policies[i]);
      if result.Err? {
        CalculateAllStopsAtFailure(tables, calculator, policies, i + 1);
        return Err(PolicyFailed(i + 1, result.error));
      }
      ResultsAppend(results, result.value);
      results := results + [result.value];
      totalNetPremium := totalNetPremium + result.value.NetPremium;
      totalGrossPremium := totalGrossPremium + result.value.GrossPremium;
      productCounts := Increment(productCounts, result.value.ProductType);
      i := i + 1;
    }
    assert policies[..i] == policies;
    return Ok(BatchCalculationResponse(results, SummaryOf(results)));
  }

  /** Before any policy is priced there are no results, the totals are zero and the counters empty. */
  lemma NothingCalculated(tables: TableRegistry, calculator: PremiumCalculator)
    ensures CalculateAll(tables, calculator, []) == Ok([])
    ensures TotalNetPremium([]) == 0.0 && TotalGrossPremium([]) == 0.0
    ensures Counts(ProductTypes([])) == map[]
  {
  }

  /** Appending one result adds it to both totals and to the product counters. */
  lemma ResultsAppend(results: seq<PremiumCalculation>, result: PremiumCalculation)
    ensures TotalNetPremium(results + [result]) == TotalNetPremium(results) + result.NetPremium
    ensures TotalGrossPremium(results + [result]) == TotalGrossPremium(results) + result.GrossPremium
    ensures Counts(ProductTypes(results + [result])) == Increment(Counts(ProductTypes(results)), result.ProductType)
  {
    var extended := results + [result];
    assert extended[..|results|] == results;
    assert ProductTypes(extended)[..|results|] == ProductTypes(results);
  }

  /**
   * A batch within the size limits succeeds exactly when every policy prices;
   * its results then follow the input one for one and in order, and the
   * product-type counters add up to the number of results.
   */
  lemma BatchResults(tables: TableRegistry, calculator: PremiumCalculator, policies: seq<Policy>)
    ensures BatchOf(tables, calculator, policies).Ok?
        <==> 1 <= |policies| <= MaxBatchSize
             && forall i :: 0 <= i < |policies| ==> CalculatePremium(tables, calculator, policies[i]).Ok?
    ensures BatchOf(tables, calculator, policies).Ok? ==>
      var response := BatchOf(tables, calculator, policies).value;
      |response.Results| == |policies|
      && (forall i :: 0 <= i < |policies| ==> response.Results[i] == CalculatePremium(tables, calculator, policies[i]).value)
      && response.Summary.TotalPolicies == |policies|
      && MapSum(response.Summary.ProductTypeCounts) == |policies|
      && forall k :: Get(response.Summary.ProductTypeCounts, k) == multiset(ProductTypes(response.Results))[k]
  {
    CalculateAllSucceeds(tables, calculator, policies);
    var all := CalculateAll(tables, calculator, policies);
    if all.Ok? {
      TallyCounts(ProductTypes(all.value));
    }
  }

  // ---------------------------------------------------------------------------
  // The portfolio
  // ---------------------------------------------------------------------------

  /** The risk bucket of a policy: smokers and substandard lives are high risk, else preferred lives and non-smokers low risk. */
  function RiskCategory(p: Policy): string
  {
    if p.SmokerStatus == "smoker" || p.HealthRating == "substandard" then "high_risk"
    else if p.HealthRating == "preferred" || p.SmokerStatus == "non_smoker" then "low_risk"
    else "standard_risk"
  }

  /**
   * Every policy lands in exactly one of the three buckets: high risk for a
   * smoker or a substandard life, low risk for any other preferred life or
   * non-smoker, standard risk for the rest.
   */
  lemma RiskCategoryBuckets(p: Policy)
    ensures RiskCategory(p) in {"high_risk", "low_risk", "standard_risk"}
    ensures RiskCategory(p) == "high_risk" <==> p.SmokerStatus == "smoker" || p.HealthRating == "substandard"
    ensures RiskCategory(p) == "low_risk"
        <==> !(p.SmokerStatus == "smoker" || p.HealthRating == "substandard")
             && (p.HealthRating == "preferred" || p.SmokerStatus == "non_smoker")
    ensures RiskCategory(p) == "standard_risk"
        <==> p.SmokerStatus != "smoker" && p.HealthRating != "substandard"
             && p.HealthRating != "preferred" && p.SmokerStatus != "non_smoker"
  {
  }

  /** A policy that priced, with its result. */
  datatype Priced = Priced(policy: Policy, result: PremiumCalculation)

  /** The policies that price, with their results, in input order; the others are skipped. */
  function PricedPolicies(tables: TableRegistry, calculator: PremiumCalculator, policies: seq<Policy>): seq<Priced>
    decreases |policies|
  {
    if policies == [] then []
    else
      var n := |policies|;
      var last := policies[n - 1];
      PricedPolicies(tables, calculator, policies[..n - 1])
      + match CalculatePremium(tables, calculator, last)
        case Err(_) => []
        case Ok(result) => [Priced(last, result)]
  }

  /**
   * Exactly the policies that price are kept: every kept entry is an input
   * policy with its own result, every policy that prices is kept, and there
   * are no more entries than inputs.
   */
  lemma {:induction false} PricedPoliciesAreTheValidOnes(tables: TableRegistry, calculator: PremiumCalculator, policies: seq<Policy>)
    ensures |PricedPolicies(tables, calculator, policies)| <= |policies|
    ensures forall e :: e in PricedPolicies(tables, calculator, policies) ==>
      e.policy in policies && CalculatePremium(tables, calculator, e.policy) == Ok(e.result)
    ensures forall i :: 0 <= i < |policies| && CalculatePremium(tables, calculator, policies[i]).Ok? ==>
      Priced(policies[i], CalculatePremium(tables, calculator, policies[i]).value) in PricedPolicies(tables, calculator, policies)
    ensures PricedPolicies(tables, calculator, policies) == []
        <==> forall i :: 0 <= i < |policies| ==> CalculatePremium(tables, calculator, policies[i]).Err?
    decreases |policies|
  {
    hide CalculatePremium, PricedPolicies;
    if policies == [] {
      NothingPriced(tables, calculator);
    } else {
      var n := |policies|;
      var init := policies[..n - 1];
      PricedPoliciesAreTheValidOnes(tables, calculator, init);
      PricedPoliciesStep(tables, calculator, policies, n - 1);
      assert policies[..n] == policies;
      assert forall i :: 0 <= i < n - 1 ==> init[i] == policies[i];
      assert forall x :: x in init ==> x in policies;
    }
  }

  /**
   * The valid count: the policies kept are as many as the positions whose
   * policy prices.
   */
  lemma {:induction false} PricedCount(tables: TableRegistry, calculator: PremiumCalculator, policies: seq<Policy>)
    ensures |PricedPolicies(tables, calculator, policies)|
         == |set i | 0 <= i < |policies| && CalculatePremium(tables, calculator, policies[i]).Ok?|
    decreases |policies|
  {
    hide CalculatePremium, PricedPolicies;
    if policies == [] {
      NothingPriced(tables, calculator);
    } else {
      var n := |policies|;
      var init := policies[..n - 1];
      PricedCount(tables, calculator, init);
      PricedPoliciesStep(tables, calculator, policies, n - 1);
      assert policies[..n] == policies;
      assert forall i :: 0 <= i < n - 1 ==> init[i] == policies[i];
      var before := set i | 0 <= i < n - 1 && CalculatePremium(tables, calculator, init[i]).Ok?;
      var after := set i | 0 <= i < n && CalculatePremium(tables, calculator, policies[i]).Ok?;
      if CalculatePremium(tables, calculator, policies[n - 1]).Ok? {
        assert after == before + {n - 1};
      } else {
        assert after == before;
      }
    }
  }

  /** The positions of the policies that price, in input order. */
  function PricingPositions(tables: TableRegistry, calculator: PremiumCalculator, policies: seq<Policy>): seq<int>
    decreases |policies|
  {
    if policies == [] then []
    else
      var n := |policies|;
      PricingPositions(tables, calculator, policies[..n - 1])
      + if CalculatePremium(tables, calculator, policies[n - 1]).Ok? then [n - 1] else []
  }

  /**
   * The kept entries follow the input order: the `j`-th entry is the policy at
   * the `j`-th pricing position, with its own result, the positions increase,
   * and every policy that prices has its position among them.
   */
  lemma PricedPoliciesInOrder(tables: TableRegistry, calculator: PremiumCalculator, policies: seq<Policy>)
    ensures var pos, priced := PricingPositions(tables, calculator, policies), PricedPolicies(tables, calculator, policies);
      && |pos| == |priced|
      && (forall j, k :: 0 <= j < k < |pos| ==> pos[j] < pos[k])
      && (forall j :: 0 <= j < |pos| ==>
            && 0 <= pos[j] < |policies|
            && priced[j].policy == policies[pos[j]]
            && CalculatePremium(tables, calculator, policies[pos[j]]) == Ok(priced[j].result))
      && (forall i :: 0 <= i < |policies| && CalculatePremium(tables, calculator, policies[i]).Ok? ==> i in pos)
  {
    PositionsIncrease(tables, calculator, policies);
    PositionsComplete(tables, calculator, policies);
    PositionsMatchEntries(tables, calculator, policies);
  }

  /** Positions below `n`, in increasing order. */
  predicate IncreasingBelow(pos: seq<int>, n: int)
  {
    && (forall j :: 0 <= j < |pos| ==> 0 <= pos[j] < n)
    && (forall j, k :: 0 <= j < k < |pos| ==> pos[j] < pos[k])
  }

  /** The pricing positions are positions of the input, in increasing order. */
  lemma {:induction false} PositionsIncrease(tables: TableRegistry, calculator: PremiumCalculator, policies: seq<Policy>)
    ensures IncreasingBelow(PricingPositions(tables, calculator, policies), |policies|)
    decreases |policies|
  {
    if policies != [] {
      var n := |policies|;
      var pos0 := PricingPositions(tables, calculator, policies[..n - 1]);
      PositionsIncrease(tables, calculator, policies[..n - 1]);
      if CalculatePremium(tables, calculator, policies[n - 1]).Ok? {
        var pos := pos0 + [n - 1];
        assert PricingPositions(tables, calculator, policies) == pos;
        forall j, k | 0 <= j < k < |pos| ensures pos[j] < pos[k] {
          if k < |pos0| {
            assert pos[j] == pos0[j] && pos[k] == pos0[k];
          } else {
            assert pos[j] == pos0[j] && pos[k] == n - 1;
          }
        }
      } else {
        assert PricingPositions(tables, calculator, policies) == pos0;
      }
    }
  }

  /** Every policy that prices has its position among the pricing positions. */
  lemma {:induction false} PositionsComplete(tables: TableRegistry, calculator: PremiumCalculator, policies: seq<Policy>)
    ensures forall i :: 0 <= i < |policies| && CalculatePremium(tables, calculator, policies[i]).Ok? ==>
              i in PricingPositions(tables, calculator, policies)
    decreases |policies|
  {
    hide CalculatePremium;
    if policies != [] {
      var n := |policies|;
      var init := policies[..n - 1];
      PositionsComplete(tables, calculator, init);
      assert forall i :: 0 <= i < n - 1 ==> init[i] == policies[i];
    }
  }

  /** The `j`-th kept entry is the policy at the `j`-th pricing position, with its own result. */
  lemma {:induction false} PositionsMatchEntries(tables: TableRegistry, calculator: PremiumCalculator, policies: seq<Policy>)
    ensures var pos, priced := PricingPositions(tables, calculator, policies), PricedPolicies(tables, calculator, policies);
      && |pos| == |priced|
      && (forall j :: 0 <= j < |pos| ==>
            && 0 <= pos[j] < |policies|
            && priced[j].policy == policies[pos[j]]
            && CalculatePremium(tables, calculator, policies[pos[j]]) == Ok(priced[j].result))
    decreases |policies|
  {
    hide CalculatePremium, PricedPolicies;
    if policies == [] {
      NothingPriced(tables, calculator);
    } else {
      var n := |policies|;
      var init := policies[..n - 1];
      PositionsMatchEntries(tables, calculator, init);
      PricedPoliciesStep(tables, calculator, policies, n - 1);
      assert policies[..n] == policies;
      var pos0, priced0 := PricingPositions(tables, calculator, init), PricedPolicies(tables, calculator, init);
      var last := CalculatePremium(tables, calculator, policies[n - 1]);
      if last.Ok? {
        assert PricingPositions(tables, calculator, policies) == pos0 + [n - 1];
        assert PricedPolicies(tables, calculator, policies) == priced0 + [Priced(policies[n - 1], last.value)];
      } else {
        assert PricingPositions(tables, calculator, policies) == pos0;
        assert PricedPolicies(tables, calculator, policies) == priced0;
      }
      var pos, priced := PricingPositions(tables, calculator, policies), PricedPolicies(tables, calculator, policies);
      forall j | 0 <= j < |pos|
        ensures 0 <= pos[j] < n && priced[j].policy == policies[pos[j]]
        ensures CalculatePremium(tables, calculator, policies[pos[j]]) == Ok(priced[j].result)
      {
        if j < |pos0| {
          assert pos[j] == pos0[j] && priced[j] == priced0[j];
          assert init[pos0[j]] == policies[pos0[j]];
        }
      }
    }
  }

  function TotalAge(priced: seq<Priced>): int
    decreases |priced|
  {
    if priced == [] then 0 else TotalAge(priced[..|priced| - 1]) + priced[|priced| - 1].policy.Age
  }

  function TotalCoverage(priced: seq<Priced>): real
    decreases |priced|
  {
    if priced == [] then 0.0 else TotalCoverage(priced[..|priced| - 1]) + priced[|priced| - 1].policy.CoverageAmount
  }

  function PricedNetPremium(priced: seq<Priced>): real
    decreases |priced|
  {
    if priced == [] then 0.0 else PricedNetPremium(priced[..|priced| - 1]) + priced[|priced| - 1].result.NetPremium
  }

  function PricedGrossPremium(priced: seq<Priced>): real
    decreases |priced|
  {
    if priced == [] then 0.0 else PricedGrossPremium(priced[..|priced| - 1]) + priced[|priced| - 1].result.GrossPremium
  }

  /** The product type of each priced policy's result. */
  function PricedProducts(priced: seq<Priced>): (r: seq<string>)
    ensures |r| == |priced|
    decreases |priced|
  {
    if priced == [] then [] else PricedProducts(priced[..|priced| - 1]) + [priced[|priced| - 1].result.ProductType]
  }

  /** The requested table name of each priced policy, as given. */
  function PricedGenders(priced: seq<Priced>): (r: seq<string>)
    ensures |r| == |priced|
    decreases |priced|
  {
    if priced == [] then [] else PricedGenders(priced[..|priced| - 1]) + [priced[|priced| - 1].policy.Gender]
  }

  /** The risk bucket of each priced policy. */
  function PricedRisks(priced: seq<Priced>): (r: seq<string>)
    ensures |r| == |priced|
    decreases |priced|
  {
    if priced == [] then [] else PricedRisks(priced[..|priced| - 1]) + [RiskCategory(priced[|priced| - 1].policy)]
  }

  /**
   * The portfolio figures; the averages and profitability ratios are not
   * modelled, the totals they are computed from are.
   */
  datatype PortfolioMetrics = PortfolioMetrics(
    TotalPolicies: nat,
    TotalAge: int,
    TotalCoverage: real,
    TotalNetPremium: real,
    TotalGrossPremium: real,
    ProductDistribution: map<string, int>,
    GenderDistribution: map<string, int>,
    RiskDistribution: map<string, int>)

  /** The figures before any policy is looked at. */
  const NoMetrics := PortfolioMetrics(0, 0, 0.0, 0.0, 0.0, map[], map[], map[])

  /** Adding one priced policy to the figures: one more policy, its amounts added, its three counters raised. */
  function Absorb(m: PortfolioMetrics, e: Priced): PortfolioMetrics
  {
    PortfolioMetrics(
      m.TotalPolicies + 1,
      m.TotalAge + e.policy.Age,
      m.TotalCoverage + e.policy.CoverageAmount,
      m.TotalNetPremium + e.result.NetPremium,
      m.TotalGrossPremium + e.result.GrossPremium,
      Increment(m.ProductDistribution, e.result.ProductType),
      Increment(m.GenderDistribution, e.policy.Gender),
      Increment(m.RiskDistribution, RiskCategory(e.policy)))
  }

  /** The figures over the priced policies, absorbed in input order. */
  function MetricsOf(priced: seq<Priced>): PortfolioMetrics
    decreases |priced|
  {
    if priced == [] then NoMetrics else Absorb(MetricsOf(priced[..|priced| - 1]), priced[|priced| - 1])
  }

  /**
   * The figures are the totals over the priced policies and the counts of
   * their product types, table names and risk buckets.
   */
  lemma {:induction false} MetricsAreTotals(priced: seq<Priced>)
    ensures MetricsOf(priced) == PortfolioMetrics(
      |priced|, TotalAge(priced), TotalCoverage(priced), PricedNetPremium(priced), PricedGrossPremium(priced),
      Counts(PricedProducts(priced)), Counts(PricedGenders(priced)), Counts(PricedRisks(priced)))
    decreases |priced|
  {
    hide Increment, RiskCategory;
    if priced != [] {
      var init, last := priced[..|priced| - 1], priced[|priced| - 1];
      MetricsAreTotals(init);
      CountsAppend(PricedProducts(init), last.result.ProductType);
      CountsAppend(PricedGenders(init), last.policy.Gender);
      CountsAppend(PricedRisks(init), RiskCategory(last.policy));
    }
  }

  /** The analysis: refused when the list is empty or no policy prices; otherwise the figures over the ones that do. */
  function PortfolioOf(tables: TableRegistry, calculator: PremiumCalculator, policies: seq<Policy>)
    : Result<PortfolioMetrics, ServiceError>
  {
    if |policies| == 0 then Err(NoPolicies)
    else
      var priced := PricedPolicies(tables, calculator, policies);
      if |priced| == 0 then Err(NoValidPolicies) else Ok(MetricsOf(priced))
  }

  /** The portfolio loop: a policy that fails to price is skipped, every other one is added to the totals and counters. */
  method PortfolioAnalysis(tables: TableRegistry, calculator: PremiumCalculator, policies: seq<Policy>)
    returns (r: Result<PortfolioMetrics, ServiceError>)
    ensures r == PortfolioOf(tables, calculator, policies)
  {
    hide PricedPolicies, CalculatePremium, MetricsOf, Increment, RiskCategory;
    if |policies| == 0 {
      return Err(NoPolicies);
    }
    NothingPriced(tables, calculator);
    ghost var priced: seq<Priced> := [];
    var validPolicies: nat := 0;
    var totalAge := 0;
    var totalCoverage, totalNetPremium, totalGrossPremium := 0.0, 0.0, 0.0;
    var productDist: map<string, int> := map[];
    var genderDist: map<string, int> := map[];
    var riskDist: map<string, int> := map[];
    var i := 0;
    assert policies[..i] == [];
    while i < |policies|
      invariant 0 <= i <= |policies|
      invariant priced == PricedPolicies(tables, calculator, policies[..i])
      invariant validPolicies == |priced|
      invariant PortfolioMetrics(validPolicies, totalAge, totalCoverage, totalNetPremium, totalGrossPremium,
                                 productDist, genderDist, riskDist) == MetricsOf(priced)
    {
      PricedPoliciesStep(tables, calculator, policies, i);
      var policy := policies[i];
      var result := CalculatePremium(tables, calculator, policy);
      if result.Ok? {
        var calculation := result.value;
        MetricsStep(priced, Priced(policy, calculation));
        priced := priced + [Priced(policy, calculation)];
        validPolicies := validPolicies + 1;
        totalAge := totalAge + policy.Age;
        totalCoverage := totalCoverage + policy.CoverageAmount;
        totalNetPremium := totalNetPremium + calculation.NetPremium;
        totalGrossPremium := totalGrossPremium + calculation.GrossPremium;
        productDist := Increment(productDist, calculation.ProductType);
        genderDist := Increment(genderDist, policy.Gender);
        riskDist := Increment(riskDist, RiskCategory(policy));
      }
      i := i + 1;
    }
    assert policies[..i] == policies;
    if validPolicies == 0 {
      return Err(NoValidPolicies);
    }
    return Ok(PortfolioMetrics(validPolicies, totalAge, totalCoverage, totalNetPremium, totalGrossPremium,
                               productDist, genderDist, riskDist));
  }

  /** Looking at one more policy of the list: it is kept, with its result, exactly when it prices. */
  lemma PricedPoliciesStep(tables: TableRegistry, calculator: PremiumCalculator, policies: seq<Policy>, i: nat)
    requires i < |policies|
    ensures CalculatePremium(tables, calculator, policies[i]).Err?
            ==> PricedPolicies(tables, calculator, policies[..i + 1]) == PricedPolicies(tables, calculator, policies[..i])
    ensures CalculatePremium(tables, calculator, policies[i]).Ok?
            ==> PricedPolicies(tables, calculator, policies[..i + 1])
                == PricedPolicies(tables, calculator, policies[..i]) + [Priced(policies[i], CalculatePremium(tables, calculator, policies[i]).value)]
  {
    assert policies[..i + 1][..i] == policies[..i];
  }

  /** Before any policy is looked at, nothing is priced and the figures are all zero. */
  lemma NothingPriced(tables: TableRegistry, calculator: PremiumCalculator)
    ensures PricedPolicies(tables, calculator, []) == []
    ensures MetricsOf([]) == NoMetrics
  {
  }

  /** One more priced policy is absorbed into the figures so far. */
  lemma MetricsStep(priced: seq<Priced>, e: Priced)
    ensures MetricsOf(priced + [e]) == Absorb(MetricsOf(priced), e)
  {
    assert (priced + [e])[..|priced|] == priced;
  }

  /** The analysis fails only on an empty list or when no policy prices. */
  lemma PortfolioFailsOnlyWhenNothingPrices(tables: TableRegistry, calculator: PremiumCalculator, policies: seq<Policy>)
    ensures PortfolioOf(tables, calculator, policies).Err?
        <==> |policies| == 0 || forall i :: 0 <= i < |policies| ==> CalculatePremium(tables, calculator, policies[i]).Err?
    ensures |policies| == 0 ==> PortfolioOf(tables, calculator, policies) == Err(NoPolicies)
    ensures |policies| > 0 && PortfolioOf(tables, calculator, policies).Err? ==> PortfolioOf(tables, calculator, policies) == Err(NoValidPolicies)
  {
    PricedPoliciesAreTheValidOnes(tables, calculator, policies);
  }

  /**
   * Every priced policy lands in exactly one risk bucket: only the three
   * bucket names occur, and their counters add up to the number of priced
   * policies.
   */
  lemma RiskBuckets(priced: seq<Priced>)
    ensures Counts(PricedRisks(priced)).Keys <= {"high_risk", "low_risk", "standard_risk"}
    ensures Get(Counts(PricedRisks(priced)), "high_risk") + Get(Counts(PricedRisks(priced)), "low_risk")
            + Get(Counts(PricedRisks(priced)), "standard_risk") == |priced|
  {
    hide Counts, PricedRisks, Increment, RiskCategory;
    var risks := PricedRisks(priced);
    RisksAreBuckets(priced);
    TallyCounts(risks);
    BucketsPartition(risks);
  }

  /** Only the three bucket names occur among the risk buckets of the priced policies. */
  lemma {:induction false} RisksAreBuckets(priced: seq<Priced>)
    ensures forall k :: k in PricedRisks(priced) ==> k in {"high_risk", "low_risk", "standard_risk"}
    decreases |priced|
  {
    if priced != [] {
      RisksAreBuckets(priced[..|priced| - 1]);
      RiskCategoryBuckets(priced[|priced| - 1].policy);
    }
  }

  /** Over keys drawn from the three buckets, the three counts of a sequence add up to its length. */
  lemma {:induction false} BucketsPartition(ks: seq<string>)
    requires forall k :: k in ks ==> k in {"high_risk", "low_risk", "standard_risk"}
    ensures multiset(ks)["high_risk"] + multiset(ks)["low_risk"] + multiset(ks)["standard_risk"] == |ks|
    decreases |ks|
  {
    if ks != [] {
      var init, last := ks[..|ks| - 1], ks[|ks| - 1];
      assert ks == init + [last];
      assert forall k :: k in init ==> k in ks;
      BucketsPartition(init);
      var m, mi := multiset(ks), multiset(init);
      assert m == mi + multiset{last};
      assert m["high_risk"] == mi["high_risk"] + (if last == "high_risk" then 1 else 0);
      assert m["low_risk"] == mi["low_risk"] + (if last == "low_risk" then 1 else 0);
      assert m["standard_risk"] == mi["standard_risk"] + (if last == "standard_risk" then 1 else 0);
      assert last in ks;
    }
  }

  /**
   * In a successful analysis the risk buckets partition the priced policies,
   * and the product and table-name distributions also count each priced
   * policy once.
   */
  lemma DistributionsAddUp(tables: TableRegistry, calculator: PremiumCalculator, policies: seq<Policy>)
    requires PortfolioOf(tables, calculator, policies).Ok?
    ensures var m := PortfolioOf(tables, calculator, policies).value;
      && m.TotalPolicies >= 1
      && m.RiskDistribution.Keys <= {"high_risk", "low_risk", "standard_risk"}
      && Get(m.RiskDistribution, "high_risk") + Get(m.RiskDistribution, "low_risk")
         + Get(m.RiskDistribution, "standard_risk") == m.TotalPolicies
      && MapSum(m.RiskDistribution) == m.TotalPolicies
      && MapSum(m.ProductDistribution) == m.TotalPolicies
      && MapSum(m.GenderDistribution) == m.TotalPolicies
  {
    hide PricedPolicies, CalculatePremium, TotalAge, TotalCoverage, PricedNetPremium, PricedGrossPremium;
    var priced := PricedPolicies(tables, calculator, policies);
    MetricsAreTotals(priced);
    RiskBuckets(priced);
    CountsSum(PricedRisks(priced));
    CountsSum(PricedProducts(priced));
    CountsSum(PricedGenders(priced));
  }
}
