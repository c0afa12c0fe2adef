/**
 * The input validation of the `/calculate` handler and the two engine calls it
 * guards. The handler resolves the requested table name, rejects an unknown
 * table before anything else, then checks age, term, sum assured, interest
 * rate and that the policy fits in the table, and reports the first failure.
 * An accepted request is exactly one the engine can price without reading
 * outside the table.
 */
module CalculateHandler {
  import opened Wrappers
  import opened Text
  import opened Actuarial
  import opened ActuarialProperties
  import opened Registry

  // The texts the handler writes back.
  const InvalidTablePrefix := "Invalid table_name: '"
  const InvalidTableSuffix := "'"
  const InvalidInputPrefix := "Invalid input: "
  const NegativeAgeText := "age cannot be negative"
  const NonPositiveTermText := "term must be positive"
  const NonPositiveSumAssuredText := "sum_assured must be positive"
  const NegativeInterestRateText := "interest_rate cannot be negative"
  const TableTooShortText := "age + term exceeds mortality table length"

  /** Why the handler refuses a request; every refusal is a bad request. */
  datatype RequestError =
    | InvalidTableName(requested: string)
    | NegativeAge
    | NonPositiveTerm
    | NonPositiveSumAssured
    | NegativeInterestRate
    | TableTooShort
  {
    /** The text the handler writes back; an unknown table is quoted as the client spelled it. */
    function Message(): string
    {
      match this
      case InvalidTableName(requested) => InvalidTablePrefix + requested + InvalidTableSuffix
      case NegativeAge => InvalidInputPrefix + NegativeAgeText
      case NonPositiveTerm => InvalidInputPrefix + NonPositiveTermText
      case NonPositiveSumAssured => InvalidInputPrefix + NonPositiveSumAssuredText
      case NegativeInterestRate => InvalidInputPrefix + NegativeInterestRateText
      case TableTooShort => InvalidInputPrefix + TableTooShortText
    }
  }

  /** The 9th, 16th and 20th characters of a refusal's text, which tell the kinds of refusal apart. */
  function Key(e: RequestError): (char, char, char)
  {
    match e
    case InvalidTableName(_) => ('t', 'a', ' ')
    case NegativeAge => ('i', 'a', 'c')
    case NonPositiveTerm => ('i', 't', ' ')
    case NonPositiveSumAssured => ('i', 's', 'a')
    case NegativeInterestRate => ('i', 'i', 'r')
    case TableTooShort => ('i', 'a', '+')
  }

  /** The key characters of the two prefixes and of the invalid-input details. */
  lemma TextKeys()
    ensures |InvalidTablePrefix| >= 20 && InvalidTablePrefix[8] == 't' && InvalidTablePrefix[15] == 'a'
      && InvalidTablePrefix[19] == ' '
    ensures |InvalidInputPrefix| == 15 && InvalidInputPrefix[8] == 'i'
    ensures |NegativeAgeText| >= 5 && NegativeAgeText[0] == 'a' && NegativeAgeText[4] == 'c'
    ensures |NonPositiveTermText| >= 5 && NonPositiveTermText[0] == 't' && NonPositiveTermText[4] == ' '
    ensures |NonPositiveSumAssuredText| >= 5 && NonPositiveSumAssuredText[0] == 's' && NonPositiveSumAssuredText[4] == 'a'
    ensures |NegativeInterestRateText| >= 5 && NegativeInterestRateText[0] == 'i' && NegativeInterestRateText[4] == 'r'
    ensures |TableTooShortText| >= 5 && TableTooShortText[0] == 'a' && TableTooShortText[4] == '+'
  {
  }

  /** A refusal's text carries its key characters. */
  lemma MessageKey(e: RequestError)
    ensures |e.Message()| >= 20 && e.Message()[8] == Key(e).0 && e.Message()[15] == Key(e).1
      && e.Message()[19] == Key(e).2
  {
    TextKeys();
    hide InvalidTablePrefix, InvalidTableSuffix, InvalidInputPrefix, NegativeAgeText, NonPositiveTermText,
      NonPositiveSumAssuredText, NegativeInterestRateText, TableTooShortText;
    match e
    case InvalidTableName(requested) =>
      assert e.Message() == InvalidTablePrefix + requested + InvalidTableSuffix;
    case NegativeAge =>
      assert e.Message() == InvalidInputPrefix + NegativeAgeText;
    case NonPositiveTerm =>
      assert e.Message() == InvalidInputPrefix + NonPositiveTermText;
    case NonPositiveSumAssured =>
      assert e.Message() == InvalidInputPrefix + NonPositiveSumAssuredText;
    case NegativeInterestRate =>
      assert e.Message() == InvalidInputPrefix + NegativeInterestRateText;
    case TableTooShort =>
      assert e.Message() == InvalidInputPrefix + TableTooShortText;
  }

  /**
   * Every refusal text identifies its refusal: different refusals are written
   * back with different texts, and an unknown-table text determines the name
   * the client sent.
   */
  lemma MessagesIdentifyErrors(e1: RequestError, e2: RequestError)
    ensures e1.Message() == e2.Message() <==> e1 == e2
  {
    if e1.Message() == e2.Message() {
      MessageKey(e1);
      MessageKey(e2);
      if e1.InvalidTableName? {
        InvalidTableTextsAgree(e1.requested, e2.requested);
      }
    }
  }

  /** Two unknown-table texts agree only for the same requested name. */
  lemma InvalidTableTextsAgree(n1: string, n2: string)
    requires InvalidTableName(n1).Message() == InvalidTableName(n2).Message()
    ensures n1 == n2
  {
    var m1, m2 := InvalidTableName(n1).Message(), InvalidTableName(n2).Message();
    assert m1 == InvalidTablePrefix + n1 + InvalidTableSuffix && m2 == InvalidTablePrefix + n2 + InvalidTableSuffix;
    assert |n1| == |n2|;
    forall k | 0 <= k < |n1| ensures n1[k] == n2[k] {
      assert m1[|InvalidTablePrefix| + k] == n1[k] && m2[|InvalidTablePrefix| + k] == n2[k];
    }
  }

  // Go's `int` on the platforms the service targets: 64 bits, two's complement.
  const MinInt64: int := -0x8000_0000_0000_0000
  const MaxInt64: int := 0x7fff_ffff_ffff_ffff

  predicate IsInt64(x: int)
  {
    MinInt64 <= x <= MaxInt64
  }

  /** Go's `a + b` on `int`: the true sum wrapped into the 64-bit range. */
  function AddInt64(a: int, b: int): (r: int)
    ensures IsInt64(r)
    ensures (r - (a + b)) % 0x1_0000_0000_0000_0000 == 0
    ensures IsInt64(a + b) ==> r == a + b
  {
    (a + b - MinInt64) % 0x1_0000_0000_0000_0000 + MinInt64
  }

  /** The checks in the handler's order, with `end` standing for the policy's last age `age + term`. */
  function Validate(tables: TableRegistry, p: PolicyHolder, end: int): Result<MortalityTable, RequestError>
  {
    var key := ResolveTableName(p.TableName);
    if key !in tables then Err(InvalidTableName(p.TableName))
    else
      var table := tables[key];
      if p.Age < 0 then Err(NegativeAge)
      else if p.Term <= 0 then Err(NonPositiveTerm)
      else if p.SumAssured <= 0.0 then Err(NonPositiveSumAssured)
      else if p.InterestRate < 0.0 then Err(NegativeInterestRate)
      else if end >= |table| then Err(TableTooShort)
      else Ok(table)
  }

  /**
   * The validation block: the table the request selects, or the first check
   * it fails, in the handler's order, with `age + term` compared without
   * wrap-around.
   */
  function ValidateRequest(tables: TableRegistry, p: PolicyHolder): (r: Result<MortalityTable, RequestError>)
    ensures r.Ok? <==>
      ResolveTableName(p.TableName) in tables
      && p.Age >= 0 && p.Term > 0 && p.SumAssured > 0.0 && p.InterestRate >= 0.0
      && p.Age + p.Term < |tables[ResolveTableName(p.TableName)]|
    ensures r.Ok? ==> r.value == tables[ResolveTableName(p.TableName)]
  {
    Validate(tables, p, p.Age + p.Term)
  }

  /** The validation block as written: `age + term` is a 64-bit sum and wraps around. */
  function ValidateRequestAsWritten(tables: TableRegistry, p: PolicyHolder): Result<MortalityTable, RequestError>
  {
    Validate(tables, p, AddInt64(p.Age, p.Term))
  }

  /** Whenever `age + term` fits in 64 bits, the handler as written decides as the model does. */
  lemma AsWrittenAgreesWithoutOverflow(tables: TableRegistry, p: PolicyHolder)
    requires IsInt64(p.Age + p.Term)
    ensures ValidateRequestAsWritten(tables, p) == ValidateRequest(tables, p)
  {
  }

  /**
   * The largest age with a one-year term wraps `age + term` to a negative
   * number, so the handler as written accepts a request whose policy lies
   * outside its table; the engine would then index past the table's end.
   */
  lemma WrappedEndAccepted()
    ensures var tables := map["male" := [0.5]];
      var p := PolicyHolder(MaxInt64, 1, 1000.0, 0.05, "");
      && IsInt64(p.Age) && IsInt64(p.Term)
      && ValidateRequestAsWritten(tables, p) == Ok([0.5])
      && !InBounds(p, [0.5])
      && ValidateRequest(tables, p) == Err(TableTooShort)
  {
    var p := PolicyHolder(MaxInt64, 1, 1000.0, 0.05, "");
    assert AddInt64(p.Age, p.Term) == MinInt64;
  }

  /**
   * The checks take precedence in the handler's order: an unknown table is
   * reported whatever else is wrong, and each later check only when all
   * earlier ones pass.
   */
  lemma FirstFailureReported(tables: TableRegistry, p: PolicyHolder)
    ensures ResolveTableName(p.TableName) !in tables
            ==> ValidateRequest(tables, p) == Err(InvalidTableName(p.TableName))
    ensures ResolveTableName(p.TableName) in tables && p.Age < 0
            ==> ValidateRequest(tables, p) == Err(NegativeAge)
    ensures ResolveTableName(p.TableName) in tables && p.Age >= 0 && p.Term <= 0
            ==> ValidateRequest(tables, p) == Err(NonPositiveTerm)
    ensures ResolveTableName(p.TableName) in tables && p.Age >= 0 && p.Term > 0 && p.SumAssured <= 0.0
            ==> ValidateRequest(tables, p) == Err(NonPositiveSumAssured)
    ensures ResolveTableName(p.TableName) in tables && p.Age >= 0 && p.Term > 0 && p.SumAssured > 0.0
            && p.InterestRate < 0.0
            ==> ValidateRequest(tables, p) == Err(NegativeInterestRate)
    ensures ResolveTableName(p.TableName) in tables && p.Age >= 0 && p.Term > 0 && p.SumAssured > 0.0
            && p.InterestRate >= 0.0 && p.Age + p.Term >= |tables[ResolveTableName(p.TableName)]|
            ==> ValidateRequest(tables, p) == Err(TableTooShort)
  {
  }

  /**
   * An accepted request has a non-negative age, a term of at least one year
   * and ends strictly inside its table, so the engine's index and discount
   * preconditions hold for it.
   */
  lemma AcceptedIsInBounds(tables: TableRegistry, p: PolicyHolder)
    requires ValidateRequest(tables, p).Ok?
    ensures var table := ValidateRequest(tables, p).value;
      && p.Age >= 0 && p.Term >= 1 && p.Age + p.Term <= |table| - 1
      && InBounds(p, table) && DiscountDefined(p.InterestRate) && p.InterestRate > -1.0
  {
  }

  /** Only the letter case of the table name is ignored: the outcome is the same except for how an unknown name is quoted. */
  lemma ValidateIgnoresCase(tables: TableRegistry, p: PolicyHolder)
    ensures var lowered := p.(TableName := ToLower(p.TableName));
      && ValidateRequest(tables, lowered).Ok? == ValidateRequest(tables, p).Ok?
      && (ValidateRequest(tables, p).Ok? ==> ValidateRequest(tables, lowered).value == ValidateRequest(tables, p).value)
      && (ValidateRequest(tables, p).Err? && !ValidateRequest(tables, p).error.InvalidTableName?
          ==> ValidateRequest(tables, lowered) == ValidateRequest(tables, p))
  {
    ResolveIgnoresCase(p.TableName);
  }

  /**
   * The handler up to its response: a refused request gets the validation
   * error; an accepted one is priced with the net premium and the reserve
   * schedule computed from that premium.
   */
  method Calculate(tables: TableRegistry, p: PolicyHolder) returns (r: Result<CalculationResult, RequestError>)
    ensures r.Err? <==> ValidateRequest(tables, p).Err?
    ensures r.Err? ==> r.error == ValidateRequest(tables, p).error
    ensures r.Ok? ==>
      var table := tables[ResolveTableName(p.TableName)];
      && r.value.NetPremium == NetPremiumOf(p, table)
      && |r.value.ReserveSchedule| == p.Term + 1
      && (forall t :: 0 <= t <= p.Term ==> r.value.ReserveSchedule[t] == ReserveAt(p, table, r.value.NetPremium, t))
      && r.value.ReserveSchedule[p.Term] == 0.0
    ensures r.Ok? && ValidRates(tables[ResolveTableName(p.TableName)]) ==>
      r.value.NetPremium >= 0.0 && r.value.ReserveSchedule[0] == 0.0
  {
    var validated := ValidateRequest(tables, p);
    if validated.Err? {
      return Err(validated.error);
    }
    var table := validated.value;
    AcceptedIsInBounds(tables, p);
    var netPremium := NetPremium(p, table);
    var reserves := NetPremiumReserves(p, table, netPremium);
    if ValidRates(table) {
      NetPremiumNonNegative(p, table);
      ReserveAtIssueIsZero(p, table);
    }
    return Ok(CalculationResult(netPremium, reserves));
  }
}
