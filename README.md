# actuworry — a verified model of the term-life pricing core

actuworry is a Go web service that prices life insurance. This project models
its core in Dafny and proves properties of the model.

The modelled core has three parts:

- **The term-life engine** (`backend/actuarial/core.go`):
  - present-value discounting;
  - the net premium by the equivalence principle (expected discounted death
    benefits divided by the expected discounted unit-premium annuity, or 0
    when that annuity is worth 0);
  - the prospective net-premium reserve schedule for durations `0 .. Term`.
- **The `/calculate` handler's validation block** (`backend/main.go`). It
  resolves the table name (lower-cased; empty means `male`), then checks age,
  term, sum assured, interest rate and `age + term` against the table length.
  It reports the first failure with the handler's own message. Only then does
  it call the engine.
- **The actuarial service** (`backend/services/actuarial_service.go`):
  - policy validation;
  - table lookup;
  - single-policy pricing, with its guard order;
  - the batch, which fails fast, is refused when empty or over 100 policies,
    and keeps totals and product-type counters;
  - the portfolio analysis, which skips policies that fail to price and
    counts products, genders and risk buckets.

Modules:

| module | file | role |
|---|---|---|
| `Wrappers` | `wrappers.dfy` | `Result` and `Outcome` for error paths |
| `Text` | `text.dfy` | ASCII lower-casing, decimal rendering of positions |
| `Tally` | `tally.dfy` | `map[string]int` counters and their sums |
| `Actuarial` | `actuarial.dfy` | the engine: specification functions and the loop methods proved against them |
| `ActuarialProperties` | `actuarial_properties.dfy` | properties of the engine, including the engine's own worked example |
| `Registry` | `registry.dfy` | the table registry and table-name resolution |
| `Services` | `service.dfy` | the actuarial service |
| `CalculateHandler` | `handler.dfy` | the `/calculate` validation and the engine calls it guards |

How the engine is modelled:

- Amounts, rates and probabilities are exact reals.
- `math.Pow(1 + r, n)` with an integer exponent is a recursive `Pow`.
- Each Go loop is a Dafny `method` with a `while` loop. It is proved equal to a
  recursive specification function: `Survival`, `BenefitPV`, `AnnuityPV`,
  `NetPremiumOf` or `ReserveAt`.
- `NetPremiumReserves` fills an array of `Term + 1` zeros in place, as the Go
  slice is filled.
- The engine indexes the table without checks. Its methods therefore require
  that the ages `Age .. Age + Term - 1` lie inside the table (`InBounds`).
- `CalculateHandler.AcceptedIsInBounds` shows that every request the handler
  accepts meets that requirement, when `age + term` is compared without
  wrap-around. The handler's check `age + term >= len` is one year stricter
  than the engine needs: the engine never reads the entry at `age + term`.
- In Go, `age + term` is a 64-bit sum and can wrap around. The handler as
  written is modelled too (`ValidateRequestAsWritten`); see "## Findings".

Behaviour of the code that the model follows:

- The term-life loops in `core.go:90-155` do not stop early when the table
  runs out: they index the table directly and rely on their callers' bounds
  check. The model requires the bounds instead of truncating.
- `CalculateBatch` (`actuarial_service.go:93-98`) returns at the first
  failure, and the model does the same (`CalculateAllFailsAtFirst`). Only
  `PortfolioAnalysis` keeps going past a failing policy: it skips it.
- `actuarial.CalculateFullPremium` is called in `actuarial_service.go:72`
  without an error result. It is therefore modelled as a total function
  parameter (`PremiumCalculator`) about which nothing is assumed.
- The error texts are modelled character for character, so that what a
  client reads can be compared: `ServiceError.Message` and
  `RequestError.Message`.

## Model

| member | source | states |
|---|---|---|
| Actuarial.Pow | backend/actuarial/core.go:80 | a power of a non-zero base is non-zero, and of a positive base positive |
| Actuarial.PresentValue | backend/actuarial/core.go:78-81 | a payment due now is worth its amount; a non-negative amount at a rate above -100% has a non-negative value |
| Actuarial.PresentValueStep | backend/actuarial/core.go:79-81 | each extra year of waiting divides the present value by `1 + rate` |
| Actuarial.PresentValueScales | backend/actuarial/core.go:79-81 | present value is linear in the amount |
| Actuarial.SurvivalProbability | backend/actuarial/core.go:92-95 | the inner loop's running product is the survival probability over those years |
| Actuarial.ExpectedValues | backend/actuarial/core.go:90-107 | the policy-year loop accumulates exactly the expected discounted death benefit and the expected discounted unit-premium annuity |
| Actuarial.NetPremium | backend/actuarial/core.go:86-114 | the result is the equivalence-principle premium `NetPremiumOf`; a term of zero or less gives 0 |
| Actuarial.NetPremiumReserves | backend/actuarial/core.go:119-155 | the schedule has `Term + 1` entries; entry `t` is the prospective reserve at duration `t`; the last entry is 0 |
| ActuarialProperties.SumsReadOnlyWindow | backend/actuarial/core.go:90-98 | tables that agree on the covered ages give the same survival, benefit and annuity values |
| ActuarialProperties.NetPremiumReadsOnlyWindow | backend/actuarial/core.go:90-98 | the net premium depends only on the rates at ages `Age .. Age + Term - 1` |
| ActuarialProperties.ReserveReadsOnlyWindow | backend/actuarial/core.go:134-142 | the reserve at duration `t` depends only on the rates at ages `Age + t .. Age + Term - 1` |
| ActuarialProperties.SurvivalIsProbability | backend/actuarial/core.go:92-95 | with every rate in [0, 1], a survival probability lies in [0, 1] |
| ActuarialProperties.BenefitNonNegative | backend/actuarial/core.go:98-102 | the expected value of a non-negative death benefit is non-negative |
| ActuarialProperties.AnnuityAtLeastOne | backend/actuarial/core.go:104-106 | a premium annuity of at least one year is worth at least 1, because the first premium is certain and undiscounted |
| ActuarialProperties.NetPremiumNonNegative | backend/actuarial/core.go:92-113 | with valid rates, a non-negative sum assured and a rate above -100%, the net premium is non-negative |
| ActuarialProperties.NetPremiumIsRatio | backend/actuarial/core.go:109-113 | a policy of one year or more never takes the zero-annuity branch, so its premium is the plain ratio |
| ActuarialProperties.BenefitScales | backend/actuarial/core.go:100-102 | the expected death benefit is linear in the sum assured |
| ActuarialProperties.NetPremiumScales | backend/actuarial/core.go:92-113 | multiplying the sum assured by `k` multiplies the net premium by `k` |
| ActuarialProperties.ReserveScales | backend/actuarial/core.go:151 | scaling the sum assured and the premium by `k` scales each reserve by `k` |
| ActuarialProperties.ScheduleScales | backend/actuarial/core.go:119-155 | the whole schedule, valued with each policy's own premium, is linear in the sum assured |
| ActuarialProperties.ReserveAtIssueIsZero | backend/actuarial/core.go:130-151 | valued with the policy's own net premium, the reserve at issue is exactly 0 |
| ActuarialProperties.FinalYearReserve | backend/actuarial/core.go:134-151 | one year before expiry the reserve is `SA * q / (1 + i)` minus one premium |
| ActuarialProperties.TestTable | backend/actuarial/core_test.go:10-16 | the test table has 100 ages, q35 = 0.002, q36 = 0.003, q37 = 0.004, and only valid rates |
| ActuarialProperties.TestNetPremium | backend/actuarial/core_test.go:23-39 | the test policy's premium is 5.094 / 2.1504, within 0.0001 of 2.36879 |
| ActuarialProperties.TestReserves | backend/actuarial/core_test.go:41-75 | the test schedule is 0, 0.48828125, 0; the middle entry is within 0.0001 of 0.48835 |
| Registry.ResolveTableName | backend/main.go:115-118 | the key is the lower-cased name, or `male` for an empty name; it is never empty and has no upper-case letter |
| Registry.ResolveIgnoresCase | backend/main.go:115 | a name and its lower-case form resolve to the same key |
| Registry.ResolveMaleSpellings | backend/main.go:115-118 | `MALE`, `Male` and the empty name resolve to `male`; `Female` resolves to `female` |
| Text.ToLower | backend/main.go:115 | lower-casing keeps the length, maps each of A-Z to the letter 32 code points above it (a-z), leaves no A-Z, and keeps every other character |
| Text.ToLowerIdempotent | backend/main.go:115 | lower-casing twice is lower-casing once |
| Text.NatToString | backend/services/actuarial_service.go:97 | a position is rendered as non-empty decimal digits whose value is the position, with no leading zero except for 0 itself |
| Text.NatToStringInjective | backend/services/actuarial_service.go:97 | two positions are rendered alike exactly when they are equal |
| Services.ValidatePolicy | backend/services/actuarial_service.go:268-282 | passes exactly when age is in [0, 120], term ≥ 0, coverage > 0 and rate in [0, 1]; each error occurs exactly when its check is the first to fail |
| Services.GetMortalityTable | backend/services/actuarial_service.go:42-53 | succeeds exactly when the resolved name is a registered table and returns that table; otherwise it reports the resolved name |
| Services.GetMortalityTableIgnoresCase | backend/services/actuarial_service.go:43-46 | the lookup gives the same result for a name and its lower-case form |
| Services.CalculatePremiumGuards | backend/services/actuarial_service.go:56-76 | the contract of `CalculatePremium`: a validation error comes first, then a missing table; pricing succeeds exactly when both pass, and then returns the calculator's result unchanged |
| Services.CalculateAllSucceeds | backend/services/actuarial_service.go:93-104 | the loop succeeds exactly when every policy prices; its results then match the policies one for one, in order |
| Services.CalculateAllFailsAtFirst | backend/services/actuarial_service.go:93-98 | a failing loop reports the first failing policy, at its 1-based position, with that policy's own error |
| Services.CalculateAllStopsAtFailure | backend/services/actuarial_service.go:94-98 | once a prefix fails, the whole list fails with the same error (fail-fast) |
| Services.CalculateBatch | backend/services/actuarial_service.go:79-119 | the batch loop returns exactly `BatchOf`: empty and over-100 batches are refused; otherwise the results, totals and product counters of a fail-fast pass |
| Services.BatchResults | backend/services/actuarial_service.go:79-119 | a batch succeeds exactly when it holds 1 to 100 policies that all price; results then follow the input in order, and the product counters count each result's type and sum to the batch size |
| Services.RiskCategoryBuckets | backend/services/actuarial_service.go:224-231 | the contract of `RiskCategory`: every policy gets exactly one of three buckets; high, low and standard risk are each characterised by an if-and-only-if |
| Services.PricedPoliciesAreTheValidOnes | backend/services/actuarial_service.go:210-214 | exactly the policies that price are kept, each with its own result; none kept means none priced |
| Services.PricedCount | backend/services/actuarial_service.go:209-216 | the number of kept policies (`validPolicies`) is the number of input positions whose policy prices |
| Services.PricedPoliciesInOrder | backend/services/actuarial_service.go:210-222 | kept entries follow the input order: the `j`-th is the policy at the `j`-th pricing position, positions increase, and every pricing position appears |
| Services.MetricsAreTotals | backend/services/actuarial_service.go:216-231 | the accumulated figures are the totals over the priced policies and the counts of their products, genders and risk buckets |
| Services.PortfolioAnalysis | backend/services/actuarial_service.go:196-264 | the portfolio loop returns exactly `PortfolioOf`: an empty list is refused; otherwise the figures over the priced policies, or an error when none prices |
| Services.PortfolioFailsOnlyWhenNothingPrices | backend/services/actuarial_service.go:196-236 | the analysis fails exactly on an empty list (`no policies provided`) or when no policy prices (`no valid policies found`) |
| Services.RiskBuckets | backend/services/actuarial_service.go:224-231 | only the three bucket names occur, and their counts add up to the number of priced policies |
| Services.RisksAreBuckets | backend/services/actuarial_service.go:224-231 | every priced policy's bucket is one of the three names |
| Services.BucketsPartition | backend/services/actuarial_service.go:225-231 | over keys from the three buckets, the three occurrence counts add up to the length |
| Services.DistributionsAddUp | backend/services/actuarial_service.go:216-231 | in a successful analysis, the product, gender and risk distributions each count every priced policy once |
| Services.MessagesIdentifyErrors | backend/services/actuarial_service.go:79-98 | two service errors have the same text exactly when they are the same error, so a batch failure's text determines the failing position and its cause |
| Services.TableNotFoundTextsAgree | backend/services/actuarial_service.go:50 | two "not found" texts agree only for the same table name |
| Services.PolicyFailedTextsAgree | backend/services/actuarial_service.go:97 | two batch-failure texts agree only for the same position and the same cause text |
| Tally.TallyCounts | backend/services/actuarial_service.go:221-222 | a counter map holds each key's number of occurrences, has exactly the occurring keys, and sums to the number of keys counted |
| Tally.IncrementSum | backend/services/actuarial_service.go:103 | raising one counter raises the sum of all counters by one |
| Tally.CountsSum | backend/services/actuarial_service.go:103 | the counters built from a list sum to its length |
| CalculateHandler.ValidateRequest | backend/main.go:114-145 | a request is accepted exactly when its resolved table exists, age ≥ 0, term > 0, sum assured > 0, rate ≥ 0 and `age + term`, without wrap-around, is below the table length; the table it selects is returned |
| CalculateHandler.AddInt64 | backend/main.go:142 | Go's `int` addition: the result is in the 64-bit range, congruent to the true sum modulo 2^64, and equal to it when the true sum fits |
| CalculateHandler.AsWrittenAgreesWithoutOverflow | backend/main.go:142 | when `age + term` fits in 64 bits, the handler as written decides every request as `ValidateRequest` does |
| CalculateHandler.WrappedEndAccepted | backend/main.go:142 | age 9223372036854775807 with term 1 on a one-entry table is accepted as written, lies outside the table, and is refused by `ValidateRequest` |
| CalculateHandler.MessagesIdentifyErrors | backend/main.go:120-145 | two refusals have the same text exactly when they are the same refusal, so an unknown-table text determines the name sent |
| CalculateHandler.InvalidTableTextsAgree | backend/main.go:122 | two unknown-table texts agree only for the same requested name |
| CalculateHandler.FirstFailureReported | backend/main.go:120-145 | the checks take precedence in the handler's order, and each is reported only when all earlier ones pass |
| CalculateHandler.AcceptedIsInBounds | backend/main.go:126-149 | an accepted request meets every precondition of the engine: it lies within the table and discounting is defined |
| CalculateHandler.ValidateIgnoresCase | backend/main.go:115-124 | only letter case of the table name is ignored; the outcome is the same apart from how an unknown name is quoted |
| CalculateHandler.Calculate | backend/main.go:114-149 | a refused request gets its validation error; an accepted one gets the net premium and a reserve schedule valued with that premium, of length `Term + 1` and ending in 0; with valid rates the premium is non-negative and the reserve at issue is 0 |

## Left out

- IEEE-754 floating point and `math.Pow`: the model computes over exact reals, so rounding and the test tolerances are not modelled; the tolerances of the engine's tests are proved for the exact values.
- Actuarial.PresentValue: an interest rate of exactly -100% (division by zero in Go, giving an infinity) is excluded by `DiscountDefined`; no accepted request can have it.
- Actuarial.NetPremiumReserves: requires `Term >= -1`, because `make` panics on a negative length in Go; validated callers always pass `Term >= 1`.
- Text.ToLower: ASCII-only lower-casing; Go's `strings.ToLower` also folds non-ASCII letters, which no registered table name contains.
- `LoadMortalityTable` and the loading of the registry from CSV files at start-up (file I/O): the registry is a parameter.
- `actuarial.CalculateFullPremium` is not part of this model: it is a total function parameter, and nothing about gross premiums, expenses, whole-life, annuity or underwriting logic is modelled.
- `GrossPremium`, `DefaultExpenseStructure` and the expense breakdown in the `/calculate` response (`main.go:151-170`): `CalculateHandler.Calculate` returns only the net premium and the reserve schedule.
- The averages in the batch summary and the portfolio figures, and the profitability ratios (`actuarial_service.go:106-112`, `239-251`, `257-258`): these are float divisions of totals; the totals they divide are modelled and proved.
- `GetAvailableTables`: Go's map iteration order is unspecified, so its output order has no contract.
- `SensitivityAnalysis`, the HTTP handlers, routing, CORS middleware and JSON encoding and decoding.
- `convertToActuarialPolicy` and `convertToPremiumCalculation`: the service's `Policy` is handed to the calculator as is, and its result is returned as is.
- In the engine, the Go code repeats the survival and accumulation loops in both functions; the model runs both through the shared methods `SurvivalProbability` and `ExpectedValues`.
- Go's 64-bit `int` overflow is modelled only in the handler's `age + term` check; elsewhere (the service's ages and terms, the counters, the totals) integers are unbounded.
- `UnderwritingInfo` of the premium result (`models/policy.go:26`, a `map[string]interface{}` of arbitrary JSON values): the calculator's result is passed through as is, and no operation of the core reads or writes this field.
- `main.py` (an unrelated placeholder script).

## Findings

| source | as written | input that shows it | evidently intended | confidence | as-written member | corrected member |
|---|---|---|---|---|---|---|
| backend/main.go:142 | `p.Age+p.Term >= len(table)` is a 64-bit `int` sum, which wraps to a negative number for very large ages | age 9223372036854775807, term 1, a registered table and otherwise valid fields: the sum wraps to -9223372036854775808, the guard passes, and `core.go:98` then indexes `table[p.Age]` out of range | refuse every request whose true `age + term` is not below the table length | medium; not executed | CalculateHandler.WrappedEndAccepted | CalculateHandler.AcceptedIsInBounds |
