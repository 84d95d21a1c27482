# TriggerTrade: verified core

This project models the deterministic logic at the centre of the TriggerTrade backend and proves what it promises.
One module stands for one component; pure code is modelled by functions, and code that updates state step by step by
methods with loops that are proved equal to those functions.

| cluster | modules |
|---|---|
| exact numbers and canonical text | `Rationals`, `GridRounding`, `MidpointSqrt`, `Digits`, `DecimalText`, `FractionText`, `JsonText`, `JsonDecoder`, `JsonIdentity`, `JsonEquality`, `JsonGrammar`, `JsonSpelling` |
| causal market features | `CausalBars`, `BarMeaning`, `CausalFeatures`, `AverageWeights`, `HistoricalBuckets`, `HistoricalMeaning`, `RawTradeMerge`, `VolumeDelta` |
| label geometry | `LabelHarness`, `LabelGuarantees`, `LabelMeaning` |
| capital state machines | `SharedPortfolio`, `PortfolioGrants`, `BucketGrants`, `AccountingDay`, `Cooldown` |
| order construction | `OrderConstruction`, `OrderTerms` |
| accounting folds and streaming validation | `FuturesAccounting`, `HorizonFile`, `Reconciliation` |
| shared | `Prelude`, `RealArithmetic`, `Sorting`, `TextOrder`, `Totals` |

How values are represented:

- Fractions of the numeric policy are reduced integer pairs with a proof of coprimality; `Val` links them to real numbers.
- Quantities that the program keeps as `Decimal` (28 significant digits) or binary64 are exact reals.
- Times are integers, a UTC day being 86400 seconds. Optional fields are `Option`, raised errors are `Result`.
- A digest is an injective function of the canonical text, so identity claims are stated on the text.

Besides invariants and laws, each operation has an exact description that is written without the functions of its model:
`JsonSpelling` spells texts out, `BarMeaning`, `HistoricalMeaning` and `AverageWeights` speak of raw candles, closes and
true ranges, `LabelMeaning` of the close path, `BucketGrants` of the four buckets, and `OrderTerms` of the profile's own
numbers.

Four results describe what the code does where its promise fails; each has a concrete input and an exact condition.

- The V1 bucket aggregation repaints when a candle closes after the end of its bucket: `NeverRepaintsIffSteady` and
  `SomeHistoryRepaints`.
- A blocked grant can carry `PASS` as its primary reason: `BlockedReasonCanBePass` and `SomeBlockSaysPass`.
- A sizing that was capped at the venue's maximum can pass below its minimum: `MinimumHoldsExactly` and
  `SomePassedQuantityIsTooSmall`.
- A release frees a slot whatever its amount, so committed capital can be left without one and the slot limit can be
  passed: `HeldIffReleasesLeaveSlots` and `PartReleasesPassTheSlotLimit`.

## Model

| member | source | states |
|---|---|---|
| `Rationals.CanonicalForm` | src/triggertrade/numeric_policy.py:71-86 | two reduced fractions that agree by cross multiplication are the same pair |
| `Rationals.ValInjective` | src/triggertrade/numeric_policy.py:81-86 | fractions with the same real value are the same pair |
| `GridRounding.UnitsAreCorrectlyRounded` | src/triggertrade/numeric_policy.py:219-239 | each of the four integer rounders returns the integer its mode promises: the greatest below, the least above, the farthest toward zero, the nearest with ties to even |
| `GridRounding.RoundsToIsUnique` | src/triggertrade/numeric_policy.py:219-239 | the promise of a mode determines the rounded integer |
| `GridRounding.QuantizeIsCorrectlyRounded` | src/triggertrade/numeric_policy.py:89-105 | for every positive quantum the result is a whole number of quanta, correctly rounded in its mode |
| `GridRounding.QuantizeFailsExactly` | src/triggertrade/numeric_policy.py:212-216 | quantizing fails exactly for a quantum that is not positive |
| `GridRounding.QuantizeIsMonotone` | src/triggertrade/numeric_policy.py:89-105 | a larger value never quantizes lower, in any mode |
| `GridRounding.QuantizeIsIdempotent` | src/triggertrade/numeric_policy.py:89-105 | quantizing twice is quantizing once |
| `GridRounding.QuantizeMirrors` | src/triggertrade/numeric_policy.py:227-239 | HALF_EVEN and TRUNCATE are odd, FLOOR and CEIL are mirror images |
| `GridRounding.QCapitalFloorVal` | src/triggertrade/numeric_policy.py:124-125 | the capital floor is the largest multiple of 10^-12 not above the value |
| `GridRounding.ScalesAreExact` | src/triggertrade/numeric_policy.py:124-141 | the policy's units are 10^-12 for capital and 10^-36 for working values |
| `MidpointSqrt.ExactMidpointSqrt` | src/triggertrade/numeric_policy.py:144-167 | negative inputs and scales are refused; otherwise the result is the multiple of 10^-scale nearest to the root |
| `MidpointSqrt.CorrectionLoopsNeverRun` | src/triggertrade/numeric_policy.py:155-159 | after the integer square root neither correction loop has anything to do |
| `MidpointSqrt.NearestRootIsUnique` | src/triggertrade/numeric_policy.py:161-166 | the nearest root with ties to even is one integer only |
| `MidpointSqrt.NearestRootIsMonotone` | src/triggertrade/numeric_policy.py:144-167 | a larger radicand never has a smaller rounded root |
| `MidpointSqrt.ExactRootsAreExact` | src/triggertrade/numeric_policy.py:144-167 | a perfect square on the grid is returned as its exact root |
| `MidpointSqrt.NearestRootRoundsTheRealRoot` | src/triggertrade/numeric_policy.py:144-167 | for any real root of the value, the integer answer is that root in units of the grid, rounded half to even |
| `DecimalText.NormalFormIsUnique` | src/triggertrade/canonical_json.py:55-58 | two texts in normal form that parse to the same value are the same text |
| `DecimalText.ParsesExactly` | src/triggertrade/numeric_policy.py:55-68 | exactly the plain decimal texts are accepted, and each parses to the number its sign, digits and point stand for |
| `DecimalText.PrintDecimalRoundTrip` | src/triggertrade/canonical_json.py:34-58 | every finite decimal prints in normal form and the text parses back to its value |
| `FractionText.CanonicalDecimalText` | src/triggertrade/numeric_policy.py:170-199 | the loops that divide out twos and fives compute the printed text, or refuse |
| `FractionText.PrintFractionRoundTrip` | src/triggertrade/numeric_policy.py:55-68 | a printed fraction is in normal form and parses back to the same fraction |
| `FractionText.PrintsExactlyTerminating` | src/triggertrade/numeric_policy.py:187-188 | printing succeeds exactly for whole numbers of some decimal unit |
| `FractionText.RefusedExactlyOnOtherPrimes` | src/triggertrade/numeric_policy.py:177-188 | printing is refused exactly when the reduced denominator has a prime factor other than 2 and 5 |
| `FractionText.PrintersAgree` | src/triggertrade/numeric_policy.py:170-199 | the two independent printers give the same text for every finite decimal |
| `FractionText.QuantizedValuesPrint` | src/triggertrade/numeric_policy.py:124-141 | every value quantized to a decimal grid can be printed |
| `JsonText.CollectMembers` | src/triggertrade/canonical_json.py:81-91 | the loop over a mapping yields its members sorted by key, or the first key that is not text or was seen before |
| `JsonText.EncodesExactlySupported` | src/triggertrade/canonical_json.py:61-96 | encoding succeeds exactly for values without floats, foreign types, non-finite decimals and unusable keys, at any depth |
| `JsonDecoder.DecodeRecoversMeaning` | src/triggertrade/canonical_json.py:61-96 | a decoder recovers every supported value from its text, up to key order, list or tuple and number spelling; `JsonSpelling` gives the text itself |
| `JsonIdentity.SameTextSameMeaning` | src/triggertrade/canonical_json.py:16-31 | two supported values have the same canonical text exactly when they mean the same |
| `JsonIdentity.KeyOrderIsIrrelevant` | src/triggertrade/canonical_json.py:81-91 | reordering the keys of a mapping changes neither its support nor its meaning |
| `JsonEquality.SameDataSameText` | src/triggertrade/canonical_json.py:16-31 | two supported values have one canonical text exactly when they are the same data at every depth: numbers by amount, sequences item by item, mappings as maps |
| `JsonEquality.SameIffSameMeaning` | src/triggertrade/canonical_json.py:61-96 | sorting members and spelling numbers identifies exactly the values that are the same data |
| `JsonIdentity.CheckedExactlyDistinct` | src/triggertrade/canonical_json.py:84-90 | the members are accepted exactly when all keys are text and distinct |
| `JsonGrammar.EncodeIsJson` | src/triggertrade/canonical_json.py:61-96 | every encoded text is a JSON value by sections 2 to 7 of RFC 8259 |
| `JsonSpelling.PlainText` | src/triggertrade/canonical_json.py:70-71 | a string without control characters, quotes and backslashes is spelled as it is, between quotes; keys are spelled alike |
| `JsonSpelling.ShortEscapes` | src/triggertrade/canonical_json.py:70-71 | the exact text of the seven two-character escapes |
| `JsonSpelling.LongEscapes` | src/triggertrade/canonical_json.py:70-71 | every other control character is spelled as a backslash, u00 and two lower-case hexadecimal digits |
| `JsonSpelling.TextOfConcat` | src/triggertrade/canonical_json.py:70-71 | characters are spelled one by one, so the three results before this one give the text of every string |
| `JsonSpelling.ArrayText` | src/triggertrade/canonical_json.py:74-75 | an array is its items' texts in order, between brackets, with commas and no spaces |
| `JsonSpelling.MappingText` | src/triggertrade/canonical_json.py:81-96 | a mapping is its own fields in ascending key order, each as key text, colon and value text, with commas and no spaces |
| `TextOrder.TextLessIsFirstDifference` | src/triggertrade/canonical_json.py:91 | one key comes before another when it is a proper prefix of it or has the lower code point at the first difference |
| `CausalBars.AggregateCompletedBars` | src/triggertrade/research_v2.py:473-518 | the grouping loops produce the bars of the specification; a timeframe that is not positive is refused |
| `CausalBars.BarsAreTheCompleteBuckets` | src/triggertrade/research_v2.py:498-518 | the bars are exactly the buckets whose last row closes at the bucket's end, strictly in time order |
| `CausalBars.BarSummarizesItsRows` | src/triggertrade/research_v2.py:504-516 | a bar opens with the first candle and closes with the last, and its high and low bound every candle and are reached |
| `CausalBars.BarsAtCutoff` | src/triggertrade/research_v2.py:481-488 | a cutoff shows exactly the bars of the whole history that have closed by then |
| `CausalBars.BarsNeverRepaint` | src/triggertrade/research_v2.py:473-518 | for any candles and cutoffs in order, the earlier bars are a prefix of the later ones |
| `CausalBars.BarsNeverLookAhead` | src/triggertrade/research_v2.py:473-518 | histories that agree on the candles closed by the cutoff give the same bars |
| `BarMeaning.FloorTimeIsExact` | src/triggertrade/research_v2.py:1083-1087 | a bucket starts a whole number of bucket lengths after midnight UTC and contains the time |
| `BarMeaning.BarsAreExact` | src/triggertrade/research_v2.py:473-518 | a bucket has a bar exactly when its last candle closes at its end; the bar's prices, extremes and sums are those of the raw candles of the bucket |
| `CausalFeatures.WilderAtrSeries` | src/triggertrade/research_v2.py:521-539 | the loops compute the mean of the first true ranges followed by Wilder's recursion, whose weights `AverageWeights` gives |
| `AverageWeights.TrueRangeSpans` | src/triggertrade/research_v2.py:527-533 | a true range spans the bar and the close before it |
| `AverageWeights.AtrIsWeighted` | src/triggertrade/research_v2.py:534-538 | k steps after the seed, the ATR times period^k is the seed times (period - 1)^k plus each true range since times (period - 1)^j * period^(k - 1 - j), j steps after it |
| `AverageWeights.SeriesIsWeighted` | src/triggertrade/research_v2.py:521-539 | the series has one entry for each bar from the period-th on, at the bar's close, each with these weights |
| `AverageWeights.AtrApproaches` | src/triggertrade/research_v2.py:534-538 | under a constant true range the distance to it shrinks by (period - 1) / period at every step |
| `CausalFeatures.AtrNeverRepaints` | src/triggertrade/research_v2.py:521-539 | the ATR series at an earlier cutoff is a prefix of the series at a later one |
| `CausalFeatures.AtrStaysInRange` | src/triggertrade/research_v2.py:534-538 | the ATR never leaves the range of the true ranges it has seen |
| `CausalFeatures.Ema15` | src/triggertrade/research_v2.py:585-595 | the loop computes the seeded exponential average, missing exactly when there are too few bars |
| `CausalFeatures.EmaStaysInRange` | src/triggertrade/research_v2.py:590-594 | the average never leaves the range of the closes it has seen |
| `AverageWeights.EmaIsWeighted` | src/triggertrade/research_v2.py:590-594 | k steps after the seed, the average times (period + 1)^k is the seed times (period - 1)^k plus twice each close since with its geometric weight |
| `CausalFeatures.ConfirmedSwingReferences` | src/triggertrade/research_v2.py:598-612 | the scan lists every strict five-bar pivot whose second right bar has closed by the cutoff, in order |
| `CausalFeatures.SwingsAreTheStrictPivots` | src/triggertrade/research_v2.py:601-611 | a reference is listed exactly when it is the strict low or high of five consecutive bars and its second right bar has closed |
| `CausalFeatures.SwingsNeverRepaint` | src/triggertrade/research_v2.py:598-612 | the swings at an earlier cutoff are exactly the later swings already available by then |
| `CausalFeatures.LatestProtectiveIsLatest` | src/triggertrade/research_v2.py:615-630 | the protective reference is missing exactly when none protects, and otherwise no protecting one is later |
| `CausalFeatures.FirstLatestIsFirst` | src/triggertrade/research_v2.py:630 | of the references that are available last, the first one given is taken |
| `CausalFeatures.LatestProtectiveOnlyAdvances` | src/triggertrade/research_v2.py:615-630 | as the cutoff moves on, a protective reference is never lost and never gets older |
| `HistoricalBuckets.AggregateCompletedCandles` | src/triggertrade/research_v1_historical_triggers.py:1854-1903 | the loop emits the complete buckets; an empty source wins over an unknown timeframe |
| `HistoricalBuckets.AggregatesAreTheCompleteBuckets` | src/triggertrade/research_v1_historical_triggers.py:1864-1903 | the aggregates are exactly the complete buckets, strictly in time order |
| `HistoricalBuckets.EmittedIffEveryMinuteIsPresent` | src/triggertrade/research_v1_historical_triggers.py:1864-1872 | over a one-minute history a bucket is emitted exactly when each of its minutes has a candle |
| `HistoricalBuckets.NeverRepaintsIffSteady` | src/triggertrade/research_v1_historical_triggers.py:1823-1872 | earlier aggregates are always a prefix of later ones exactly when no candle straddles the end of a bucket that is complete without it |
| `HistoricalBuckets.SomeHistoryRepaints` | src/triggertrade/research_v1_historical_triggers.py:1864-1872 | a history with distinct close times whose first bucket is visible at 300 seconds and gone at 330 |
| `HistoricalBuckets.StraddlerRepaints` | src/triggertrade/research_v1_historical_triggers.py:1864-1872 | a straddling candle makes a bucket that was visible disappear at a later cutoff |
| `HistoricalBuckets.OneMinuteHistoriesAreSteady` | src/triggertrade/research_v1_historical_triggers.py:2934-2944 | histories of whole one-minute candles never repaint |
| `HistoricalMeaning.AggregateInWords` | src/triggertrade/research_v1_historical_triggers.py:1854-1905 | an aggregate is built from every minute of its bucket and from every usable candle that opens in it, and its prices, extremes and sums are theirs |
| `RawTradeMerge.MergePages` | src/triggertrade/research_v1_historical_triggers.py:2646-2764 | pages are merged exactly when they are consistent; the result is the merge of the specification, and a refusal names a fault that the pages have |
| `RawTradeMerge.MergeIgnoresArrangement` | src/triggertrade/research_v1_historical_triggers.py:2731-2764 | the same evidence in any arrangement is accepted alike and merges to the same trades, provenance and pages |
| `RawTradeMerge.ReorderingIsSameEvidence` | src/triggertrade/research_v1_historical_triggers.py:2731-2764 | reordering pages, and rows inside pages, keeps the evidence |
| `RawTradeMerge.RepeatedRowIsSameEvidence` | src/triggertrade/research_v1_historical_triggers.py:2743-2750 | repeating a row identically adds nothing |
| `RawTradeMerge.TradeIdsAreUnique` | src/triggertrade/research_v1_historical_triggers.py:2743-2751 | in a merge every trade id counts once |
| `RawTradeMerge.RowsInWords` | src/triggertrade/research_v1_historical_triggers.py:2824-2867 | which rows are accepted, which trade and source they become, and when the interval or the taker side is the reason for a refusal |
| `RawTradeMerge.OrdersInWords` | src/triggertrade/research_v1_historical_triggers.py:2764-2788 | trades ascend by time and id, sources by snapshot, page and endpoint, pages by index text and id |
| `RawTradeMerge.PagesInWords` | src/triggertrade/research_v1_historical_triggers.py:2646-2800 | a merge lists each page with its own words, nothing else, and the source identity that all pages share |
| `VolumeDelta.DenominatorZeroIffNoTrades` | src/triggertrade/research_v1_historical_triggers.py:996-1000 | the delta is missing exactly when there are no trades |
| `VolumeDelta.DeltaIsExact` | src/triggertrade/research_v1_historical_triggers.py:994-1002 | the delta is a hundred times the surplus of bought over sold notional by their sum, rounded half to even at 36 places |
| `VolumeDelta.DeltaInRange` | src/triggertrade/research_v1_historical_triggers.py:994-1002 | the rounded delta lies between -100 and 100 percent |
| `VolumeDelta.MergedDeltaInRange` | src/triggertrade/research_v1_historical_triggers.py:994-1002 | the delta of a merge is missing exactly when the pages carry no row, and lies between -100 and 100 otherwise |
| `VolumeDelta.DeltaIgnoresArrangement` | src/triggertrade/research_v1_historical_triggers.py:2646-2800 | page order, row order and repeated rows never change the delta |
| `VolumeDelta.AggressiveVolumeDelta` | src/triggertrade/research_v1_historical_triggers.py:939-1002 | from pages to delta: available exactly for consistent pages with a row, within -100 and 100, and otherwise refused for a reason the pages explain |
| `VolumeDelta.OneSidedDelta` | src/triggertrade/research_v1_historical_triggers.py:994-1002 | one-sided trading gives exactly 100 or -100 |
| `VolumeDelta.DeltaIsOdd` | src/triggertrade/research_v1_historical_triggers.py:994-1002 | exchanging buyers and sellers negates the rounded delta exactly |
| `LabelHarness.EvaluatePath` | tools/research_v2/v2_research_harness.py:142-212 | the totals and phase loops compute the evaluation that `LabelMeaning` describes exactly, and the implementation error is never returned |
| `LabelHarness.NeverBothPass` | tools/research_v2/v2_research_harness.py:204-205 | no path passes on both sides, so the dual-label branch is unreachable |
| `LabelMeaning.EvaluationIsExact` | tools/research_v2/v2_research_harness.py:142-212 | an evaluation is a candidate exactly when lengths, counts and OHLC data are acceptable, and favors a side exactly when the raw path does: mean clip, mean, majority windows on either side, and retention in the last window and at the last close |
| `LabelMeaning.LabelIsExact` | tools/research_v2/v2_research_harness.py:204-205 | LONG_FAVORED and SHORT_FAVORED, each exactly in terms of the path |
| `LabelMeaning.RecordOnThePath` | tools/research_v2/v2_research_harness.py:104-125 | the last window's median, the last close and the peak of a side reach a level exactly when the path's minutes do, and the means are those of the path |
| `LabelMeaning.RetainedExactly` | tools/research_v2/v2_research_harness.py:110-113 | the retention condition holds exactly when, for every level of the path that some window's majority reached, the last window's majority and the last close keep its share eta, at most one threshold |
| `LabelMeaning.RetainedIsPositive` | tools/research_v2/v2_research_harness.py:178-205 | a material side that meets the retention condition keeps something positive, so the last condition never decides |
| `LabelMeaning.CountsAreExact` | tools/research_v2/v2_research_harness.py:70-76 | p is the least count of at least two minutes and the share rho, w is 2p - 1, and a horizon is refused exactly when w does not fit or no count of minutes is enough below half of a canonical horizon |
| `LabelMeaning.MilestonesOnThePath` | tools/research_v2/v2_research_harness.py:104-139 | confirmations, first material minutes, returns and reestablishments are reported exactly as the path shows them |
| `LabelMeaning.ExtremesOnThePath` | tools/research_v2/v2_research_harness.py:118-212 | the greatest gain and loss at a close, and with highs and lows inside a minute, are those of the raw values |
| `LabelGuarantees.MedianIsMajority` | tools/research_v2/v2_research_harness.py:104-109 | the median of 2p - 1 values reaches a limit exactly when at least p of them do |
| `LabelGuarantees.ConfirmsIffMajority` | tools/research_v2/v2_research_harness.py:70-76 | with w = 2p - 1 a window confirms exactly when at least p of its minutes are material |
| `LabelGuarantees.SupportNeverRunsOut` | tools/research_v2/v2_research_harness.py:114-117 | a side has a support exactly when it has a confirmation, inside its window and early enough for p minutes |
| `LabelGuarantees.MajorityAfterSupport` | tools/research_v2/v2_research_harness.py:130-133 | from its support on, a confirmed side has at least p material minutes |
| `LabelGuarantees.MaterialPeakIffConfirmation` | tools/research_v2/v2_research_harness.py:107-111 | the material predicate on B holds exactly when the side has a confirmation |
| `LabelGuarantees.NoWindowConfirmsBoth` | tools/research_v2/v2_research_harness.py:171-177 | no window confirms both sides |
| `LabelGuarantees.PhasesAlternate` | tools/research_v2/v2_research_harness.py:171-177 | phase sides strictly alternate and minutes increase; every entry is the first confirmation of its side since the entry before, nothing confirms before the first, and the other side never confirms after the last |
| `LabelGuarantees.SupportedSideChangeIffTwoPhases` | tools/research_v2/v2_research_harness.py:210-212 | the supported side change is reported exactly when the phase sequence has two or more entries |
| `LabelGuarantees.FavoredPathHasOnePhase` | tools/research_v2/v2_research_harness.py:178-212 | a favored path has exactly one phase: the favored side at its first confirmation |
| `LabelGuarantees.VerdictConsequences` | tools/research_v2/v2_research_harness.py:178-193 | passing excludes an opposing phase and a retention failure, and each margin's sign decides its predicate |
| `LabelGuarantees.EndpointGivebackNeverPasses` | tools/research_v2/v2_research_harness.py:135-193 | a path that gives everything back at its end fails on that side, by retention |
| `LabelGuarantees.MilestonesAreOrdered` | tools/research_v2/v2_research_harness.py:113-138 | a reestablishment contains an internal return, the support is no earlier than the first material minute, and p minutes lie between support and confirmation |
| `LabelGuarantees.NegationSwapsSides` | tools/research_v2/v2_research_harness.py:142-212 | negating the path, with high and low negated and exchanged, swaps both side records, the phases and the label |
| `LabelGuarantees.JBelowRawOccupancy` | tools/research_v2/v2_research_harness.py:118-125 | on each side J is at most the raw occupancy |
| `LabelGuarantees.MaterialWithinRaw` | tools/research_v2/v2_research_harness.py:125-126 | material occupancy is at most raw occupancy, both between 0 and 1 |
| `LabelGuarantees.AreasBalance` | tools/research_v2/v2_research_harness.py:120-127 | the two areas of a side differ by its mean times the horizon |
| `LabelGuarantees.ProbeHitsTarget` | tools/research_v2/v2_research_harness.py:375-391 | the rho probe (2t - 1) / 2n gives exactly width t at its horizon |
| `SharedPortfolio.Reserve` | src/triggertrade/research_v1_execution.py:185-205 | editing the copied dictionaries gives the reserved book or the first refusal |
| `SharedPortfolio.Release` | src/triggertrade/research_v1_execution.py:207-226 | editing the copied dictionaries gives the released book or the first refusal |
| `SharedPortfolio.ReservedInNumbers` | src/triggertrade/research_v1_execution.py:185-205 | a reservation is accepted exactly within the coin's share, the usable capital and both slot limits, and adds its amount and one slot to that coin only |
| `SharedPortfolio.FirstPresentAmountDecides` | src/triggertrade/research_v1_execution.py:945-955 | the first present of the three amount fields decides, and is accepted exactly when it is positive |
| `SharedPortfolio.EventsInWords` | src/triggertrade/research_v1_execution.py:238-270 | exactly the listed actions with a listed source reserve, the listed actions with CLOSED finality release, and every other event is refused |
| `SharedPortfolio.ApplyEvents` | src/triggertrade/research_v1_execution.py:238-270 | the event loop is the run of its single steps and stops at the first refusal |
| `SharedPortfolio.AcceptedIffFits` | src/triggertrade/research_v1_execution.py:185-205 | a batch of reservations is accepted exactly when its final totals meet every cap and limit, and is then added up |
| `SharedPortfolio.ReservationsAreOrderFree` | src/triggertrade/research_v1_execution.py:185-205 | every permutation of a batch is accepted alike and ends in the same book |
| `SharedPortfolio.ReserveThenReleaseRestores` | src/triggertrade/research_v1_execution.py:185-226 | releasing what was reserved restores the book exactly when no stored entry of the symbol was dead |
| `SharedPortfolio.RunIsSafe` | src/triggertrade/research_v1_execution.py:238-270 | accepted runs keep a safe book safe, and each commitment is its reserves minus its releases; the slots follow `SlotsAfterRun` |
| `SharedPortfolio.RunFromEmptyBook` | src/triggertrade/research_v1_execution.py:143-226 | from an empty book commitments stay within their caps, slots within both limits, and no dead entries appear |
| `SharedPortfolio.SlotsAfterRun` | src/triggertrade/research_v1_execution.py:204-225 | after an accepted run a coin holds its first slots plus reserves minus releases, plus the most by which releases ever overran them; amounts play no part |
| `SharedPortfolio.StepKeepsHeld` | src/triggertrade/research_v1_execution.py:221-225 | a step leaves every committed coin with a slot exactly when it is not a release that leaves capital behind and takes the last slot |
| `SharedPortfolio.HeldIffReleasesLeaveSlots` | src/triggertrade/research_v1_execution.py:238-270 | along an accepted run every committed coin holds a slot throughout exactly when every release meets that guard |
| `SharedPortfolio.PartReleasesPassTheSlotLimit` | src/triggertrade/research_v1_execution.py:207-226 | reserving 10 and releasing 3 leaves 7 committed without a slot, and with a limit of one slot a second reservation is accepted |
| `PortfolioGrants.GateLog.Record` | src/triggertrade/portfolio_grants.py:303-322 | one gate is stored under its id with its details and availability, and its reason is appended exactly when it does not pass |
| `PortfolioGrants.EvaluatePortfolioGrant` | src/triggertrade/portfolio_grants.py:98-263 | recording the gates in order gives the evaluation that `BucketGrants` describes exactly, gate details and availability included |
| `BucketGrants.GrantsExactly` | src/triggertrade/portfolio_grants.py:98-263 | an amount is granted exactly for a live portfolio that knows the coin, when it is the whole units of an equal share of the coin's free capital for each free slot and every gate's own inequality on the raw buckets holds |
| `BucketGrants.AllowedStaysInside` | src/triggertrade/portfolio_grants.py:340-346 | a granted amount with held, reserved, filled and closing capital stays within the cap, on the coin and globally, and so do the slots |
| `BucketGrants.TranchesUseTheCoin` | src/triggertrade/portfolio_grants.py:139-151 | one tranche for each free slot uses up the coin's free capital to within one unit per slot |
| `BucketGrants.OnlyTotalsMatter` | src/triggertrade/portfolio_grants.py:340-346 | moving capital from one bucket to another leaves the whole evaluation unchanged |
| `BucketGrants.GatesInWords` | src/triggertrade/portfolio_grants.py:153-231 | which gates are recorded, what each compares on the raw buckets, and the reason and details it shows |
| `BucketGrants.CapitalFloorIsExact` | src/triggertrade/numeric_policy.py:124-125 | an amount's capital floor is the one whole number of 10^-12 units within it by less than a unit |
| `PortfolioGrants.EveryGatePassesIffNoReasons` | src/triggertrade/portfolio_grants.py:158-231 | there are no reasons exactly when every recorded gate passes |
| `PortfolioGrants.AllowedIffEveryGateIsOpen` | src/triggertrade/portfolio_grants.py:117-263 | a grant is allowed exactly when the portfolio is live, knows the coin and every gate is open; a missing candidate is always a block |
| `PortfolioGrants.BlockedReasonCanBePass` | src/triggertrade/portfolio_grants.py:158-173 | exactly when a block carries PASS as its primary reason |
| `PortfolioGrants.SomeBlockSaysPass` | src/triggertrade/portfolio_grants.py:158-173 | a failing loss gate without a reason of its own blocks an otherwise open coin with PASS |
| `PortfolioGrants.AllowedGrantIsSubmittable` | src/triggertrade/submit_authorizations.py:82-89 | an allowed grant accepts exactly the submissions up to its requested amount, against its own floored fields |
| `PortfolioGrants.TranchesDivideTheCoin` | src/triggertrade/portfolio_grants.py:139-151 | held tranches never decrease, fund every slot, never exceed the free coin capital and leave less than 10^-12 |
| `OrderConstruction.EntryIsPassive` | src/triggertrade/research_v2_execution.py:477-479 | the entry is on the grid, a tenth of the ATR away on the passive side, by less than one more tick |
| `OrderConstruction.TargetIsTwiceTheRisk` | src/triggertrade/research_v2_execution.py:520-522 | rounding the target is a no-op, so it lies exactly two risks from the entry |
| `OrderConstruction.StopMeetsMinimum` | src/triggertrade/research_v2_execution.py:482-517 | a stop on the protective side is on the grid and never nearer than its profile's minimum; `OrderTerms.StopIsExact` places it |
| `OrderConstruction.AcceptedStopNeedsPositiveEntry` | src/triggertrade/research_v2_execution.py:529-556 | the geometry check leaves only positive entry prices |
| `OrderConstruction.BindingAttainsTheTarget` | src/triggertrade/research_v2_execution.py:398-407 | the target notional is the least of the six allowances, and the binding constraint attains it |
| `OrderConstruction.SizingIsSafe` | src/triggertrade/research_v2_execution.py:382-441 | the five checks after rounding never reject, and a passed sizing stays inside the grant, the target and the trade's risk limit, in whole lots, at most the venue's maximum, at least its notional floor and the minimum tranche |
| `OrderConstruction.MinimumHoldsExactly` | src/triggertrade/research_v2_execution.py:408-412 | a passed quantity reaches the venue's minimum exactly when the largest lot within the venue's maximum does |
| `OrderConstruction.SomePassedQuantityIsTooSmall` | src/triggertrade/research_v2_execution.py:408-412 | lots of one, at least 1.2 and at most 1.5: a target of five passes with a quantity of one |
| `OrderConstruction.NetFractionIgnoresQuantity` | src/triggertrade/research_v2_execution.py:443-474 | the net target fraction depends on prices and cost rates only, never on the quantity |
| `OrderConstruction.ConstructedOrdersAreGood` | src/triggertrade/research_v2_execution.py:158-278 | constructed orders have ordered grid prices, a stop within bounds and a reward of two risks, and stay inside the grant and the venue's lots; the rejections that exact arithmetic rules out never occur |
| `OrderTerms.ConstructsExactly` | src/triggertrade/research_v2_execution.py:158-278 | an order with given entry, stop and quantity is constructed exactly when the portfolio's limits are open, the prices and the quantity are those described by the profile's own numbers, the stop is within its ceiling and enough is left after fees |
| `OrderTerms.EntryIsExact` | src/triggertrade/research_v2_execution.py:477-479 | the entry is the grid price a tenth of the ATR on the passive side of the reference or less than one tick further |
| `OrderTerms.StopIsExact` | src/triggertrade/research_v2_execution.py:482-517 | the stop is the grid price at the wanted distance or less than one tick further, in both families |
| `OrderTerms.AtrStopDistance` | src/triggertrade/research_v2_execution.py:493-499 | an ATR stop lies at the ATR multiple when that is between floor and ceiling, at the floor below it, at the ceiling above it, and less than one tick further |
| `OrderTerms.HybridStopRefusals` | src/triggertrade/research_v2_execution.py:500-517 | exactly why no hybrid stop is placed, and that a placed one lies at least the buffer beyond the structural reference |
| `OrderTerms.GrantIsExact` | src/triggertrade/research_v2_execution.py:101-155 | a grant is given exactly when every slot and amount has something left, and states what is left |
| `OrderTerms.RefusalIsFirst` | src/triggertrade/research_v2_execution.py:101-155 | a blocked grant names the first limit that is used up |
| `OrderTerms.TargetIsGreatest` | src/triggertrade/research_v2_execution.py:382-407 | the target is the greatest position that the trade's risk, the margins and the portfolio's limits can afford |
| `OrderTerms.LotIsExact` | src/triggertrade/research_v2_execution.py:408-412 | the quantity before the venue's maximum is the most whole lots that can be afforded |
| `OrderTerms.SizingIsExact` | src/triggertrade/research_v2_execution.py:382-441 | a sizing passes with a quantity exactly when it is that lot, capped, and reaches the venue's and the profile's minimum; its amounts follow from it |
| `OrderTerms.SizingRefusals` | src/triggertrade/research_v2_execution.py:382-441 | each rejection of a sizing, exactly, in the order of the checks |
| `OrderTerms.OrderFigures` | src/triggertrade/research_v2_execution.py:158-278 | what a constructed order reports: target price, notional, margin, stop risk and net reward |
| `OrderTerms.RunAddsUp` | src/triggertrade/research_v2_execution.py:101-155 | after any run of attempts the exposure is what it was plus what the placed orders add, in total and on every coin |
| `OrderConstruction.PlaceKeepsCaps` | src/triggertrade/research_v2_execution.py:101-155 | adding a constructed order's actual amounts keeps every cap and slot limit |
| `OrderConstruction.RunKeepsCaps` | src/triggertrade/research_v2_execution.py:101-155 | over any run on any coins every portfolio cap and slot limit keeps holding |
| `Cooldown.ReplayIsIdempotent` | src/triggertrade/portfolio_cooldown.py:96-163 | applying an event twice is applying it once |
| `Cooldown.RevisionNeverDecreases` | src/triggertrade/portfolio_cooldown.py:99-102 | over any run the last revision never decreases and the attempt stays the same |
| `Cooldown.RunCoversItsEvents` | src/triggertrade/portfolio_cooldown.py:99-102 | the pin's revision covers every event of its run, so older events are stale afterwards |
| `Cooldown.StaleEventsChangeNothing` | src/triggertrade/portfolio_cooldown.py:99-102 | an event older than the pin changes nothing |
| `Cooldown.ActiveIsAlwaysPinned` | src/triggertrade/portfolio_cooldown.py:131-140 | active always means until equals the accepted time plus the pinned duration |
| `Cooldown.ConflictPersists` | src/triggertrade/portfolio_cooldown.py:103-121 | a conflict persists until an event with RESOLVED integrity |
| `Cooldown.ConflictEndsExactly` | src/triggertrade/portfolio_cooldown.py:103-163 | exactly which event ends a conflict |
| `Cooldown.ConflictEventsConflict` | src/triggertrade/portfolio_cooldown.py:103-121 | any current conflict event ends in a conflict without an end, and keeps the accepted time of a conflict it does not resolve |
| `Cooldown.UnavailableAcceptance` | src/triggertrade/portfolio_cooldown.py:122-163 | without a conflict, an unavailable acceptance makes the pin unresolved in the six lifecycles that may still fill, and changes no state in any other |
| `Cooldown.CurrentEventsAreRecorded` | src/triggertrade/portfolio_cooldown.py:96-163 | every current event leaves its id and revision, and only a zero-fill cancellation sets the time of clearing |
| `Cooldown.RefusedExactly` | src/triggertrade/portfolio_cooldown.py:96-163 | exactly which events are refused |
| `Cooldown.CancellationClears` | src/triggertrade/portfolio_cooldown.py:103-130 | a current zero-fill cancellation clears the pin exactly when it reports no conflict and resolves the one it may find |
| `Cooldown.GateIsExact` | src/triggertrade/portfolio_cooldown.py:166-182 | the gate passes exactly when no pin of the symbol is unresolved or still cooling down, and a block names the greatest end |
| `Cooldown.NeverPassesEarly` | src/triggertrade/portfolio_cooldown.py:96-182 | after a proven acceptance at a, without a zero-fill cancellation or another accepted time, the gate never passes before a + duration |
| `AccountingDay.ConstructionIsHealthy` | src/triggertrade/portfolio_accounting_day.py:80-108 | construction refuses malformed times, yields canonical texts, leaves a healthy day unchanged and never fails to format |
| `AccountingDay.MetricsEffect` | src/triggertrade/portfolio_accounting_day.py:295-314 | metrics are accepted exactly when their texts are decimals; the total becomes realized plus unrealized and nothing else changes |
| `AccountingDay.FinalEffect` | src/triggertrade/portfolio_accounting_day.py:317-328 | a final result adds its amount to realized and to the total, and changes nothing else |
| `AccountingDay.LatchEffect` | src/triggertrade/portfolio_accounting_day.py:376-381 | the latch is set once and then left as it is |
| `AccountingDay.RunStaysBalanced` | src/triggertrade/portfolio_accounting_day.py:295-381 | over any run a total equals realized plus unrealized, realized is the sum of the results, and formatting never fails |
| `AccountingDay.RealizedIsOrderFree` | src/triggertrade/portfolio_accounting_day.py:317-328 | the same actions in any order are accepted alike and end with the same realized text |
| `AccountingDay.RunAcceptedIff` | src/triggertrade/portfolio_accounting_day.py:295-381 | a run is accepted exactly when each of its actions is acceptable on its own, whatever the day holds |
| `AccountingDay.LatchKeepsItsFirstReason` | src/triggertrade/portfolio_accounting_day.py:376-381 | a set latch keeps its time and reason over any run |
| `AccountingDay.FirstLatchWins` | src/triggertrade/portfolio_accounting_day.py:376-381 | the latch of a run is that of its first latch action |
| `AccountingDay.GateTripsExactly` | src/triggertrade/portfolio_accounting_day.py:331-373 | the loss gate trips exactly when realized is at most minus base times percentage over 100, and reports that limit |
| `AccountingDay.GateWithoutFigures` | src/triggertrade/portfolio_accounting_day.py:331-361 | a disabled gate passes; a latch blocks it with the latched reason, and an unproven base makes it unavailable |
| `AccountingDay.CapacityPassesExactly` | src/triggertrade/portfolio_accounting_day.py:384-425 | capacity passes exactly when the request fits both remaining caps and both slots remain, and the remainders are reported exactly |
| `AccountingDay.AnswersExactly` | src/triggertrade/portfolio_accounting_day.py:384-425 | the capacity gate answers exactly when the symbol has an allocation, its texts are decimals and the request is not negative |
| `AccountingDay.CapacityReasonIsFirst` | src/triggertrade/portfolio_accounting_day.py:401-425 | a block names the first of the four limits that fails, and remaining slots are never negative |
| `FuturesAccounting.FundingAmount` | src/triggertrade/accounting/futures.py:380-396 | the loop with its seen set computes the funding or the first fault |
| `FuturesAccounting.FundingIffClean` | src/triggertrade/accounting/futures.py:380-396 | funding is accepted exactly when every event belongs to the trade and none repeats, and is then the plain sum |
| `FuturesAccounting.AcceptedIffAcceptable` | src/triggertrade/accounting/futures.py:162-206 | a close is accepted exactly when all fills and funding belong together, are positive, and the exit is not larger than the entry |
| `FuturesAccounting.VwapInRange` | src/triggertrade/accounting/futures.py:135-143 | a VWAP lies between the lowest and the highest fill price |
| `FuturesAccounting.CloseTimes` | src/triggertrade/accounting/futures.py:203-204 | a trade opens at its first entry fill and closes at its last exit fill |
| `FuturesAccounting.CloseReports` | src/triggertrade/accounting/futures.py:185-206 | a close reports the closed quantity, both averages, the exit fees, the funding, and the direction, symbol and source that all its fills share |
| `FuturesAccounting.PartialClosesAddUp` | src/triggertrade/accounting/futures.py:185-206 | however an accepted close is cut into parts, every part closes and gross, fees, funding and net add up |
| `FuturesAccounting.AnySplitAddsUp` | src/triggertrade/accounting/futures.py:185-206 | the same for parts that take the fills and funding events in any order |
| `FuturesAccounting.FullCloseIsCashFlow` | src/triggertrade/accounting/futures.py:146-206 | a full close nets to the signed cash flow minus all fees plus funding |
| `FuturesAccounting.MaxDrawdownIsGreatestLoss` | src/triggertrade/accounting/futures.py:262-294 | the streaming maximum drawdown is the greatest loss from any earlier or equal point of the series |
| `FuturesAccounting.LastDrawdown` | src/triggertrade/accounting/futures.py:262-294 | the last drawdown is what the last equity lacks of the greatest so far, in percent of it |
| `HorizonFile.ValidateHorizonFile` | tools/direction_labels/validate_v2_gpt6pro_canonical.py:74-122 | a file is accepted exactly when its keys are the sorted symbols crossed with the origin grid, its rows are well formed and its counts are the expected ones |
| `HorizonFile.KeysOkIffProduct` | tools/direction_labels/validate_v2_gpt6pro_canonical.py:86-98 | the row-by-row key checks accept exactly the full grid in order |
| `HorizonFile.TallyIsCount` | tools/direction_labels/validate_v2_gpt6pro_canonical.py:100-113 | the counter holds the number of rows of each status and label, and no other entries |
| `Reconciliation.ReconcileOutputs` | tools/direction_labels/validate_v2_gpt6pro_canonical.py:157-215 | outputs are accepted exactly when horizon files and diagnostics are projections of the wide file, the unavailable list is its UNAVAILABLE entries, and nothing is left over |
| `Reconciliation.CheckSemantics` | tools/direction_labels/validate_v2_gpt6pro_canonical.py:125-139 | a VALID diagnostic is accepted exactly when its label follows its two passes, never both, and predicate 4 and the opposing and material phases of the sides agree |
| `Reconciliation.MissingRowsAreFiltered` | tools/direction_labels/validate_v2_gpt6pro_canonical.py:203-209 | the unavailable list holds the UNAVAILABLE entries in order and only those |
| `Reconciliation.HorizonFilesDetermineTheWideFile` | tools/direction_labels/validate_v2_gpt6pro_canonical.py:190-200 | accepted horizon files determine the wide file and the unavailable list |

## Left out

- MergePages: the checks that look at one page alone (symbol, selector, interval, coverage, endpoint tokens) appear as a fault that the page carries, because only the checks that span pages and rows bear on the order.
- AggregateCompletedCandles: candle ids and aggregation digests are represented by the constituent candles themselves, and the candidate filter on symbol, category and OHLC sanity before it is not modelled.
- EvaluatePath: values are exact reals, so the NUMERICAL_ERROR results of binary64 cannot occur; the `*_utc` fields and the constant list of comparison types are not carried.
- WilderAtrSeries: Decimal's 28-digit context is not modelled; the same holds for the other components that compute in Decimal.
- ConstructedOrdersAreGood: order identifiers, expiry text and the payload check at the end of construction are not carried; positive tick, step and leverage and ordered stop fractions stand for a usable profile.
- EvaluatePortfolioGrant: contract validity of the approved decision and of the built grant is taken as given.
- ApplyEvents: symbols are already upper-case, and an absent dictionary is an empty one.
- GateIsExact: times are integers, so comparing timestamps as text is not modelled.
- ConstructionIsHealthy: whether a text is an RFC 3339 time, and which instant it names, is given with the text instead of parsed from it.
- ValidateHorizonFile: the origin text of each position is given as a strictly increasing grid; column presence and batch reading of Parquet files are not part of this model.
- The UTF-8 step, lone surrogates and Python's limit on the digits of an integer text in canonical JSON.
- SHA-256 and every identifier derived from it.
- Contract schema parsing, the set engine, stores, exchange access, command lines and dashboards.
- `math.log` and `math.sqrt` in building z values; evaluation starts from given z values.
- The generation summary check and the manifest and hash checks of the label validator, which compare finite constants.
- Unrealized P&L and slippage figures, which are single expressions over the sums modelled here.
