# DICD measurement management: SPC engine, spec table and report-page state

This project models the computational core of a DICD measurement management system. The model covers:

- **Control charts and Nelson rules** (`backend/services/spc.py`, module `Spc`):
  - control limits cl ± 3σ, rounded to three decimals before the scans use them;
  - eight sliding-window pattern rules, as the code writes them;
  - the per-target SPC analysis that shapes the result for no data, data without a spec, and
    data with a spec.
- **Process statistics** (`backend/services/statistics.py`, module `Statistics`):
  - mean, standard deviation, minimum, maximum and range;
  - the capability indices Cp, Cpk, Cpu, Cpl, Pp and Ppk, with Python's `inf` as an explicit
    `Unbounded` index;
  - the per-target process-statistics report.
- **The database layer** (`backend/database/crud.py`, module `Crud`), as a class `Database`
  whose tables are sequences:
  - measurement rows with their derived statistics, rounded to three decimals half-to-even;
  - the spec-violation notification;
  - the spec table's one-active-spec-per-target policy;
  - the spec check of a measurement, duplicate detection, and the equipment type and deletion
    guards.
- **The front end's SPEC classifier** (`frontend/js/config.js`, module `Config`).
- **The report page's managers** (`frontend/js/recipients.js`, module `Recipients`):
  - recipients, with the e-mail pattern and case-insensitive de-duplication;
  - report settings;
  - sending history capped at twenty entries;
  - the page's subject formatter.
- **The trend report's target list** (`frontend/js/trend_report.js`, module `TrendReport`).
- **The mailer's subject formatter** (`backend/services/email_sender.py`, module `EmailSender`).

Shared modules:

- `Models` holds the five die positions, the measurement and spec records, and the query
  helpers: the measurements of a target, and its first active spec.
- `Text` holds substring search, JavaScript's first-occurrence `replace` (for a replacement
  holding no `$`), Python's every-occurrence `str.replace`, and ASCII lower-casing.
- `Seqs` holds filtering and first-match search.
- `Wrappers` holds `Option` and `Result`.

Three numeric choices run through the model:

- Values are `real`.
- The sample standard deviation has no closed form without a square root. A function takes it
  as a parameter `sd` tied to the data by `IsStdDev`: `sd >= 0` and `sd * sd` is the Bessel-corrected
  sample variance. The orchestrators take one such σ per series (`SigmaFits`).
- Python `None` is `Option.None`.

The Nelson scans, the report assembly and every state change are methods with loops or field
updates. Each is proved equal to a specification function: `RuleFindings`, `NelsonFindings`,
`AnalysisOf`, `StatisticsOf`, `CapabilityOf`, `WithSpecCreated` and so on. The lemmas then
state what those functions mean:

- soundness and completeness of every reported finding;
- ordering and per-rule counts;
- the single-active-spec invariant;
- the round-off behaviour of stored statistics.

Rules 5 and 6 follow the code, not the textbook Nelson rules:

- Rule 5 is two of two points beyond 2σ (the textbook has two of three).
- Rule 6 is four of four points beyond 1σ (the textbook has four of five).

Rule 4 counts a tie as a fall.

## Model

| member | source | states |
|---|---|---|
| Spc.CalculateControlLimits | backend/services/spc.py:7-32 | fewer than two values give cl, ucl and lcl all None; otherwise cl lies within 0.0005 of the mean, ucl and lcl within 0.0005 of mean ± sigma_level·σ, and lcl ≤ cl ≤ ucl for a non-negative sigma level |
| Spc.LimitsInThousandths | backend/services/spc.py:28-32 | the returned limits are whole numbers of thousandths |
| Spc.LimitsCollapse | backend/services/spc.py:19-32 | a sigma level of 0 or all-equal values make the upper and lower limits coincide; coinciding limits mean sigma_level·σ is at most 0.0005, since rounding merges a narrower band |
| Spc.WindowCount | backend/services/spc.py:64-130 | a rule with window width L over n values has n − L + 1 candidate start positions when L ≤ n + 1, and none otherwise |
| Spc.RuleFindings | backend/services/spc.py:53-137 | one rule's findings over the first k start positions: at most k of them, all of that rule, at positions below k, strictly ascending |
| Spc.ConcatOrdered | backend/services/spc.py:53-139 | one rule's ascending block followed by the ordered findings of later rules is ordered by (rule, position) |
| Spc.AllRules | backend/services/spc.py:53-139 | the findings of rules from a given number on carry rule numbers at least that number, ordered by rule and then by position |
| Spc.RuleFindingsSound | backend/services/spc.py:53-137 | a finding of one rule lies at a start position whose window fits and on which the rule's predicate holds, and carries that position's detail |
| Spc.AllRulesSound | backend/services/spc.py:53-139 | every finding of the combined scan is justified by its rule's predicate on a window inside the series |
| Spc.FindingsSound | backend/services/spc.py:38-139 | fewer than nine values give no findings; every finding is justified; the findings are ordered by rule, then by position, with at most one per (rule, position) |
| Spc.RuleFindingsComplete | backend/services/spc.py:53-137 | every start position below k where the rule's predicate holds is reported by that rule |
| Spc.AllRulesComplete | backend/services/spc.py:53-139 | every window on which a rule's predicate holds is reported by the combined scan |
| Spc.ZonesOf | backend/services/spc.py:41-48 | σ recovered as (ucl − cl)/3 and the zone A and B bounds cl ± 2σ, cl ± σ; no contract of its own; stated by Rule7ExcludesRule8 and, through Fires, by FindingIff |
| Spc.Fires | backend/services/spc.py:53-139 | the window condition of each of the eight rules; no contract of its own; stated by RuleFindingsSound, RuleFindingsComplete, FindingIff, Rule1Exact and Rule4Alternates |
| Spc.NelsonFindings | backend/services/spc.py:34-139 | no findings below nine values, else the eight rules' findings in rule order; no contract of its own; stated by FindingsSound, FindingIff and DetectNelsonRules |
| Spc.FindingIff | backend/services/spc.py:38-139 | for nine or more values, a rule is reported at position i if and only if its window starting at i fits and its predicate holds there |
| Spc.Rule1Exact | backend/services/spc.py:54-61 | a rule-1 finding carrying values[i] exists at i if and only if values[i] > ucl or values[i] < lcl |
| Spc.OrderedCountBound | backend/services/spc.py:53-139 | in an ordered list of findings, a rule whose positions lie in [lo, hi) occurs at most hi − lo times |
| Spc.RuleCount | backend/services/spc.py:53-137 | each rule of width L is reported at most n − L + 1 times |
| Spc.Rule4Alternates | backend/services/spc.py:84-91 | when rule 4 fires at i, step j has the direction of step 0 for even j and the opposite for odd j, a tie counting as a fall |
| Spc.Rule3ExcludesRule4 | backend/services/spc.py:73-97 | rules 3 and 4 never fire at the same start position |
| Spc.Rule7ExcludesRule8 | backend/services/spc.py:119-137 | rules 7 and 8 never fire at the same start position |
| Spc.ScanRule1 | backend/services/spc.py:53-61 | the rule-1 loop returns exactly that rule's findings |
| Spc.ScanRule2 | backend/services/spc.py:63-71 | the rule-2 loop returns exactly that rule's findings |
| Spc.ScanRule3 | backend/services/spc.py:73-81 | the rule-3 loop returns exactly that rule's findings |
| Spc.Rule4Window | backend/services/spc.py:85-90 | the flag-and-break loop reports alternation if and only if no two adjacent steps of the 14-point window are equal |
| Spc.ScanRule4 | backend/services/spc.py:83-97 | the rule-4 loop returns exactly that rule's findings |
| Spc.ScanRule5 | backend/services/spc.py:99-107 | the rule-5 loop (two of two beyond 2σ) returns exactly that rule's findings |
| Spc.ScanRule6 | backend/services/spc.py:109-117 | the rule-6 loop (four of four beyond 1σ) returns exactly that rule's findings |
| Spc.ScanRule7 | backend/services/spc.py:119-127 | the rule-7 loop returns exactly that rule's findings |
| Spc.ScanRule8 | backend/services/spc.py:129-137 | the rule-8 loop returns exactly that rule's findings |
| Spc.DetectNelsonRules | backend/services/spc.py:34-139 | the pattern list is the specification's ordered, sound and complete findings, empty below nine values |
| Spc.AnalyzeSeries | backend/services/spc.py:168-178 | a series gets its control limits, and patterns exactly when the centre line exists |
| Spc.PositionAnalysis | backend/services/spc.py:181-203 | every one of the five positions gets its control limits; a position has patterns if and only if its limits exist |
| Spc.AnalyzeSpc | backend/services/spc.py:141-234 | no measurements give the bare notice with sample count 0; otherwise the analysis of the measurements; the spec key is present if and only if the target has an active spec, holding its limits |
| Spc.ShortSeriesHaveNoPatterns | backend/services/spc.py:168-203 | an analysis of fewer than nine measurements has no patterns, and one of fewer than two has no limits and no position patterns |
| Statistics.Min | backend/services/statistics.py:22 | the minimum is one of the values and no value is below it |
| Statistics.Max | backend/services/statistics.py:23 | the maximum is one of the values and no value is above it |
| Statistics.SumBounds | backend/services/statistics.py:20 | the sum of values between lo and hi lies between n·lo and n·hi |
| Statistics.Mean | backend/services/statistics.py:20 | `statistics.mean`, the sum over the count; no contract of its own; stated by MeanWithinRange, MeanOfConstant and CalculateBasicStatistics |
| Statistics.SampleVariance | backend/services/statistics.py:21 | `statistics.variance`, squared deviations over n − 1; no contract of its own; stated by SumSquaredDeviations, ZeroSquaredDeviations and StdDevZeroIffConstant |
| Statistics.IsStdDev | backend/services/statistics.py:21 | `sd` is `statistics.stdev`: non-negative with square equal to the sample variance; no contract of its own; stated by StdDevZeroIffConstant and ReportedStdDev |
| Statistics.MeanWithinRange | backend/services/statistics.py:20-23 | the mean lies between the minimum and the maximum |
| Statistics.SumOfConstant | backend/services/statistics.py:20 | n copies of c sum to n·c |
| Statistics.MeanOfConstant | backend/services/statistics.py:20 | the mean of equal values is that value |
| Statistics.SquareSign | backend/services/statistics.py:21 | a square is non-negative, and zero only for zero |
| Statistics.SumSquaredDeviations | backend/services/statistics.py:21 | the sum of squared deviations is non-negative |
| Statistics.SquaredDeviationsOfConstant | backend/services/statistics.py:21 | values all equal to m have zero squared deviation from m |
| Statistics.ZeroSquaredDeviations | backend/services/statistics.py:21 | zero squared deviation from m means every value equals m |
| Statistics.StdDevZeroIffConstant | backend/services/statistics.py:21 | the sample standard deviation is zero if and only if all values are equal |
| Statistics.ReportedStdDev | backend/services/statistics.py:21 | the reported deviation (σ for two or more values, 0 for one) is non-negative and zero exactly for constant data |
| Statistics.CalculateBasicStatistics | backend/services/statistics.py:7-32 | empty input gives all five fields None; otherwise avg is the mean, std_dev is the sample standard deviation `sd` (with `IsStdDev`, `sd²` is the Bessel-corrected variance) for two or more values and 0 for one, min and max are attained bounds of the data, min ≤ avg ≤ max, range = max − min, and std_dev is non-negative and zero exactly for constant data |
| Statistics.MinIndex | backend/services/statistics.py:59 | the smaller of two indices, an unbounded index being above every finite one |
| Statistics.CalculateProcessCapability | backend/services/statistics.py:34-72 | fewer than two values give the empty result; otherwise pp = cp and ppk = cpk; each of cp, cpu, cpl and cpk is unbounded exactly for constant data; cpk is the smaller of cpu and cpl |
| Statistics.CapabilityRelations | backend/services/statistics.py:54-59 | for σ > 0: cp = (usl−lsl)/6σ, cpu = (usl−avg)/3σ, cpl = (avg−lsl)/3σ, cpu + cpl = 2·cp, hence cpk ≤ cp |
| Statistics.CpkNegativeIffMeanOutside | backend/services/statistics.py:57-59 | for σ > 0, cpk is negative exactly when the mean lies outside [lsl, usl] |
| Statistics.PositionStatistics | backend/services/statistics.py:122-125 | exactly the five positions, each with its own column's basic statistics |
| Statistics.PositionCapability | backend/services/statistics.py:136-139 | exactly the five positions, each with its own column's capability |
| Statistics.CollectValues | backend/services/statistics.py:88-104 | the loop gathers the stored averages and, per position, that position's readings, in measurement order |
| Statistics.CapabilitySection | backend/services/statistics.py:127-139 | spec, process capability and position capability are present if and only if there is an active spec; spec.target is (lsl + usl)/2 |
| Statistics.GetProcessStatistics | backend/services/statistics.py:74-140 | the report on the target's measurements: sample count, overall and per-position statistics, and the capability part exactly when the target has an active spec |
| Statistics.Report | backend/services/statistics.py:115-140 | the result assembled from gathered values is the statistics and capability of those measurements |
| Models.Readings.Values | backend/database/crud.py:122-128 | the five readings in the order top, center, bottom, left, right |
| Models.Column | backend/services/spc.py:164 | one entry per measurement, the chosen series' value of that measurement |
| Models.ColumnSnoc | backend/services/statistics.py:98-104 | appending a measurement appends its value to every column |
| Models.MeasurementsOf | backend/services/spc.py:149-154 | exactly the rows of the target, never more rows than the table |
| Models.ActiveSpecOf | backend/database/crud.py:387-391 | an active spec of the target if there is one, and None exactly when the target has no active spec |
| Statistics.RoundHalfEven | backend/database/crud.py:152-156 | the rounded integer is within one half of the argument |
| Statistics.RoundHalfEvenOfInteger | backend/database/crud.py:152-156 | rounding leaves integers unchanged |
| Statistics.RoundHalfEvenMonotone | backend/database/crud.py:152-156 | rounding preserves order |
| Statistics.Round3 | backend/services/spc.py:29-31 | rounding to three decimals moves a value by at most 0.0005 |
| Statistics.Round3OfThousandths | backend/database/crud.py:152-156 | a multiple of 0.001 is unchanged by rounding |
| Statistics.Round3Idempotent | backend/database/crud.py:262-265 | rounding twice is rounding once |
| Statistics.Round3Monotone | backend/database/crud.py:152-156 | rounding to three decimals preserves order |
| Statistics.Round3Difference | backend/database/crud.py:265 | the difference of two rounded values needs no further rounding |
| Crud.ReadingListed | backend/database/crud.py:122-128 | each position's reading is among the five values |
| Crud.RoundedReadingsWithinBounds | backend/database/crud.py:130-133 | every rounded reading lies between the rounded minimum and the rounded maximum |
| Crud.DerivedOnCreate | backend/database/crud.py:130-134 | stored min ≤ avg ≤ max, range and std_dev non-negative, every rounded reading within [min, max], avg within 0.0005 of the true mean |
| Crud.ExtremesAreReadings | backend/database/crud.py:131-132 | the minimum and the maximum of the five values are readings at some position |
| Crud.DerivedOnCreateValues | backend/database/crud.py:130-156 | the stored min and max are the least and greatest rounded readings, each taken at some position; the stored range is within 0.0005 of max − min of the readings, the stored std_dev within 0.0005 of σ; every stored value is a whole number of thousandths |
| Crud.DerivedOnUpdate | backend/database/crud.py:262-266 | the updated row's range is its stored max minus stored min, and every other derived field is as on creation |
| Crud.RangeDependsOnPath | backend/database/crud.py:133-155 | one set of readings stores range 0.001 when created but 0.0 when updated, and on creation the stored range differs from the stored max minus the stored min |
| Crud.ViolationIffSomePositionOutOfSpec | backend/database/crud.py:170-187 | a violation is raised if and only if there is an active spec and some reading is < lsl or > usl |
| Crud.AllReadingsInSpec | backend/database/crud.py:344 | testing the five listed values agrees with testing the five positions |
| Crud.SpecStatusOf | backend/database/crud.py:314-347 | no active spec gives the bare not-found status; otherwise the spec's limits, each position's value with the inclusive in-spec test, the stored average likewise, and all_in_spec as the conjunction over the five readings |
| Crud.ViolationIffNotAllInSpec | backend/database/crud.py:181 | under an active spec, a violation is raised exactly when all_in_spec is false |
| Crud.SpecIndex | backend/database/crud.py:394 | the position of a spec with the id, or None exactly when no spec has it |
| Crud.WithSpecCreated | backend/database/crud.py:350-369 | the new active row is appended; the target's other rows are switched off; other targets' rows are unchanged |
| Crud.CreateSpecProperties | backend/database/crud.py:350-369 | after creation the new row is the target's only active spec, and one-active-per-target is preserved |
| Crud.WithSpecActivated | backend/database/crud.py:408-423 | the chosen row is switched on, the target's rows with other ids off, other targets untouched, only flags change |
| Crud.ActivateSpecProperties | backend/database/crud.py:408-423 | after activation the chosen row is its target's only active spec, and one-active-per-target is preserved |
| Crud.WithSpecUpdated | backend/database/crud.py:393-406 | the row takes the new target, limits and reason; no flag changes; every other row is unchanged |
| Crud.UpdateSpecSingleActiveIff | backend/database/crud.py:393-406 | the update as written keeps one-active-per-target if and only if the edited spec is inactive or the new target has no other active spec |
| Crud.UpdateSpecBreaksSingleActive | backend/database/crud.py:393-406 | two targets with one active spec each; moving the second spec onto the first target leaves that target with two active specs |
| Crud.WithSpecUpdatedCorrected | backend/database/crud.py:393-406 | the edited row takes the new fields; when it is active, other specs of the new target are switched off; for an inactive spec it is the update as written |
| Crud.UpdateSpecCorrectedKeepsSingleActive | backend/database/crud.py:393-406 | the corrected update always keeps one-active-per-target, and equals the as-written update whenever that one does |
| Crud.DeleteSpecKeepsInvariants | backend/database/crud.py:425-431 | deleting a row keeps one-active-per-target and fresh ids |
| Crud.SpecTransitionsKeepFreshIds | backend/database/crud.py:350-423 | creation with the next id, activation and update all keep every id below the id counter |
| Crud.WithReading | backend/database/crud.py:250-251 | setting one position's reading leaves the other four unchanged |
| Crud.Patched | backend/database/crud.py:250-251 | the sent fields assigned one after another with setattr; no contract of its own; stated by UnsetFieldsKept and LastSetReadingWins |
| Crud.UnsetFieldsKept | backend/database/crud.py:250-251 | fields not sent in the update keep their stored values |
| Crud.LastSetReadingWins | backend/database/crud.py:250-251 | a position's reading is the last value the update assigns to it |
| Crud.MeasurementIndex | backend/database/crud.py:246 | the position of a measurement with the id, or None exactly when no row has it |
| Crud.EquipmentIndex | backend/database/crud.py:465 | the position of equipment with the id, or None exactly when no row has it |
| Crud.Database.NotifyViolation | backend/database/crud.py:164-187 | one notification is appended exactly when a reading breaks the target's active spec |
| Crud.Database.CreateMeasurement | backend/database/crud.py:120-188 | appends the row with the next id and the creation-path derived statistics, then raises a notification exactly on a violation |
| Crud.Database.UpdateMeasurement | backend/database/crud.py:245-296 | an unknown id changes nothing and returns None; otherwise the row takes the patched fields and the update-path derived statistics in place, then the violation check runs |
| Crud.Database.DeleteMeasurement | backend/database/crud.py:298-304 | true and the row removed exactly when the id exists; otherwise nothing changes |
| Crud.Database.CheckSpecStatus | backend/database/crud.py:306-347 | None exactly for an unknown measurement; otherwise that measurement's status under its target's active spec |
| Crud.Database.CheckDuplicateMeasurement | backend/database/crud.py:501-511 | true if and only if a stored row has the same target, lot number and wafer number |
| Crud.Database.CreateSpec | backend/database/crud.py:350-369 | the table takes the creation transition, the new row is the target's active spec, and one active spec per target, if it held, still holds |
| Crud.Database.ActivateSpec | backend/database/crud.py:408-423 | an unknown id changes nothing and returns None; otherwise the activation transition, the row becoming its target's active spec; one active spec per target, if it held, still holds |
| Crud.Database.UpdateSpec | backend/database/crud.py:393-406 | an unknown id changes nothing and returns None; otherwise the row takes the new target, limits and reason with no activity flag changed; one active spec per target survives exactly when the row is inactive or its new target has no other active spec |
| Crud.Database.DeleteSpec | backend/database/crud.py:425-431 | true and the row removed exactly when the id exists; otherwise nothing changes; one active spec per target, if it held, still holds |
| Crud.Database.CreateEquipment | backend/database/crud.py:445-461 | a type outside 코팅, 노광, 현상 is an error with no change; otherwise the row is appended with the next id |
| Crud.Database.UpdateEquipment | backend/database/crud.py:463-480 | an unknown id returns None unchanged; a bad type is an error with no change; otherwise the row is replaced in place |
| Crud.Database.DeleteEquipment | backend/database/crud.py:482-499 | deletes exactly when the id exists and no measurement references it in any of its three equipment slots; otherwise nothing changes |
| Config.StatusClass | frontend/js/config.js:45-53 | danger if and only if the value is outside [lsl, usl]; warning if and only if in spec but within 10% of the width from a limit; success otherwise |
| Config.StatusBadge | frontend/js/config.js:56-64 | the same three-way classification as badges |
| Config.BadgeAgreesWithClass | frontend/js/config.js:45-64 | the outcomes are exhaustive, and the badge always matches the class |
| Config.WarningIsCloseToALimit | frontend/js/config.js:46-49 | a warning is an in-spec value closer to a limit than a tenth of the spec width |
| Config.LimitsAreWarnings | frontend/js/config.js:46-49 | with lsl < usl, a value exactly on a limit is a warning, not a violation |
| Config.InvertedLimitsAlwaysDanger | frontend/js/config.js:46-47 | with usl < lsl every value is a violation |
| TrendReport.TargetManager.constructor | frontend/js/trend_report.js:3-6 | the list starts empty |
| TrendReport.TargetManager.AddTarget | frontend/js/trend_report.js:27-40 | appends and returns true exactly when no target has the id; otherwise false and unchanged; ids stay unique |
| TrendReport.TargetManager.RemoveTarget | frontend/js/trend_report.js:43-53 | removes every entry with the id, keeps the rest in order, returns true exactly when one existed; ids stay unique |
| TrendReport.TargetManager.GetAllTargets | frontend/js/trend_report.js:56-58 | a copy equal to the current list |
| TrendReport.TargetManager.GetTargetById | frontend/js/trend_report.js:61-63 | the first entry with the id, or None exactly when none has it |
| TrendReport.TargetManager.HasTargets | frontend/js/trend_report.js:66-68 | true if and only if the list is non-empty |
| TrendReport.TargetManager.ClearTargets | frontend/js/trend_report.js:71-74 | the list becomes empty, so it has no targets |
| TrendReport.FilterKeepsUniqueIds | frontend/js/trend_report.js:45 | filtering out an id keeps ids unique |
| Recipients.LastIndexOf | frontend/js/recipients.js:100-103 | the last position of a character, or None exactly when it is absent |
| Recipients.SplitIsFirstAtLastDot | frontend/js/recipients.js:100-103 | any split the e-mail pattern accepts is at the first `@` and the last `.` |
| Recipients.PatternUsesFirstAtLastDot | frontend/js/recipients.js:100-103 | an address matches the pattern only through the first `@` and the last `.` |
| Recipients.ValidateEmail | frontend/js/recipients.js:100-103 | true if and only if the whole address matches `[a-zA-Z0-9._%+-]+@[a-zA-Z0-9.-]+\.[a-zA-Z]{2,}` |
| Recipients.ValidEmailIsAscii | frontend/js/recipients.js:100-103 | a valid address is all ASCII, so ASCII lower-casing is exact on it |
| Recipients.RecipientIndex | frontend/js/recipients.js:65 | the first recipient with the id, or None exactly when none has it |
| Recipients.FilterKeepsDistinctEmails | frontend/js/recipients.js:84 | removing recipients keeps addresses distinct up to case |
| Recipients.RecipientManager.constructor | frontend/js/recipients.js:5-8 | the list starts empty |
| Recipients.RecipientManager.AddRecipient | frontend/js/recipients.js:29-61 | an invalid address is refused, then a case-insensitive duplicate, both unchanged; otherwise one active recipient is appended at the end; addresses stay distinct up to case |
| Recipients.RecipientManager.ToggleRecipientStatus | frontend/js/recipients.js:64-79 | an unknown id fails unchanged; otherwise only that recipient's flag flips, and the new flag is returned |
| Recipients.RecipientManager.RemoveRecipient | frontend/js/recipients.js:82-97 | every entry with the id is removed; success exactly when one existed; addresses stay distinct |
| Recipients.RecipientManager.GetActiveRecipients | frontend/js/recipients.js:111-113 | exactly the active recipients, and all of them exactly when every recipient is active |
| Recipients.Merge | frontend/js/recipients.js:163-166 | every key of either object, the patch's value winning |
| Recipients.MergeIdempotent | frontend/js/recipients.js:163-166 | applying the same settings patch twice is applying it once |
| Recipients.ReportSettingsManager.constructor | frontend/js/recipients.js:118-135 | weekly and monthly defaults: day/date 5, time 9, the subject templates, active |
| Recipients.ReportSettingsManager.UpdateSettings | frontend/js/recipients.js:155-174 | a type other than weekly or monthly is refused with no change; otherwise only that type's settings are merged with the given keys |
| Recipients.TypeLabel | frontend/js/recipients.js:199 | the label is 주간 exactly for a weekly report |
| Recipients.FormatSubject | frontend/js/recipients.js:186-204 | a template with neither placeholder is returned unchanged |
| Recipients.FormatSubjectFillsFirstDate | frontend/js/recipients.js:195-201 | for any template whose first `{date}` is at i with no `{type}` before it, and a non-empty date free of `{type}`'s characters: the subject is the template up to i, then the date, then the rest of the template with its first `{type}` replaced by the label |
| Recipients.FormatSubjectShowsType | frontend/js/recipients.js:195-201 | for any template holding `{type}`, the subject holds the report type's label |
| Recipients.FormatSubjectKeepsSecondDate | frontend/js/recipients.js:195 | for any template with two `{date}` occurrences, the subject still holds a `{date}` |
| Recipients.ReportHistoryManager.constructor | frontend/js/recipients.js:209-212 | the history starts empty |
| Recipients.ReportHistoryManager.AddHistory | frontend/js/recipients.js:233-255 | the new entry is first, the length is the old one plus one capped at 20, and the rest is a prefix of the old history |
| Recipients.ReportHistoryManager.ClearHistory | frontend/js/recipients.js:263-269 | the history becomes empty |
| Text.IndexOf | frontend/js/recipients.js:195 | the first occurrence of the pattern, or None exactly when it does not occur |
| Text.ReplaceFirst | frontend/js/recipients.js:195-200 | without the pattern the string is unchanged; otherwise exactly the first occurrence is replaced |
| Text.ReplaceFirstAfterPrefix | frontend/js/recipients.js:195-200 | when the pattern starts nowhere in a prefix, replacing its first occurrence changes only what follows the prefix |
| Text.ReplaceFirstKeepsClear | frontend/js/recipients.js:195-200 | an occurrence of another string clear of the first occurrence of the pattern survives the replacement |
| Text.ReplaceFirstShowsReplacement | frontend/js/recipients.js:200 | the replacement stands where the first occurrence was |
| Text.ReplaceAll | backend/services/email_sender.py:101-106 | Python's `str.replace`, every occurrence left to right without overlap; no contract of its own; stated by ReplaceAllWithoutPattern, ReplaceAllLeavesNoOccurrence, ReplaceAllIntroduces and ReplaceAllKeepsApart |
| Text.ReplaceAllWithoutPattern | backend/services/email_sender.py:101 | `str.replace` leaves a string without the pattern unchanged |
| Text.ReplaceAllLeavesNoOccurrence | backend/services/email_sender.py:101-106 | after replacing every occurrence with text sharing no character with q, q no longer occurs |
| Text.ReplaceAllIntroduces | backend/services/email_sender.py:101-106 | replacing a pattern that occurs puts the replacement into the result |
| Text.ReplaceAllKeepsApart | backend/services/email_sender.py:101-106 | an occurrence that no occurrence of the pattern overlaps survives `str.replace` |
| Text.ToLower | frontend/js/recipients.js:39 | lower-casing keeps the length and lower-cases each character |
| EmailSender.TypeLabel | backend/services/email_sender.py:105 | the label is 주간 exactly for a weekly report; it is non-empty and shares no character with either placeholder |
| EmailSender.DateSubstitution | backend/services/email_sender.py:98-101 | after substituting an ISO date no `{date}` remains, and a template without one is unchanged |
| EmailSender.FormatSubject | backend/services/email_sender.py:95-108 | a template with neither placeholder is unchanged; the result has no `{date}`; if `{type}` was present after date substitution, the result has no `{type}` |
| EmailSender.FormatSubjectShowsDate | backend/services/email_sender.py:98-107 | for any template holding `{date}`, the subject holds the date |
| EmailSender.FormatSubjectShowsType | backend/services/email_sender.py:101-107 | for any template holding `{type}`, the subject holds the report type's label and no `{type}` |

## Left out

- Floating point: values are exact reals. numpy's and `statistics`' rounding errors are not modelled.
- Statistics.CalculateBasicStatistics, Statistics.CalculateProcessCapability: do not round their
  outputs to three decimals. Those values only go back to the caller; `Statistics.Round3`
  bounds how far the rounding moves them. Rounding is modelled where the program uses rounded
  values further: the control limits the scans see, and the stored measurement statistics.
- Square roots: the sample standard deviation is a parameter constrained by its square. It is
  not computed.
- Spc.AnalyzeSpc: the query's window of the last `days` days and its ordering by creation time
  are not modelled. The input table is taken as already filtered and ordered. The ISO creation
  dates in the result are left out.
- Statistics.GetProcessStatistics: the optional start and end dates of the query are not
  modelled, for the same reason.
- create_spc_alert and the notification service are persistence, not part of this model. A
  spec violation is recorded as a `Notification` value appended to a list.
- Database plumbing is not modelled: sessions, commit and refresh. The read-only queries
  `get_measurements`, `get_specs`, `get_spec` and `get_equipments` are left out too, and so are
  the product-group, process and target CRUD functions.
- `exposure_time` is not modelled. `device` and `author` are carried as opaque strings.
- Crud.Database.CreateEquipment, Crud.Database.UpdateEquipment: Python's `ValueError` is
  modelled as an `Err` result carrying the message.
- Browser storage is not modelled: the `loadFromLocalStorage` and `saveToLocalStorage` paths of
  every manager class.
- The clock enters as parameters (`now`, `nowIso`): `Date.now()` and `toISOString()`.
- Recipients.FormatSubject: the `ko-KR` locale date rendering is a parameter (`dateStr`). The
  lemmas that need its characters assume it is non-empty and holds none of `{type}`'s, as that
  rendering's digits, dots and spaces do.
- Recipients.FormatSubjectFillsFirstDate: gives the whole subject only when no `{type}` comes
  before the first `{date}`. For the other order, `Recipients.FormatSubjectShowsType` states
  only that the label appears.
- Text.ReplaceFirst: inserts the replacement literally. JavaScript gives `$&`, `$$`, `` $` `` and `$'`
  in a string replacement a special meaning. The page only passes the ko-KR date and 주간/월간,
  which hold no `$`, so no behaviour of the page is lost.
- Text.ToLower: lower-cases ASCII letters only. It is exact on every address that passes the
  e-mail check (`Recipients.ValidEmailIsAscii`).
- The trivial accessors `getAllRecipients`, `getSettings` and `getAllHistory` return a field or
  a copy of it. They are not modelled.
- EmailSender.FormatSubject: takes the `%Y-%m-%d` rendering of the date as a parameter.
  `send_report_email` is SMTP input/output and is left out.

## Findings

| source | as written | input that shows it | evidently intended | confidence | as-written member | corrected member |
|---|---|---|---|---|---|---|
| backend/database/crud.py:393-406 | `update_spec` changes a spec's target without touching any activity flag | spec 1 active for target 10, spec 2 active for target 20; update spec 2 to target 10 | at most one active spec per target, as `create_spec` and `activate_spec` maintain: moving an active spec switches off the other active specs of its new target | not executed | Crud.UpdateSpecBreaksSingleActive | Crud.UpdateSpecCorrectedKeepsSingleActive |
