# Race-record cleaning pipeline, modelled in Dafny

This project models the cleaning pipeline of a horse-racing dataset and proves properties of the model.

The pipeline's stages:
- `validate_schema` checks that the required columns are present, that each column's dtype kind is acceptable, and that no `(race_id, horse_id)` pair occurs twice.
- `clean_fields` drops the post-race `obs__` columns, except `obs__finish_position`, which it reads and then drops. It also:
  - parses dates, numbers, weights, distances and finish positions;
  - drops implausible rows and casts the identifiers;
  - returns the schema columns in their declared order.
- `validate_race_invariants` groups the rows by `race_id` and checks each race.
- `enforce_chronological_order` is a stable sort by `(date, race_time, race_id)`.

The pipeline runs on a small in-repository table library: a `DataFrame` of row dictionaries, a one-column `Series`, and the dtype predicates of `pandas.api.types`.

Layout, one module per file:

| file | module | what it holds |
|---|---|---|
| `common.dfy` | `Common` | `Option`, `Distinct`, `StartsWith` and a few generic sequence lemmas |
| `pytext.dfy` | `PyText` | `str.strip`, `str.lower`, and `int(text)` and `float(text)` on decimal text |
| `pyvalues.dfy` | `PyValues` | the cell `Value` type, plus Python `==`, truthiness, `float(v)`, `int(v)`, `round(x)` and the distinct values of a list |
| `ordering.dfy` | `Ordering` | Python `<` on values and on tuples of values, proved a strict weak order |
| `series.dfy` | `PySeries` | `Series`, `dtype`, `astype`, `round`, `to_numeric`, `to_datetime`, `dropna`, `nunique`, `min`, `max`, `> 0`, `_coerce_value` |
| `apitypes.dfy` | `ApiTypes` | `_get_dtype` and the four `is_*_dtype` predicates |
| `frame.dfy` | `Frame` | rows as ordered dictionaries; `DataFrame` as a class with `rows` and `columns` fields; `drop`, `dropna`, mask filtering, column selection, `__setitem__`, `duplicated`, `groupby`, `sort_values` |
| `normalize.dfy` | `Normalize` | `_parse_weight`, `_parse_distance`, `_standardize_finish` |
| `cleaning.dfy` | `Cleaning` | the schema, `validate_schema`, `clean_fields`, `validate_race_invariants`, `enforce_chronological_order`, and the script's flow |

Modelling choices:
- A row is a sequence of `(name, value)` pairs, because `DataFrame(rows)` takes its columns from the key order of the first row. Reading a missing key gives `None`, as `row.get` does.
- Numbers are exact (`int`, `real`).
- A datetime is a point on an abstract, totally ordered time line.
- Every `ValueError` the pipeline raises becomes an `Error` value. So does the `TypeError` that comparing a non-number with a number raises in the finish-position check.
- Operations that update a `DataFrame` in place are methods with `modifies` clauses:
  - the column assignments of `clean_fields`;
  - `__setitem__`;
  - the column-filling loop.
- Each of those methods is proved against a function of the old rows, and the properties are proved about those functions.

Where the code and the specification disagree, the model follows the code:
- **Empty tables.** `DataFrame([])` has no columns. So `clean_fields` on a table without rows raises the missing-finish-column error. A cleaned table from which every row was filtered has no columns, not the twelve schema columns.
- **Race fields.** `validate_race_invariants` accepts a race field that is `None` in every row of the race. Its test is `nunique() > 1`, not "exactly one distinct value".
- **Finish column.** The finish-position range check reads `finish_position` even when the column is absent. All its values are then `None`, and the check passes.
- **`astype(int)` is a no-op.** `validate_race_invariants` calls `astype(int)` with the built-in `int`, not a string. The library's `astype` only recognises type-name strings, so the values are returned unchanged. The model uses `KeepCast` there.
- **The `"Int64"` dtype test never matches.** `dtype == "Int64"` in `validate_schema` can never be true, because no `Series` announces that dtype (`PySeries.NoDtypeEqualsInt64`).

The date parser of `to_datetime` is the parameter `parseTime`. `str()` of a datetime, which `_parse_distance` would scan, is the parameter `showTime`.

## Model

| member | source | states |
|---|---|---|
| Cleaning.OrderedColumns | src/cleaning.py:48-51 | `ordered_columns` lists the required column names, one per entry, in declaration order |
| Cleaning.SchemaColumns | src/cleaning.py:21-39 | the ordered schema columns are the twelve output names, pairwise distinct, and none starts with `obs__` |
| Cleaning.OrderedDistinct | src/cleaning.py:21-34 | no schema column is named twice |
| Cleaning.OrderedNames | src/cleaning.py:21-51 | the ordered columns of the default schema are exactly the twelve names in declaration order |
| Cleaning.NamesDistinct | src/cleaning.py:21-34 | the twelve required names are distinct |
| Cleaning.NamesUnobserved | src/cleaning.py:21-39 | no required name carries the observation prefix |
| Cleaning.EssentialsOrdered | src/cleaning.py:278 | every essential column, `age` and `finish_position` are schema columns |
| Cleaning.KindAcceptedByKind | src/cleaning.py:112-136 | per declared type, the dtype test accepts exactly these kinds: datetime or object for datetime; integer or object for `int`/`Int64`; float or object for `float`; object only for `object` |
| Cleaning.FirstRejected | src/cleaning.py:109-136 | no error iff every present required column passes its dtype test; an error names a present required column that fails, with its dtype |
| Cleaning.FirstRejectedIsFirst | src/cleaning.py:109-136 | the column reported is the first in declaration order that is present and fails: every present column declared before it passes |
| Cleaning.CheckKinds | src/cleaning.py:109-136 | the column loop returns the first dtype rejection, or none |
| Cleaning.SchemaVerdictPasses | src/cleaning.py:105-139 | `validate_schema` passes iff every required column is present, every required column passes its dtype test, and no `(race_id, horse_id)` pair repeats; a missing column is reported as missing columns before anything else |
| Cleaning.ValidateSchema | src/cleaning.py:94-139 | the method returns exactly the schema verdict: presence first, then dtype kinds, then duplicate pairs |
| Cleaning.Leaked | src/cleaning.py:244-249 | every column the leakage loop drops starts with `obs__` |
| Cleaning.LeakedSnoc | src/cleaning.py:244-249 | one loop step drops an `obs__` column unless it is the first `obs__finish_position`, which becomes the finish source |
| Cleaning.LeakStep | src/cleaning.py:244-249 | the same step, with `finish_source` held in a flag; the flag records whether `obs__finish_position` has been seen |
| Cleaning.DropObservations | src/cleaning.py:242-249 | after the loop the rows lack exactly the leaked columns, and the flag is set iff `obs__finish_position` was a column |
| Cleaning.FinishKept | src/cleaning.py:244-252 | the leakage loop never removes `finish_position`, so the missing-column test sees the input's own columns |
| Cleaning.AsFloat | src/cleaning.py:259-264 | `to_numeric(errors="coerce")` yields a float or None |
| Cleaning.WholeNumber | src/cleaning.py:265 | `to_numeric(...).astype("Int64")` yields an integer or None |
| Cleaning.FinishValue | src/cleaning.py:272-273 | a cleaned finish position is an integer or None |
| Cleaning.DatedValues | src/cleaning.py:255-256 | `date` and `race_time` become their parsed datetimes or None; every other column is unchanged |
| Cleaning.CoercedValues | src/cleaning.py:259-260 | `age` and `draw` become `float(v)` or None; every other column is unchanged |
| Cleaning.WeighedValues | src/cleaning.py:261-262 | `weight_lbs` becomes the parsed weight as a float; every other column is unchanged |
| Cleaning.MeasuredValues | src/cleaning.py:263-264 | `distance` becomes the parsed distance as a float; every other column is unchanged |
| Cleaning.FinishedValues | src/cleaning.py:268-273 | `finish_position` becomes the standardised, rounded, integer finish read from the source column; every other column is unchanged |
| Cleaning.NumbersKinds | src/cleaning.py:259-265 | after the numeric assignments, `age`, `distance` and `n_runners` hold a number or None, so `> 0` cannot raise |
| Cleaning.NumbersKeep | src/cleaning.py:259-265 | the numeric assignments change no column other than the five they assign |
| Cleaning.FinishedKinds | src/cleaning.py:272-273 | the finish assignments keep the row comparable with 0 and leave an integer finish or None |
| Cleaning.FinishedKeeps | src/cleaning.py:272-273 | the finish assignments change no column other than `finish_position` |
| Cleaning.ConvertedRowKinds | src/cleaning.py:254-275 | every converted row is comparable with 0, has an integer finish or None, and has datetime-or-None times |
| Cleaning.ConvertedRowTimed | src/cleaning.py:255-273 | after all conversions, `date` and `race_time` hold a datetime or None |
| Cleaning.ConvertedKinds | src/cleaning.py:254-275 | the same holds of every converted row, including after `obs__finish_position` is dropped |
| Cleaning.KindsWithoutObs | src/cleaning.py:274-275 | dropping the finish source keeps those kinds |
| Cleaning.ConvertDates | src/cleaning.py:255-256 | the in-place date assignments leave each row as `Dated` of its old value |
| Cleaning.ConvertAgeDraw | src/cleaning.py:259-260 | the in-place `age` and `draw` assignments leave each row as `Coerced` of its old value |
| Cleaning.ConvertWeight | src/cleaning.py:261-262 | the two `weight_lbs` assignments leave each row as `Weighed` of its old value |
| Cleaning.ConvertDistance | src/cleaning.py:263-264 | the two `distance` assignments leave each row as `Measured` of its old value |
| Cleaning.ConvertRunners | src/cleaning.py:265 | the `n_runners` assignment leaves each row as `Counted` of its old value |
| Cleaning.ConvertNumbers | src/cleaning.py:259-265 | all numeric assignments, in source order |
| Cleaning.ConvertFinish | src/cleaning.py:267-273 | the two `finish_position` assignments, reading the given source column |
| Cleaning.ConvertColumns | src/cleaning.py:254-275 | the whole conversion block yields `ConvertedRows`, with the finish source dropped when it was an `obs__` column |
| Cleaning.KeepPositive | src/cleaning.py:282-284 | `df[df[col] > 0]` keeps exactly the rows holding a positive number under `col`, in order |
| Cleaning.DropImplausible | src/cleaning.py:277-284 | the non-null and positivity filters yield `Plausible` of the rows |
| Cleaning.CastId | src/cleaning.py:287-288 | one identifier cast sets that column to `WholeNumber` of its old value in every row |
| Cleaning.CastIds | src/cleaning.py:286-290 | both casts, then dropping rows with a missing identifier, yield the rows with integer identifiers |
| Cleaning.DropInvalid | src/cleaning.py:277-290 | the filters and casts yield `Valid` of the rows |
| Cleaning.PlausibleRows | src/cleaning.py:277-284 | filtered rows are input rows with every essential value present and positive `age`, `distance` and `n_runners`; no row is added |
| Cleaning.WithIntIdsValues | src/cleaning.py:287-288 | the casts change `race_id` and `horse_id` only |
| Cleaning.ValidAfterCast | src/cleaning.py:286-290 | a filtered row whose identifiers both convert is a valid row |
| Cleaning.IdsAfterCast | src/cleaning.py:287-290 | identifiers that survive the final `dropna` are integers |
| Cleaning.EssentialsAfterCast | src/cleaning.py:286-290 | the essential values stay present through the casts |
| Cleaning.CountsAfterCast | src/cleaning.py:286-288 | the casts keep the positive counts, the integer finish and the times |
| Cleaning.ValidRows | src/cleaning.py:277-290 | every row kept by the filters and casts is valid, and no row is added |
| Cleaning.MissingFrom | src/cleaning.py:293-295 | the filled columns are exactly the schema columns absent from the frame |
| Cleaning.FilledGets | src/cleaning.py:293-295 | a filled row holds None under each added column and its own value elsewhere |
| Cleaning.FillColumn | src/cleaning.py:294-295 | `df[col] = pd.NA` for an absent column adds it to `columns` and sets it to None in every row; an existing column is left alone |
| Cleaning.FillMissing | src/cleaning.py:293-295 | the loop appends the missing schema columns to `columns` in schema order and fills them with None |
| Cleaning.FilledRowsSnoc | src/cleaning.py:293-295 | one loop step fills one more column only when it was absent |
| Cleaning.MissingStep | src/cleaning.py:293-295 | the column list after each step is the old columns plus the missing ones so far |
| Cleaning.OrderColumns | src/cleaning.py:292-296 | filling and then selecting the schema columns yields `OutputRows` of the rows |
| Cleaning.OutputGets | src/cleaning.py:292-296 | an output row holds the row's value under each schema column the frame had, and None under the others |
| Cleaning.OutputRowKeys | src/cleaning.py:296 | an output row has exactly the schema columns, in order |
| Cleaning.OutputRowValid | src/cleaning.py:292-296 | the output row of a valid row is valid |
| Cleaning.OutputRowTimed | src/cleaning.py:292-296 | output rows keep `date` and `race_time` a datetime or None |
| Cleaning.OutputRowClean | src/cleaning.py:292-296 | the output row of a valid row is clean: the schema columns in order, and valid |
| Cleaning.OutputRowsClean | src/cleaning.py:292-296 | every output row of valid rows is clean, one per row |
| Cleaning.CleanedRowsClean | src/cleaning.py:230-296 | every returned row has exactly the schema columns in order (hence no `obs__` column), every essential value, positive `age`/`distance`/`n_runners`, integer ids, an integer finish or None, and datetime `date`/`race_time`; no row is added |
| Cleaning.CleanFields | src/cleaning.py:230-296 | raises iff neither `obs__finish_position` nor `finish_position` is a column; otherwise returns `CleanedRows`, all of them clean and sortable by `(date, race_time, race_id)`; the input frame is unchanged |
| Cleaning.ChronoKinds | src/cleaning.py:277-290 | a valid row holds datetimes in `date` and `race_time` and an integer `race_id` |
| Cleaning.ValidRowsSortable | src/cleaning.py:327-329 | valid rows can be sorted by `(date, race_time, race_id)` without a comparison raising |
| Cleaning.FirstInconsistent | src/cleaning.py:310-312 | no field is reported iff every race field has at most one distinct non-None value; a reported field is one that has more |
| Cleaning.FirstInconsistentIsFirst | src/cleaning.py:310-312 | the field reported is the first of the list with more than one distinct non-None value: every field before it has at most one |
| Cleaning.FindInconsistentField | src/cleaning.py:310-312 | the field loop returns the first inconsistent race field |
| Cleaning.FieldConstantIff | src/cleaning.py:311 | `nunique(dropna=True) <= 1` iff all non-None values of the field are equal |
| Cleaning.RaceFieldsPass | src/cleaning.py:310-312 | the field loop passes iff every race field is constant over the race |
| Cleaning.RaceVerdictPasses | src/cleaning.py:308-321 | a race passes iff its fields are constant, its size equals its first row's `n_runners`, and every non-None finish is a number in `[1, size]` |
| Cleaning.FinishRangePasses | src/cleaning.py:318-321 | once the size matches, the finish check passes iff every non-None finish is a number in `[1, n_runners]` |
| Cleaning.FinishColumnInRange | src/cleaning.py:318-321 | the range condition on the rows is the range condition on the `finish_position` column |
| Cleaning.FinishRangeSound | src/cleaning.py:319-321 | a passing finish check bounds every non-None finish |
| Cleaning.FinishRangeComplete | src/cleaning.py:319-321 | a failing finish check has a non-None finish that is not a number in range |
| Cleaning.CheckFinishRange | src/cleaning.py:319-321 | the min/max comparison yields the finish verdict: a non-number is unorderable; otherwise out of range iff min < 1 or max > `n_runners` |
| Cleaning.CheckFinish | src/cleaning.py:318-321 | `dropna().astype(int)` and then the range check yield the finish verdict on the non-None finishes |
| Cleaning.CheckRace | src/cleaning.py:309-321 | the per-group body returns that race's verdict |
| Cleaning.FirstError | src/cleaning.py:309-321 | no error iff every verdict passes |
| Cleaning.FirstErrorIsFirst | src/cleaning.py:309-321 | the reported error is that of the earliest failing verdict |
| Cleaning.Verdicts | src/cleaning.py:309-321 | one verdict per group, in group order |
| Cleaning.FirstFailingRace | src/cleaning.py:308-321 | no error iff every race passes |
| Cleaning.FirstFailingRaceIsFirst | src/cleaning.py:308-321 | a reported error is that of the first failing race in group order |
| Cleaning.RacesPass | src/cleaning.py:299-321 | `validate_race_invariants` returns normally iff every `race_id` group is consistent |
| Cleaning.ValidateRaceInvariants | src/cleaning.py:308-321 | the loop over groups returns the first failing race's error, or none |
| Cleaning.EnforceChronologicalOrder | src/cleaning.py:324-329 | the result is a permutation of the input, sorted by `(date, race_time, race_id)`, with rows of equal key in input order |
| Cleaning.RunPipeline | src/cleaning.py:340-346 | the flow succeeds iff the schema passes, a finish column exists, and every cleaned race is consistent; on success the rows are the cleaned rows, sorted chronologically, each clean |
| Normalize.ParseWeightText | src/cleaning.py:152-162 | a weight read from text is a float or None |
| Normalize.ParseWeight | src/cleaning.py:146-162 | None stays None, a number becomes itself as a float, and anything else yields a float or None |
| Normalize.WeightOfParts | src/cleaning.py:153-156 | with one hyphen and numeric parts S and P, the weight is S × 14 + P |
| Normalize.WeightOfDigits | src/cleaning.py:153-156 | "a-b" with digit strings a and b weighs `float(a)` × 14 + `float(b)` |
| Normalize.StonesAndPounds | src/cleaning.py:153-156 | "S-P" written in digits weighs 14·S + P pounds |
| Normalize.PlainPounds | src/cleaning.py:159-160 | text of a natural number without a hyphen is that many pounds |
| Normalize.ManyHyphensNoWeight | src/cleaning.py:153-158 | text with more than one hyphen yields None |
| Normalize.NonNumericPartNoWeight | src/cleaning.py:153-158 | "S-P" with a non-numeric part yields None |
| Normalize.StonesPoundsNonNegative | src/cleaning.py:153-156 | a stones-pounds weight is never negative, since neither part can carry a minus sign |
| Normalize.WeightExample | src/cleaning.py:146-162 | "10-7" weighs 147 pounds |
| Normalize.Magnitude | src/cleaning.py:181-184 | a token whose buffer does not parse contributes magnitude 0 |
| Normalize.UnitClosesEmptyToken | src/cleaning.py:180-191 | a unit letter with an empty buffer adds nothing |
| Normalize.DistanceOfText | src/cleaning.py:172-197 | a distance read from text is None or strictly positive |
| Normalize.DistanceOf | src/cleaning.py:165-197 | None stays None, numbers pass through unchanged as floats, and text yields None or a positive float |
| Normalize.ParseDistanceText | src/cleaning.py:172-197 | the character loop over `yards` and `num` computes the scan's total, kept only when positive |
| Normalize.ParseDistance | src/cleaning.py:165-197 | the imperative parser agrees with `DistanceOf` |
| Normalize.ScanConcat | src/cleaning.py:176-191 | scanning `a + b` is scanning `b` from the state after `a` |
| Normalize.ScanDigits | src/cleaning.py:177-179 | digits only extend the buffer |
| Normalize.ScanToken | src/cleaning.py:180-191 | a token `n<unit>` adds n times the unit's yards and empties the buffer |
| Normalize.ScanTokens | src/cleaning.py:176-191 | a sequence of unit tokens adds the sum of its tokens' yards |
| Normalize.RenderIsNormal | src/cleaning.py:172 | token text is unchanged by `strip().lower()` |
| Normalize.DistanceOfTokens | src/cleaning.py:172-197 | the distance of unit tokens is their total in yards, when positive |
| Normalize.DistanceOfBareNumber | src/cleaning.py:192-197 | a unit-less number is that many yards when positive, else None |
| Normalize.DistanceExample | src/cleaning.py:172-197 | "2m4f110y" is 4510 yards |
| Normalize.SuperscriptSpoilsToken | src/cleaning.py:177-196 | a superscript digit, which `isdigit` accepts, joins the buffer; `float` then rejects it, so the token adds nothing whether a unit closes it or the text ends |
| Normalize.SuperscriptDigitExample | src/cleaning.py:172-197 | "2²m" has no distance |
| Normalize.StandardizeFinishText | src/cleaning.py:220-227 | a finish read from text is None or a positive float |
| Normalize.StandardizeFinish | src/cleaning.py:200-227 | a standardised finish is None or positive; None, booleans and datetimes give None |
| Normalize.NonFinishersAreNone | src/cleaning.py:204-222 | each of the fourteen codes, in any case and with surrounding space, gives None |
| Normalize.DigitsAreNormal | src/cleaning.py:220-221 | digit text is unchanged by `strip().lower()` and is no non-finish code |
| Normalize.FinishOfPlace | src/cleaning.py:223-225 | a place written in digits gives that place when positive, else None |
| Normalize.StandardizeFinishIdempotent | src/cleaning.py:200-227 | standardising twice is standardising once |
| Normalize.FinishExamples | src/cleaning.py:200-227 | " PU " gives None and "3" gives 3 |
| PyText.TrimLeft | src/cleaning.py:172 | `lstrip` never lengthens its text |
| PyText.TrimRight | src/cleaning.py:172 | `rstrip` never lengthens its text |
| PyText.TrimLeftSpec | src/cleaning.py:172 | `lstrip` removes exactly the leading whitespace |
| PyText.TrimRightSpec | src/cleaning.py:172 | `rstrip` removes exactly the trailing whitespace |
| PyText.StripSpec | src/cleaning.py:172 | `strip()` leaves no whitespace at either end and keeps only characters of the input |
| PyText.StripIdempotent | src/cleaning.py:172 | stripping twice is stripping once |
| PyText.Lower | src/cleaning.py:172 | `lower()` maps each character and keeps the length |
| PyText.ShowNatValue | src/cleaning.py:160 | the digits `str(n)` prints read back as n |
| PyText.ParseIntShowNat | pandas/__init__.py:309 | `int(str(n)) == n` |
| PyText.ParseFloatShowNat | src/cleaning.py:160 | `float(str(n)) == n` |
| PyText.ParseUnsignedDigits | src/cleaning.py:160 | unsigned digit text is read as its decimal value |
| PyText.ParseFloatRejects | src/cleaning.py:181-184 | `float(text)` raises whenever the text holds a character no decimal number can contain (neither digit, whitespace, sign, point nor exponent letter) |
| PyValues.EquivIsEquivalence | pandas/__init__.py:114-116 | Python `==` on cells is an equivalence, which sets and dictionary keys rely on |
| PyValues.ToFloat | pandas/__init__.py:324 | `float(v)` is the magnitude of a number and fails on None and datetimes |
| PyValues.ToInt | pandas/__init__.py:63 | `int(v)` is an integer itself and truncates a float toward zero |
| PyValues.Trunc | pandas/__init__.py:63 | truncation toward zero lies within 1 of its argument, on the zero side |
| PyValues.RoundHalfEven | pandas/__init__.py:81 | `round(x)` is within 1/2 of x, and even on a tie |
| PyValues.RoundIsNearest | pandas/__init__.py:81 | no integer other than `round(x)` is strictly closer than 1/2 |
| PyValues.FirstSeenSpec | pandas/__init__.py:114-116 | the distinct values are pairwise unequal, drawn from the list, and cover every list entry |
| PyValues.FirstSeenPrefix | pandas/__init__.py:259-261 | the distinct values of a prefix are a prefix of the distinct values |
| PyValues.AtMostOneDistinct | pandas/__init__.py:114-116 | at most one distinct value iff all entries are equal |
| Ordering.StrCmpProperties | pandas/__init__.py:216-221 | string comparison is antisymmetric and zero only on equal strings |
| Ordering.StrCmpTransitive | pandas/__init__.py:216-221 | string comparison is transitive |
| Ordering.ValCmp | pandas/__init__.py:216-221 | comparing two comparable values yields -1, 0 or 1 |
| Ordering.ValCmpProperties | pandas/__init__.py:216-221 | value comparison is antisymmetric and zero exactly on `==` |
| Ordering.ValCmpTransitive | pandas/__init__.py:216-221 | value comparison is transitive |
| Ordering.KeyCmp | pandas/__init__.py:216-221 | comparing two comparable tuples yields -1, 0 or 1 |
| Ordering.KeyLessIsTupleLess | pandas/__init__.py:217-220 | tuple `<` holds iff the first unequal position compares less |
| Ordering.KeyCmpProperties | pandas/__init__.py:216-221 | tuple comparison is antisymmetric and zero exactly on element-wise `==` |
| Ordering.KeyCmpTransitive | pandas/__init__.py:216-221 | tuple comparison is transitive |
| Ordering.KeyLessStrictWeakOrder | pandas/__init__.py:216-221 | tuple `<` is irreflexive, asymmetric and transitive, incomparability is transitive and is element-wise `==`: what a stable sort needs |
| PySeries.FirstNonNullIndex | pandas/__init__.py:37 | the position of the first value that is not None, or the length when there is none |
| PySeries.DtypeKindIsFirstValueKind | pandas/__init__.py:35-44 | a Series' dtype kind is the kind of its first non-None value, or object when all are None |
| PySeries.NoDtypeEqualsInt64 | pandas/__init__.py:16-44 | no Series dtype compares equal to "Int64" |
| PySeries.CastValue | pandas/__init__.py:55-73 | None stays None; an integer cast yields an int exactly when `int(v)` succeeds and None otherwise; likewise for float; other targets keep the value |
| PySeries.AsType | pandas/__init__.py:55-73 | `astype` keeps length and name and casts each element |
| PySeries.ToNumeric | pandas/__init__.py:317-330 | `to_numeric(errors="coerce")` keeps length and name; None stays None; `float(v)` or None elsewhere |
| PySeries.DatetimeValue | pandas/__init__.py:333-357 | None stays None, a datetime stays itself, other values parse or become None |
| PySeries.ToDatetime | pandas/__init__.py:333-357 | `to_datetime(errors="coerce")` keeps length and name and converts each element |
| PySeries.RoundValue | pandas/__init__.py:75-82 | None stays None; anything else becomes an int within 1/2 of `float(v)` |
| PySeries.Round | pandas/__init__.py:75-82 | `round()` keeps length and name and rounds each element |
| PySeries.Apply | pandas/__init__.py:52-53 | `apply(fn)` keeps length and name and maps each element |
| PySeries.NonNull | pandas/__init__.py:90-91 | `dropna()` keeps exactly the non-None values and never lengthens |
| PySeries.NUniqueAtMostOne | pandas/__init__.py:114-116 | `nunique(dropna=True) <= 1` iff all non-None values are equal |
| PySeries.MinValue | pandas/__init__.py:106-108 | over numbers, strings or datetimes: `min()` is None iff every value is None; otherwise a value of the Series that compares at most every non-None value; on numbers, the least magnitude |
| PySeries.MaxValue | pandas/__init__.py:110-112 | over numbers, strings or datetimes: `max()` is None iff every value is None; otherwise a value of the Series that compares at least every non-None value; on numbers, the greatest magnitude |
| PySeries.GreaterThan | pandas/__init__.py:84-85 | `series > other` keeps None and compares every other value |
| PySeries.GreaterThanZero | pandas/__init__.py:84-85 | the mask entry `v > 0` is truthy iff v is a positive number |
| PySeries.CoerceValue | pandas/__init__.py:307-314 | `_coerce_value` yields an int when `int(text)` succeeds, otherwise a float when `float(text)` succeeds, otherwise the text |
| ApiTypes.GetDtype | src/pandas/api/types.py:6-11 | `_get_dtype` is None for a DataFrame and the Series dtype for a Series |
| ApiTypes.PredicatesReadTheKind | src/pandas/api/types.py:14-31 | each `is_*_dtype` holds iff the dtype exists and has kind "M", "O", "i" or "f" respectively |
| ApiTypes.FrameMatchesNothing | src/pandas/api/types.py:6-31 | all four predicates are false for a DataFrame |
| ApiTypes.SeriesMatchesExactlyOne | src/pandas/api/types.py:6-31 | for a Series, each predicate holds iff its first non-None value is of that kind (object when there is none) |
| Frame.Keys | pandas/__init__.py:129 | a row's keys are its entry names in order |
| Frame.Get | pandas/__init__.py:183 | `row.get(key)` of an absent key is None |
| Frame.GetCons | pandas/__init__.py:183 | a lookup finds the first entry with that key |
| Frame.Set | pandas/__init__.py:197 | `row[key] = v` makes the key read v, leaves every other key, and appends the key only when new |
| Frame.SetTwice | pandas/__init__.py:197 | a second assignment to the same key overrides the first |
| Frame.DropKeys | pandas/__init__.py:162 | a row without `cols` reads None under them and its own values elsewhere; its keys are the others |
| Frame.DropColumnsRows | pandas/__init__.py:158-164 | `drop` keeps the row count and every value outside the dropped columns, and removes exactly those keys |
| Frame.DropNothing | pandas/__init__.py:158-164 | dropping no columns leaves a row as it is |
| Frame.DropKeysTwice | pandas/__init__.py:158-164 | dropping `a` then `b` is dropping `a + b` |
| Frame.DropNoColumns | pandas/__init__.py:158-164 | dropping no columns leaves the rows as they are |
| Frame.DropColumnsTwice | pandas/__init__.py:158-164 | dropping twice is dropping the concatenation |
| Frame.Project | pandas/__init__.py:181 | `{col: row.get(col) for col in keys}` reads the row's value under each key and None elsewhere |
| Frame.ProjectKeys | pandas/__init__.py:178-182 | a projected row has exactly the selected keys, in order |
| Frame.ProjectByGets | pandas/__init__.py:178-182 | rows that agree on the selected keys project to the same row |
| Frame.ProjectRows | pandas/__init__.py:178-182 | the selection loop projects every row, in order |
| Frame.RowKey | pandas/__init__.py:205 | the subset key is the tuple of the row's values under the subset |
| Frame.ColumnOf | pandas/__init__.py:183 | `df[key]` is the Series of every row's value under `key`, named `key` |
| Frame.Select | pandas/__init__.py:166-171 | a filter never lengthens |
| Frame.SelectMembers | pandas/__init__.py:166-171 | a filter keeps exactly the rows that pass |
| Frame.SelectSnoc | pandas/__init__.py:166-171 | filtering one more row appends it iff it passes |
| Frame.SelectCons | pandas/__init__.py:166-171 | filtering a leading row puts it first iff it passes |
| Frame.MaskRows | pandas/__init__.py:174-177 | each row kept by a mask has a truthy entry at its position |
| Frame.MaskedRows | pandas/__init__.py:174-177 | the `zip` loop computes the mask filter |
| Frame.MaskRowsStep | pandas/__init__.py:174-177 | one loop step keeps the row iff its mask entry is truthy |
| Frame.MaskIsSelect | pandas/__init__.py:174-177 | a mask whose entries are truthy exactly on the rows passing a test filters like that test, in order |
| Frame.PositiveMask | src/cleaning.py:282-284 | `df[df[col] > 0]` over numbers or None keeps exactly the positive rows, in order |
| Frame.AssignedValues | pandas/__init__.py:186-191 | a Series writes its data, a list or tuple its items, and a scalar is broadcast to one value per row |
| Frame.Groups | pandas/__init__.py:210-214 | there is one group per distinct key value |
| Frame.GroupsFor | pandas/__init__.py:210-214 | each group holds the rows whose key equals its key value |
| Frame.SelectPositions | pandas/__init__.py:166-177 | a filter is the table read at increasing positions, exactly those of the rows that pass |
| Frame.GroupsKeepRowOrder | pandas/__init__.py:210-214 | each group is the table read at increasing positions, exactly those of the rows whose key equals the group's key: rows keep their relative order inside a group |
| Frame.GroupsNonEmpty | pandas/__init__.py:210-214 | no group is empty |
| Frame.IndexOfKey | pandas/__init__.py:213 | `setdefault` finds the first group whose key equals the row's value, or none |
| Frame.ColumnSnoc | pandas/__init__.py:212-213 | one more row extends the column, and adds its key to the distinct keys only when new |
| Frame.GroupsForSnoc | pandas/__init__.py:212-213 | one more row joins exactly the groups whose key it equals |
| Frame.GroupsSnocKnown | pandas/__init__.py:212-213 | a row with a known key is appended to that key's group |
| Frame.GroupsSnocNew | pandas/__init__.py:212-213 | a row with a new key opens a new last group |
| Frame.GroupsSnoc | pandas/__init__.py:212-213 | the groups of the rows plus one more are the dictionary update `setdefault(...).append(row)` |
| Frame.GroupsPartition | pandas/__init__.py:210-214 | group keys are pairwise unequal; every row is in exactly one group, the one whose key equals its value |
| Frame.GroupKeysDistinct | pandas/__init__.py:210-214 | group keys are pairwise unequal |
| Frame.GroupMembers | pandas/__init__.py:210-214 | a group holds exactly the rows whose key equals its key |
| Frame.GroupsCover | pandas/__init__.py:210-214 | every row is in some group |
| Frame.GroupsDisjoint | pandas/__init__.py:210-214 | no row is in two groups |
| Frame.FirstSeenInOrderOfAppearance | pandas/__init__.py:259-261 | an earlier group's key appears in the rows before any row with a later group's key |
| Frame.InsertStable | pandas/__init__.py:220 | inserting a row adds exactly that row |
| Frame.SortedRows | pandas/__init__.py:220 | the sorted rows are a permutation of the rows |
| Frame.SortedSnoc | pandas/__init__.py:220 | a row that no sorted row exceeds can be appended |
| Frame.AppendAfterLast | pandas/__init__.py:220 | a row not below the last can be appended |
| Frame.InsertBeforeLast | pandas/__init__.py:220 | a row below the last goes before it and keeps the order |
| Frame.InsertStableSorted | pandas/__init__.py:220 | inserting into a sorted sequence keeps it sorted |
| Frame.InsertStableTies | pandas/__init__.py:220 | insertion places a row after every existing row with an equal key |
| Frame.SortedRowsSpec | pandas/__init__.py:216-221 | `sorted(rows, key=...)` is a sorted permutation, and the rows of each key keep their input order |
| Frame.DuplicateFlags | pandas/__init__.py:201-208 | one flag per row, true iff an earlier row has an equal subset key |
| Frame.DataFrame.constructor | pandas/__init__.py:127-129 | a frame holds its rows, with the first row's keys as columns |
| Frame.DataFrame.Copy | pandas/__init__.py:142-143 | a copy is a fresh frame with the same rows |
| Frame.DataFrame.Column | pandas/__init__.py:183 | `df[key]` is the column under `key` |
| Frame.DataFrame.Drop | pandas/__init__.py:158-164 | `drop` returns a fresh frame of the rows without the columns |
| Frame.DataFrame.DropNa | pandas/__init__.py:166-171 | `dropna(subset)` returns the rows with every subset value present, in order |
| Frame.DataFrame.Where | pandas/__init__.py:173-177 | `df[mask]` returns the rows with a truthy mask entry, in order |
| Frame.DataFrame.SelectColumns | pandas/__init__.py:178-182 | `df[list]` projects every row onto the list |
| Frame.DataFrame.SetItem | pandas/__init__.py:185-199 | `df[key] = value` writes value i into row i (a scalar to every row; a list or a Series by position, up to the shorter length), creates rows in an empty frame, appends the column only when new, and touches nothing else |
| Frame.DataFrame.Duplicated | pandas/__init__.py:201-208 | `duplicated(subset)` flags exactly the rows whose subset key equals an earlier row's |
| Frame.DataFrame.GroupBy | pandas/__init__.py:210-214 | the loop over rows builds exactly the groups, in first-seen order |
| Frame.DataFrame.SortValues | pandas/__init__.py:216-221 | `sort_values` returns a sorted permutation that keeps input order on ties |

## Left out

- CSV input and output are I/O and are not modelled. This covers `read_csv`, `load_raw_data`, `to_csv`, `save_cleaned_data` and `_format_value`; a table is an already-loaded sequence of rows.
- `to_datetime` tries `datetime.fromisoformat`, then `"%H:%M"`, then `"%H:%M:%S"`. These are library calls, represented by the parameter `parseTime`. Datetimes are abstract points in time.
- `str()` of a datetime is represented by the parameter `showTime`.
- Numbers are exact integers and reals: there is no IEEE rounding, infinity or NaN.
- The text parsers `int(text)` and `float(text)` cover the following: surrounding whitespace, a sign, ASCII digits, one decimal point and an exponent. They do not cover `"inf"`, `"nan"`, underscores or non-ASCII digits.
- `lower()` covers ASCII letters only. `strip()` covers the whitespace characters up to U+00FF.
- `to_numeric(errors="raise")` and `to_datetime(errors="raise")` are never used by the pipeline and are not modelled.
- Also not modelled: `pandas/testing.py`, `__repr__`, `head`, `shape`, `select_dtypes`, `equals` and the `api` namespace wiring.
- Row-dictionary aliasing between frames is not modelled; rows are values. `clean_fields` works on a copy, and the frames it discards are never read again.
- Frame.DataFrame.SortValues: requires the sort keys of any two rows to hold values of the same class at every position. This is stronger than Python needs. Tuple `<` stops at the first position whose values differ under `==`, and `sorted` compares only some pairs. A table that sorts in Python without meeting it is outside the model. `Cleaning.CleanFields` proves that every table `clean_fields` returns meets it.
- Cleaning.EnforceChronologicalOrder: has the same requirement, for the same reason.
- PySeries.MinValue: requires any two non-None values to be both numbers, both strings or both datetimes. Otherwise Python's `min` raises `TypeError`, which is not modelled. Its only caller, the finish-position check, reports a race as unorderable before it calls `min`.
- PySeries.MaxValue: has the same requirement, for the same reason.
- Normalize.DistanceOfText: digits above U+00FF that `str.isdigit` accepts (other scripts' decimal digits, superscripts four to nine, circled digits) are skipped like any other character. Python would append them to the pending number. Text holding them is outside the model.
- Normalize.DistanceOf: reads text through `DistanceOfText`, with the same gap.
- Normalize.ParseDistanceText: uses the same digit test, with the same gap.
- Normalize.ParseDistance: delegates text to `ParseDistanceText`, with the same gap.
- Cleaning.KeepPositive: requires a number or None under the column. `> 0` on text would raise `TypeError`. `Cleaning.ConvertedKinds` proves the condition always holds inside `clean_fields`.
- Cleaning.DropImplausible: has the same requirement on `age`, `distance` and `n_runners`.
- Cleaning.DropInvalid: has the same requirement on `age`, `distance` and `n_runners`.
- PySeries.GreaterThan: requires every non-None value to be comparable with `other`, for the same reason.
- PySeries.Round: requires `float(v)` to succeed on every non-None value. In `clean_fields` the values are always floats or None at that point.
- PySeries.RoundValue: has the same requirement.
- Cleaning.CheckFinish: requires `n_runners` to be a number. The check is only reached after `len(group) == n_runners` held, and that implies a number.
- Cleaning.CheckFinishRange: has the same requirement.
- Cleaning.FillMissing: requires the column names to be distinct. It is only called with the schema columns, which `Cleaning.SchemaColumns` proves distinct.
- Frame.DataFrame.GroupBy: returns `(key, rows)` pairs rather than yielding `(key, DataFrame(rows))`.
- Uniqueness of `(race_id, horse_id)` in the cleaned output is not proved. `validate_schema` checks uniqueness only on the raw table.
- `pd.isna` is `PyValues.IsNa`, the test `v is None`. It is used inside the normalisers, whose contracts state the None cases.
