# Insurance premium feature encoder and age dispatch, in Dafny

This project models `prediction_helper.py`, the preprocessing and dispatch layer of
an insurance-premium prediction service, and proves properties of the model.

- **Risk scorer** (`risk.dfy`, module `Risk`): `calculate_normalized_risk`.
  - It lower-cases the medical history and splits it on `" & "`.
  - It strips each part and looks it up in the fixed weight table, where an unknown name weighs 0.
  - It sums the weights and divides the total by the fixed range 14.
- **Feature encoder** (`features.dfy`, module `Features`): `preprocess_input`.
  - It starts from an 18-column row of zeros in the fixed column order.
  - It walks the dictionary in iteration order. Each recognised pair sets one cell: a one-hot flag, the ordinal insurance-plan code or a verbatim copy of a numeric field.
  - It then writes the normalised risk score.
  - It picks the young or the rest scaler by the age cell and runs that scaler, if there is one, over its columns.
  - The loop is a method over an `array` (`FillRow`, one `ApplyEntry` per key). It is proved to build `Columns(input)`, a function of the dictionary's contents alone.
- **Dispatch** (`prediction.dfy`, module `Prediction`): `predict`.
  - It preprocesses the request.
  - It picks the young or the rest model by `input_dict['Age'] <= 25` and truncates the prediction with `int()`.
  - A segment with no loaded model gets the dummy value 1000 (young) or 2000 (rest).

How the Python program is represented:
- **The input dictionary** has two parts: a sequence of keys, which is the iteration order, and a map holding the contents. The keys the code compares against are constructors of a `Key` datatype, and every other string is `Other(name)`.
- **Values** are `Text(string)` or `Num(real)`. Cells of the frame are values too, so a copied field is copied as is.
- **Python exceptions** become `Err` results:
  - a non-string medical history (`.lower()` fails);
  - a non-numeric age (`<= 25` fails);
  - a missing `'Age'` in `predict` (`KeyError`);
  - a scaler column the frame does not have;
  - a scaler output of the wrong width.
- **The loaded artifacts** are parameters:
  - each scaler is its column list plus an optional transform;
  - each model is an optional function from the row to a real.
- **When loading fails**, both models are `None` and both scalers are `FallbackScaler`: the columns `age` and `income_lakhs` with no scaler.
- **The dummy predictions** `FallbackYoung` (1000) and `FallbackRest` (2000) are what `predict` returns for a segment whose model is `None`, whether or not loading failed.

## Model

| member | source | states |
|---|---|---|
| Risk.Lower | prediction_helper.py:26 | result has the same length, each ASCII capital becomes its small letter, and every other character is unchanged |
| Risk.Strip | prediction_helper.py:27 | result has no whitespace at either end |
| Risk.StripDecomposes | prediction_helper.py:27 | every string is whitespace + Strip(s) + whitespace, so stripping removes only whitespace |
| Risk.StripUnique | prediction_helper.py:27 | for any whitespace a, b and trimmed q, Strip(a + q + b) == q |
| Risk.StripPadded | prediction_helper.py:27 | padding a part with whitespace does not change what it strips to |
| Risk.Split | prediction_helper.py:26 | split always yields at least one part |
| Risk.JoinSplit | prediction_helper.py:26 | splitting loses nothing: joining the parts with " & " gives back the string |
| Risk.SplitPartsHaveNoSeparator | prediction_helper.py:26 | no part contains " & " |
| Risk.SplitIsLeftmost | prediction_helper.py:26 | split cuts at the leftmost separator: no part before a cut ends in " &" |
| Risk.SplitUnique | prediction_helper.py:26 | the split is the only list of parts that joins back to the string, has no separator inside a part, and cuts leftmost |
| Risk.SplitJoin | prediction_helper.py:26 | a non-empty list of names without '&', joined by " & ", splits back into the same names |
| Risk.Weight | prediction_helper.py:18-27 | a weight is at most 8, and a name outside the table weighs 0 |
| Risk.SumWeights | prediction_helper.py:27 | the sum over n parts is at most 8·n |
| Risk.SumWeightsAppend | prediction_helper.py:27 | the sum is additive over concatenated part lists |
| Risk.TotalRisk | prediction_helper.py:26-27 | the total is a natural number, at most 8 per " & "-part |
| Risk.NormalizedRisk | prediction_helper.py:28-30 | the score is ≥ 0 and is exactly total/14 (score·14 == total) |
| Risk.TotalRiskOfConditions | prediction_helper.py:26-27 | the total of names without '&' joined by " & " is the sum of the weights of their lower-cased, stripped forms |
| Risk.SingleCondition | prediction_helper.py:26-27 | a known condition in any ASCII case with any surrounding whitespace scores its table weight |
| Risk.KnownNameIsCanonical | prediction_helper.py:18-25 | every table name is already lower-case and stripped |
| Risk.KnownConditionsTotal | prediction_helper.py:18-27 | known conditions joined by " & " score the sum of their table weights |
| Risk.ScoreNotClamped | prediction_helper.py:28-30 | "diabetes & heart disease & thyroid" totals 19 and normalises above 1 |
| Risk.DefaultHistoryScoresZero | prediction_helper.py:84 | the default history "no disease" scores 0 |
| Features.KeyOf | prediction_helper.py:45-81 | the key a string stands for has that string as its name |
| Features.KeyRoundTrip | prediction_helper.py:45-81 | canonical keys and strings correspond one to one |
| Features.KeyOfCanonical | prediction_helper.py:45-81 | every string maps to a canonical key: KeyOf falls through to Other only for names outside the twelve |
| Features.ColumnPositions | prediction_helper.py:34-39 | the 18 position constants are the positions of their labels in expected_columns |
| Features.ColumnIndex | prediction_helper.py:34-39 | finds the position of a column name exactly when the frame has that column |
| Features.Lookup | prediction_helper.py:75-84 | dict.get(key, default): the stored value when the key is present, the default otherwise |
| Features.PlanCode | prediction_helper.py:74 | the code is 1..3, 2 exactly for Silver and 3 exactly for Gold |
| Features.Cell | prediction_helper.py:42-82 | column i of the filled row; from an empty dictionary every cell is 0, as the frame is created |
| Features.Columns | prediction_helper.py:34-42 | the row has the 18 columns, cell i is the encoding of column i |
| Features.Step | prediction_helper.py:45-82 | one pass of the elif chain keeps the row at 18 cells; StepWritesTarget says which cell it writes |
| Features.GroupColumn | prediction_helper.py:47-72 | a value switches on a column of its group exactly when it names one of the listed categories |
| Features.Target | prediction_helper.py:45-82 | the cell a pair writes is one of the 18 and never the risk score; 'Medical History' and unknown keys write nothing |
| Features.StepWritesTarget | prediction_helper.py:44-82 | one pass of the loop writes exactly the cell the tables name, and an unrecognised pair changes nothing |
| Features.CellFrame | prediction_helper.py:44-82 | a cell depends only on the entry of its own key |
| Features.StepFrame | prediction_helper.py:44-82 | a pass of the loop leaves the columns of other keys alone |
| Features.StepExtends | prediction_helper.py:44-82 | visiting a new key is one Step, so the row does not depend on the iteration order |
| Features.UnrecognisedEntryIgnored | prediction_helper.py:44-82 | an entry with no target cell leaves the row unchanged |
| Features.ApplyEntry | prediction_helper.py:45-82 | the array after one pass is Step of the array before |
| Features.FillRow | prediction_helper.py:42-82 | the loop from the zero row over the keys in iteration order builds Columns(input) |
| Features.History | prediction_helper.py:84 | the medical history, or "no disease" when the key is absent |
| Features.Encode | prediction_helper.py:84 | fails exactly for a non-text history; otherwise the risk cell is the normalised history score and every other cell is Columns(input) |
| Features.SegmentOf | prediction_helper.py:87-90 | Ok exactly for a number; young exactly for ≤ 25, rest exactly for > 25 |
| Features.ColumnIndices | prediction_helper.py:94-95 | each scaler column is found at its position; the result is UnknownColumn exactly when some listed name is not a column |
| Features.WriteColumns | prediction_helper.py:95 | columns outside the list are unchanged, and with distinct columns each gets its new value |
| Features.Select | prediction_helper.py:95 | df[cols]: one cell per listed column, in the listed order, cell j being row[cols[j]] |
| Features.Scale | prediction_helper.py:92-95 | without a scaler the row is unchanged; with one, UnknownColumn exactly when a listed name is not a column, ShapeMismatch exactly when the transform returns another number of cells, and otherwise all other columns keep their values and, with distinct names, the listed columns get the transform's output |
| Features.ScalerSegment | prediction_helper.py:84-90 | the scaler's segment is the segment of the age entry, 0 when absent, once the history is text |
| Features.PreprocessSpec | prediction_helper.py:33-97 | a successful preprocessing yields exactly 18 cells |
| Features.Preprocess | prediction_helper.py:33-97 | the method's result is PreprocessSpec of the dictionary's contents |
| Features.FlagGroupCount | prediction_helper.py:47-72 | in a group of distinct categories exactly one flag is 1 for a listed value, and all are 0 otherwise |
| Features.RegionOneHot | prediction_helper.py:47-53 | region flags: one 1 for a listed region, all 0 for any other value or no key |
| Features.BmiOneHot | prediction_helper.py:56-62 | BMI flags: one 1 for a listed category, all 0 otherwise |
| Features.SmokingOneHot | prediction_helper.py:63-67 | smoking flags: one 1 for a listed status, all 0 otherwise |
| Features.EmploymentOneHot | prediction_helper.py:68-72 | employment flags: one 1 for a listed status, all 0 otherwise |
| Features.BinaryFlags | prediction_helper.py:45-55 | gender_Male and marital_status_Unmarried are 0/1, and 1 exactly for 'Male' and 'Unmarried' |
| Features.InsurancePlanCode | prediction_helper.py:73-74 | Bronze 1, Silver 2, Gold 3, any other value 1, and 0 when the key is absent |
| Features.CopiedFieldsAndRisk | prediction_helper.py:75-84 | the four numeric fields are copied verbatim or stay 0, and a missing history scores 0 |
| Features.FallbackScalerColumns | prediction_helper.py:14-15 | the fallback cols_to_scale 'age' and 'income_lakhs' are the age and income cells |
| Features.FallbackScalesNothing | prediction_helper.py:92-95 | with the fallback scalers the frame is the encoded row unchanged |
| Features.ScaleRewritesItsColumns | prediction_helper.py:93-95 | a scaler with distinct known columns changes no other column |
| Prediction.TruncateTowardZero | prediction_helper.py:113 | the result is the integer part, rounded toward zero, for both signs |
| Prediction.SegmentPrediction | prediction_helper.py:103-111 | without a model the result is 1000 (young) or 2000 (rest); with one it is the truncated prediction |
| Prediction.ModelSegment | prediction_helper.py:102 | MissingAge when 'Age' is absent, otherwise the segment of the age |
| Prediction.PredictSpec | prediction_helper.py:99-113 | preprocessing errors propagate; after them the result is Ok exactly when the model segment is |
| Prediction.Predict | prediction_helper.py:99-113 | the method's result is PredictSpec of the dictionary's contents and the artifacts |
| Prediction.ScalerAndModelAgree | prediction_helper.py:87-102 | with 'Age' present, the scaler and the model are chosen for the same segment |
| Prediction.MissingAgeScaledYoungThenFails | prediction_helper.py:87-102 | without 'Age' the young scaler runs, then predict fails with MissingAge |
| Prediction.HistoryErrorOfPredict | prediction_helper.py:84-100 | predict fails with HistoryNotText exactly when the history is not text |
| Prediction.AgeErrorOfPredict | prediction_helper.py:87-102 | predict fails with AgeNotComparable exactly when the history is text and the age is present but not a number |
| Prediction.MissingAgeErrorOfPredict | prediction_helper.py:100-102 | predict fails with MissingAge exactly when preprocessing succeeds and 'Age' is absent |
| Prediction.FallbackPrediction | prediction_helper.py:102-111 | with the scalers and models left by a failed load (FallbackScaler, no models), a text medical history and a numeric age give the dummy 1000 up to age 25 and 2000 above |
| Prediction.LoadedModelPrediction | prediction_helper.py:102-113 | with loaded models the result is the segment's model on the preprocessed frame, truncated |

## Left out

- Artifact loading with `joblib.load` and its `except` fallback (prediction_helper.py:5-15) is file I/O. The four artifacts are parameters instead. After a failed load they are `FallbackScaler` for both scalers and `None` for both models.
- `scaler.transform` and `model.predict` are sklearn calls. Each is an uninterpreted function: a transform from the selected cells to new cells, and a model from the row to the first prediction.
- The pandas frame is one row of 18 `Value` cells. Column labels are positions.
  - pandas dtype coercion is not modelled: `df[...] = value` stores the value as given.
  - `df[cols] = ...` with a column listed twice is written left to right, so the last write wins.
- Floating point is not modelled. The risk score is a `real`, the comparison `<= 25` is on reals, and `int()` truncates a real. NaN, infinities and the rounding of `/ 14` are out of scope.
- Risk.Lower: only ASCII capitals are lower-cased, not the full Unicode mapping of `str.lower()`. Risk.Strip uses Python's `str.strip()` whitespace set.
- Python `bool` values (a subtype of `int`) are not distinguished from numbers.
- Features.Key: the twelve key names the code compares against are datatype constructors. `IsIterationOrder` requires keys in canonical form, so `Other("Age")` cannot stand in for `Age`. `KeyOf`, `KeyName` and `KeyRoundTrip` make the correspondence with strings exact.
- Features.Scale: a scaler that returns a different number of cells fails with `ShapeMismatch`. The exact pandas exception type is not modelled.
