# Crop-yield prediction form: the feature-alignment handler

The application is a one-page form that asks for a country, a year, the
maximum and minimum temperature, the average humidity and a crop, and shows
the yield a trained regression model predicts for them. The only logic of its
own is the body of the "Predict Yield" button handler (`app.py`, lines
73-102). It encodes the country with the trained label encoder and names the
crop's one-hot column `Crop_<crop>`. It builds a one-row frame from five
explicit keys, adds every feature the model declares but the row lacks with
value 0, and reorders the columns into the model's declared order. It then
calls the model and shows the first prediction. Any exception raised along the
way is shown as an error message.

The Dafny model has three modules:

- `Wrappers` (`wrappers.dfy`): `Result`, which stands for a raised exception.
- `Frames` (`frames.dfy`): a one-row pandas frame, as its column labels in
  order plus a map from label to cell. It has three operations:
  - `FromRecord` is `pd.DataFrame([dict])`;
  - `Assign` is `df[label] = v`;
  - `Select` is `df[labels]`, which fails with a `KeyError` for absent labels.
- `CropYield` (`crop_yield.dfy`): the request and the loaded artifacts, the
  encoder lookup, the crop column name, the zero-fill loop (`AddMissingFeatures`,
  a method with loop invariants), the handler body (`Align`) and the whole
  button handler (`HandlePredict`).

The artifacts are passed in as parameters rather than loaded: the model's
declared feature list (`seq<string>`), the encoder's learned codes (a partial
map from country to integer), and the model's predict function.

`Align` is proved equal to an independent reference definition, `Expected`.
That definition gives the row one column per declared feature, in declared
order, and fills each with its own rule: the three readings are copied, the
selected crop's indicator is 1, `Country` is the encoder's code, and
everything else is 0. The lemmas about `Expected` state what the handler
promises. `Align` and `HandlePredict` are methods whose results equal a
function of their inputs, so equal inputs give equal rows.

The year input (app.py:61) never enters the row, so a declared `Year`
feature is always zero-filled (`ExpectedOthersZero`, `YearIgnored`). After the
zero-fill loop, the projection at app.py:94 can never miss a column: `Align`
proves that `Select` succeeds there, so the model has no error for it.

## Model

| member | source | states |
|---|---|---|
| `Frames.Assign` | app.py:91 | assigning a column keeps a valid frame; an existing column keeps its position and a new label is appended last; only the assigned cell changes |
| `Frames.FromRecord` | app.py:80-86 | the frame built from a dict record is valid and its columns are exactly the record's keys |
| `Frames.FromRecordOfDistinct` | app.py:80-86 | a record with distinct keys becomes a frame whose columns are those keys in written order, each cell holding its entry's value |
| `Frames.Select` | app.py:94 | selection succeeds exactly when every requested label is a column; the result's columns are the requested labels in the requested order, with the original cells and no other columns; otherwise the KeyError names exactly the absent labels |
| `CropYield.Transform` | app.py:76 | the encoder returns the learned code exactly when the country was seen in training, and otherwise fails with that country as the unseen label |
| `CropYield.CropFeature` | app.py:77 | the crop column carries the `Crop_` prefix and can never coincide with the temperature, humidity or country columns |
| `CropYield.CropFeatureInjective` | app.py:77 | two crops share an indicator column only if they are the same crop |
| `CropYield.CropListFeaturesDistinct` | app.py:69-77 | the seven crops of the drop-down have seven different indicator columns |
| `CropYield.ExplicitLabelsDistinct` | app.py:80-86 | the row literal's five keys are, in order, the two temperatures, humidity, the crop column and `Country`, and no two are equal |
| `CropYield.ExplicitEntryExpected` | app.py:80-86 | each entry of the row literal holds the value the per-feature rule gives its key |
| `CropYield.OtherFeatureZero` | app.py:89-91 | a feature that is none of the five explicit keys receives 0 |
| `CropYield.RecordCellExpected` | app.py:80-91 | a column of the built row holds the rule's value; a feature the row lacks is one the rule sets to 0 |
| `CropYield.AppendKeepsCells` | app.py:89-91 | appending a missing feature keeps the frame valid and the original columns first and unchanged; the new column holds 0 and the key set grows by exactly that feature |
| `CropYield.AppendKeepsBound` | app.py:89-91 | after appending `features[i]`, every added column is a declared feature first declared before position i+1 |
| `CropYield.AppendKeepsOrder` | app.py:89-91 | after appending `features[i]`, the added columns are still in the order of their first declaration |
| `CropYield.SkipPresentStep` | app.py:90 | when the loop meets a feature that is already a column, the unchanged frame still has a column for every feature looked at, this one included |
| `CropYield.AddMissingFeatures` | app.py:89-91 | the zero-fill loop only adds columns: the original columns keep their place and value; afterwards the columns are exactly the original ones plus every declared feature; each added column holds 0; the added columns follow declaration order; no label appears twice |
| `CropYield.Align` | app.py:74-94 | the handler body fails exactly when the encoder does not know the country, reporting that country; otherwise it yields exactly the reference row, and the projection never meets a missing column |
| `CropYield.HandlePredict` | app.py:73-102 | an unknown country is shown as an error without calling the model; otherwise the model is called on the reference row and its first prediction is shown, or an error when it returns none |
| `CropYield.ExpectedHasDeclaredColumns` | app.py:89-94 | the aligned row's columns are exactly the declared features, in declared order, with no extras and no omissions |
| `CropYield.ExpectedCopiesInputs` | app.py:80-85 | the declared `Max_Temperature`, `Min_Temperature` and `Avg_Humidity` columns equal the inputs, and `Country` equals the encoder's code |
| `CropYield.ExpectedCropOneHot` | app.py:77-91 | among the declared `Crop_*` columns, exactly the selected crop's holds 1 and every other holds 0 |
| `CropYield.ExpectedOthersZero` | app.py:80-91 | every declared feature outside the five explicit keys is 0, a declared `Year` among them |
| `CropYield.YearIgnored` | app.py:61-94 | changing the year input never changes the aligned row |
| `CropYield.ExpectedDropsUndeclared` | app.py:94 | an explicit key the model does not declare, such as an unseen crop's indicator, is absent from the aligned row |

## Left out

- The Streamlit page: configuration, sidebar, title, columns and input widgets (app.py:13-68 and 70). This is presentation only. The crop list at app.py:69 is kept as `CropList`, so that `CropListFeaturesDistinct` can state that each drop-down crop has its own indicator column. The selected crop is still a plain string, since the handler never checks it against the list.
- The widget bounds on year, temperatures and humidity (app.py:61-66). The handler never checks them, so the model accepts any year and any reading.
- Loading the model, scaler and encoder with `joblib` (app.py:6-11). This is file I/O. The declared features and the encoder's codes are parameters, and the scaler is never used.
- The label encoder's internals. It is a partial map from known countries to integer codes, not a sorted class array.
- `model.predict` (app.py:97). This is a third-party floating-point regression, modelled as an uninterpreted function from the aligned row to a sequence of numbers.
- HandlePredict: treats `model.predict` as total. An exception raised inside the model, which the broad `except` would also turn into an error message, is not modelled.
- Floating point. Temperatures and humidity are `real` values that are only copied, never computed on.
- pandas dtypes. A cell is only a float or an integer.
- The display strings (app.py:100, 102). The two-decimal `hg/ha` success message and the `An error occurred: ...` text are not modelled. The result is `Predicted(value)` or `ErrorShown(error)`.
- Update in place. The zero-fill loop mutates the handler's local DataFrame. The model reassigns a local frame value at each step instead; the frame is never shared, so no aliasing is lost.
