/**
 * The predict handler of the crop-yield form: it encodes the country, builds
 * the one-row feature frame from the form's inputs, fills every feature the
 * trained model declares but the row lacks with 0, reorders the columns into
 * the model's declared order and hands that row to the model. Any exception
 * on the way is caught and shown as an error message instead of a prediction.
 *
 * The loaded artifacts are parameters: the model's declared feature list,
 * the label encoder's learned codes, and the model's predict function.
 */
module CropYield {
  import opened Wrappers
  import opened Frames

  const MaxTemperature := "Max_Temperature"
  const MinTemperature := "Min_Temperature"
  const AvgHumidity := "Avg_Humidity"
  const CountryFeature := "Country"
  const CropPrefix := "Crop_"

  /** The choices of the crop drop-down. */
  const CropList: seq<string> := ["Maize", "Rice, paddy", "Wheat", "Potatoes", "Sorghum", "Soybeans", "Sweet potatoes"]

  /** What the form hands to the handler. The widget bounds are not checked by the handler and are not part of the model. */
  datatype Request = Request(country: string, year: int, maxTemp: real, minTemp: real, avgHumidity: real, crop: string)

  /** The read-only artifacts loaded at start-up: the model's declared features, in order, and the country encoder's learned codes. */
  datatype Artifacts = Artifacts(features: seq<string>, encoder: map<string, int>)

  /** What the handler can fail with: a country the encoder never saw, or a model that returned no prediction to index. */
  datatype HandlerError = UnknownLabel(category: string) | NoPrediction

  /** What the page shows after the button is pressed. */
  datatype Display = Predicted(yieldValue: real) | ErrorShown(error: HandlerError)

  /** A one-hot crop indicator label: the crop prefix followed by a crop name. */
  predicate IsCropKey(k: string)
  {
    |k| >= |CropPrefix| && k[..|CropPrefix|] == CropPrefix
  }

  /** `label_encoder.transform([country])[0]`: the learned code, or the error for a label not seen in training. */
  function Transform(encoder: map<string, int>, category: string): (r: Result<int, HandlerError>)
    ensures r.Ok? <==> category in encoder
    ensures r.Ok? ==> r.value == encoder[category]
    ensures r.Err? ==> r.error == UnknownLabel(category)
  {
    if category in encoder then Ok(encoder[category]) else Err(UnknownLabel(category))
  }

  /** The one-hot column of the selected crop; it never collides with the four other explicit labels. */
  function CropFeature(crop: string): (k: string)
    ensures IsCropKey(k) && |k| == |CropPrefix| + |crop|
    ensures k != MaxTemperature && k != MinTemperature && k != AvgHumidity && k != CountryFeature
  {
    var k := CropPrefix + crop;
    assert k[..|CropPrefix|] == CropPrefix;
    assert k[1] == 'r' && k[0] == 'C';
    assert MaxTemperature[0] == 'M' && MinTemperature[0] == 'M' && AvgHumidity[0] == 'A' && CountryFeature[1] == 'o';
    k
  }

  /** Two crops share a one-hot column only if they are the same crop. */
  lemma CropFeatureInjective(a: string, b: string)
    ensures CropFeature(a) == CropFeature(b) ==> a == b
  {
    if CropFeature(a) == CropFeature(b) {
      assert a == CropFeature(a)[|CropPrefix|..];
      assert b == CropFeature(b)[|CropPrefix|..];
    }
  }

  /** Every crop of the drop-down has its own one-hot column. */
  lemma CropListFeaturesDistinct()
    ensures forall i, j :: 0 <= i < j < |CropList| ==> CropFeature(CropList[i]) != CropFeature(CropList[j])
  {
    forall i, j | 0 <= i < j < |CropList| ensures CropFeature(CropList[i]) != CropFeature(CropList[j]) {
      CropFeatureInjective(CropList[i], CropList[j]);
    }
  }

  /** The dict literal the row is built from, entries in source order. */
  function ExplicitRecord(req: Request, code: int): (entries: seq<(string, Value)>)
  {
    [ (MaxTemperature, Float(req.maxTemp)),
      (MinTemperature, Float(req.minTemp)),
      (AvgHumidity, Float(req.avgHumidity)),
      (CropFeature(req.crop), Int(1)),
      (CountryFeature, Int(code)) ]
  }

  /** The five explicit keys are all different, so the literal loses no entry. */
  lemma ExplicitLabelsDistinct(req: Request, code: int)
    ensures Labels(ExplicitRecord(req, code)) == [MaxTemperature, MinTemperature, AvgHumidity, CropFeature(req.crop), CountryFeature]
    ensures Distinct(Labels(ExplicitRecord(req, code)))
  {
    var ls := Labels(ExplicitRecord(req, code));
    assert ls == [MaxTemperature, MinTemperature, AvgHumidity, CropFeature(req.crop), CountryFeature];
    assert MaxTemperature[1] == 'a' && MinTemperature[1] == 'i';
  }

  /**
   * The value each declared feature should carry, one rule per feature: the
   * three readings are copied, the selected crop's indicator is 1, Country is
   * the encoder's code, and anything else is 0.
   */
  function ExpectedValue(req: Request, code: int, f: string): (v: Value)
  {
    if f == MaxTemperature then Float(req.maxTemp)
    else if f == MinTemperature then Float(req.minTemp)
    else if f == AvgHumidity then Float(req.avgHumidity)
    else if f == CropFeature(req.crop) then Int(1)
    else if f == CountryFeature then Int(code)
    else Int(0)
  }

  /** The row the model should be given: exactly the declared features, in declared order, each with its expected value. */
  function Expected(req: Request, features: seq<string>, code: int): (fr: Frame)
  {
    Frame(features, map f | f in features :: ExpectedValue(req, code, f))
  }

  /** The index of the first occurrence of `k` in `s`. */
  function FirstIndex(s: seq<string>, k: string): (i: nat)
    requires k in s
    ensures i < |s| && s[i] == k && k !in s[..i]
  {
    if s[0] == k then 0
    else
      var j := FirstIndex(s[1..], k);
      assert s[..j + 1] == [s[0]] + s[1..][..j];
      1 + j
  }

  lemma FirstIndexAt(s: seq<string>, i: nat)
    requires i < |s| && s[i] !in s[..i]
    ensures FirstIndex(s, s[i]) == i
  {
  }

  /**
   * One turn of the zero-fill loop that appends the missing feature
   * `features[i]`: the cells stay as the loop's invariants describe them.
   */
  lemma AppendKeepsCells(input: Frame, features: seq<string>, i: nat, filled: Frame, next: Frame)
    requires Valid(filled) && i < |features|
    requires |input.columns| <= |filled.columns| && filled.columns[..|input.columns|] == input.columns
    requires forall k :: k in filled.values <==> k in input.values || k in features[..i]
    requires forall k :: k in input.values ==> filled.values[k] == input.values[k]
    requires forall k :: k in filled.values && k !in input.values ==> filled.values[k] == Int(0)
    requires features[i] !in filled.columns && next == Assign(filled, features[i], Int(0))
    ensures Valid(next)
    ensures |input.columns| <= |next.columns| && next.columns[..|input.columns|] == input.columns
    ensures forall k :: k in next.values <==> k in input.values || k in features[..i + 1]
    ensures forall k :: k in input.values ==> next.values[k] == input.values[k]
    ensures forall k :: k in next.values && k !in input.values ==> next.values[k] == Int(0)
  {
    assert features[..i + 1] == features[..i] + [features[i]];
    assert next.columns[..|filled.columns|] == filled.columns;
  }

  /**
   * One turn of the zero-fill loop that appends the missing feature
   * `features[i]`: the added columns all come from the features looked at.
   */
  lemma AppendKeepsBound(start: nat, features: seq<string>, i: nat, filled: Frame, next: Frame)
    requires i < |features|
    requires forall a :: start <= a < |filled.columns| ==>
      filled.columns[a] in features && FirstIndex(features, filled.columns[a]) < i
    requires next.columns == filled.columns + [features[i]]
    ensures forall a :: start <= a < |next.columns| ==>
      next.columns[a] in features && FirstIndex(features, next.columns[a]) < i + 1
  {
    forall a | start <= a < |next.columns|
      ensures next.columns[a] in features && FirstIndex(features, next.columns[a]) < i + 1
    {
      if a < |filled.columns| {
        assert next.columns[a] == filled.columns[a];
      }
    }
  }

  /**
   * One turn of the zero-fill loop that appends the missing feature
   * `features[i]`: the added columns still follow the declared order.
   */
  lemma AppendKeepsOrder(start: nat, features: seq<string>, i: nat, filled: Frame, next: Frame)
    requires i < |features| && FirstIndex(features, features[i]) == i
    requires forall a :: start <= a < |filled.columns| ==>
      filled.columns[a] in features && FirstIndex(features, filled.columns[a]) < i
    requires forall a, b :: start <= a < b < |filled.columns| ==>
      FirstIndex(features, filled.columns[a]) < FirstIndex(features, filled.columns[b])
    requires next.columns == filled.columns + [features[i]]
    ensures forall a, b :: start <= a < b < |next.columns| ==>
      next.columns[a] in features && next.columns[b] in features &&
      FirstIndex(features, next.columns[a]) < FirstIndex(features, next.columns[b])
  {
    var n := |filled.columns|;
    forall a, b | start <= a < b < |next.columns|
      ensures next.columns[a] in features && next.columns[b] in features &&
        FirstIndex(features, next.columns[a]) < FirstIndex(features, next.columns[b])
    {
      assert next.columns[a] == filled.columns[a];
      if b < n {
        assert next.columns[b] == filled.columns[b];
      } else {
        assert next.columns[b] == features[i];
      }
    }
  }

  /** A turn of the zero-fill loop that meets a feature already present changes nothing. */
  lemma SkipPresentStep(input: Frame, features: seq<string>, i: nat, filled: Frame)
    requires Valid(filled) && i < |features| && features[i] in filled.columns
    requires forall k :: k in filled.values <==> k in input.values || k in features[..i]
    ensures forall k :: k in filled.values <==> k in input.values || k in features[..i + 1]
  {
    assert features[..i + 1] == features[..i] + [features[i]];
  }

  /**
   * The zero-fill loop: every declared feature the frame lacks is appended as
   * a column holding 0, in the order the features are declared; columns
   * already present keep their place and their value.
   */
  method AddMissingFeatures(input: Frame, features: seq<string>) returns (filled: Frame)
    requires Valid(input)
    ensures Valid(filled)
    ensures |input.columns| <= |filled.columns| && filled.columns[..|input.columns|] == input.columns
    ensures forall k :: k in filled.values <==> k in input.values || k in features
    ensures forall k :: k in input.values ==> filled.values[k] == input.values[k]
    ensures forall k :: k in filled.values && k !in input.values ==> filled.values[k] == Int(0)
    ensures forall a :: |input.columns| <= a < |filled.columns| ==> filled.columns[a] in features
    ensures forall a, b :: |input.columns| <= a < b < |filled.columns| ==>
      FirstIndex(features, filled.columns[a]) < FirstIndex(features, filled.columns[b])
  {
    filled := input;
    var i := 0;
    while i < |features|
      invariant i <= |features|
      invariant Valid(filled)
      invariant |input.columns| <= |filled.columns| && filled.columns[..|input.columns|] == input.columns
      invariant forall k :: k in filled.values <==> k in input.values || k in features[..i]
      invariant forall k :: k in input.values ==> filled.values[k] == input.values[k]
      invariant forall k :: k in filled.values && k !in input.values ==> filled.values[k] == Int(0)
      invariant forall a :: |input.columns| <= a < |filled.columns| ==>
        filled.columns[a] in features && FirstIndex(features, filled.columns[a]) < i
      invariant forall a, b :: |input.columns| <= a < b < |filled.columns| ==>
        FirstIndex(features, filled.columns[a]) < FirstIndex(features, filled.columns[b])
    {
      var feature := features[i];
      if feature !in filled.columns {
        var next := Assign(filled, feature, Int(0));
        AppendKeepsCells(input, features, i, filled, next);
        FirstIndexAt(features, i);
        AppendKeepsBound(|input.columns|, features, i, filled, next);
        AppendKeepsOrder(|input.columns|, features, i, filled, next);
        filled := next;
      } else {
        SkipPresentStep(input, features, i, filled);
      }
      i := i + 1;
    }
    assert features[..i] == features;
  }

  /** Each entry of the dict literal carries the value the per-feature rule gives its key. */
  lemma ExplicitEntryExpected(req: Request, code: int, idx: nat)
    requires idx < |ExplicitRecord(req, code)|
    ensures ExpectedValue(req, code, ExplicitRecord(req, code)[idx].0) == ExplicitRecord(req, code)[idx].1
  {
    assert MaxTemperature[1] == 'a' && MinTemperature[1] == 'i';
  }

  /** A feature that is none of the five explicit keys gets 0 from the per-feature rule. */
  lemma OtherFeatureZero(req: Request, code: int, f: string)
    requires f !in Labels(ExplicitRecord(req, code))
    ensures ExpectedValue(req, code, f) == Int(0)
  {
    var ls := Labels(ExplicitRecord(req, code));
    assert ls == [MaxTemperature, MinTemperature, AvgHumidity, CropFeature(req.crop), CountryFeature];
    assert ls[0] == MaxTemperature && ls[1] == MinTemperature && ls[2] == AvgHumidity;
    assert ls[3] == CropFeature(req.crop) && ls[4] == CountryFeature;
  }

  /**
   * The row built from the dict literal holds, under each of its columns,
   * the value the per-feature rule gives; a feature it lacks gets 0 from the
   * rule.
   */
  lemma RecordCellExpected(req: Request, code: int, f: string)
    ensures f in FromRecord(ExplicitRecord(req, code)).values ==>
      FromRecord(ExplicitRecord(req, code)).values[f] == ExpectedValue(req, code, f)
    ensures f !in FromRecord(ExplicitRecord(req, code)).values ==> ExpectedValue(req, code, f) == Int(0)
  {
    var record := ExplicitRecord(req, code);
    ExplicitLabelsDistinct(req, code);
    FromRecordOfDistinct(record);
    if f in Labels(record) {
      var idx :| 0 <= idx < |record| && Labels(record)[idx] == f;
      ExplicitEntryExpected(req, code, idx);
    } else {
      OtherFeatureZero(req, code, f);
    }
  }

  /**
   * The handler body up to the model call: encode the country, build the
   * row, zero-fill it and project it onto the declared features. It fails
   * exactly when the encoder does not know the country, and otherwise yields
   * the expected row; the projection never meets a missing column.
   */
  method Align(req: Request, art: Artifacts) returns (r: Result<Frame, HandlerError>)
    ensures r.Err? <==> req.country !in art.encoder
    ensures r.Err? ==> r.error == UnknownLabel(req.country)
    ensures r.Ok? ==> r.value == Expected(req, art.features, art.encoder[req.country])
  {
    var encoded := Transform(art.encoder, req.country);
    match encoded {
      case Err(e) =>
        r := Err(e);
      case Ok(code) =>
        var input := FromRecord(ExplicitRecord(req, code));
        var filled := AddMissingFeatures(input, art.features);
        forall f | f in art.features ensures f in filled.values && filled.values[f] == ExpectedValue(req, code, f) {
          RecordCellExpected(req, code, f);
        }
        var projected := Select(filled, art.features);
        assert projected.Ok?;
        var row := projected.value;
        assert row.values == Expected(req, art.features, code).values;
        r := Ok(row);
    }
  }

  /**
   * The whole button handler: align the row, call the model once on it and
   * show the first prediction, or show the error that was raised. An
   * unknown country is reported before the model is ever called.
   */
  method HandlePredict(req: Request, art: Artifacts, predict: Frame -> seq<real>) returns (shown: Display)
    ensures req.country !in art.encoder ==> shown == ErrorShown(UnknownLabel(req.country))
    ensures req.country in art.encoder ==>
      var scores := predict(Expected(req, art.features, art.encoder[req.country]));
      shown == if |scores| == 0 then ErrorShown(NoPrediction) else Predicted(scores[0])
  {
    var aligned := Align(req, art);
    match aligned {
      case Err(e) =>
        shown := ErrorShown(e);
      case Ok(row) =>
        var prediction := predict(row);
        if |prediction| == 0 {
          shown := ErrorShown(NoPrediction);
        } else {
          shown := Predicted(prediction[0]);
        }
    }
  }

  /** The aligned row has exactly the declared features as columns, in declared order, with no extras. */
  lemma ExpectedHasDeclaredColumns(req: Request, features: seq<string>, code: int)
    ensures Expected(req, features, code).columns == features
    ensures forall k :: k in Expected(req, features, code).values <==> k in features
  {
  }

  /** The temperature, humidity and country features carry the inputs and the encoder's code unchanged. */
  lemma ExpectedCopiesInputs(req: Request, features: seq<string>, code: int)
    ensures MaxTemperature in features ==> Expected(req, features, code).values[MaxTemperature] == Float(req.maxTemp)
    ensures MinTemperature in features ==> Expected(req, features, code).values[MinTemperature] == Float(req.minTemp)
    ensures AvgHumidity in features ==> Expected(req, features, code).values[AvgHumidity] == Float(req.avgHumidity)
    ensures CountryFeature in features ==> Expected(req, features, code).values[CountryFeature] == Int(code)
  {
  }

  /** Among the declared crop indicators, exactly the selected crop's is 1 and every other is 0. */
  lemma ExpectedCropOneHot(req: Request, features: seq<string>, code: int, f: string)
    requires f in features && IsCropKey(f)
    ensures Expected(req, features, code).values[f] == Int(1) <==> f == CropFeature(req.crop)
    ensures f != CropFeature(req.crop) ==> Expected(req, features, code).values[f] == Int(0)
  {
    assert f[0] == 'C' && f[1] == 'r' by {
      assert f[..|CropPrefix|] == CropPrefix;
    }
    assert MaxTemperature[0] == 'M' && MinTemperature[0] == 'M' && AvgHumidity[0] == 'A' && CountryFeature[1] == 'o';
  }

  /** Every declared feature other than the five explicit keys is 0; in particular a declared Year feature, since the year input never enters the row. */
  lemma ExpectedOthersZero(req: Request, features: seq<string>, code: int)
    ensures forall f :: f in features && f !in Labels(ExplicitRecord(req, code)) ==>
      Expected(req, features, code).values[f] == Int(0)
    ensures "Year" in features ==> Expected(req, features, code).values["Year"] == Int(0)
  {
    forall f | f in features && f !in Labels(ExplicitRecord(req, code))
      ensures Expected(req, features, code).values[f] == Int(0)
    {
      OtherFeatureZero(req, code, f);
    }
    var year := "Year";
    assert year[0] == 'Y' && CropFeature(req.crop)[0] == 'C';
  }

  /** The year input has no effect on the aligned row. */
  lemma YearIgnored(req: Request, features: seq<string>, code: int, year: int)
    ensures Expected(req.(year := year), features, code) == Expected(req, features, code)
  {
  }

  /** An explicit key the model does not declare, such as the indicator of a crop it never saw, is dropped by the projection. */
  lemma ExpectedDropsUndeclared(req: Request, features: seq<string>, code: int)
    ensures forall k :: k in Labels(ExplicitRecord(req, code)) && k !in features ==>
      k !in Expected(req, features, code).values
  {
  }
}
