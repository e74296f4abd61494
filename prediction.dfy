/** The model dispatch of predict: the preprocessed row goes to the young or
    the rest model by the request's age, with a fixed fallback prediction for
    a segment whose model is not loaded. */
module Prediction {
  import opened Features

  /** A loaded regression model, reduced to the first prediction it makes for
      a one-row frame. */
  type Model = seq<Value> -> real

  /** The dummy predictions for a segment without a model. */
  const FallbackYoung: int := 1000
  const FallbackRest: int := 2000

  /** Python's int() on a number: the integer part, rounding toward zero. */
  function TruncateTowardZero(x: real): (n: int)
    ensures x >= 0.0 ==> n >= 0 && n as real <= x < n as real + 1.0
    ensures x < 0.0 ==> n <= 0 && n as real - 1.0 < x <= n as real
  {
    if x >= 0.0 then x.Floor else -((-x).Floor)
  }

  /** The prediction of the segment's model, or its fallback constant. */
  function SegmentPrediction(segment: Segment, model: Option<Model>, frame: seq<Value>): (n: int)
    ensures model.None? && segment == Young ==> n == FallbackYoung
    ensures model.None? && segment == Rest ==> n == FallbackRest
    ensures model.Some? ==> n == TruncateTowardZero(model.value(frame))
  {
    match model
    case None => if segment == Young then FallbackYoung else FallbackRest
    case Some(predictor) => TruncateTowardZero(predictor(frame))
  }

  /** The segment predict chooses: input_dict['Age'] compared with 25. */
  function ModelSegment(input: map<Key, Value>): (r: Result<Segment>)
    ensures Age !in input ==> r == Err(MissingAge)
    ensures Age in input ==> r == SegmentOf(input[Age])
  {
    if Age in input then SegmentOf(input[Age]) else Err(MissingAge)
  }

  /** predict, as a function of the dictionary's contents and the four loaded
      artifacts. */
  function PredictSpec(input: map<Key, Value>, young: ScalerArtifact, rest: ScalerArtifact,
                       modelYoung: Option<Model>, modelRest: Option<Model>): (r: Result<int>)
    ensures PreprocessSpec(input, young, rest).Err? ==> r == Err(PreprocessSpec(input, young, rest).error)
    ensures PreprocessSpec(input, young, rest).Ok? ==> r.Ok? == ModelSegment(input).Ok?
  {
    match PreprocessSpec(input, young, rest)
    case Err(e) => Err(e)
    case Ok(frame) =>
      match ModelSegment(input)
      case Err(e) => Err(e)
      case Ok(segment) =>
        Ok(SegmentPrediction(segment, if segment == Young then modelYoung else modelRest, frame))
  }

  /** predict: preprocess the request, then dispatch on its age. */
  method Predict(keys: seq<Key>, input: map<Key, Value>, young: ScalerArtifact, rest: ScalerArtifact,
                 modelYoung: Option<Model>, modelRest: Option<Model>) returns (r: Result<int>)
    requires IsIterationOrder(keys, input)
    ensures r == PredictSpec(input, young, rest, modelYoung, modelRest)
  {
    var frame := Preprocess(keys, input, young, rest);
    if frame.Err? {
      return Err(frame.error);
    }
    if Age !in input {
      return Err(MissingAge);
    }
    var segment := SegmentOf(input[Age]);
    if segment.Err? {
      return Err(segment.error);
    }
    if segment.value == Young {
      r := Ok(SegmentPrediction(Young, modelYoung, frame.value));
    } else {
      r := Ok(SegmentPrediction(Rest, modelRest, frame.value));
    }
  }

  // ---------------------------------------------------------------------------
  // Properties of the dispatch

  /** When the request carries an age and preprocessing succeeds, the scaler was
      chosen by the same threshold as the model: both segments agree, so the
      model that runs is the one whose scaler prepared the frame. */
  lemma ScalerAndModelAgree(input: map<Key, Value>, young: ScalerArtifact, rest: ScalerArtifact)
    requires Age in input
    requires PreprocessSpec(input, young, rest).Ok?
    ensures ModelSegment(input).Ok?
    ensures ScalerSegment(input) == ModelSegment(input)
    ensures PreprocessSpec(input, young, rest)
      == Scale(Encode(input).value, if ModelSegment(input) == Ok(Young) then young else rest)
  {
  }

  /** A request without an age is scaled as young (its age cell stays 0) and
      then fails at the model lookup with the missing key. */
  lemma MissingAgeScaledYoungThenFails(input: map<Key, Value>, young: ScalerArtifact, rest: ScalerArtifact,
                                       modelYoung: Option<Model>, modelRest: Option<Model>)
    requires Age !in input
    requires Encode(input).Ok?
    ensures ScalerSegment(input) == Ok(Young)
    ensures PreprocessSpec(input, young, rest) == Scale(Encode(input).value, young)
    ensures PreprocessSpec(input, young, rest).Ok? ==>
      PredictSpec(input, young, rest, modelYoung, modelRest) == Err(MissingAge)
  {
    CopiedFieldsAndRisk(input);
  }

  /** predict fails with the AttributeError of .lower() exactly when the
      medical history is not text. */
  lemma HistoryErrorOfPredict(input: map<Key, Value>, young: ScalerArtifact, rest: ScalerArtifact,
                              modelYoung: Option<Model>, modelRest: Option<Model>)
    ensures PredictSpec(input, young, rest, modelYoung, modelRest) == Err(HistoryNotText)
      <==> !History(input).Text?
  {
    if History(input).Text? {
      CopiedFieldsAndRisk(input);
    }
  }

  /** predict fails with the TypeError of '<= 25' exactly when the history is
      text and the age is present but not a number; the scaler choice raises it
      before the model choice is reached. */
  lemma AgeErrorOfPredict(input: map<Key, Value>, young: ScalerArtifact, rest: ScalerArtifact,
                          modelYoung: Option<Model>, modelRest: Option<Model>)
    ensures PredictSpec(input, young, rest, modelYoung, modelRest) == Err(AgeNotComparable)
      <==> History(input).Text? && Age in input && input[Age].Text?
  {
    if History(input).Text? {
      CopiedFieldsAndRisk(input);
    }
  }

  /** predict fails with the KeyError of input_dict['Age'] exactly when
      preprocessing succeeded on a request without an age. */
  lemma MissingAgeErrorOfPredict(input: map<Key, Value>, young: ScalerArtifact, rest: ScalerArtifact,
                                 modelYoung: Option<Model>, modelRest: Option<Model>)
    ensures PredictSpec(input, young, rest, modelYoung, modelRest) == Err(MissingAge)
      <==> PreprocessSpec(input, young, rest).Ok? && Age !in input
  {
    if History(input).Text? {
      CopiedFieldsAndRisk(input);
    }
  }

  /** With the fallback artifacts (no scaler, no models) a request with a
      numeric age and a textual history is priced 1000 up to and including age
      25 and 2000 above it, whatever else it holds. */
  lemma FallbackPrediction(input: map<Key, Value>)
    requires History(input).Text?
    requires Age in input && input[Age].Num?
    ensures PredictSpec(input, FallbackScaler, FallbackScaler, None, None)
      == Ok(if input[Age].x <= YoungMaxAge then FallbackYoung else FallbackRest)
  {
    CopiedFieldsAndRisk(input);
  }

  /** With loaded models the result is the chosen model's prediction on the
      preprocessed frame, truncated toward zero. */
  lemma LoadedModelPrediction(input: map<Key, Value>, young: ScalerArtifact, rest: ScalerArtifact,
                              modelYoung: Model, modelRest: Model)
    requires PreprocessSpec(input, young, rest).Ok?
    requires Age in input && input[Age].Num?
    ensures var frame := PreprocessSpec(input, young, rest).value;
      PredictSpec(input, young, rest, Some(modelYoung), Some(modelRest))
      == Ok(TruncateTowardZero(if input[Age].x <= YoungMaxAge then modelYoung(frame) else modelRest(frame)))
  {
    ScalerAndModelAgree(input, young, rest);
  }
}
