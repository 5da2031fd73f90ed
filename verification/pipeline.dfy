/** `SentimentPipeline` (src/models/pipeline.py): trims the text, answers
    blank text at once, and otherwise asks the classifier when one was
    acquired, normalising its raw label, or falls back to the lexicon scorer. */
module Pipeline {
  import opened Wrappers
  import opened Json
  import opened Text
  import opened Lexicon
  import Config

  /** The first result dictionary of a classifier call: its "label" and
      "score" keys, either of which may be missing. */
  datatype RawOutput = RawOutput(rawLabel: Option<string>, score: Option<real>)

  /** The external text-classification pipeline, seen only as a function from
      the trimmed text to its result list. */
  type Classifier = string -> seq<RawOutput>

  /** The predictor: its configuration and the classifier handle, if one was
      acquired at construction. */
  datatype SentimentPipeline = SentimentPipeline(config: Config.Settings, handle: Option<Classifier>)

  /** What `predict` returns. The name is a JSON value because a configured
      `label_mapping` is used without validation. */
  datatype Prediction = Prediction(name: JsonValue, confidence: real)

  /** Failures `predict` lets escape: the classifier returned an empty list
      (indexing `[0]` raises), or the configured `label_mapping` has no `get`. */
  datatype PredictError = NoClassifierOutput | MappingNotAnObject(found: JsonValue)

  const CanonicalNames: set<string> := {"positive", "negative", "neutral"}

  /** `config.get("use_transformers", True)`, read for its truth value: an
      absent key asks for the classifier. */
  function UseTransformers(config: Config.Settings): (b: bool)
    ensures "use_transformers" !in config ==> b
    ensures "use_transformers" in config ==> (b <==> Truthy(config["use_transformers"]))
  {
    "use_transformers" !in config || Truthy(config["use_transformers"])
  }

  /** A quoted "false" is a non-empty string, so it keeps the classifier on. */
  lemma QuotedFalseKeepsClassifier(config: Config.Settings)
    requires "use_transformers" in config && config["use_transformers"] == JStr("false")
    ensures UseTransformers(config)
  {
  }

  /** `__init__` and `_init_model`: the handle is kept only when the
      configuration asks for the classifier; `acquired` is the outcome of the
      attempt to build it, `None` when the import or the download failed. */
  function NewPipeline(config: Config.Settings, acquired: Option<Classifier>): (p: SentimentPipeline)
    ensures p.config == config
    ensures p.handle.Some? <==> UseTransformers(config) && acquired.Some?
    ensures p.handle.Some? ==> forall t :: p.handle.value(t) == acquired.value(t)
  {
    SentimentPipeline(config, if UseTransformers(config) then acquired else None)
  }

  /** `config.get("label_mapping", <default table>)`: the configured value
      as it is, or the generic-label table when none is configured. */
  function LabelMapping(config: Config.Settings): (m: JsonValue)
    ensures "label_mapping" in config ==> m == config["label_mapping"]
    ensures "label_mapping" !in config ==> m == JObj(Config.DefaultLabelMapping)
  {
    if "label_mapping" in config then config["label_mapping"] else JObj(Config.DefaultLabelMapping)
  }

  /** Turns the classifier's first result into a prediction. A raw label that
      lower-cases to a canonical name is returned lower-cased; any other is
      looked up, in its original case, in the label mapping, with "neutral"
      for a label the mapping lacks. The score passes through unchanged. */
  function Normalise(config: Config.Settings, lower: char -> char, outs: seq<RawOutput>): (r: Result<Prediction, PredictError>)
    ensures r.Failure? <==> |outs| == 0 || (Lower(outs[0].rawLabel.GetOr(""), lower) !in CanonicalNames && !LabelMapping(config).JObj?)
    ensures r.Success? ==> r.value.confidence == outs[0].score.GetOr(0.0)
  {
    if |outs| == 0 then Failure(NoClassifierOutput)
    else
      var raw := outs[0].rawLabel.GetOr("");
      var score := outs[0].score.GetOr(0.0);
      var lowered := Lower(raw, lower);
      if lowered in CanonicalNames then Success(Prediction(JStr(lowered), score))
      else
        match LabelMapping(config)
        case JObj(m) => Success(Prediction(if raw in m then m[raw] else JStr("neutral"), score))
        case other => Failure(MappingNotAnObject(other))
  }

  /** `predict(text, language)`. Blank text is neutral at 0.0 whatever the
      state; without a handle the result is the lexicon verdict on the trimmed
      text, which never fails and always carries a canonical name. */
  function Predict(p: SentimentPipeline, cs: CharModel, text: string, language: Option<string>): (r: Result<Prediction, PredictError>)
    ensures Strip(text, cs.isSpace) == [] ==> r == Success(Prediction(JStr("neutral"), 0.0))
    ensures r.Failure? ==> p.handle.Some? && Strip(text, cs.isSpace) != []
    ensures p.handle.None? ==> r.Success? && r.value.name.JStr? && r.value.name.s in CanonicalNames
    ensures p.handle.None? ==> 0.0 <= r.value.confidence <= 1.0
  {
    var t := Strip(text, cs.isSpace);
    if t == [] then Success(Prediction(JStr("neutral"), 0.0))
    else
      match p.handle
      case Some(classify) => Normalise(p.config, cs.lower, classify(t))
      case None =>
        var v := RuleBased(t, language, cs);
        Success(Prediction(JStr(v.sentiment.Name()), v.confidence))
  }

  /** Blank text is answered without the classifier or the lexicon: any two
      predictors, in any language, give the same neutral 0.0. */
  lemma BlankIgnoresState(p1: SentimentPipeline, p2: SentimentPipeline, cs: CharModel, text: string, l1: Option<string>, l2: Option<string>)
    requires All(text, cs.isSpace)
    ensures Predict(p1, cs, text, l1) == Predict(p2, cs, text, l2) == Success(Prediction(JStr("neutral"), 0.0))
  {
  }

  /** Without a handle, `predict` is `_rule_based` on the trimmed text. */
  lemma PredictFallback(p: SentimentPipeline, cs: CharModel, text: string, language: Option<string>)
    requires p.handle.None? && Strip(text, cs.isSpace) != []
    ensures Predict(p, cs, text, language).Success?
    ensures Predict(p, cs, text, language).value.name == JStr(RuleBased(Strip(text, cs.isSpace), language, cs).sentiment.Name())
    ensures Predict(p, cs, text, language).value.confidence == RuleBased(Strip(text, cs.isSpace), language, cs).confidence
  {
  }

  /** A predictor built with `use_transformers` false always takes the
      lexicon path, whatever classifier could have been acquired. */
  lemma DisabledIgnoresClassifier(config: Config.Settings, acquired: Option<Classifier>, cs: CharModel, text: string, language: Option<string>)
    requires "use_transformers" in config && !Truthy(config["use_transformers"])
    ensures Predict(NewPipeline(config, acquired), cs, text, language) == Predict(SentimentPipeline(config, None), cs, text, language)
  {
  }

  /** Classifier path, canonical raw label: the lower-cased label and the raw
      score are returned as they are. */
  lemma PredictCanonicalLabel(p: SentimentPipeline, cs: CharModel, text: string, language: Option<string>, out: RawOutput)
    requires p.handle.Some? && Strip(text, cs.isSpace) != []
    requires |p.handle.value(Strip(text, cs.isSpace))| > 0 && p.handle.value(Strip(text, cs.isSpace))[0] == out
    requires Lower(out.rawLabel.GetOr(""), cs.lower) in CanonicalNames
    ensures Predict(p, cs, text, language) == Success(Prediction(JStr(Lower(out.rawLabel.GetOr(""), cs.lower)), out.score.GetOr(0.0)))
  {
  }

  /** Classifier path, other raw label: the original-case label is looked up
      in the label mapping; a label it lacks becomes "neutral". */
  lemma PredictMappedLabel(p: SentimentPipeline, cs: CharModel, text: string, language: Option<string>, out: RawOutput, m: map<string, JsonValue>)
    requires p.handle.Some? && Strip(text, cs.isSpace) != []
    requires |p.handle.value(Strip(text, cs.isSpace))| > 0 && p.handle.value(Strip(text, cs.isSpace))[0] == out
    requires Lower(out.rawLabel.GetOr(""), cs.lower) !in CanonicalNames
    requires LabelMapping(p.config) == JObj(m)
    ensures out.rawLabel.GetOr("") in m ==>
      Predict(p, cs, text, language) == Success(Prediction(m[out.rawLabel.GetOr("")], out.score.GetOr(0.0)))
    ensures out.rawLabel.GetOr("") !in m ==>
      Predict(p, cs, text, language) == Success(Prediction(JStr("neutral"), out.score.GetOr(0.0)))
  {
  }

  /** With the default label mapping (absent from the configuration, or the
      default table itself), a classifier that returns anything yields one of
      the three canonical names. */
  lemma DefaultMappingIsCanonical(p: SentimentPipeline, cs: CharModel, text: string, language: Option<string>)
    requires LabelMapping(p.config) == JObj(Config.DefaultLabelMapping)
    requires p.handle.Some? ==> |p.handle.value(Strip(text, cs.isSpace))| > 0
    ensures Predict(p, cs, text, language).Success?
    ensures Predict(p, cs, text, language).value.name.JStr?
    ensures Predict(p, cs, text, language).value.name.s in CanonicalNames
  {
  }

  /** A configured `label_mapping` is not validated: a raw label can come out
      under any name the configuration gives it. */
  lemma MappingIsNotValidated(cs: CharModel, classify: Classifier, text: string, v: JsonValue)
    requires Strip(text, cs.isSpace) != []
    requires classify(Strip(text, cs.isSpace)) == [RawOutput(Some("LABEL_0"), Some(0.9))]
    requires Lower("LABEL_0", cs.lower) !in CanonicalNames
    ensures Predict(SentimentPipeline(map["label_mapping" := JObj(map["LABEL_0" := v])], Some(classify)), cs, text, None)
      == Success(Prediction(v, 0.9))
  {
  }
}
