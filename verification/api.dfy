/**
 * The prediction service: it loads the registered classifier once, reports
 * whether it has one, and labels a message by the classifier's spam
 * probability for the message's six features.
 */
module Api {
  import opened Wrappers
  import opened Schema
  import opened TextFeatures

  type Path = string

  /** A fitted classifier as `joblib.load` returns it, reduced to `predict_proba(X)[0, 1]` on a one-row `X`:
      the spam probability of one feature row. */
  type Model = seq<real> -> real

  /** The files on disk, each with the classifier `joblib.load` reads from it. */
  datatype ModelStore = ModelStore(files: map<Path, Model>)

  /** The body of `GET /health`. */
  datatype HealthReport = HealthReport(status: string, modelLoaded: bool, modelPath: Option<Path>)

  /** The body of `POST /predict` (`PredictOut`). */
  datatype Prediction = Prediction(labelText: string, probaSpam: real, modelPath: Option<Path>)

  /** The decision threshold on the spam probability. */
  const SpamThreshold: real := 0.5

  /** `MODEL_DIR / MODEL_FILENAME`: an absolute file name replaces the directory, as with `pathlib`. */
  function JoinPath(dir: Path, name: Path): (p: Path)
    ensures |name| > 0 && name[0] == '/' ==> p == name
    ensures (|name| == 0 || name[0] != '/') ==> p == dir + "/" + name
  {
    if |name| > 0 && name[0] == '/' then name else dir + "/" + name
  }

  /** The model input row `[[feats[c] for c in FEATURE_COLUMNS]]`: one value per feature column, in the
      schema's order. */
  function FeatureRow(features: map<string, real>): (row: seq<real>)
    requires HasFeatureColumns(features)
    ensures |row| == |FeatureColumns|
    ensures forall k :: 0 <= k < |row| ==> row[k] == features[FeatureColumns[k]]
  {
    seq(|FeatureColumns|, k requires 0 <= k < |FeatureColumns| => features[FeatureColumns[k]])
  }

  /** The ranges of a model input row for a message of `n` characters: words at most characters
      (positions 1 and 0), digits at most the length (2), domains at most URLs at most the length (4
      and 3), and the upper-case ratio (5) between 0 and 1. */
  predicate RowInRange(row: seq<real>, n: nat)
  {
    && |row| == 6
    && 0.0 <= row[1] <= row[0]
    && 0.0 <= row[2] <= n as real
    && 0.0 <= row[4] <= row[3] <= n as real
    && 0.0 <= row[5] <= 1.0
  }

  /** Where the named features are in range, so are the positions of the row that hold them. */
  lemma RowBounds(f: map<string, real>, n: nat)
    requires f.Keys == {"char_len", "word_len", "num_digits", "num_urls", "num_domains", "upper_ratio"}
    requires HasFeatureColumns(f)
    requires 0.0 <= f["word_len"] <= f["char_len"]
    requires 0.0 <= f["num_digits"] <= n as real
    requires 0.0 <= f["num_domains"] <= f["num_urls"] <= n as real
    requires 0.0 <= f["upper_ratio"] <= 1.0
    ensures RowInRange(FeatureRow(f), n)
  {
    var row := FeatureRow(f);
    assert row[0] == f["char_len"] && row[1] == f["word_len"] && row[2] == f["num_digits"];
    assert row[3] == f["num_urls"] && row[4] == f["num_domains"] && row[5] == f["upper_ratio"];
  }

  /** The input row built for a message has every feature in its range. */
  lemma FeatureRowBounds(libs: TextLibs, text: string)
    ensures RowInRange(FeatureRow(BuildFeatures(libs, text)), |text|)
  {
    FeatureBounds(libs, text);
    RowBounds(BuildFeatures(libs, text), |text|);
  }

  /** The model input for a message: its features laid out in the schema's column order. */
  function MessageRow(libs: TextLibs, text: string): (row: seq<real>)
    ensures |row| == |FeatureColumns|
    ensures RowInRange(row, |text|)
  {
    FeatureRowBounds(libs, text);
    FeatureRow(BuildFeatures(libs, text))
  }

  /** The service's state: the module globals `_model` and `_model_path`, and the configured model
      location (`MODEL_DIR`, `MODEL_FILENAME`). */
  class ModelService {
    var model: Option<Model>
    var modelPath: Option<Path>
    const modelDir: Path
    const modelFilename: Path
    const libs: TextLibs

    /** A model is loaded exactly when its path is recorded. */
    ghost predicate Valid()
      reads this
    {
      model.Some? <==> modelPath.Some?
    }

    /** The module as imported: no model yet. */
    constructor(modelDir: Path, modelFilename: Path, libs: TextLibs)
      ensures this.modelDir == modelDir && this.modelFilename == modelFilename && this.libs == libs
      ensures model == None && modelPath == None
      ensures Valid()
    {
      this.modelDir := modelDir;
      this.modelFilename := modelFilename;
      this.libs := libs;
      model := None;
      modelPath := None;
    }

    /** Where the service looks for its model. */
    function ModelFile(): Path
      reads this
    {
      JoinPath(modelDir, modelFilename)
    }

    /** `load_model`: true when the model file exists, and then the loaded model and its path are
        recorded; otherwise both are cleared. */
    method LoadModel(store: ModelStore) returns (loaded: bool)
      modifies this
      ensures loaded <==> ModelFile() in store.files
      ensures loaded ==> model == Some(store.files[ModelFile()]) && modelPath == Some(ModelFile())
      ensures !loaded ==> model == None && modelPath == None
      ensures Valid()
    {
      var path := JoinPath(modelDir, modelFilename);
      if path in store.files {
        model := Some(store.files[path]);
        modelPath := Some(path);
        return true;
      }
      model := None;
      modelPath := None;
      return false;
    }

    /** `startup_event`: load the model (the directory creation before it does not change what is
        loaded). */
    method Startup(store: ModelStore)
      modifies this
      ensures model.Some? <==> ModelFile() in store.files
      ensures model.Some? ==> model == Some(store.files[ModelFile()]) && modelPath == Some(ModelFile())
      ensures Valid()
    {
      var _ := LoadModel(store);
    }

    /** `health`: always "ok", with whether a model is loaded and from where. */
    function Health(): (h: HealthReport)
      reads this
      ensures h.status == "ok"
      ensures h.modelLoaded <==> model.Some?
      ensures h.modelPath == modelPath
    {
      HealthReport("ok", model.Some?, modelPath)
    }

    /** `predict`: without a model the fallback "unknown" with probability 0; with one, the model's spam
        probability for the message's feature row, labelled "spam" when it reaches the threshold. */
    function Predict(text: string): (p: Prediction)
      reads this
      ensures model.None? ==> p == Prediction("unknown", 0.0, None)
      ensures model.Some? ==>
        && p.probaSpam == model.value(MessageRow(libs, text))
        && (p.labelText == "spam" <==> p.probaSpam >= SpamThreshold)
        && (p.labelText == "ham" <==> p.probaSpam < SpamThreshold)
        && p.modelPath == modelPath
    {
      if model.None? then Prediction("unknown", 0.0, None)
      else
        var proba := model.value(MessageRow(libs, text));
        Prediction(if proba >= SpamThreshold then "spam" else "ham", proba, modelPath)
    }
  }

  /** A loaded model is reported by `health`, and `predict` then answers with the model: the fallback
      is given exactly when no model file was found. */
  lemma LoadedServiceAnswers(service: ModelService, text: string)
    requires service.Valid()
    ensures service.Health().modelLoaded <==> service.Predict(text).labelText != "unknown"
    ensures service.Health().modelLoaded ==> service.Predict(text).modelPath == service.Health().modelPath
  {
  }
}
