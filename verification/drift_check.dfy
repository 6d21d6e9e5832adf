/**
 * The drift check: loads a reference and a production dataset, compares every
 * feature column with PSI and KS, compares the model's ROC-AUC with the
 * recorded baseline, and reports whether anything drifted.
 */
module DriftCheck {
  import opened Wrappers
  import opened Schema
  import opened JsonValues
  import Psi
  import Ks

  type Path = string

  /** A dataset read from CSV: its columns by name, each a column of numbers. */
  datatype Table = Table(columns: map<string, seq<real>>)

  /** A loaded model, seen through the one number taken from it:
      `roc_auc_score(df["target"], model.predict_proba(df[FEATURE_COLUMNS])[:, 1])` on a table. */
  type Scorer = Table -> real

  /** The files the check can read, by path: CSV datasets, JSON reports and model artifacts.
      A path missing from a map is a file that does not exist. */
  datatype Workspace = Workspace(
    datasets: map<Path, Table>,
    reports: map<Path, Json>,
    models: map<Path, Scorer>)

  /** The exceptions that end a run. */
  datatype DriftError =
    | DatasetNotFound(path: Path)                              // FileNotFoundError
    | MissingFeatureColumns(path: Path, missing: seq<string>)  // ValueError listing the absent columns
    | PsiFailed(column: string, psiError: Psi.PsiError)        // ValueError from the PSI computation
    | MalformedBaseline(path: Path)                            // `.get` or `float` on a value of the wrong shape

  /** The arguments of `run_drift_check`. */
  datatype Settings = Settings(
    referencePath: Path,
    productionPath: Path,
    modelPath: Path,
    baselineReportPath: Path,
    reportPath: Path,
    psiThreshold: real,
    ksThreshold: real,
    metricDropThreshold: real,
    psiBins: int)

  datatype FeatureReport = FeatureReport(psi: real, ks: real, drift: bool)

  datatype MetricReport = MetricReport(
    baselineRocAuc: Option<real>,
    currentRocAuc: Option<real>,
    drop: Option<real>,
    drift: bool)

  /** The report, without its `generated_at` timestamp. */
  datatype DriftReport = DriftReport(
    referencePath: Path,
    productionPath: Path,
    modelPath: Path,
    baselineReportPath: Path,
    psiThreshold: real,
    ksThreshold: real,
    metricDropThreshold: real,
    features: map<string, FeatureReport>,
    metrics: MetricReport,
    driftDetected: bool)

  /** PSI's default `min_fraction` (1e-4), which `run_drift_check` does not override. */
  const MinFraction: real := 0.0001

  /** The metric `run_drift_check` compares. */
  const MetricName: string := "roc_auc"

  /** The names of `wanted` that are not in `present`, in the order of `wanted`. */
  function Absent(wanted: seq<string>, present: set<string>): (missing: seq<string>)
    ensures |missing| <= |wanted|
    ensures forall c :: c in missing <==> c in wanted && c !in present
  {
    if wanted == [] then []
    else (if wanted[0] in present then [] else [wanted[0]]) + Absent(wanted[1..], present)
  }

  /** `part` is `whole` with some elements left out and the others kept in their order. */
  ghost predicate IsSubsequence(part: seq<string>, whole: seq<string>)
    decreases |whole|
  {
    if part == [] then true
    else if whole == [] then false
    else (part[0] == whole[0] && IsSubsequence(part[1..], whole[1..])) || IsSubsequence(part, whole[1..])
  }

  /** `Absent` keeps the order of `wanted`. */
  lemma {:induction false} AbsentInOrder(wanted: seq<string>, present: set<string>)
    ensures IsSubsequence(Absent(wanted, present), wanted)
  {
    if wanted != [] {
      var tail := Absent(wanted[1..], present);
      AbsentInOrder(wanted[1..], present);
      if wanted[0] !in present {
        assert Absent(wanted, present) == [wanted[0]] + tail;
        assert ([wanted[0]] + tail)[1..] == tail;
      } else {
        assert Absent(wanted, present) == tail;
      }
    }
  }

  /** `load_dataset(path)`. */
  function LoadDataset(ws: Workspace, path: Path): (r: Result<Table, DriftError>)
    ensures path !in ws.datasets ==> r == Failure(DatasetNotFound(path))
    ensures path in ws.datasets ==>
      (r.Success? <==> forall c :: c in FeatureColumns ==> c in ws.datasets[path].columns)
    ensures r.Success? ==> path in ws.datasets && r.value == ws.datasets[path]
    ensures r.Failure? && path in ws.datasets ==>
      && r.error.MissingFeatureColumns? && r.error.path == path && r.error.missing != []
      && (forall c :: c in r.error.missing <==> c in FeatureColumns && c !in ws.datasets[path].columns)
      && IsSubsequence(r.error.missing, FeatureColumns)
  {
    if path !in ws.datasets then Failure(DatasetNotFound(path))
    else
      var table := ws.datasets[path];
      var missing := Absent(FeatureColumns, table.columns.Keys);
      if missing != [] then
        assert missing[0] in missing;
        AbsentInOrder(FeatureColumns, table.columns.Keys);
        Failure(MissingFeatureColumns(path, missing))
      else
        Success(table)
  }

  /** `read_baseline_metric(report_path, metric_name)`. */
  function ReadBaselineMetric(ws: Workspace, path: Path, name: string): (r: Result<Option<real>, DriftError>)
    ensures path !in ws.reports ==> r == Success(None)
    ensures path in ws.reports && ws.reports[path].JObject? && "metrics" !in ws.reports[path].fields ==> r == Success(None)
    ensures r == Success(None) <==>
      || path !in ws.reports
      || (ws.reports[path].JObject? && "metrics" !in ws.reports[path].fields)
      || (ws.reports[path].JObject? && ws.reports[path].fields["metrics"].JObject? &&
          (name !in ws.reports[path].fields["metrics"].fields || ws.reports[path].fields["metrics"].fields[name].JNull?))
    ensures r.Success? && r.value.Some? ==>
      path in ws.reports && ws.reports[path].JObject? && "metrics" in ws.reports[path].fields &&
      ws.reports[path].fields["metrics"].JObject? &&
      name in ws.reports[path].fields["metrics"].fields &&
      AsFloat(ws.reports[path].fields["metrics"].fields[name]) == Some(r.value.value)
    ensures r.Success? && r.value.Some? <==>
      && path in ws.reports && ws.reports[path].JObject? && "metrics" in ws.reports[path].fields
      && ws.reports[path].fields["metrics"].JObject?
      && name in ws.reports[path].fields["metrics"].fields
      && AsFloat(ws.reports[path].fields["metrics"].fields[name]).Some?
    ensures r.Failure? <==>
      && path in ws.reports
      && (|| !ws.reports[path].JObject?
          || ("metrics" in ws.reports[path].fields && !ws.reports[path].fields["metrics"].JObject?)
          || ("metrics" in ws.reports[path].fields && ws.reports[path].fields["metrics"].JObject? &&
              name in ws.reports[path].fields["metrics"].fields &&
              !ws.reports[path].fields["metrics"].fields[name].JNull? &&
              AsFloat(ws.reports[path].fields["metrics"].fields[name]).None?))
    ensures r.Failure? ==> r == Failure(MalformedBaseline(path))
  {
    if path !in ws.reports then Success(None)
    else
      var payload := ws.reports[path];
      if !payload.JObject? then Failure(MalformedBaseline(path))
      else
        var metrics := if "metrics" in payload.fields then payload.fields["metrics"] else JObject(map[]);
        if !metrics.JObject? then Failure(MalformedBaseline(path))
        else if name !in metrics.fields then Success(None)
        else if metrics.fields[name].JNull? then Success(None)
        else if AsFloat(metrics.fields[name]).Some? then Success(AsFloat(metrics.fields[name]))
        else Failure(MalformedBaseline(path))
  }

  /** `compute_current_metric(model_path, df)`: the model's ROC-AUC on the table, when it can be computed. */
  function ComputeCurrentMetric(ws: Workspace, modelPath: Path, table: Table): (r: Option<real>)
    ensures r.Some? <==> "target" in table.columns && modelPath in ws.models
    ensures r.Some? ==> r.value == ws.models[modelPath](table)
  {
    if "target" !in table.columns then None
    else if modelPath !in ws.models then None
    else Some(ws.models[modelPath](table))
  }

  /** The metric block: a drop, and possibly drift, only when both ROC-AUC values are known. */
  function MetricOf(baseline: Option<real>, current: Option<real>, threshold: real): (m: MetricReport)
    ensures m.baselineRocAuc == baseline && m.currentRocAuc == current
    ensures m.drop.Some? <==> baseline.Some? && current.Some?
    ensures m.drop.Some? ==> m.drop.value == baseline.value - current.value
    ensures m.drift ==> m.drop.Some? && m.drop.value >= threshold
    ensures baseline.Some? && current.Some? && baseline.value - current.value >= threshold ==> m.drift
  {
    if baseline.Some? && current.Some? then
      var drop := baseline.value - current.value;
      MetricReport(baseline, current, Some(drop), drop >= threshold)
    else
      MetricReport(baseline, current, None, false)
  }

  /** One feature's entry: its PSI and KS, and drift when either reaches its threshold. */
  function AnalyzeColumn(reference: seq<real>, production: seq<real>, column: string, s: Settings, ln: real -> real)
    : (r: Result<FeatureReport, DriftError>)
    ensures Psi.Psi(reference, production, s.psiBins, MinFraction, ln).Failure? ==>
      r == Failure(PsiFailed(column, Psi.Psi(reference, production, s.psiBins, MinFraction, ln).error))
    ensures r.Success? <==> |reference| > 0 && |production| > 0 && s.psiBins >= -1
    ensures r.Success? ==>
      && Psi.Psi(reference, production, s.psiBins, MinFraction, ln) == Success(r.value.psi)
      && Ks.Ks(reference, production) == Success(r.value.ks)
      && (r.value.drift <==> r.value.psi >= s.psiThreshold || r.value.ks >= s.ksThreshold)
  {
    var psi := Psi.Psi(reference, production, s.psiBins, MinFraction, ln);
    if psi.Failure? then Failure(PsiFailed(column, psi.error))
    else
      // PSI already rejected the empty samples, the only input KS refuses.
      var ks := Ks.Ks(reference, production);
      assert ks.Success?;
      Success(FeatureReport(psi.value, ks.value, psi.value >= s.psiThreshold || ks.value >= s.ksThreshold))
  }

  /** A column compared with itself has PSI 0 and KS 0, so it drifts only under a threshold of 0 or less. */
  lemma IdenticalColumnsDoNotDrift(values: seq<real>, column: string, s: Settings, ln: real -> real)
    requires |values| > 0 && s.psiBins >= -1
    ensures AnalyzeColumn(values, values, column, s, ln) ==
      Success(FeatureReport(0.0, 0.0, 0.0 >= s.psiThreshold || 0.0 >= s.ksThreshold))
  {
    Psi.PsiOfIdenticalSamples(values, s.psiBins, MinFraction, ln);
    Ks.KsOfIdenticalSamples(values);
  }

  /** When every production value exceeds every reference value, KS is 1 and the column drifts under any KS threshold up to 1. */
  lemma SeparatedColumnsDrift(reference: seq<real>, production: seq<real>, column: string, s: Settings, ln: real -> real)
    requires |reference| > 0 && |production| > 0 && s.psiBins >= -1 && s.ksThreshold <= 1.0
    requires forall i, j :: 0 <= i < |reference| && 0 <= j < |production| ==> reference[i] < production[j]
    ensures AnalyzeColumn(reference, production, column, s, ln).Success?
    ensures AnalyzeColumn(reference, production, column, s, ln).value.ks == 1.0
    ensures AnalyzeColumn(reference, production, column, s, ln).value.drift
  {
    Ks.KsOfSeparatedSamples(reference, production);
  }

  /** Every feature column has an entry in `features` that `AnalyzeColumn` computes from the two tables. */
  ghost predicate FeaturesOf(reference: Table, production: Table, s: Settings, ln: real -> real, features: map<string, FeatureReport>)
  {
    && (forall c :: c in FeatureColumns ==> c in features && c in reference.columns && c in production.columns)
    && (forall c :: c in features ==> c in FeatureColumns)
    && forall c :: c in FeatureColumns ==>
        AnalyzeColumn(reference.columns[c], production.columns[c], c, s, ln) == Success(features[c])
  }

  /** Both datasets load, and every feature column is non-empty in both, with a usable bin count. */
  ghost predicate Analyzable(ws: Workspace, s: Settings)
  {
    && LoadDataset(ws, s.referencePath).Success?
    && LoadDataset(ws, s.productionPath).Success?
    && s.psiBins >= -1
    && forall c :: c in FeatureColumns ==>
        |LoadDataset(ws, s.referencePath).value.columns[c]| > 0 &&
        |LoadDataset(ws, s.productionPath).value.columns[c]| > 0
  }

  /** `columns[i]` is the first column whose entry fails, and it fails with `error`. */
  ghost predicate FirstFailure(columns: seq<string>, analyze: string -> Result<FeatureReport, DriftError>,
                               i: int, error: DriftError)
  {
    && 0 <= i < |columns|
    && (forall j :: 0 <= j < i ==> analyze(columns[j]).Success?)
    && analyze(columns[i]) == Failure(error)
  }

  /** The per-feature reports and the OR of their drift flags. */
  datatype FeatureAnalysis = FeatureAnalysis(features: map<string, FeatureReport>, drift: bool)

  /** The loop of `run_drift_check` over the feature columns: one entry per column, computed by `analyze`,
      stopping at the first column that fails, and the OR of the entries' drift flags. */
  method AnalyzeColumns(columns: seq<string>, analyze: string -> Result<FeatureReport, DriftError>)
    returns (r: Result<FeatureAnalysis, DriftError>)
    ensures r.Success? <==> forall c :: c in columns ==> analyze(c).Success?
    ensures r.Success? ==>
      && (forall c :: c in r.value.features <==> c in columns)
      && (forall c :: c in r.value.features ==> analyze(c) == Success(r.value.features[c]))
      && (r.value.drift <==> exists c :: c in r.value.features && r.value.features[c].drift)
    ensures r.Failure? ==> exists i :: FirstFailure(columns, analyze, i, r.error)
  {
    var features: map<string, FeatureReport> := map[];
    var featureDrift := false;
    for i := 0 to |columns|
      invariant forall c :: c in features <==> c in columns[..i]
      invariant forall c :: c in features ==> analyze(c) == Success(features[c])
      invariant featureDrift <==> exists c :: c in features && features[c].drift
    {
      var c := columns[i];
      var entry := analyze(c);
      if entry.Failure? {
        forall j | 0 <= j < i
          ensures analyze(columns[j]).Success?
        {
          assert columns[j] in columns[..i];
        }
        assert FirstFailure(columns, analyze, i, entry.error);
        return Failure(entry.error);
      }
      ghost var previous := features;
      features := features[c := entry.value];
      assert forall x :: x in columns[..i + 1] <==> x in columns[..i] || x == c;
      if entry.value.drift {
        assert c in features && features[c].drift;
      } else if featureDrift {
        ghost var y :| y in previous && previous[y].drift;
        assert y != c && features[y] == previous[y];
      }
      featureDrift := featureDrift || entry.value.drift;
    }
    assert columns[..|columns|] == columns;
    return Success(FeatureAnalysis(features, featureDrift));
  }

  /** A table's column, or the empty column when the table has none by that name. */
  function ColumnOf(t: Table, name: string): seq<real>
  {
    if name in t.columns then t.columns[name] else []
  }

  /** The body of the feature loop of `run_drift_check` for the two loaded tables. */
  function ColumnAnalyzer(reference: Table, production: Table, s: Settings, ln: real -> real)
    : string -> Result<FeatureReport, DriftError>
  {
    c => AnalyzeColumn(ColumnOf(reference, c), ColumnOf(production, c), c, s, ln)
  }

  /** `run_drift_check(...)`, up to writing the report file. */
  method RunDriftCheck(ws: Workspace, s: Settings, ln: real -> real) returns (r: Result<DriftReport, DriftError>)
    ensures LoadDataset(ws, s.referencePath).Failure? ==>
      r == Failure(LoadDataset(ws, s.referencePath).error)
    ensures LoadDataset(ws, s.referencePath).Success? && LoadDataset(ws, s.productionPath).Failure? ==>
      r == Failure(LoadDataset(ws, s.productionPath).error)
    ensures Analyzable(ws, s) && ReadBaselineMetric(ws, s.baselineReportPath, MetricName).Success? ==> r.Success?
    ensures LoadDataset(ws, s.referencePath).Success? && LoadDataset(ws, s.productionPath).Success? && r.Failure? ==>
      || (exists i :: FirstFailure(FeatureColumns,
            ColumnAnalyzer(LoadDataset(ws, s.referencePath).value, LoadDataset(ws, s.productionPath).value, s, ln), i, r.error))
      || ReadBaselineMetric(ws, s.baselineReportPath, MetricName) == Failure(r.error)
    ensures r.Success? ==>
      && LoadDataset(ws, s.referencePath).Success?
      && LoadDataset(ws, s.productionPath).Success?
      && FeaturesOf(LoadDataset(ws, s.referencePath).value, LoadDataset(ws, s.productionPath).value, s, ln, r.value.features)
      && ReadBaselineMetric(ws, s.baselineReportPath, MetricName) == Success(r.value.metrics.baselineRocAuc)
      && r.value.metrics == MetricOf(r.value.metrics.baselineRocAuc,
                                     ComputeCurrentMetric(ws, s.modelPath, LoadDataset(ws, s.productionPath).value),
                                     s.metricDropThreshold)
    ensures r.Success? ==>
      r.value.driftDetected == ((exists c :: c in r.value.features && r.value.features[c].drift) || r.value.metrics.drift)
    ensures r.Success? ==>
      && r.value.referencePath == s.referencePath && r.value.productionPath == s.productionPath
      && r.value.modelPath == s.modelPath && r.value.baselineReportPath == s.baselineReportPath
      && r.value.psiThreshold == s.psiThreshold && r.value.ksThreshold == s.ksThreshold
      && r.value.metricDropThreshold == s.metricDropThreshold
  {
    var loadedReference := LoadDataset(ws, s.referencePath);
    if loadedReference.Failure? {
      return Failure(loadedReference.error);
    }
    var loadedProduction := LoadDataset(ws, s.productionPath);
    if loadedProduction.Failure? {
      return Failure(loadedProduction.error);
    }
    var reference, production := loadedReference.value, loadedProduction.value;

    var analyzed := AnalyzeColumns(FeatureColumns, ColumnAnalyzer(reference, production, s, ln));
    if analyzed.Failure? {
      return Failure(analyzed.error);
    }
    var features, featureDrift := analyzed.value.features, analyzed.value.drift;

    var baseline := ReadBaselineMetric(ws, s.baselineReportPath, MetricName);
    if baseline.Failure? {
      return Failure(baseline.error);
    }
    var current := ComputeCurrentMetric(ws, s.modelPath, production);
    var metrics := MetricOf(baseline.value, current, s.metricDropThreshold);
    r := Success(DriftReport(
      s.referencePath, s.productionPath, s.modelPath, s.baselineReportPath,
      s.psiThreshold, s.ksThreshold, s.metricDropThreshold,
      features, metrics, featureDrift || metrics.drift));
  }

  /** The process exit status with `--fail-on-drift`: 1 exactly when asked to fail and drift was found. */
  function ExitStatus(failOnDrift: bool, report: DriftReport): (status: nat)
    ensures status == 0 || status == 1
    ensures status == 1 <==> failOnDrift && report.driftDetected
  {
    if failOnDrift && report.driftDetected then 1 else 0
  }
}
