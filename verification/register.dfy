/**
 * Model registration: copy the trained model into the production registry,
 * but only when the evaluation report's metric reaches the threshold and the
 * model file exists.
 */
module Register {
  import opened Wrappers
  import opened JsonValues

  type Path = string
  type Bytes = seq<bv8>

  /** The exceptions `main` can end with. */
  datatype RegisterError =
    | ReportNotFound(path: Path)                      // `FileNotFoundError` for the report
    | MalformedReport(path: Path)                     // invalid JSON, or `.get`, `in` or `float` on a value of the wrong shape
    | MetricNotFound(name: string)                    // `KeyError`
    | BelowThreshold(value: real, threshold: real)    // `ValueError`
    | ModelNotFound(path: Path)                       // `FileNotFoundError` for the model
    | SameFile(path: Path)                            // `shutil.SameFileError`: the copy would overwrite the model
    | ParentNotDirectory(path: Path)                  // `mkdir` meets a regular file among the registry path's parents
    | TargetIsDirectory(path: Path)                   // `IsADirectoryError`: the copy's destination is a directory

  /** `read_metric(report_path, metric_name)`, with `json.load` given as `decode` (None: not valid JSON). */
  function ReadMetric(files: map<Path, Bytes>, decode: Bytes -> Option<Json>, reportPath: Path, name: string)
    : (r: Result<real, RegisterError>)
    ensures reportPath !in files ==> r == Failure(ReportNotFound(reportPath))
    ensures r.Success? <==>
      && reportPath in files
      && decode(files[reportPath]).Some?
      && decode(files[reportPath]).value.JObject?
      && "metrics" in decode(files[reportPath]).value.fields
      && decode(files[reportPath]).value.fields["metrics"].JObject?
      && name in decode(files[reportPath]).value.fields["metrics"].fields
      && AsFloat(decode(files[reportPath]).value.fields["metrics"].fields[name]).Some?
    ensures r.Success? ==>
      AsFloat(decode(files[reportPath]).value.fields["metrics"].fields[name]) == Some(r.value)
    ensures r == Failure(MetricNotFound(name)) <==>
      && reportPath in files
      && decode(files[reportPath]).Some?
      && decode(files[reportPath]).value.JObject?
      && (|| "metrics" !in decode(files[reportPath]).value.fields
          || Contains(decode(files[reportPath]).value.fields["metrics"], name) == Some(false))
    ensures r.Failure? ==> r.error in {ReportNotFound(reportPath), MetricNotFound(name), MalformedReport(reportPath)}
  {
    if reportPath !in files then Failure(ReportNotFound(reportPath))
    else
      match decode(files[reportPath])
      case None => Failure(MalformedReport(reportPath))
      case Some(payload) =>
        if !payload.JObject? then Failure(MalformedReport(reportPath))
        else
          var metrics := if "metrics" in payload.fields then payload.fields["metrics"] else JObject(map[]);
          match Contains(metrics, name)
          case None => Failure(MalformedReport(reportPath))
          case Some(false) => Failure(MetricNotFound(name))
          case Some(true) =>
            // `metrics[metric_name]` on an array or a string is a `TypeError`
            if !metrics.JObject? then Failure(MalformedReport(reportPath))
            else
              match AsFloat(metrics.fields[name])
              case None => Failure(MalformedReport(reportPath))
              case Some(v) => Success(v)
  }

  /** `in` on a metrics value that is not an object: a name that is no element of an array, or no substring
      of a string, is a `KeyError`; a substring is found, and indexing the string with it fails. */
  lemma ReadMetricOfArrayOrString(files: map<Path, Bytes>, decode: Bytes -> Option<Json>, reportPath: Path,
                                  metrics: Json)
    requires reportPath in files && decode(files[reportPath]) == Some(JObject(map["metrics" := metrics]))
    ensures metrics == JArray([]) ==> ReadMetric(files, decode, reportPath, "roc_auc") == Failure(MetricNotFound("roc_auc"))
    ensures metrics == JString("abc") ==> ReadMetric(files, decode, reportPath, "roc_auc") == Failure(MetricNotFound("roc_auc"))
    ensures metrics == JString("roc_auc_score") ==>
      ReadMetric(files, decode, reportPath, "roc_auc") == Failure(MalformedReport(reportPath))
  {
    if metrics == JString("roc_auc_score") {
      assert OccursAt("roc_auc", "roc_auc_score", 0);
    }
  }

  /** The checks `main` makes before touching the registry, in order: read the metric, compare it with the
      threshold (a metric equal to it passes), look for the model. A low metric is the error reported
      even when the model is missing too. Success carries the metric. */
  function Gate(files: map<Path, Bytes>, decode: Bytes -> Option<Json>, modelPath: Path, reportPath: Path,
                metric: string, threshold: real): (r: Result<real, RegisterError>)
    ensures r.Success? <==>
      ReadMetric(files, decode, reportPath, metric).Success? &&
      ReadMetric(files, decode, reportPath, metric).value >= threshold &&
      modelPath in files
    ensures r.Success? ==> r == ReadMetric(files, decode, reportPath, metric)
    ensures ReadMetric(files, decode, reportPath, metric).Failure? ==> r == ReadMetric(files, decode, reportPath, metric)
    ensures ReadMetric(files, decode, reportPath, metric).Success? &&
            ReadMetric(files, decode, reportPath, metric).value < threshold ==>
      r == Failure(BelowThreshold(ReadMetric(files, decode, reportPath, metric).value, threshold))
  {
    var value :- ReadMetric(files, decode, reportPath, metric);
    if value < threshold then Failure(BelowThreshold(value, threshold))
    else if modelPath !in files then Failure(ModelNotFound(modelPath))
    else Success(value)
  }

  /** The directories `mkdir(parents=True)` creates for `path`'s parent: every proper prefix of `path`
      that ends just before a separator, the root excluded. */
  function Ancestors(path: Path): (dirs: set<Path>)
    ensures forall d :: d in dirs ==> |d| < |path| && d == path[..|d|] && path[|d|] == '/' && |d| > 0
    ensures forall i :: 0 < i < |path| && path[i] == '/' ==> path[..i] in dirs
  {
    set i | 0 < i < |path| && path[i] == '/' :: path[..i]
  }

  /** `os.path.basename`: what follows the last separator. */
  function Basename(path: Path): (name: Path)
    ensures |name| <= |path| && name == path[|path| - |name|..]
    ensures '/' !in name
    ensures |name| < |path| ==> path[|path| - |name| - 1] == '/'
  {
    if path == [] || path[|path| - 1] == '/' then []
    else Basename(path[..|path| - 1]) + [path[|path| - 1]]
  }

  /** Where `shutil.copy2` writes: into an existing directory under the source's own name, otherwise at the
      destination path itself. */
  function CopyTarget(dirs: set<Path>, source: Path, destination: Path): (target: Path)
    ensures destination in dirs ==> target == destination + ("/" + Basename(source))
    ensures destination !in dirs ==> target == destination
    ensures |target| >= |destination| && target[..|destination|] == destination
  {
    if destination in dirs then
      var target := destination + ("/" + Basename(source));
      assert target[..|destination|] == destination;
      target
    else destination
  }

  /** The file system seen by the registration script: regular files with their contents, and directories. */
  class FileSystem {
    var files: map<Path, Bytes>
    var dirs: set<Path>

    /** No path is both a regular file and a directory. */
    ghost predicate Valid()
      reads this
    {
      files.Keys !! dirs
    }

    constructor(files: map<Path, Bytes>, dirs: set<Path>)
      requires files.Keys !! dirs
      ensures this.files == files && this.dirs == dirs
      ensures Valid()
    {
      this.files := files;
      this.dirs := dirs;
    }

    /** `main`: run the gate; when it passes, create the registry's parent directories and copy the model
        there. A failed gate changes nothing; a regular file among the parents stops `mkdir` before it
        creates anything; the copy goes into the registry path when that is a directory, and fails when
        it would overwrite the model or a directory, after the parents exist. */
    method Register(decode: Bytes -> Option<Json>, modelPath: Path, registryPath: Path, reportPath: Path,
                    metric: string, threshold: real) returns (r: Result<real, RegisterError>)
      requires Valid()
      modifies this
      ensures Valid()
      ensures var gate := Gate(old(files), decode, modelPath, reportPath, metric, threshold);
        var blocked := Ancestors(registryPath) * old(files).Keys != {};
        var target := CopyTarget(old(dirs), modelPath, registryPath);
        && (gate.Failure? ==> r == gate && files == old(files) && dirs == old(dirs))
        && (gate.Success? && blocked ==>
              r == Failure(ParentNotDirectory(registryPath)) && files == old(files) && dirs == old(dirs))
        && (gate.Success? && !blocked ==>
              && dirs == old(dirs) + Ancestors(registryPath)
              && (target == modelPath ==> r == Failure(SameFile(modelPath)) && files == old(files))
              && (target != modelPath && target in old(dirs) ==>
                    r == Failure(TargetIsDirectory(target)) && files == old(files))
              && (target != modelPath && target !in old(dirs) ==>
                    r == gate && files == old(files)[target := old(files)[modelPath]]))
    {
      var value := ReadMetric(files, decode, reportPath, metric);
      if value.Failure? {
        return Failure(value.error);
      }
      if value.value < threshold {
        return Failure(BelowThreshold(value.value, threshold));
      }
      if modelPath !in files {
        return Failure(ModelNotFound(modelPath));
      }
      var parents := Ancestors(registryPath);
      if parents * files.Keys != {} {
        return Failure(ParentNotDirectory(registryPath));
      }
      var target := CopyTarget(dirs, modelPath, registryPath);
      forall d | d in parents
        ensures d !in files
      {
        assert d in files ==> d in parents * files.Keys;
      }
      dirs := dirs + parents;
      if target == modelPath {
        return Failure(SameFile(modelPath));
      }
      if target in dirs {
        return Failure(TargetIsDirectory(target));
      }
      files := files[target := files[modelPath]];
      return Success(value.value);
    }
  }
}
