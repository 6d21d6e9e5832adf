# SMS spam pipeline: drift monitoring, features, serving and registration

This project models the core of an SMS spam-classification pipeline and proves
properties of the model in Dafny.

- **Download script.** Tries the known dataset aliases on the dataset hub in order.
  It renames each table's columns to `text` and `label`, drops incomplete rows and
  keeps the messages labelled "ham" or "spam".
- **Preprocessing script.** Normalises the raw table's header and cleans every
  message. It computes the six text features (`char_len`, `word_len`, `num_digits`,
  `num_urls`, `num_domains`, `upper_ratio`). It keeps the known labels and numbers
  the rows.
- **Prediction service.** Loads the registered classifier once. It reports its
  health and labels a message by the classifier's spam probability for that
  message's features.
- **Registration script.** Copies a trained model into the production registry. It
  does so only when the evaluation report's metric reaches the threshold.
- **Drift check.** Compares a production dataset with the reference dataset feature
  by feature, using the Population Stability Index (PSI) over quantile bins of the
  reference and the two-sample Kolmogorov–Smirnov (KS) statistic. It compares the
  model's ROC-AUC on production data with the baseline report. It reports whether
  anything drifted.

Modules and files:

| module | file | what it holds |
|---|---|---|
| `Wrappers` | `wrappers.dfy` | Option and Result values: `None` and raised exceptions |
| `JsonValues` | `json.dfy` | parsed report values |
| `Chars`, `Labels` | `chars.dfy` | character classes, `lower`, `strip`, the label normalisation |
| `Frames` | `frames.dfy` | cells, `.astype(str)`, column lookup, row masks |
| `Schema` | `schema.dfy` | the six feature columns |
| `Sorting` | `sorting.dfy` | `np.sort` and counting by threshold |
| `TextFeatures` | `text_features.dfy` | `clean_text`, the URL regex scan, the feature helpers, `build_features` |
| `Psi` | `psi.dfy` | quantile bins, histograms, floored fractions, PSI |
| `Ks` | `ks.dfy` | empirical distribution functions and the KS statistic |
| `DriftCheck` | `drift_check.dfy` | `run_drift_check` and its helpers |
| `Preprocess` | `preprocess.dfy` | preprocessing `main` |
| `Api` | `api.dfy` | the service's state, `load_model`, `health`, `predict` |
| `Register` | `register.dfy` | `read_metric` and registration `main` over a file-system object |
| `DownloadData` | `download_data.dfy` | `load_from_hf` and download `main` |

Foreign code appears as parameters:

- the natural logarithm (`ln`, with the properties of a logarithm stated as a predicate that lemmas require);
- BeautifulSoup's text extraction and `tldextract` (`TextLibs`);
- the fitted classifier (`Model`, `Scorer`);
- `json.load` (`decode`);
- the dataset hub (`fetch`).

The registration script sees files as a map from paths to bytes, plus a set of
directories. The drift check sees them already loaded: datasets as parsed tables,
reports as parsed JSON, and models as scorers. Reals are exact, so floating-point
rounding is not modelled.

## Model

| member | source | states |
|---|---|---|
| Psi.Levels | src/drift_check.py:41 | `bins + 1` evenly spaced levels: the i-th is i / bins, so they run from 0 to 1 in non-decreasing order |
| Psi.Quantile | src/drift_check.py:42 | a linear-interpolation quantile of a sorted sample lies between its minimum and maximum |
| Psi.QuantileAtSample | src/drift_check.py:42 | at level k / (n - 1) the quantile of n sorted values is the k-th value |
| Psi.QuantileBetweenSamples | src/drift_check.py:42 | between two such levels the quantile moves linearly from the k-th value to the next, as numpy's default linear method does |
| Psi.QuantileMonotone | src/drift_check.py:42 | a higher level never gives a lower quantile |
| Psi.Quantiles | src/drift_check.py:41-42 | the i-th value is the sample's quantile at the i-th level; the quantiles are sorted, within the sample's range, and run from its minimum to its maximum |
| Psi.Dedup | src/drift_check.py:42 | `np.unique` of a sorted sequence is strictly increasing, has the same elements and keeps both ends |
| Psi.Edges | src/drift_check.py:41-44 | between 2 and `bins + 1` strictly increasing edges that enclose every reference value |
| Psi.ConstantReferenceEdges | src/drift_check.py:43-44 | a constant reference v gives the single bin [v - 0.5, v + 0.5] |
| Psi.FallbackOnlyForConstantReference | src/drift_check.py:42-44 | with at least one bin, a reference holding two different values keeps the unique quantiles as edges |
| Psi.Histogram | src/drift_check.py:46-47 | one count per bin, each the number of values in that bin |
| Psi.HistogramTotal | src/drift_check.py:46-47 | the bin counts add up to the number of values between the first and last edge, since no value is counted twice |
| Psi.ReferenceCountsTotal | src/drift_check.py:46 | every reference value is counted in exactly one bin |
| Psi.ProductionCountsTotal | src/drift_check.py:47 | production values outside the edges are dropped, so the production counts add up to at most the sample size |
| Psi.Fractions | src/drift_check.py:49-50 | each fraction is the larger of `min_fraction` and the bin's count over `max(size, 1)`: at least both and equal to one of them |
| Psi.BinFractions | src/drift_check.py:46-50 | one positive fraction per bin: the larger of `min_fraction` and the number of sample values in that bin over `max(size, 1)` |
| Psi.Psi | src/drift_check.py:25-53 | fails with the empty-sample error exactly when a sample is empty; any other failure is only for a negative bin count |
| Psi.TermSign | src/drift_check.py:52 | each bin's term is non-negative and zero exactly when the two fractions agree |
| Psi.PsiSumSign | src/drift_check.py:52-53 | the sum of terms is non-negative and zero exactly when the fraction vectors agree |
| Psi.PsiNonNegative | src/drift_check.py:25-53 | PSI is never negative |
| Psi.PsiZeroIff | src/drift_check.py:25-53 | PSI is zero exactly when the two samples have the same floored fraction in every bin |
| Psi.PsiOfIdenticalSamples | src/drift_check.py:25-53 | a sample compared with itself has PSI 0 |
| Psi.ConstantSampleFractions | src/drift_check.py:46-50 | a constant sample inside the one bin has fraction 1; a constant sample outside it has `min_fraction` |
| Psi.DisjointConstantSamples | src/drift_check.py:25-53 | constant samples more than 0.5 apart give PSI `(min_fraction - 1) * ln(min_fraction)`, which is positive |
| Sorting.Sort | src/drift_check.py:60-61 | the result is sorted and is a permutation of the input |
| Sorting.CountAtMostPermutation | src/drift_check.py:66-67 | counting values at most x depends only on the multiset of values |
| Ks.SearchSortedRight | src/drift_check.py:66-67 | the right insertion point: every value before it is at most x, and the value at it exceeds x |
| Ks.SearchSortedRightCounts | src/drift_check.py:66-67 | on a sorted sample the insertion point is the number of values at most x |
| Ks.Ecdf | src/drift_check.py:66-67 | the empirical distribution function lies in [0, 1] |
| Ks.MaxGap | src/drift_check.py:68 | the maximum is at least the gap at every pooled point and is attained at one of them |
| Ks.Ks | src/drift_check.py:56-68 | fails exactly when a sample is empty; otherwise the statistic lies in [0, 1] |
| Ks.KsSymmetric | src/drift_check.py:56-68 | swapping the samples does not change the statistic |
| Ks.KsPermutationInvariant | src/drift_check.py:56-68 | reordering either sample does not change the statistic |
| Ks.KsOfIdenticalSamples | src/drift_check.py:56-68 | a sample compared with itself has statistic 0 |
| Ks.EcdfAtMaximum | src/drift_check.py:66-67 | at a sample's largest value its distribution function is 1 |
| Ks.EcdfBelowMinimum | src/drift_check.py:66-67 | below all of a sample's values its distribution function is 0 |
| Ks.KsReachesOne | src/drift_check.py:65-68 | a pooled point where one distribution function is 1 and the other 0 makes the statistic 1 |
| Ks.KsOfSeparatedSamples | src/drift_check.py:56-68 | when all reference values lie below all production values the statistic is 1 |
| Schema.FeatureColumnsDistinct | src/drift_check.py:15-22 | the six feature names are distinct |
| DriftCheck.Absent | src/drift_check.py:75-77 | lists exactly the wanted columns that are absent, and no more names than were wanted |
| DriftCheck.AbsentInOrder | src/drift_check.py:75 | the absent columns keep the order of the wanted list |
| DriftCheck.LoadDataset | src/drift_check.py:71-78 | a missing file gives the not-found error; a loaded table succeeds exactly when it has every feature column, and otherwise the error lists exactly the absent ones in schema order |
| DriftCheck.ReadBaselineMetric | src/drift_check.py:93-100 | no value exactly when the report, its metrics or the metric is absent or null; a value exactly when the metric converts to a float, and it is that float; an error exactly when the report or its metrics is not an object or the metric is neither null nor numeric |
| DriftCheck.ComputeCurrentMetric | src/drift_check.py:81-90 | a value exactly when the table has a target column and the model file exists, and it is the model's score on the table |
| DriftCheck.MetricOf | src/drift_check.py:131-137 | a drop exactly when both values are known, equal to baseline minus current; drift exactly when that drop reaches the threshold |
| DriftCheck.AnalyzeColumn | src/drift_check.py:120-129 | succeeds exactly when both columns are non-empty and the bin count is usable; the entry holds that column's PSI and KS, and drift iff either reaches its threshold |
| DriftCheck.IdenticalColumnsDoNotDrift | src/drift_check.py:120-129 | a column equal in both datasets has PSI 0 and KS 0 |
| DriftCheck.SeparatedColumnsDrift | src/drift_check.py:120-129 | a production column entirely above the reference column has KS 1 and drifts for any KS threshold up to 1 |
| DriftCheck.AnalyzeColumns | src/drift_check.py:120-129 | one entry per column, each computed for that column; stops at the first failing column; the drift flag is the OR of the entries' flags |
| DriftCheck.RunDriftCheck | src/drift_check.py:103-167 | dataset errors come first, in order; with analysable data and a readable baseline it succeeds; the report holds every feature's analysis, the metric block and `drift_detected` = any feature drift or metric drift |
| DriftCheck.ExitStatus | src/drift_check.py:232-233 | status 1 exactly when asked to fail on drift and drift was detected, else 0 |
| Chars.Lower | src/preprocess.py:23 | the result is never upper-case, and is whitespace exactly when the input character is |
| Chars.Strip | src/preprocess.py:25 | the longest infix of the input that neither starts nor ends with whitespace: it begins where the leading whitespace ends, and every character outside it is whitespace |
| Labels.NormalizeLabel | src/preprocess.py:66-67 | the stripped, lower-cased label: no whitespace at either end and no upper-case letter |
| TextFeatures.CountDigits | src/preprocess.py:31-32 | at most the length, and zero exactly when the text has no digit |
| TextFeatures.UpperRatio | src/preprocess.py:34-38 | the share of upper-case characters, in [0, 1], and 0 for the empty string |
| TextFeatures.UpperRatioOfMixedCase | src/preprocess.py:34-38 | "ABcd" has ratio 0.5 |
| TextFeatures.Words | src/api.py:68 | `split()` yields non-empty, whitespace-free words, no more of them than characters |
| TextFeatures.WordCountIsWords | src/api.py:68 | counting the characters that start a word gives the number of words `split()` yields |
| TextFeatures.WordsOfJoinWords | src/preprocess.py:25 | splitting words joined by single spaces gives back those words |
| TextFeatures.Squeeze | src/preprocess.py:25 | no two adjacent whitespace characters, and every whitespace character is a plain space |
| TextFeatures.WordsOfSqueeze | src/preprocess.py:25 | collapsing whitespace runs keeps the words, in order |
| TextFeatures.SqueezeKeepsText | src/preprocess.py:25 | collapsing whitespace keeps every other character, in order |
| TextFeatures.SqueezeLast | src/preprocess.py:25 | a trailing whitespace run becomes one trailing space, and a text ending in a non-whitespace character still ends in one |
| TextFeatures.Normalize | src/preprocess.py:25 | the result is stripped and single-spaced |
| TextFeatures.WordsOfNormalize | src/preprocess.py:25 | normalising keeps the words, in order |
| TextFeatures.NormalizeJoinsWords | src/preprocess.py:25 | the normalised text is its words joined by single spaces |
| TextFeatures.NormalizeKeepsText | src/preprocess.py:25 | normalising keeps every non-whitespace character, in order |
| TextFeatures.NormalizeIdempotent | src/preprocess.py:25 | normalising twice is normalising once |
| TextFeatures.WordCountOfNormal | src/api.py:68 | a non-empty cleaned text has one more word than it has spaces |
| TextFeatures.Matches | src/preprocess.py:15 | the URL matches are ordered, non-overlapping spans that each start where a URL starts |
| TextFeatures.MatchesComplete | src/preprocess.py:15 | no URL start is skipped: each lies inside some match |
| TextFeatures.CountUrls | src/preprocess.py:28-29 | never more URLs than characters |
| TextFeatures.TokenHasAtMostOneUrl | src/preprocess.py:15 | a whitespace-free token holds at most one match, because `\S+` is greedy |
| TextFeatures.SpansAreTokens | src/preprocess.py:43 | every matched text is a non-empty, whitespace-free token |
| TextFeatures.DomainsMembers | src/preprocess.py:44-49 | the domain set holds exactly the non-empty domains of the matched URLs |
| TextFeatures.NumDomains | src/preprocess.py:40-50 | returns the number of distinct non-empty domains among the URLs of the text, never more than there are URLs |
| TextFeatures.CollectDomains | src/preprocess.py:44-50 | the loop's set is always the domains of the URLs seen so far, so it returns the number of distinct non-empty domains of the list |
| TextFeatures.SharedDomainCountedOnce | src/preprocess.py:44-50 | three URLs of which two share a domain count two domains |
| TextFeatures.SubUrlsLeavesNoUrl | src/preprocess.py:24 | after substitution no URL starts anywhere in the text |
| TextFeatures.CleanText | src/preprocess.py:19-26 | the cleaned text is stripped and single-spaced |
| TextFeatures.CleanTextLeavesNoUrl | src/preprocess.py:19-26 | cleaned text holds no URL |
| TextFeatures.CleanTextIsLowerCase | src/preprocess.py:19-26 | cleaned text holds no upper-case letter |
| TextFeatures.CleanTextKeepsText | src/preprocess.py:19-26 | cleaning keeps every non-whitespace character of the substituted text, in order |
| TextFeatures.CleanTextJoinsWords | src/preprocess.py:19-26 | cleaned text is the words of the lower-cased, URL-substituted text, each whitespace run between them replaced by one space |
| TextFeatures.BuildFeatures | src/api.py:64-73 | exactly the six feature names have values |
| TextFeatures.BuildFeaturesCoversSchema | src/api.py:64-73 | the feature names are exactly the schema's columns |
| TextFeatures.FeatureBounds | src/api.py:64-73 | words at most characters; digits and URLs at most the length; domains at most URLs; ratio in [0, 1] |
| TextFeatures.WordLenCountsSpaces | src/api.py:65-68 | `word_len` of a non-empty cleaned text is its number of spaces plus one |
| Frames.AsStr | src/preprocess.py:57 | a missing cell reads as "nan", a present one as itself |
| Frames.IndexOf | src/preprocess.py:57 | the first position of a name, or the length when it is absent |
| Frames.Filter | src/preprocess.py:75-80 | no more rows than the input, and each kept row satisfies the mask |
| Frames.FilterSound | src/preprocess.py:75-80 | every kept row is an input row the mask selects |
| Frames.FilterComplete | src/preprocess.py:75-80 | every input row the mask selects is kept |
| Preprocess.NormalizeHeader | src/preprocess.py:54 | each header name stripped and lower-cased, position by position |
| Preprocess.NumberAt | src/preprocess.py:69-70 | the k-th numbered row is the k-th row built with index k |
| Preprocess.FilterAndNumber | src/preprocess.py:69-80 | the loop yields the kept rows, numbered from 0 in order |
| Preprocess.LabelKept | src/preprocess.py:75-80 | keeps a row exactly when its label normalises to "ham" or "spam" |
| Preprocess.ProcessRow | src/preprocess.py:57-73 | a known label exactly when the row is kept; target 1 exactly for spam and 0 for ham; the id is the row number; the event day is within a year |
| Preprocess.Preprocess | src/preprocess.py:52-83 | fails exactly when the normalised header lacks `text` or `label`; otherwise the kept rows, numbered and processed |
| Preprocess.ProcessedRowsNumbered | src/preprocess.py:66-80 | output rows are numbered 0, 1, ...; the day is the id mod 365; every label is ham or spam; target 1 exactly for spam |
| Preprocess.TrainServeConsistent | src/preprocess.py:59-64 | each processed row carries exactly the cleaned text and features the service computes for that text |
| Api.JoinPath | src/api.py:76-77 | an absolute file name replaces the directory; otherwise the two are joined with a separator |
| Api.FeatureRow | src/api.py:123 | one value per feature column, in the schema's order |
| Api.RowBounds | src/api.py:123 | positions of the row hold in-range features |
| Api.FeatureRowBounds | src/api.py:123 | the model input row for a message has every feature in its range |
| Api.MessageRow | src/api.py:122-123 | the input the model receives for a message: six values, each in its feature's range |
| Api.ModelService.constructor | src/api.py:81-82 | the service starts with no model and no path |
| Api.ModelService.LoadModel | src/api.py:84-93 | true exactly when the model file exists; the model and its path are then recorded, otherwise both are cleared |
| Api.ModelService.Startup | src/api.py:103-107 | after start-up a model is loaded exactly when its file exists |
| Api.ModelService.Health | src/api.py:109-115 | status "ok", and `model_loaded` and the path reflect the loaded model |
| Api.ModelService.Predict | src/api.py:117-126 | without a model, the fallback "unknown" with 0.0; with one, the model's probability on the message's row, "spam" iff it reaches 0.5 and "ham" iff below |
| Api.LoadedServiceAnswers | src/api.py:109-126 | `predict` falls back exactly when `health` reports no model |
| JsonValues.IsInfixOccurs | src/register.py:50 | the recursive substring test holds exactly when the name occurs at some position |
| JsonValues.Contains | src/register.py:50 | Python's `in`: key of an object, element of an array, substring of a string; a type error on numbers, booleans and null |
| Register.ReadMetric | src/register.py:44-52 | not found when the report is absent; a value exactly when the report has a numeric metric; a missing-key error exactly when the metrics are absent or `in` finds no name in them; any other failure is a malformed report |
| Register.ReadMetricOfArrayOrString | src/register.py:49-52 | a metrics array or string without the name is a missing key; a string holding the name as a substring is malformed |
| Register.Gate | src/register.py:55-65 | passes exactly when the metric is read, reaches the threshold and the model exists; a low metric is reported before a missing model |
| Register.Ancestors | src/register.py:67 | the created directories are exactly the non-empty proper prefixes of the registry path that end before a separator |
| Register.Basename | src/register.py:68 | the final component of a path: a suffix without separators that follows the last one |
| Register.CopyTarget | src/register.py:68 | a directory destination receives the file under the source's base name; any other destination is the target itself |
| Register.FileSystem.constructor | src/register.py:55-68 | the file system starts with the given files and directories, no path being both |
| Register.FileSystem.Register | src/register.py:55-68 | a failed gate changes nothing; a regular file among the parents fails with nothing created; otherwise the parents exist, and the model's bytes are at the copy target unless it is the model itself or a directory; no path becomes both file and directory |
| DownloadData.LowerNames | src/download_data.py:21 | each column name lower-cased, position by position |
| DownloadData.Rename | src/download_data.py:22-31 | every column called `from` is called `to` afterwards, and the others keep their names |
| DownloadData.RenameMembers | src/download_data.py:22-31 | after a renaming a name is present iff it is the new name of a present column, or it was present and is not the old name |
| DownloadData.RenamingSteps | src/download_data.py:21-31 | the five conditional renaming steps end with `RenamedColumns` |
| DownloadData.NormalizeColumns | src/download_data.py:21-31 | the step-by-step renaming equals `RenamedColumns` |
| DownloadData.RenamedHasLabel | src/download_data.py:22-32 | a label column after renaming iff there was a label column, the v1/v2 pair, or a category or class column |
| DownloadData.RenamedHasText | src/download_data.py:22-32 | a text column after renaming iff there was one, the v1/v2 pair, or message or sms beside a label |
| DownloadData.CategoryBeforeClass | src/download_data.py:28-31 | without a label, `category` becomes the label and `class` keeps its name |
| DownloadData.SelectMessagesMembers | src/download_data.py:33-34 | the selected messages are exactly the rows whose text and label are both present, with those cells |
| DownloadData.SelectMessagesIsFilterMap | src/download_data.py:33-34 | the selection keeps every row whose text and label are both present, duplicates included, in table order, and reads those two cells |
| DownloadData.Attempt | src/download_data.py:17-34 | a raised load is that error; a loaded table succeeds exactly when renaming yields both columns |
| DownloadData.LoadFromHf | src/download_data.py:8-38 | the first alias whose attempt succeeds gives the data, and the earlier ones all failed; otherwise every alias failed and the error carries the last one's |
| DownloadData.FilterMapMembers | src/download_data.py:47-48 | the mapped rows are exactly the images of the rows the mask keeps |
| DownloadData.FilterMapStep | src/download_data.py:47-48 | one more row appends its image exactly when the mask keeps it, so order and repeated rows are kept |
| DownloadData.KeepKnownLabels | src/download_data.py:47-48 | every kept label is "ham" or "spam" |
| DownloadData.KeepKnownLabelsMembers | src/download_data.py:47-48 | the kept messages are exactly those whose label normalises to ham or spam, with the normalised label |
| DownloadData.Download | src/download_data.py:40-50 | fails only when every alias failed; otherwise the first successful alias's messages with known labels only |

## Left out

- File reading and writing is not modelled: CSV and parquet output, the JSON drift report, `generated_at`, `print` and log output.
- Command-line parsing and its defaults, environment variables and FastAPI routing are not modelled. The airflow DAGs, `serve.py`, the static page, `train.py`, `evaluate.py` and the feature repository are not part of this model.
- BeautifulSoup's HTML parsing, `tldextract`, the classifier, `joblib`, `json.load`, `roc_auc_score` and the dataset hub are function parameters whose bodies are not modelled. The natural logarithm is a parameter, constrained by a predicate where a lemma needs it.
- Floating point is not modelled: reals are exact, so rounding in the PSI fractions, quantile interpolation and ROC-AUC is not captured, and NaN never arises.
- Character classes are ASCII only: `\d`, `\p{Lu}`, `\s`, `str.lower` and `str.strip` on other Unicode characters are not modelled.
- Psi.Psi: requires `min_fraction > 0`. Python divides by zero or takes `log(0)` otherwise, and `run_drift_check` always uses the default 1e-4.
- The `isinstance(s, str)` guards of the text helpers are left out: every message is a string here, and missing cells become "nan" through `AsStr` first.
- A cell that pandas would read as a number is modelled by its string text. The drift datasets' columns hold numbers only: a NaN cell in a feature column is not modelled.
- A table with duplicate column names uses the first occurrence of a name.
- `float()` on a JSON string at a metric's place (such as "0.93") is not modelled: both report readers treat it as malformed, where Python would parse the number.
- DriftCheck.ComputeCurrentMetric: the scorer is total, so the errors that `joblib.load`, `predict_proba` and `roc_auc_score` raise (src/drift_check.py:86-90), such as a target with a single class, do not arise.
- DriftCheck.ReadBaselineMetric: reports are held already parsed, so a baseline report that is not valid JSON (src/drift_check.py:97-98) cannot be expressed.
- The event timestamp is kept as its day offset from 2020-01-01 UTC, not as a datetime.
- Api.JoinPath: only the absolute-name rule of `pathlib` is modelled; there is no normalisation of `..` or repeated separators. An empty directory gives "/name" where `pathlib` gives the relative "name", and an empty file name gives "model_store/" where `pathlib` gives "model_store".
- Api.ModelService.LoadModel: every existing model file loads to a total classifier, so `joblib.load` raising on a corrupt artifact (src/api.py:88) is not modelled. A directory at the model path counts as absent here, while `path.exists()` (src/api.py:87) is true for it and `joblib.load` then raises at start-up.
- Api.ModelService.Predict: the classifier is total, so `predict_proba` raising (src/api.py:124) is not modelled.
- Api.ModelService.Startup: the `mkdir` of the model directory before loading is not modelled, because it cannot change which model is loaded.
- Register.FileSystem.Register: paths are compared as strings, so aliasing through `..`, repeated separators or links is not modelled, and `SameFile` is detected only for identical strings.
- Register.ReadMetric: a report path that is a directory is not found here, where Python raises `IsADirectoryError`.
- Register.Gate: a model path that is a directory is not found here, where Python fails later in `copy2`.
- DownloadData.Download: saving the CSV and the `SystemExit` message text are not modelled; the failure case carries the download error.
