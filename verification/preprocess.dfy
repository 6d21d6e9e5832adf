/**
 * The preprocessing script: read the raw SMS table, normalise its header,
 * compute the text features of every message, keep the rows labelled "ham"
 * or "spam", number them and give each an event day.
 */
module Preprocess {
  import opened Wrappers
  import opened Frames
  import opened Chars
  import opened Labels
  import opened Schema
  import opened TextFeatures

  /** The raw table: a header and rows of cells. A row shorter than the header is padded with missing cells. */
  datatype RawFrame = RawFrame(header: seq<string>, rows: seq<seq<Cell>>)

  /** One row of the processed table. `dayOffset` is the number of days after 2020-01-01 UTC of the row's
      `event_timestamp`; `text` is the raw cell, which stays missing when it was missing. */
  datatype ProcessedRow = ProcessedRow(
    smsId: nat,
    dayOffset: nat,
    text: Cell,
    textClean: string,
    labelText: string,
    target: nat,
    features: map<string, real>)

  /** The `AssertionError` raised when the normalised header lacks `text` or `label`. */
  datatype PreprocessError = MissingTextOrLabel

  /** `c.strip().lower()` for each header name. */
  function NormalizeHeader(header: seq<string>): (names: seq<string>)
    ensures |names| == |header|
    ensures forall j :: 0 <= j < |header| ==> names[j] == LowerString(Strip(header[j]))
  {
    seq(|header|, j requires 0 <= j < |header| => LowerString(Strip(header[j])))
  }

  /** `df.reset_index(drop=True)` followed by the per-row columns: row `k` is built with index `k`. */
  function Number<T, U>(rows: seq<T>, build: (T, nat) -> U): (out: seq<U>)
    ensures |out| == |rows|
  {
    if rows == [] then []
    else
      var n := |rows| - 1;
      Number(rows[..n], build) + [build(rows[n], n)]
  }

  /** Numbering one more row appends it with the next index. */
  lemma NumberStep<T, U>(rows: seq<T>, row: T, build: (T, nat) -> U)
    ensures Number(rows + [row], build) == Number(rows, build) + [build(row, |rows|)]
  {
    assert (rows + [row])[..|rows|] == rows;
  }

  /** The `k`-th numbered row is the `k`-th row built with index `k`. */
  lemma {:induction false} NumberAt<T, U>(rows: seq<T>, build: (T, nat) -> U, k: nat)
    requires k < |rows|
    ensures Number(rows, build)[k] == build(rows[k], k)
  {
    var n := |rows| - 1;
    if k < n {
      NumberAt(rows[..n], build, k);
    }
  }

  /** The filter-then-renumber pass of `main`, one row at a time. */
  method FilterAndNumber<T, U>(rows: seq<T>, keep: T -> bool, build: (T, nat) -> U) returns (out: seq<U>)
    ensures out == Number(Filter(rows, keep), build)
  {
    out := [];
    ghost var kept: seq<T> := [];
    var i := 0;
    while i < |rows|
      invariant i <= |rows|
      invariant kept == Filter(rows[..i], keep)
      invariant out == Number(kept, build)
    {
      FilterStep(rows, keep, i);
      if keep(rows[i]) {
        NumberStep(kept, rows[i], build);
        out := out + [build(rows[i], |out|)];
        kept := kept + [rows[i]];
      }
      i := i + 1;
    }
    assert rows[..i] == rows;
  }

  /** The mask `df["label"].astype(str).str.lower().str.strip().isin(["ham", "spam"])`. */
  function LabelKept(labelAt: nat): (keep: seq<Cell> -> bool)
    ensures forall row :: keep(row) <==> Kept(AsStr(CellAt(row, labelAt)))
  {
    row => Kept(AsStr(CellAt(row, labelAt)))
  }

  /** The columns computed from a message's text: `text_clean` and the six features. */
  datatype Derived = Derived(textClean: string, features: map<string, real>)

  /** The derivation `main` applies to `df["text"].astype(str)`: `clean_text` and `build_features`'s helpers. */
  function Derive(libs: TextLibs): (derive: string -> Derived)
    ensures forall t :: derive(t).features.Keys == set c | c in FeatureColumns
  {
    (t: string) =>
      BuildFeaturesCoversSchema(libs, t);
      Derived(CleanText(libs, t), BuildFeatures(libs, t))
  }

  /** The processed form of the `id`-th kept row. */
  function ProcessRow(derive: string -> Derived, row: seq<Cell>, textAt: nat, labelAt: nat, id: nat): (p: ProcessedRow)
    ensures IsKnownLabel(p.labelText) <==> Kept(AsStr(CellAt(row, labelAt)))
    ensures p.target == 1 <==> p.labelText == "spam"
    ensures IsKnownLabel(p.labelText) ==> (p.target == 0 <==> p.labelText == "ham")
    ensures p.smsId == id && p.dayOffset < 365
  {
    var derived := derive(AsStr(CellAt(row, textAt)));
    var labelText := NormalizeLabel(AsStr(CellAt(row, labelAt)));
    ProcessedRow(
      id,
      id % 365,
      CellAt(row, textAt),
      derived.textClean,
      labelText,
      if labelText == "spam" then 1 else 0,
      derived.features)
  }

  /** The per-row builder `main` applies after filtering. */
  function RowBuilder(derive: string -> Derived, textAt: nat, labelAt: nat): (build: (seq<Cell>, nat) -> ProcessedRow)
    ensures forall row, id :: build(row, id) == ProcessRow(derive, row, textAt, labelAt, id)
  {
    (row: seq<Cell>, id: nat) => ProcessRow(derive, row, textAt, labelAt, id)
  }

  /** `main`: the processed table, or the assertion failure when the normalised header lacks `text` or
      `label`. */
  method Preprocess(libs: TextLibs, frame: RawFrame) returns (r: Result<seq<ProcessedRow>, PreprocessError>)
    ensures r.Failure? <==> !("text" in NormalizeHeader(frame.header) && "label" in NormalizeHeader(frame.header))
    ensures r.Success? ==>
      var names := NormalizeHeader(frame.header);
      var labelAt := IndexOf(names, "label");
      r.value == Number(Filter(frame.rows, LabelKept(labelAt)), RowBuilder(Derive(libs), IndexOf(names, "text"), labelAt))
  {
    var names := NormalizeHeader(frame.header);
    if !("text" in names && "label" in names) {
      return Failure(MissingTextOrLabel);
    }
    var textAt, labelAt := IndexOf(names, "text"), IndexOf(names, "label");
    var out := FilterAndNumber(frame.rows, LabelKept(labelAt), RowBuilder(Derive(libs), textAt, labelAt));
    return Success(out);
  }

  /** The processed rows are numbered 0, 1, ... in order, each event day is `sms_id mod 365`, every label
      is "ham" or "spam", and a row's target is 1 exactly for spam. */
  lemma ProcessedRowsNumbered(derive: string -> Derived, rows: seq<seq<Cell>>, textAt: nat, labelAt: nat)
    ensures var out := Number(Filter(rows, LabelKept(labelAt)), RowBuilder(derive, textAt, labelAt));
      forall k :: 0 <= k < |out| ==>
        && out[k].smsId == k && out[k].dayOffset == k % 365
        && (out[k].labelText == "ham" || out[k].labelText == "spam")
        && (out[k].target == 1 <==> out[k].labelText == "spam")
  {
    var kept := Filter(rows, LabelKept(labelAt));
    var build := RowBuilder(derive, textAt, labelAt);
    forall k | 0 <= k < |kept|
      ensures var p := Number(kept, build)[k];
        && p.smsId == k && p.dayOffset == k % 365
        && (p.labelText == "ham" || p.labelText == "spam")
        && (p.target == 1 <==> p.labelText == "spam")
    {
      NumberAt(kept, build, k);
    }
  }

  /** Training and serving see the same features: each processed row carries exactly what the
      service computes for the row's text, under the six feature names. */
  lemma TrainServeConsistent(libs: TextLibs, row: seq<Cell>, textAt: nat, labelAt: nat, id: nat)
    ensures var p := ProcessRow(Derive(libs), row, textAt, labelAt, id);
      && p.features == BuildFeatures(libs, AsStr(p.text))
      && p.textClean == CleanText(libs, AsStr(p.text))
      && p.features.Keys == set c | c in FeatureColumns
  {
  }
}
