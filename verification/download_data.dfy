/**
 * The download script: try the known dataset aliases in order, bring each
 * loaded table to the two columns `text` and `label` by renaming, and keep
 * the messages labelled "ham" or "spam".
 */
module DownloadData {
  import opened Wrappers
  import opened Chars
  import opened Labels
  import opened Frames

  /** A table as loaded from the hub: column names and rows of cells. */
  datatype Frame = Frame(columns: seq<string>, rows: seq<seq<Cell>>)

  /** What `load_dataset(name, config, split="train")` does for one alias: return a table, or raise. */
  datatype Outcome = Loaded(frame: Frame) | Raised(message: string)

  /** The exception one attempt ends with: the loader's own, or the `AssertionError` for missing columns. */
  datatype AttemptError = LoadFailed(message: string) | MissingTextOrLabel

  /** The `RuntimeError` raised when no alias worked; it carries the last attempt's error. */
  datatype DownloadError = NoDatasetFound(lastError: AttemptError)

  /** One message of the downloaded dataset. */
  datatype Sms = Sms(text: string, labelText: string)

  /** The aliases tried, in order (each with no configuration). */
  const Candidates: seq<string> := ["sms_spam", "sms_spam_collection", "uciml/sms-spam", "mrm8488/sms-spam"]

  /** `[c.lower() for c in df.columns]` */
  function LowerNames(columns: seq<string>): (names: seq<string>)
    ensures |names| == |columns|
    ensures forall j :: 0 <= j < |columns| ==> names[j] == LowerString(columns[j])
  {
    seq(|columns|, j requires 0 <= j < |columns| => LowerString(columns[j]))
  }

  /** `df.rename(columns={from: to})`: every column called `from` is called `to` afterwards. */
  function Rename(names: seq<string>, from: string, to: string): (r: seq<string>)
    ensures |r| == |names|
    ensures forall j :: 0 <= j < |names| ==> r[j] == (if names[j] == from then to else names[j])
  {
    seq(|names|, j requires 0 <= j < |names| => if names[j] == from then to else names[j])
  }

  /** Where one lower-cased column name ends up after the renaming rules, given all lower-cased names:
      `v1`/`v2` become `label`/`text` when both are there; `message` and `sms` become `text` when a label
      column exists by then; otherwise `category`, or failing that `class`, becomes `label`. */
  function RenamedName(lowered: seq<string>, name: string): string
  {
    var pair := "v1" in lowered && "v2" in lowered;
    var hasLabel := "label" in lowered || pair;
    if pair && name == "v1" then "label"
    else if pair && name == "v2" then "text"
    else if hasLabel && (name == "message" || name == "sms") then "text"
    else if !hasLabel && name == "category" then "label"
    else if !hasLabel && "category" !in lowered && name == "class" then "label"
    else name
  }

  /** The column names after lower-casing and renaming, position by position. */
  function RenamedColumns(columns: seq<string>): (names: seq<string>)
    ensures |names| == |columns|
  {
    var lowered := LowerNames(columns);
    seq(|columns|, j requires 0 <= j < |columns| => RenamedName(lowered, lowered[j]))
  }

  /** After a renaming, a name is present when it is the new name of a present column, or it was
      present and is not the renamed one. */
  lemma RenameMembers(names: seq<string>, from: string, to: string, x: string)
    ensures x in Rename(names, from, to) <==> (from in names && x == to) || (x != from && x in names)
  {
    var r := Rename(names, from, to);
    if from in names && x == to {
      var j :| 0 <= j < |names| && names[j] == from;
      assert r[j] == x;
    } else if x != from && x in names {
      var j :| 0 <= j < |names| && names[j] == x;
      assert r[j] == x;
    }
  }

  /** Which of the five renaming steps apply, in terms of the lower-cased names alone. */
  lemma RenamingConditions(lowered: seq<string>, n1: seq<string>, n2: seq<string>, n3: seq<string>, n4: seq<string>)
    requires n1 == if "v1" in lowered && "v2" in lowered then Rename(Rename(lowered, "v1", "label"), "v2", "text") else lowered
    requires n2 == if "message" in n1 && "label" in n1 then Rename(n1, "message", "text") else n1
    requires n3 == if "sms" in n2 && "label" in n2 then Rename(n2, "sms", "text") else n2
    requires n4 == if "category" in n3 && "label" !in n3 then Rename(n3, "category", "label") else n3
    ensures var hasLabel := "label" in lowered || ("v1" in lowered && "v2" in lowered);
      && ("message" in n1 && "label" in n1 <==> "message" in lowered && hasLabel)
      && ("sms" in n2 && "label" in n2 <==> "sms" in lowered && hasLabel)
      && ("category" in n3 && "label" !in n3 <==> "category" in lowered && !hasLabel)
      && ("class" in n4 && "label" !in n4 <==> "class" in lowered && !hasLabel && "category" !in lowered)
  {
    var pair := "v1" in lowered && "v2" in lowered;
    var hasLabel := "label" in lowered || pair;
    if pair {
      var m := Rename(lowered, "v1", "label");
      RenameMembers(lowered, "v1", "label", "label");
      RenameMembers(m, "v2", "text", "label");
      RenameMembers(lowered, "v1", "label", "message");
      RenameMembers(m, "v2", "text", "message");
      RenameMembers(lowered, "v1", "label", "sms");
      RenameMembers(m, "v2", "text", "sms");
      RenameMembers(lowered, "v1", "label", "category");
      RenameMembers(m, "v2", "text", "category");
      RenameMembers(lowered, "v1", "label", "class");
      RenameMembers(m, "v2", "text", "class");
    }
    RenameMembers(n1, "message", "text", "label");
    RenameMembers(n1, "message", "text", "sms");
    RenameMembers(n1, "message", "text", "category");
    RenameMembers(n1, "message", "text", "class");
    RenameMembers(n2, "sms", "text", "label");
    RenameMembers(n2, "sms", "text", "category");
    RenameMembers(n2, "sms", "text", "class");
    RenameMembers(n3, "category", "label", "label");
    RenameMembers(n3, "category", "label", "class");
  }

  /** One renaming step seen from one column: renamed when the step applies and the name matches. */
  function Step(name: string, apply: bool, from: string, to: string): string
  {
    if apply && name == from then to else name
  }

  /** A step applied by `Rename` when its condition holds is `Step` at every position. */
  lemma StepAt(before: seq<string>, after: seq<string>, apply: bool, from: string, to: string, j: nat)
    requires after == if apply then Rename(before, from, to) else before
    requires j < |before|
    ensures |after| == |before| && after[j] == Step(before[j], apply, from, to)
  {
  }

  /** The five steps, with their conditions stated on the lower-cased names, take a present name to
      `RenamedName`. */
  lemma StepsAgree(lowered: seq<string>, name: string)
    requires name in lowered
    ensures var pair := "v1" in lowered && "v2" in lowered;
      var hasLabel := "label" in lowered || pair;
      var n1 := Step(Step(name, pair, "v1", "label"), pair, "v2", "text");
      var n3 := Step(Step(n1, "message" in lowered && hasLabel, "message", "text"), "sms" in lowered && hasLabel, "sms", "text");
      var n4 := Step(n3, "category" in lowered && !hasLabel, "category", "label");
      Step(n4, "class" in lowered && !hasLabel && "category" !in lowered, "class", "label") == RenamedName(lowered, name)
  {
  }

  /** The five renaming steps, each applied when its condition holds, end with `RenamedColumns`. */
  lemma RenamingSteps(columns: seq<string>, lowered: seq<string>, n1: seq<string>, n2: seq<string>, n3: seq<string>, n4: seq<string>, n5: seq<string>)
    requires lowered == LowerNames(columns)
    requires n1 == if "v1" in lowered && "v2" in lowered then Rename(Rename(lowered, "v1", "label"), "v2", "text") else lowered
    requires n2 == if "message" in n1 && "label" in n1 then Rename(n1, "message", "text") else n1
    requires n3 == if "sms" in n2 && "label" in n2 then Rename(n2, "sms", "text") else n2
    requires n4 == if "category" in n3 && "label" !in n3 then Rename(n3, "category", "label") else n3
    requires n5 == if "class" in n4 && "label" !in n4 then Rename(n4, "class", "label") else n4
    ensures n5 == RenamedColumns(columns)
  {
    RenamingConditions(lowered, n1, n2, n3, n4);
    var pair := "v1" in lowered && "v2" in lowered;
    var hasLabel := "label" in lowered || pair;
    var expected := RenamedColumns(columns);
    forall j | 0 <= j < |columns|
      ensures n5[j] == expected[j]
    {
      var name := lowered[j];
      if pair {
        StepAt(lowered, Rename(lowered, "v1", "label"), true, "v1", "label", j);
      }
      StepAt(if pair then Rename(lowered, "v1", "label") else lowered, n1, pair, "v2", "text", j);
      StepAt(n1, n2, "message" in n1 && "label" in n1, "message", "text", j);
      StepAt(n2, n3, "sms" in n2 && "label" in n2, "sms", "text", j);
      StepAt(n3, n4, "category" in n3 && "label" !in n3, "category", "label", j);
      StepAt(n4, n5, "class" in n4 && "label" !in n4, "class", "label", j);
      StepsAgree(lowered, name);
    }
  }

  /** After renaming there is a label column exactly when there was one, or the `v1`/`v2` pair, or a
      `category` or `class` column to rename. */
  lemma RenamedHasLabel(columns: seq<string>)
    ensures var lowered := LowerNames(columns);
      "label" in RenamedColumns(columns) <==>
        || "label" in lowered || ("v1" in lowered && "v2" in lowered)
        || "category" in lowered || "class" in lowered
  {
    var lowered := LowerNames(columns);
    var names := RenamedColumns(columns);
    var pair := "v1" in lowered && "v2" in lowered;
    var hasLabel := "label" in lowered || pair;
    var target :=
      if "label" in lowered then "label"
      else if pair then "v1"
      else if "category" in lowered then "category"
      else "class";
    if target in lowered {
      var j := IndexOf(lowered, target);
      assert names[j] == "label";
    }
  }

  /** Without a label column or the `v1`/`v2` pair, `category` is preferred: it becomes the label and a
      `class` column keeps its name. */
  lemma CategoryBeforeClass(columns: seq<string>)
    requires var lowered := LowerNames(columns);
      && "label" !in lowered && !("v1" in lowered && "v2" in lowered)
      && "category" in lowered
    ensures var lowered := LowerNames(columns);
      forall j :: 0 <= j < |columns| ==>
        && (lowered[j] == "category" ==> RenamedColumns(columns)[j] == "label")
        && (lowered[j] == "class" ==> RenamedColumns(columns)[j] == "class")
  {
  }

  /** After renaming there is a text column exactly when there was one, or the `v1`/`v2` pair, or a
      `message` or `sms` column beside a label column. */
  lemma RenamedHasText(columns: seq<string>)
    ensures var lowered := LowerNames(columns);
      var hasLabel := "label" in lowered || ("v1" in lowered && "v2" in lowered);
      "text" in RenamedColumns(columns) <==>
        || "text" in lowered || ("v1" in lowered && "v2" in lowered)
        || (hasLabel && ("message" in lowered || "sms" in lowered))
  {
    var lowered := LowerNames(columns);
    var names := RenamedColumns(columns);
    var pair := "v1" in lowered && "v2" in lowered;
    var hasLabel := "label" in lowered || pair;
    var source :=
      if "text" in lowered then "text"
      else if pair then "v2"
      else if "message" in lowered then "message"
      else "sms";
    if source in lowered && (source == "text" || pair || hasLabel) {
      var j := IndexOf(lowered, source);
      assert names[j] == "text";
    }
  }

  /** The renaming steps of `load_from_hf`, applied to the column list one after another. */
  method NormalizeColumns(columns: seq<string>) returns (names: seq<string>)
    ensures names == RenamedColumns(columns)
  {
    names := LowerNames(columns);
    ghost var lowered := names;
    if "v1" in names && "v2" in names {
      names := Rename(Rename(names, "v1", "label"), "v2", "text");
    }
    ghost var n1 := names;
    if "message" in names && "label" in names {
      names := Rename(names, "message", "text");
    }
    ghost var n2 := names;
    if "sms" in names && "label" in names {
      names := Rename(names, "sms", "text");
    }
    ghost var n3 := names;
    if "category" in names && "label" !in names {
      names := Rename(names, "category", "label");
    }
    ghost var n4 := names;
    if "class" in names && "label" !in names {
      names := Rename(names, "class", "label");
    }
    RenamingSteps(columns, lowered, n1, n2, n3, n4, names);
  }

  /** `df[["text", "label"]].dropna()`: the messages whose text and label cells are both present. */
  function SelectMessages(rows: seq<seq<Cell>>, textAt: nat, labelAt: nat): (messages: seq<Sms>)
    ensures |messages| <= |rows|
  {
    if rows == [] then []
    else
      var last := rows[|rows| - 1];
      var init := SelectMessages(rows[..|rows| - 1], textAt, labelAt);
      match (CellAt(last, textAt), CellAt(last, labelAt))
      case (Some(text), Some(labelText)) => init + [Sms(text, labelText)]
      case _ => init
  }

  /** The selected messages are exactly the rows whose text and label cells are both present, with
      those cells. */
  lemma {:induction false} SelectMessagesMembers(rows: seq<seq<Cell>>, textAt: nat, labelAt: nat, m: Sms)
    ensures m in SelectMessages(rows, textAt, labelAt) <==>
      exists row :: row in rows && CellAt(row, textAt) == Some(m.text) && CellAt(row, labelAt) == Some(m.labelText)
  {
    if rows != [] {
      var init := rows[..|rows| - 1];
      var last := rows[|rows| - 1];
      SelectMessagesMembers(init, textAt, labelAt, m);
      assert rows == init + [last];
      if exists row :: row in rows && CellAt(row, textAt) == Some(m.text) && CellAt(row, labelAt) == Some(m.labelText) {
        var row :| row in rows && CellAt(row, textAt) == Some(m.text) && CellAt(row, labelAt) == Some(m.labelText);
        if row != last {
          assert row in init;
        }
      }
    }
  }

  /** Both the text and the label cell of `row` are present: the rows `dropna()` keeps. */
  predicate HasTextAndLabel(row: seq<Cell>, textAt: nat, labelAt: nat)
  {
    CellAt(row, textAt).Some? && CellAt(row, labelAt).Some?
  }

  /** The message a row holds in its text and label columns. */
  function RowMessage(row: seq<Cell>, textAt: nat, labelAt: nat): Sms
  {
    Sms(AsStr(CellAt(row, textAt)), AsStr(CellAt(row, labelAt)))
  }

  /** The selection keeps every complete row, duplicates included, in the order of the table: it is the
      mask "text and label present" followed by reading the two cells. */
  lemma {:induction false} SelectMessagesIsFilterMap(rows: seq<seq<Cell>>, textAt: nat, labelAt: nat)
    ensures SelectMessages(rows, textAt, labelAt) ==
      FilterMap(rows, row => HasTextAndLabel(row, textAt, labelAt), row => RowMessage(row, textAt, labelAt))
  {
    if rows != [] {
      var n := |rows| - 1;
      SelectMessagesIsFilterMap(rows[..n], textAt, labelAt);
      FilterMapStep(rows, row => HasTextAndLabel(row, textAt, labelAt), row => RowMessage(row, textAt, labelAt), n);
      assert rows[..n + 1] == rows;
    }
  }

  /** One pass of the loop body for one alias: load, rename, check the two columns, select. */
  function Attempt(outcome: Outcome): (r: Result<seq<Sms>, AttemptError>)
    ensures outcome.Raised? ==> r == Failure(LoadFailed(outcome.message))
    ensures outcome.Loaded? ==>
      (r.Success? <==> "text" in RenamedColumns(outcome.frame.columns) && "label" in RenamedColumns(outcome.frame.columns))
    ensures r.Failure? && outcome.Loaded? ==> r.error == MissingTextOrLabel
  {
    match outcome
    case Raised(message) => Failure(LoadFailed(message))
    case Loaded(frame) =>
      var names := RenamedColumns(frame.columns);
      if "text" in names && "label" in names then
        Success(SelectMessages(frame.rows, IndexOf(names, "text"), IndexOf(names, "label")))
      else Failure(MissingTextOrLabel)
  }

  /** `load_from_hf`, with the hub given as `fetch`: the first alias whose attempt succeeds gives the
      dataset, and no later alias is tried (`tried` counts the attempts); when every attempt fails, the
      error carries the last one's. */
  method LoadFromHf(fetch: string -> Outcome) returns (r: Result<seq<Sms>, DownloadError>, tried: nat)
    ensures r.Success? ==>
      && 0 < tried <= |Candidates|
      && Attempt(fetch(Candidates[tried - 1])) == Success(r.value)
      && forall k :: 0 <= k < tried - 1 ==> Attempt(fetch(Candidates[k])).Failure?
    ensures r.Failure? ==>
      && tried == |Candidates|
      && (forall k :: 0 <= k < |Candidates| ==> Attempt(fetch(Candidates[k])).Failure?)
      && r.error == NoDatasetFound(Attempt(fetch(Candidates[|Candidates| - 1])).error)
  {
    var lastErr: Option<AttemptError> := None;
    var i := 0;
    while i < |Candidates|
      invariant i <= |Candidates|
      invariant forall k :: 0 <= k < i ==> Attempt(fetch(Candidates[k])).Failure?
      invariant i == 0 <==> lastErr.None?
      invariant i > 0 ==> lastErr == Some(Attempt(fetch(Candidates[i - 1])).error)
    {
      match fetch(Candidates[i]) {
        case Raised(message) =>
          lastErr := Some(LoadFailed(message));
        case Loaded(frame) =>
          var names := NormalizeColumns(frame.columns);
          if "text" in names && "label" in names {
            var messages := SelectMessages(frame.rows, IndexOf(names, "text"), IndexOf(names, "label"));
            return Success(messages), i + 1;
          }
          lastErr := Some(MissingTextOrLabel);
      }
      i := i + 1;
    }
    return Failure(NoDatasetFound(lastErr.value)), i;
  }

  /** `df[mask][col] = f(...)` in one: `f` applied to each row the mask keeps, in order. */
  function FilterMap<T, U>(rows: seq<T>, keep: T -> bool, f: T -> U): (out: seq<U>)
    ensures |out| <= |rows|
  {
    var selected := Filter(rows, keep);
    seq(|selected|, k requires 0 <= k < |selected| => f(selected[k]))
  }

  /** The mapped rows are exactly the images of the rows the mask keeps. */
  lemma FilterMapMembers<T, U>(rows: seq<T>, keep: T -> bool, f: T -> U, x: U)
    ensures x in FilterMap(rows, keep, f) <==> exists m :: m in rows && keep(m) && x == f(m)
  {
    var selected := Filter(rows, keep);
    var out := FilterMap(rows, keep, f);
    if x in out {
      var k :| 0 <= k < |out| && out[k] == x;
      FilterSound(rows, keep, selected[k]);
    }
    if exists m :: m in rows && keep(m) && x == f(m) {
      var m :| m in rows && keep(m) && x == f(m);
      FilterComplete(rows, keep, m);
      var k :| 0 <= k < |selected| && selected[k] == m;
      assert out[k] == x;
    }
  }

  /** Mapping one more row appends its image exactly when the mask keeps it, so the output follows the
      input order and keeps repeated rows. */
  lemma FilterMapStep<T, U>(rows: seq<T>, keep: T -> bool, f: T -> U, i: nat)
    requires i < |rows|
    ensures FilterMap(rows[..i + 1], keep, f) == FilterMap(rows[..i], keep, f) + (if keep(rows[i]) then [f(rows[i])] else [])
  {
    FilterStep(rows, keep, i);
  }

  /** The label clean-up of `main`: labels lower-cased and stripped, and only "ham" and "spam" kept. */
  function KeepKnownLabels(messages: seq<Sms>): (kept: seq<Sms>)
    ensures |kept| <= |messages|
    ensures forall k :: 0 <= k < |kept| ==> IsKnownLabel(kept[k].labelText)
  {
    FilterMap(messages, (m: Sms) => Kept(m.labelText), (m: Sms) => Sms(m.text, NormalizeLabel(m.labelText)))
  }

  /** The kept messages are exactly the input messages whose label normalises to "ham" or "spam",
      each with its normalised label. */
  lemma KeepKnownLabelsMembers(messages: seq<Sms>, x: Sms)
    ensures x in KeepKnownLabels(messages) <==>
      exists m :: m in messages && Kept(m.labelText) && x == Sms(m.text, NormalizeLabel(m.labelText))
  {
    FilterMapMembers(messages, (m: Sms) => Kept(m.labelText), (m: Sms) => Sms(m.text, NormalizeLabel(m.labelText)), x);
  }

  /** `main`: download, then keep the known labels; a download failure ends the script. */
  method Download(fetch: string -> Outcome) returns (r: Result<seq<Sms>, DownloadError>)
    ensures r.Failure? ==> forall k :: 0 <= k < |Candidates| ==> Attempt(fetch(Candidates[k])).Failure?
    ensures r.Success? ==>
      exists i :: 0 <= i < |Candidates| && Attempt(fetch(Candidates[i])).Success? &&
        (forall k :: 0 <= k < i ==> Attempt(fetch(Candidates[k])).Failure?) &&
        r.value == KeepKnownLabels(Attempt(fetch(Candidates[i])).value)
    ensures r.Success? ==> forall k :: 0 <= k < |r.value| ==> IsKnownLabel(r.value[k].labelText)
  {
    var loaded, tried := LoadFromHf(fetch);
    if loaded.Failure? {
      return Failure(loaded.error);
    }
    r := Success(KeepKnownLabels(loaded.value));
    assert Attempt(fetch(Candidates[tried - 1])).Success?;
  }
}
