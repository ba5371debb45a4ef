/** The values both scripts pass around: table cells, the exceptions that
    decide control flow, and the pandas DataFrame whose columns they add. */
module Frames {

  /** One table cell as `pandas.read_csv` produces it: missing (`NaN`, for
      which `pd.isna` holds), a string, or some other scalar (a number or a
      boolean), kept by its literal. */
  datatype Value = Missing | Text(s: string) | Other(literal: string)

  /** The exceptions whose type the scripts tell apart. */
  datatype Exception =
    | ParserError(message: string)  // pandas.errors.ParserError
    | KeyError(key: string)         // a column that is not in the frame
    | TypeError(message: string)    // e.g. slicing a number
    | OtherError(message: string)   // anything a library call may raise

  /** The outcome of a call that may raise. */
  datatype Attempt<T> = Ok(value: T) | Raised(error: Exception)

  datatype Option<T> = None | Some(value: T)

  /** The two columns both scripts read, and the two they add. */
  const TitleColumn: string := "ils._title"
  const BodyColumn: string := "ils.body"
  const TitleOutColumn: string := "ils._title_translated"
  const BodyOutColumn: string := "ils.body_translated"

  /** A table: column name to the column's cells, top to bottom. */
  type Columns = map<string, seq<Value>>

  /** A DataFrame the scripts update in place by assigning whole columns. */
  class Frame {
    var columns: Columns

    constructor (columns: Columns)
      ensures this.columns == columns
    {
      this.columns := columns;
    }

    /** `name in df.columns`. */
    predicate HasColumn(name: string)
      reads this
    {
      name in columns
    }

    /** `df[name]`: the column, or a `KeyError` when there is none. */
    method Column(name: string) returns (r: Attempt<seq<Value>>)
      ensures r.Ok? <==> name in columns
      ensures r.Ok? ==> r.value == columns[name]
      ensures r.Raised? ==> r.error == KeyError(name)
    {
      if name in columns {
        r := Ok(columns[name]);
      } else {
        r := Raised(KeyError(name));
      }
    }

    /** `df[name] = cells`: adds the column, or replaces it if present. */
    method Assign(name: string, cells: seq<Value>)
      modifies this
      ensures columns == old(columns)[name := cells]
    {
      columns := columns[name := cells];
    }
  }

  /** What one call of `translate_csv_file` or `clean_csv_file` comes to: the
      output path it returns after writing the table, `None`, or an exception
      that escapes it. */
  datatype FileOutcome = Saved(path: string, columns: Columns) | NotSaved | Escaped(error: Exception)

  /** The loop of a batch driver over the selected files: the tables written,
      in order, and the exception that ended the loop if one escaped. */
  function RunBatch(files: seq<string>, step: string -> FileOutcome)
    : (r: (seq<(string, Columns)>, Option<Exception>))
    ensures |r.0| <= |files|
  {
    if files == [] then ([], None)
    else
      var rest := RunBatch(files[1..], step);
      match step(files[0])
      case Escaped(e) => ([], Some(e))
      case NotSaved => rest
      case Saved(path, cols) => ([(path, cols)] + rest.0, rest.1)
  }

  /** The batch runs to the end exactly when no file lets an exception
      escape; otherwise the exception that ends it is one a file let escape. */
  lemma {:induction false} RunBatchEscapes(files: seq<string>, step: string -> FileOutcome)
    ensures RunBatch(files, step).1 == None <==> forall i :: 0 <= i < |files| ==> !step(files[i]).Escaped?
    ensures RunBatch(files, step).1.Some? ==>
      exists i :: 0 <= i < |files| && step(files[i]) == Escaped(RunBatch(files, step).1.value)
  {
    if files != [] {
      RunBatchEscapes(files[1..], step);
      assert forall i :: 1 <= i < |files| ==> files[i] == files[1..][i - 1];
    }
  }

  /** Running the batch over `a` and then `b`: when no file of `a` lets an
      exception escape, the tables of `a` come first, then those of `b`,
      and the batch ends as the run over `b` does. */
  lemma {:induction false} RunBatchConcat(a: seq<string>, b: seq<string>, step: string -> FileOutcome)
    requires RunBatch(a, step).1 == None
    ensures RunBatch(a + b, step) == (RunBatch(a, step).0 + RunBatch(b, step).0, RunBatch(b, step).1)
  {
    if a == [] {
      assert a + b == b;
      assert [] + RunBatch(b, step).0 == RunBatch(b, step).0;
    } else {
      assert (a + b)[0] == a[0];
      assert (a + b)[1..] == a[1..] + b;
      RunBatchConcat(a[1..], b, step);
      match step(a[0])
      case NotSaved =>
      case Saved(path, cols) =>
        var ra, rb := RunBatch(a[1..], step).0, RunBatch(b, step).0;
        assert [(path, cols)] + (ra + rb) == ([(path, cols)] + ra) + rb;
    }
  }

  /** Files before the first escaping one run without an escape. */
  lemma PrefixRunsThrough(files: seq<string>, step: string -> FileOutcome, k: nat)
    requires k <= |files|
    requires forall j :: 0 <= j < k ==> !step(files[j]).Escaped?
    ensures RunBatch(files[..k], step).1 == None
  {
    var before := files[..k];
    assert forall j :: 0 <= j < |before| ==> before[j] == files[j];
    RunBatchEscapes(before, step);
  }

  /** A file whose exception escapes, after files that ran without one:
      the batch ends there with the tables written before it. */
  lemma EscapeAfterCleanPrefix(files: seq<string>, step: string -> FileOutcome, k: nat)
    requires k < |files| && step(files[k]).Escaped?
    requires RunBatch(files[..k], step).1 == None
    ensures RunBatch(files, step) == (RunBatch(files[..k], step).0, Some(step(files[k]).error))
  {
    var before, after := files[..k], files[k..];
    assert RunBatch(after, step) == ([], Some(step(files[k]).error)) by {
      assert after[0] == files[k];
    }
    RunBatchConcat(before, after, step);
    assert before + after == files;
    assert RunBatch(before, step).0 + [] == RunBatch(before, step).0;
  }

  /** The batch stops at the first file, in order, whose exception escapes:
      it keeps the tables written before that file, ends with that file's
      exception, and writes nothing for any later file. */
  lemma RunBatchStopsAtFirstEscape(files: seq<string>, step: string -> FileOutcome, k: nat)
    requires k < |files| && step(files[k]).Escaped?
    requires forall j :: 0 <= j < k ==> !step(files[j]).Escaped?
    ensures RunBatch(files, step) == (RunBatch(files[..k], step).0, Some(step(files[k]).error))
  {
    PrefixRunsThrough(files, step, k);
    EscapeAfterCleanPrefix(files, step, k);
  }

  /** Processing one more file after a batch that ran to the end: its table
      is appended when it writes one, and its exception ends the batch. */
  lemma RunBatchAppendFile(files: seq<string>, name: string, step: string -> FileOutcome)
    requires RunBatch(files, step).1 == None
    ensures RunBatch(files + [name], step) ==
      match step(name)
      case Escaped(e) => (RunBatch(files, step).0, Some(e))
      case NotSaved => RunBatch(files, step)
      case Saved(path, cols) => (RunBatch(files, step).0 + [(path, cols)], None)
  {
    RunBatchConcat(files, [name], step);
    assert [name][0] == name && [name][1..] == [];
    assert RunBatch([name][1..], step) == ([], None);
    var saved := RunBatch(files, step).0;
    match step(name)
    case Escaped(e) =>
      assert RunBatch([name], step) == ([], Some(e));
      assert saved + [] == saved;
    case NotSaved =>
      assert RunBatch([name], step) == ([], None);
      assert saved + [] == saved;
    case Saved(path, cols) =>
      assert RunBatch([name], step) == ([(path, cols)] + [], None);
      assert [(path, cols)] + [] == [(path, cols)];
  }

  /** The loop state of a batch driver after `i` files: the tables written so
      far, followed by what the rest of the files will give, is the batch. */
  ghost predicate BatchInvariant(files: seq<string>, i: nat, step: string -> FileOutcome,
                                 saved: seq<(string, Columns)>)
    requires i <= |files|
  {
    var rest := RunBatch(files[i..], step);
    RunBatch(files, step) == (saved + rest.0, rest.1)
  }

  /** One iteration of the loop of a batch driver keeps its invariant, or
      ends the batch with the exception that escaped. */
  lemma RunBatchAdvance(files: seq<string>, i: nat, step: string -> FileOutcome,
                        saved: seq<(string, Columns)>)
    requires i < |files| && BatchInvariant(files, i, step, saved)
    ensures match step(files[i])
      case Escaped(e) => RunBatch(files, step) == (saved, Some(e))
      case NotSaved => BatchInvariant(files, i + 1, step, saved)
      case Saved(path, cols) => BatchInvariant(files, i + 1, step, saved + [(path, cols)])
  {
    assert files[i..][1..] == files[i + 1..];
    var rest := RunBatch(files[i + 1..], step);
    match step(files[i])
    case Escaped(e) =>
      assert saved + [] == saved;
    case NotSaved =>
    case Saved(path, cols) =>
      assert saved + ([(path, cols)] + rest.0) == (saved + [(path, cols)]) + rest.0;
  }

  /** The loop invariant holds before the first iteration and gives the batch
      after the last. */
  lemma RunBatchBounds(files: seq<string>, step: string -> FileOutcome, saved: seq<(string, Columns)>)
    ensures BatchInvariant(files, 0, step, [])
    ensures BatchInvariant(files, |files|, step, saved) ==> RunBatch(files, step) == (saved, None)
  {
    assert files[0..] == files;
    assert [] + RunBatch(files, step).0 == RunBatch(files, step).0;
    assert files[|files|..] == [];
    assert saved + [] == saved;
  }

  /** Whatever holds of the path of every file written holds of every path in
      the batch result. */
  lemma {:induction false} RunBatchPaths(files: seq<string>, step: string -> FileOutcome, good: string -> bool)
    requires forall name :: name in files && step(name).Saved? ==> good(step(name).path)
    ensures forall k :: 0 <= k < |RunBatch(files, step).0| ==> good(RunBatch(files, step).0[k].0)
  {
    if files != [] {
      assert files[0] in files;
      RunBatchPaths(files[1..], step, good);
    }
  }
}
