/** clean_text.py without its I/O: markup stripped from the title and body
    columns of English tables (`clean_text`, `clean_csv_file`) and the batch
    over a directory listing (`clean_all_csv_files`). BeautifulSoup's
    `get_text` is the parameter `getText`. */
module Clean {
  import opened PyStr
  import opened Frames

  /** `clean_text(text)`: a value that is not a string is returned as it is;
      a string is parsed as HTML and its text content returned. */
  function CleanText(v: Value, getText: string -> string): (r: Value)
    ensures !v.Text? ==> r == v
    ensures v.Text? ==> r == Text(getText(v.s))
  {
    match v
    case Text(s) => Text(getText(s))
    case _ => v
  }

  /** `df[column].progress_apply(lambda x: clean_text(x))`. */
  function CleanColumn(cells: seq<Value>, getText: string -> string): (r: seq<Value>)
    ensures |r| == |cells|
    ensures forall i :: 0 <= i < |cells| ==> r[i] == CleanText(cells[i], getText)
  {
    seq(|cells|, i requires 0 <= i < |cells| => CleanText(cells[i], getText))
  }

  /** The frame's columns after `clean_csv_file` has checked for both
      required columns and assigned the two cleaned ones, or `None` when a
      required column is missing. */
  function CleanedColumns(cols: Columns, getText: string -> string): (r: Option<Columns>)
    ensures r.None? <==> TitleColumn !in cols || BodyColumn !in cols
    ensures r.Some? ==>
      && r.value.Keys == cols.Keys + {TitleOutColumn, BodyOutColumn}
      && (forall k :: k in cols && k != TitleOutColumn && k != BodyOutColumn ==> r.value[k] == cols[k])
      && |r.value[TitleOutColumn]| == |cols[TitleColumn]|
      && |r.value[BodyOutColumn]| == |cols[BodyColumn]|
      && (forall i :: 0 <= i < |cols[TitleColumn]| ==>
            r.value[TitleOutColumn][i] == CleanText(cols[TitleColumn][i], getText))
      && (forall i :: 0 <= i < |cols[BodyColumn]| ==>
            r.value[BodyOutColumn][i] == CleanText(cols[BodyColumn][i], getText))
  {
    if TitleColumn !in cols || BodyColumn !in cols then None
    else
      var withTitles := cols[TitleOutColumn := CleanColumn(cols[TitleColumn], getText)];
      Some(withTitles[BodyOutColumn := CleanColumn(withTitles[BodyColumn], getText)])
  }

  /** `except pd.errors.ParserError` and `except KeyError`, both `return None`. */
  function CatchCleanErrors(e: Exception): (r: FileOutcome)
    ensures r == NotSaved <==> e.ParserError? || e.KeyError?
    ensures !r.NotSaved? ==> r == Escaped(e)
  {
    if e.ParserError? || e.KeyError? then NotSaved else Escaped(e)
  }

  /** `clean_csv_file(input_path, output_path, src_lang)`, given what
      `pd.read_csv` gave for the input file. */
  function CleanFile(input: Attempt<Columns>, outputPath: string, getText: string -> string): (r: FileOutcome)
    ensures r.Escaped? ==> input.Raised?
    ensures input.Ok? && (TitleColumn !in input.value || BodyColumn !in input.value) ==> r == NotSaved
    ensures input.Ok? && TitleColumn in input.value && BodyColumn in input.value ==>
      r == Saved(outputPath, CleanedColumns(input.value, getText).value)
    ensures input.Raised? ==> r == CatchCleanErrors(input.error)
  {
    match input
    case Raised(e) => CatchCleanErrors(e)
    case Ok(cols) =>
      match CleanedColumns(cols, getText)
      case None => NotSaved
      case Some(cleaned) => Saved(outputPath, cleaned)
  }

  /** `clean_csv_file` as the script runs it: a DataFrame updated in place. */
  method CleanCsvFile(input: Attempt<Columns>, outputPath: string, getText: string -> string)
    returns (r: FileOutcome)
    ensures r == CleanFile(input, outputPath, getText)
  {
    if input.Raised? {
      return CatchCleanErrors(input.error);
    }
    var df := new Frame(input.value);
    if !df.HasColumn(TitleColumn) || !df.HasColumn(BodyColumn) {
      return NotSaved;
    }
    var titles := df.Column(TitleColumn);
    df.Assign(TitleOutColumn, CleanColumn(titles.value, getText));
    var bodies := df.Column(BodyColumn);
    df.Assign(BodyOutColumn, CleanColumn(bodies.value, getText));
    r := Saved(outputPath, df.columns);
  }

  // clean_all_csv_files: which files, under which names.

  /** The filter of the listing: `f.endswith("eng_Latn.csv") and '_cleaned' not in f`. */
  predicate CleanSelected(name: string)
  {
    EndsWith(name, "eng_Latn.csv") && !Contains(name, "_cleaned")
  }

  /** `os.path.join(output_path, filename).rpartition(".csv")[0] + "_clean.csv"`. */
  function CleanOutputPath(outputDir: string, name: string): string
  {
    RPartition(PathJoin(outputDir, name), ".csv").0 + "_clean.csv"
  }

  /** For a `.csv` file the output path is the joined path with its final
      `.csv` replaced by `_clean.csv`. */
  lemma CleanOutputPathShape(outputDir: string, name: string)
    requires EndsWith(name, ".csv")
    ensures var joined := PathJoin(outputDir, name);
      CleanOutputPath(outputDir, name) == joined[..|joined| - 4] + "_clean.csv"
  {
    var joined := PathJoin(outputDir, name);
    EndsWithTrans(joined, name, ".csv");
    RPartitionFinal(joined, ".csv");
  }

  /** No file whose name ends with `_clean.csv` is selected: it does not end
      with `eng_Latn.csv`. */
  lemma CleanedNameRefused(written: string)
    requires EndsWith(written, "_clean.csv")
    ensures !CleanSelected(written)
  {
    if |written| >= 12 {
      assert written[|written| - 10] == '_';
      assert "eng_Latn.csv"[2] == 'g';
      assert written[|written| - 12..][2] == written[|written| - 10];
    }
  }

  /** A path that ends with `eng_Latn.csv`, with its final `.csv` swapped
      for `_clean.csv`, ends with `eng_Latn_clean.csv` and is not selected. */
  lemma SwappedExtensionRefused(joined: string, out: string)
    requires EndsWith(joined, "eng_Latn.csv")
    requires out == joined[..|joined| - 4] + "_clean.csv"
    ensures EndsWith(out, "eng_Latn_clean.csv") && !CleanSelected(out)
  {
    assert "eng_Latn" + ".csv" == "eng_Latn.csv";
    assert "eng_Latn" + "_clean.csv" == "eng_Latn_clean.csv";
    EndsWithDrop(joined, "eng_Latn", ".csv");
    EndsWithAppend(joined[..|joined| - 4], "eng_Latn", "_clean.csv");
    EndsWithSuffix(out, "eng_Latn", "_clean.csv");
    CleanedNameRefused(out);
  }

  /** The output path of a selected file ends with `eng_Latn_clean.csv` and
      would not be selected again. */
  lemma CleanOutputRefused(outputDir: string, name: string)
    requires CleanSelected(name)
    ensures EndsWith(CleanOutputPath(outputDir, name), "eng_Latn_clean.csv")
    ensures !CleanSelected(CleanOutputPath(outputDir, name))
  {
    var joined := PathJoin(outputDir, name);
    assert EndsWith("eng_Latn.csv", ".csv");
    EndsWithTrans(name, "eng_Latn.csv", ".csv");
    CleanOutputPathShape(outputDir, name);
    EndsWithTrans(joined, name, "eng_Latn.csv");
    SwappedExtensionRefused(joined, CleanOutputPath(outputDir, name));
  }

  /** One iteration of the batch loop: `clean_csv_file` on one file name,
      with `load` standing for `pd.read_csv` on a path. */
  function CleanStep(inputDir: string, outputDir: string, load: string -> Attempt<Columns>, getText: string -> string)
    : string -> FileOutcome
  {
    name => CleanFile(load(PathJoin(inputDir, name)), CleanOutputPath(outputDir, name), getText)
  }

  /** `clean_all_csv_files(input_path, output_path)` over the directory
      listing `listing`. */
  method CleanAllCsvFiles(listing: seq<string>, inputDir: string, outputDir: string,
                          load: string -> Attempt<Columns>, getText: string -> string)
    returns (saved: seq<(string, Columns)>, escaped: Option<Exception>)
    ensures (saved, escaped) == RunBatch(Filter(listing, CleanSelected), CleanStep(inputDir, outputDir, load, getText))
  {
    var csvFiles := Filter(listing, CleanSelected);
    ghost var step := CleanStep(inputDir, outputDir, load, getText);
    saved, escaped := [], None;
    RunBatchBounds(csvFiles, step, saved);
    for i := 0 to |csvFiles|
      invariant escaped == None && BatchInvariant(csvFiles, i, step, saved)
    {
      var filename := csvFiles[i];
      var filepath := PathJoin(inputDir, filename);
      var outputFilepath := CleanOutputPath(outputDir, filename);
      var outcome := CleanCsvFile(load(filepath), outputFilepath, getText);
      assert outcome == step(filename);
      RunBatchAdvance(csvFiles, i, step, saved);
      match outcome
      case Escaped(e) =>
        return saved, Some(e);
      case NotSaved =>
      case Saved(path, cols) =>
        saved := saved + [(path, cols)];
    }
    RunBatchBounds(csvFiles, step, saved);
  }

  /** Every table the batch writes goes to a path ending with
      `eng_Latn_clean.csv`, a name the filter would refuse. */
  lemma CleanBatchOutputs(listing: seq<string>, inputDir: string, outputDir: string,
                          load: string -> Attempt<Columns>, getText: string -> string)
    ensures var saved := RunBatch(Filter(listing, CleanSelected), CleanStep(inputDir, outputDir, load, getText)).0;
      forall k :: 0 <= k < |saved| ==> EndsWith(saved[k].0, "eng_Latn_clean.csv") && !CleanSelected(saved[k].0)
  {
    var files := Filter(listing, CleanSelected);
    var step := CleanStep(inputDir, outputDir, load, getText);
    var good := (p: string) => EndsWith(p, "eng_Latn_clean.csv") && !CleanSelected(p);
    forall name | name in files && step(name).Saved?
      ensures good(step(name).path)
    {
      var outcome := CleanFile(load(PathJoin(inputDir, name)), CleanOutputPath(outputDir, name), getText);
      assert step(name) == outcome;
      CleanOutputRefused(outputDir, name);
    }
    RunBatchPaths(files, step, good);
  }
}
