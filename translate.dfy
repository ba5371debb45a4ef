/** translate.py without its I/O: per-field routing through cleaning,
    sentence splitting and per-sentence translation (`translate_text`), the
    two translated columns added to a table (`translate_csv_file`), and the
    batch over a directory listing (`translate_all_csv_files`).

    The three library calls are parameters: `clean` is BeautifulSoup's
    `get_text` as `clean_text` applies it, `split` is NLTK's `sent_tokenize`,
    `translate` is the neural pipeline applied to one sentence with the
    `[0]['translation_text']` lookup included. Each may raise. */
module Translate {
  import opened PyStr
  import opened Frames

  /** `TARGET_LANGUAGE`. */
  const TargetLanguage: string := "eng_Latn"

  datatype Services = Services(
    clean: Value -> Attempt<string>,
    split: string -> Attempt<seq<string>>,
    translate: (string, string, string) -> Attempt<string>)

  /** One call into a library, with its arguments and what it gave back. */
  datatype Call =
    | CleanCall(value: Value, outcome: Attempt<string>)
    | SplitCall(text: string, sentences: Attempt<seq<string>>)
    | TranslateCall(sentence: string, src: string, tgt: string, outcome: Attempt<string>)
  {
    predicate Failed()
    {
      match this
      case CleanCall(_, o) => o.Raised?
      case SplitCall(_, o) => o.Raised?
      case TranslateCall(_, _, _, o) => o.Raised?
    }
  }

  /** A result together with the library calls made to compute it, in order. */
  datatype Traced<T> = Traced(result: T, calls: seq<Call>)

  /** The call `translator(sentence, src_lang=src, tgt_lang=TARGET_LANGUAGE)`. */
  function TranslateOne(svc: Services, sentence: string, src: string): Call
  {
    TranslateCall(sentence, src, TargetLanguage, svc.translate(sentence, src, TargetLanguage))
  }

  /** The list comprehension over the sentences: one translator call per
      sentence, in order, stopping at the first one that raises. */
  function TranslateSentences(sentences: seq<string>, svc: Services, src: string)
    : (r: Traced<Attempt<seq<string>>>)
    ensures |r.calls| <= |sentences|
  {
    if sentences == [] then Traced(Ok([]), [])
    else
      var call := TranslateOne(svc, sentences[0], src);
      if call.outcome.Raised? then Traced(Raised(call.outcome.error), [call])
      else
        var rest := TranslateSentences(sentences[1..], svc, src);
        if rest.result.Raised? then Traced(Raised(rest.result.error), [call] + rest.calls)
        else Traced(Ok([call.outcome.value] + rest.result.value), [call] + rest.calls)
  }

  /** The comprehension succeeds exactly when every sentence translates, and
      then holds each sentence's translation at its index; the translator is
      called on the sentences in order, and only the last call can raise,
      with the exception the comprehension raises. */
  lemma {:induction false} TranslateSentencesSpec(sentences: seq<string>, svc: Services, src: string)
    ensures var r := TranslateSentences(sentences, svc, src);
      r.result.Ok? <==> forall i :: 0 <= i < |sentences| ==> svc.translate(sentences[i], src, TargetLanguage).Ok?
    ensures var r := TranslateSentences(sentences, svc, src);
      r.result.Ok? ==> |r.result.value| == |sentences| && |r.calls| == |sentences|
    ensures var r := TranslateSentences(sentences, svc, src);
      r.result.Ok? ==> forall i :: 0 <= i < |sentences| ==>
        r.result.value[i] == svc.translate(sentences[i], src, TargetLanguage).value
    ensures var r := TranslateSentences(sentences, svc, src);
      forall i :: 0 <= i < |r.calls| ==> r.calls[i] == TranslateOne(svc, sentences[i], src)
    ensures var r := TranslateSentences(sentences, svc, src);
      forall i :: 0 <= i < |r.calls| - 1 ==> svc.translate(sentences[i], src, TargetLanguage).Ok?
    ensures var r := TranslateSentences(sentences, svc, src);
      r.result.Raised? ==>
        r.calls != [] && svc.translate(sentences[|r.calls| - 1], src, TargetLanguage) == Raised(r.result.error)
  {
    if sentences != [] && svc.translate(sentences[0], src, TargetLanguage).Ok? {
      var tail := sentences[1..];
      TranslateSentencesSpec(tail, svc, src);
      var call := TranslateOne(svc, sentences[0], src);
      var rest := TranslateSentences(tail, svc, src);
      var r := TranslateSentences(sentences, svc, src);
      assert r.calls == [call] + rest.calls;
      assert forall i :: 1 <= i < |sentences| ==> tail[i - 1] == sentences[i];
      if rest.result.Ok? {
        assert r.result.value == [call.outcome.value] + rest.result.value;
      }
    }
  }

  /** The `except` branch of `translate_text`: the diagnostic slices
      `text[:30]`, which raises `TypeError` for a cell that is not a string;
      otherwise the original, uncleaned value is returned. */
  function Fallback(v: Value): (r: Attempt<Value>)
    ensures r.Raised? <==> v.Other?
    ensures r.Ok? ==> r.value == v
    ensures r.Raised? ==> r.error.TypeError?
  {
    if v.Other? then Raised(TypeError("object is not subscriptable")) else Ok(v)
  }

  /** `translate_text(text, translator, src_lang)`. */
  function TranslateText(v: Value, svc: Services, src: string): (r: Traced<Attempt<Value>>)
    ensures v.Missing? ==> r == Traced(Ok(Missing), [])
    ensures !v.Missing? ==> r.calls != [] && r.calls[0] == CleanCall(v, svc.clean(v))
    ensures !v.Missing? && src == TargetLanguage ==>
      |r.calls| == 1 && r.result == (if svc.clean(v).Ok? then Ok(Text(svc.clean(v).value)) else Fallback(v))
    ensures r.result.Raised? ==> v.Other? && r.result.error.TypeError?
    ensures !v.Missing? && svc.clean(v).Raised? ==> r.calls == [CleanCall(v, svc.clean(v))]
    ensures !v.Missing? && svc.clean(v).Ok? && src != TargetLanguage ==>
      var text := svc.clean(v).value;
      r.calls == [CleanCall(v, svc.clean(v)), SplitCall(text, svc.split(text))] +
        (if svc.split(text).Ok? then TranslateSentences(svc.split(text).value, svc, src).calls else [])
  {
    if v.Missing? then Traced(Ok(Missing), [])
    else
      var cleaned := svc.clean(v);
      var calls := [CleanCall(v, cleaned)];
      if cleaned.Raised? then Traced(Fallback(v), calls)
      else if src == TargetLanguage then Traced(Ok(Text(cleaned.value)), calls)
      else
        var sentences := svc.split(cleaned.value);
        var calls := calls + [SplitCall(cleaned.value, sentences)];
        if sentences.Raised? then Traced(Fallback(v), calls)
        else
          var translated := TranslateSentences(sentences.value, svc, src);
          var calls := calls + translated.calls;
          match translated.result
          case Ok(ts) => Traced(Ok(Text(Join(ts, " "))), calls)
          case Raised(_) => Traced(Fallback(v), calls)
  }

  /** When nothing raises and the source language is not the target, the
      field becomes the translations of its sentences joined by single
      spaces, after exactly one cleaning, one splitting and one translator
      call per sentence; no sentence gives the empty string. */
  lemma TranslateTextSucceeds(v: Value, svc: Services, src: string)
    requires !v.Missing? && src != TargetLanguage
    requires svc.clean(v).Ok? && svc.split(svc.clean(v).value).Ok?
    requires var ss := svc.split(svc.clean(v).value).value;
      forall i :: 0 <= i < |ss| ==> svc.translate(ss[i], src, TargetLanguage).Ok?
    ensures var ss := svc.split(svc.clean(v).value).value;
      var r := TranslateText(v, svc, src);
      && r.result == Ok(Text(Join(seq(|ss|, i requires 0 <= i < |ss| => svc.translate(ss[i], src, TargetLanguage).value), " ")))
      && |r.calls| == 2 + |ss|
      && r.calls[1] == SplitCall(svc.clean(v).value, Ok(ss))
      && (forall i :: 0 <= i < |ss| ==> r.calls[2 + i] == TranslateOne(svc, ss[i], src))
      && (ss == [] ==> r.result == Ok(Text("")))
  {
    var ss := svc.split(svc.clean(v).value).value;
    TranslateSentencesSpec(ss, svc, src);
    var t := TranslateSentences(ss, svc, src);
    assert t.result.Ok?;
    assert t.result.value == seq(|ss|, i requires 0 <= i < |ss| => svc.translate(ss[i], src, TargetLanguage).value);
  }

  /** A failed translator call is the last one made, and the comprehension
      then raises. */
  lemma TranslateSentencesFailure(sentences: seq<string>, svc: Services, src: string, i: nat)
    requires var t := TranslateSentences(sentences, svc, src); i < |t.calls| && t.calls[i].Failed()
    ensures var t := TranslateSentences(sentences, svc, src); i == |t.calls| - 1 && t.result.Raised?
  {
    TranslateSentencesSpec(sentences, svc, src);
  }

  /** Never a partial translation: once any library call raises, no further
      call is made and the field falls back to its original, uncleaned value. */
  lemma TranslateTextFailure(v: Value, svc: Services, src: string)
    ensures var r := TranslateText(v, svc, src);
      forall i :: 0 <= i < |r.calls| && r.calls[i].Failed() ==>
        i == |r.calls| - 1 && r.result == Fallback(v)
  {
    var r := TranslateText(v, svc, src);
    if !v.Missing? && svc.clean(v).Ok? && src != TargetLanguage {
      var cleaned := svc.clean(v).value;
      var sentences := svc.split(cleaned);
      if sentences.Ok? {
        var t := TranslateSentences(sentences.value, svc, src);
        assert r.calls == [CleanCall(v, svc.clean(v)), SplitCall(cleaned, sentences)] + t.calls;
        forall i | 0 <= i < |r.calls| && r.calls[i].Failed()
          ensures i == |r.calls| - 1 && r.result == Fallback(v)
        {
          assert r.calls[i] == t.calls[i - 2];
          TranslateSentencesFailure(sentences.value, svc, src, i - 2);
        }
      }
    }
  }

  /** Some library call that `translate_text` makes on a present value
      raises: the cleaning, or (for a source language other than the
      target) the splitting, or the translation of one of the sentences. */
  ghost predicate SomeServiceRaises(v: Value, svc: Services, src: string)
  {
    svc.clean(v).Raised? ||
    (src != TargetLanguage &&
     var sentences := svc.split(svc.clean(v).value);
     (sentences.Raised? ||
      exists i | 0 <= i < |sentences.value| :: svc.translate(sentences.value[i], src, TargetLanguage).Raised?))
  }

  /** Never a partial translation, stated over the services themselves:
      whenever a library call that `translate_text` reaches raises, the
      result is the `except` branch's, the original value. */
  lemma TranslateTextFallsBack(v: Value, svc: Services, src: string)
    ensures !v.Missing? && SomeServiceRaises(v, svc, src) ==> TranslateText(v, svc, src).result == Fallback(v)
  {
    if !v.Missing? && svc.clean(v).Ok? && src != TargetLanguage {
      var sentences := svc.split(svc.clean(v).value);
      if sentences.Ok? {
        TranslateSentencesSpec(sentences.value, svc, src);
      }
    }
  }

  // translate_csv_file: the two translated columns.

  /** `df[column].progress_apply(lambda x: translate_text(x, translator, src_lang))`:
      every cell in order; an exception escaping a cell ends the whole apply. */
  function TranslateColumn(cells: seq<Value>, svc: Services, src: string): (r: Attempt<seq<Value>>)
    ensures r.Ok? <==> forall i :: 0 <= i < |cells| ==> TranslateText(cells[i], svc, src).result.Ok?
    ensures r.Ok? ==> |r.value| == |cells|
    ensures r.Ok? ==> forall i :: 0 <= i < |cells| ==> r.value[i] == TranslateText(cells[i], svc, src).result.value
    ensures r.Raised? ==>
      exists i :: 0 <= i < |cells| && cells[i].Other? && TranslateText(cells[i], svc, src).result == Raised(r.error)
    ensures r.Raised? ==> r.error.TypeError?
  {
    if cells == [] then Ok([])
    else
      var first := TranslateText(cells[0], svc, src).result;
      if first.Raised? then Raised(first.error)
      else
        var rest := TranslateColumn(cells[1..], svc, src);
        if rest.Raised? then
          assert forall i :: 0 <= i < |cells| - 1 ==> cells[1..][i] == cells[i + 1];
          Raised(rest.error)
        else Ok([first.value] + rest.value)
  }

  /** The frame's columns after the steps of `translate_csv_file` have run in
      place, and the exception that escaped them, if any: `df['ils._title']`
      raises `KeyError` when the column is absent; the title column is
      assigned before the body column is even looked up. */
  function TranslatedColumns(cols: Columns, svc: Services, src: string): (r: (Columns, Option<Exception>))
    ensures r.1 == None <==>
      TitleColumn in cols && BodyColumn in cols &&
      TranslateColumn(cols[TitleColumn], svc, src).Ok? && TranslateColumn(cols[BodyColumn], svc, src).Ok?
    ensures r.1 == None ==>
      && r.0.Keys == cols.Keys + {TitleOutColumn, BodyOutColumn}
      && (forall k :: k in cols && k != TitleOutColumn && k != BodyOutColumn ==> r.0[k] == cols[k])
      && |r.0[TitleOutColumn]| == |cols[TitleColumn]|
      && |r.0[BodyOutColumn]| == |cols[BodyColumn]|
      && (forall i :: 0 <= i < |cols[TitleColumn]| ==>
            r.0[TitleOutColumn][i] == TranslateText(cols[TitleColumn][i], svc, src).result.value)
      && (forall i :: 0 <= i < |cols[BodyColumn]| ==>
            r.0[BodyOutColumn][i] == TranslateText(cols[BodyColumn][i], svc, src).result.value)
    ensures r.1.Some? ==> r.1.value.KeyError? || r.1.value.TypeError?
    ensures TitleColumn !in cols ==> r == (cols, Some(KeyError(TitleColumn)))
    ensures TitleColumn in cols && BodyColumn !in cols && TranslateColumn(cols[TitleColumn], svc, src).Ok? ==>
      r == (cols[TitleOutColumn := TranslateColumn(cols[TitleColumn], svc, src).value], Some(KeyError(BodyColumn)))
    ensures TitleColumn in cols && TranslateColumn(cols[TitleColumn], svc, src).Raised? ==>
      r == (cols, Some(TranslateColumn(cols[TitleColumn], svc, src).error))
    ensures TitleColumn in cols && BodyColumn in cols && TranslateColumn(cols[TitleColumn], svc, src).Ok? &&
            TranslateColumn(cols[BodyColumn], svc, src).Raised? ==>
      r == (cols[TitleOutColumn := TranslateColumn(cols[TitleColumn], svc, src).value],
            Some(TranslateColumn(cols[BodyColumn], svc, src).error))
  {
    if TitleColumn !in cols then (cols, Some(KeyError(TitleColumn)))
    else match TranslateColumn(cols[TitleColumn], svc, src)
      case Raised(e) => (cols, Some(e))
      case Ok(titles) =>
        var withTitles := cols[TitleOutColumn := titles];
        if BodyColumn !in withTitles then (withTitles, Some(KeyError(BodyColumn)))
        else match TranslateColumn(withTitles[BodyColumn], svc, src)
          case Raised(e) => (withTitles, Some(e))
          case Ok(bodies) => (withTitles[BodyOutColumn := bodies], None)
  }

  /** `except pd.errors.ParserError: ... return None`; nothing else is caught. */
  function CatchParserError(e: Exception): (r: FileOutcome)
    ensures r == NotSaved <==> e.ParserError?
    ensures !r.NotSaved? ==> r == Escaped(e)
  {
    if e.ParserError? then NotSaved else Escaped(e)
  }

  /** `translate_csv_file(input_path, output_path, translator, src_lang)`,
      given what `pd.read_csv` gave for the input file. */
  function TranslateFile(input: Attempt<Columns>, outputPath: string, svc: Services, src: string): (r: FileOutcome)
    ensures r.NotSaved? <==> input.Raised? && input.error.ParserError?
    ensures r.Saved? ==> r.path == outputPath && input.Ok?
    ensures r.Saved? ==> r.columns == TranslatedColumns(input.value, svc, src).0
    ensures input.Ok? && TitleColumn !in input.value ==> r == Escaped(KeyError(TitleColumn))
    ensures (input.Ok? && TitleColumn in input.value && BodyColumn !in input.value &&
             TranslateColumn(input.value[TitleColumn], svc, src).Ok?) ==>
      r == Escaped(KeyError(BodyColumn))
    ensures input.Ok? && TranslatedColumns(input.value, svc, src).1 == None ==>
      r == Saved(outputPath, TranslatedColumns(input.value, svc, src).0)
    ensures input.Ok? && TranslatedColumns(input.value, svc, src).1.Some? ==>
      r == Escaped(TranslatedColumns(input.value, svc, src).1.value)
    ensures input.Raised? ==> r == CatchParserError(input.error)
  {
    match input
    case Raised(e) => CatchParserError(e)
    case Ok(cols) =>
      var (out, escaped) := TranslatedColumns(cols, svc, src);
      if escaped.Some? then CatchParserError(escaped.value) else Saved(outputPath, out)
  }

  /** `translate_csv_file` as the script runs it: a DataFrame updated in place. */
  method TranslateCsvFile(input: Attempt<Columns>, outputPath: string, svc: Services, src: string)
    returns (r: FileOutcome)
    ensures r == TranslateFile(input, outputPath, svc, src)
  {
    if input.Raised? {
      return CatchParserError(input.error);
    }
    var df := new Frame(input.value);
    var titles := df.Column(TitleColumn);
    if titles.Raised? {
      return CatchParserError(titles.error);
    }
    var translatedTitles := TranslateColumn(titles.value, svc, src);
    if translatedTitles.Raised? {
      return CatchParserError(translatedTitles.error);
    }
    df.Assign(TitleOutColumn, translatedTitles.value);
    var bodies := df.Column(BodyColumn);
    if bodies.Raised? {
      return CatchParserError(bodies.error);
    }
    var translatedBodies := TranslateColumn(bodies.value, svc, src);
    if translatedBodies.Raised? {
      return CatchParserError(translatedBodies.error);
    }
    df.Assign(BodyOutColumn, translatedBodies.value);
    r := Saved(outputPath, df.columns);
  }

  // translate_all_csv_files: which files, under which names.

  /** The filter of the listing: `f.endswith(".csv") and '_translated' not in f`. */
  predicate TranslateSelected(name: string)
  {
    EndsWith(name, ".csv") && !Contains(name, "_translated")
  }

  /** `os.path.join(output_path, filename).replace(".csv", "_translated.csv")`. */
  function TranslateOutputPath(outputDir: string, name: string): string
  {
    Replace(PathJoin(outputDir, name), ".csv", "_translated.csv")
  }

  /** `src_lang = filename`: the whole file name, extension included. */
  function SourceLanguage(name: string): string
  {
    name
  }

  /** One iteration of the batch loop: `translate_csv_file` on one file
      name, with `load` standing for `pd.read_csv` on a path. */
  function TranslateStep(inputDir: string, outputDir: string, load: string -> Attempt<Columns>, svc: Services)
    : string -> FileOutcome
  {
    name => TranslateFile(load(PathJoin(inputDir, name)), TranslateOutputPath(outputDir, name), svc, SourceLanguage(name))
  }

  /** `translate_all_csv_files(input_path, output_path, translator)` over the
      directory listing `listing`. */
  method TranslateAllCsvFiles(listing: seq<string>, inputDir: string, outputDir: string,
                              load: string -> Attempt<Columns>, svc: Services)
    returns (saved: seq<(string, Columns)>, escaped: Option<Exception>)
    ensures (saved, escaped) == RunBatch(Filter(listing, TranslateSelected), TranslateStep(inputDir, outputDir, load, svc))
  {
    var csvFiles := Filter(listing, TranslateSelected);
    ghost var step := TranslateStep(inputDir, outputDir, load, svc);
    saved, escaped := [], None;
    RunBatchBounds(csvFiles, step, saved);
    for i := 0 to |csvFiles|
      invariant escaped == None && BatchInvariant(csvFiles, i, step, saved)
    {
      var filename := csvFiles[i];
      var srcLang := SourceLanguage(filename);
      var filepath := PathJoin(inputDir, filename);
      var outputFilepath := TranslateOutputPath(outputDir, filename);
      var outcome := TranslateCsvFile(load(filepath), outputFilepath, svc, srcLang);
      assert outcome == step(filename);
      RunBatchAdvance(csvFiles, i, step, saved);
      match outcome
      case Escaped(e) =>
        return saved, Some(e);
      case NotSaved =>
      case Saved(path, cols) =>
        saved := saved + [(path, cols)];
    }
    RunBatchBounds(csvFiles, step, saved);
  }

  /** The output path of a `.csv` file ends with `_translated.csv`. */
  lemma TranslateOutputPathEnds(outputDir: string, name: string)
    requires EndsWith(name, ".csv")
    ensures EndsWith(TranslateOutputPath(outputDir, name), "_translated.csv")
  {
    var joined := PathJoin(outputDir, name);
    var stem := joined[..|joined| - 4];
    assert stem + ".csv" == joined;
    ReplaceFinalExtension(stem, "_translated.csv");
  }

  /** No file whose name ends with `_translated.csv` is selected. */
  lemma TranslatedNameRefused(written: string)
    requires EndsWith(written, "_translated.csv")
    ensures !TranslateSelected(written)
  {
    assert OccursAt(written, "_translated", |written| - 15);
  }

  /** Every table the batch writes goes to a path ending with
      `_translated.csv`, a name the filter would refuse. */
  lemma TranslateBatchOutputs(listing: seq<string>, inputDir: string, outputDir: string,
                              load: string -> Attempt<Columns>, svc: Services)
    ensures var saved := RunBatch(Filter(listing, TranslateSelected), TranslateStep(inputDir, outputDir, load, svc)).0;
      forall k :: 0 <= k < |saved| ==> EndsWith(saved[k].0, "_translated.csv") && !TranslateSelected(saved[k].0)
  {
    var files := Filter(listing, TranslateSelected);
    var step := TranslateStep(inputDir, outputDir, load, svc);
    var good := (p: string) => EndsWith(p, "_translated.csv") && !TranslateSelected(p);
    forall name | name in files && step(name).Saved?
      ensures good(step(name).path)
    {
      var outcome := TranslateFile(load(PathJoin(inputDir, name)), TranslateOutputPath(outputDir, name), svc, SourceLanguage(name));
      assert step(name) == outcome;
      TranslateOutputPathEnds(outputDir, name);
      TranslatedNameRefused(TranslateOutputPath(outputDir, name));
    }
    RunBatchPaths(files, step, good);
  }

  /** The batch never takes the same-language shortcut: a selected name ends
      with `.csv`, so it is never `eng_Latn`, and every present value that
      cleans is handed to the sentence splitter. */
  lemma SameLanguageShortcutUnreachable(name: string, v: Value, svc: Services)
    requires TranslateSelected(name)
    requires !v.Missing? && svc.clean(v).Ok?
    ensures SourceLanguage(name) != TargetLanguage
    ensures var calls := TranslateText(v, svc, SourceLanguage(name)).calls;
      |calls| >= 2 && calls[1] == SplitCall(svc.clean(v).value, svc.split(svc.clean(v).value))
  {
    assert name[|name| - 4..] == ".csv";
    assert TargetLanguage[4..] == "Latn";
  }
}
