/** The decisions of `handleProcess` (script.js:97-120): which input is
    processed and under what name, when processing stops with an error, and
    what a successful run hands to the archive and to the summary. The
    textarea text, the loaded file's content and its name are parameters; the
    file reading, the status messages and the download are not part of this
    model. */
module Process {
  import opened Options
  import opened Text
  import opened FileBlock
  import opened Parser
  import opened Archive

  /** The two ways `handleProcess` stops without building an archive. */
  datatype Failure =
    | EmptyInput        // neither pasted text nor a loaded file (script.js:107-110)
    | NoStructureFound  // the parse found no file and no residual text (script.js:118-120)

  /** What a successful run produces: the archive's download name, the parse
      result, the archive writes and the summary shown to the user. */
  datatype Outcome = Outcome(zipName: string, parsed: ParseResult, writes: seq<Entry>, summary: Summary)

  /** `file.name.endsWith('.md')`: the upload check of script.js:71. */
  predicate AcceptsUpload(fileName: string)
  {
    EndsWith(fileName, MdSuffix)
  }

  /** An accepted upload names the archive after its stem, unless the name is
      the bare extension. */
  lemma UploadArchiveName(fileName: string)
    requires AcceptsUpload(fileName) && fileName != MdSuffix
    ensures BaseName(fileName) + MdSuffix == fileName
  {
  }

  /** The text that is parsed: the trimmed textarea text when there is any,
      otherwise the loaded file's content as it was read. */
  function Source(textarea: string, loaded: string): string
  {
    if Trim(textarea) != [] then Trim(textarea) else loaded
  }

  /** The name the archive is derived from: `'project'` for pasted text, the
      selected file's name otherwise. */
  function NameSource(textarea: string, fileName: string): string
  {
    if Trim(textarea) != [] then DefaultName else fileName
  }

  /** `handleProcess`, from the click to the archive writes. */
  method HandleProcess(textarea: string, loaded: string, fileName: string) returns (r: Result<Outcome, Failure>, ghost ms: seq<Match>)
    ensures r == Err(EmptyInput) <==> Trim(textarea) == [] && loaded == []
    ensures r == Err(NoStructureFound) <==> Trim(textarea) == [] && loaded != [] && AllWS(loaded)
    ensures r.Ok? ==>
      var src := Source(textarea, loaded);
      var o := r.value;
      && Leftmost(src, 0, ms) && Chain(src, 0, ms)
      && |o.parsed.files| == |ms|
      && (forall k :: 0 <= k < |ms| ==> o.parsed.files[k] == RecordOf(src, ms[k]))
      && o.parsed.extraText == Trim(Concat(Gaps(src, 0, ms)))
      && (o.parsed.files != [] || o.parsed.extraText != [])
      && o.zipName == ZipName(NameSource(textarea, fileName))
      && Registered(o.parsed.files, o.parsed.extraText, o.writes)
      && o.summary == Summarize(o.parsed.files, o.parsed.extraText)
  {
    var textContent := Trim(textarea);
    var contentToProcess: string;
    var zipNameSource: string;
    if textContent != [] {
      contentToProcess := textContent;
      zipNameSource := DefaultName;
    } else if loaded != [] {
      contentToProcess := loaded;
      zipNameSource := fileName;
    } else {
      ms := [];
      return Err(EmptyInput), ms;
    }
    var parsed;
    parsed, ms := ParseMarkdown(contentToProcess);
    TrimIdempotent(Concat(Gaps(contentToProcess, 0, ms)));
    TrimSpec(textarea);
    assert textContent != [] ==> !IsWS(textContent[0]);
    if parsed.files == [] && Trim(parsed.extraText) == [] {
      return Err(NoStructureFound), ms;
    }
    var summary := Summarize(parsed.files, parsed.extraText);
    var writes := RegisterEntries(parsed.files, parsed.extraText);
    r := Ok(Outcome(ZipName(zipNameSource), parsed, writes, summary));
  }

  /** A successful run's summary lists the archive's writes, one name per
      write, in order. */
  lemma SummaryAgreesWithArchive(o: Outcome)
    requires Registered(o.parsed.files, o.parsed.extraText, o.writes)
    requires o.summary == Summarize(o.parsed.files, o.parsed.extraText)
    ensures o.summary.count == |o.writes|
    ensures forall k :: 0 <= k < |o.writes| ==> o.summary.names[k] == o.writes[k].name
  {
    SummaryListsWrites(o.parsed.files, o.parsed.extraText, o.writes);
  }
}
