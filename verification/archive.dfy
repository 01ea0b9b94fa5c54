/** The archive policy of `createZip` (script.js:197-209) and the summary of
    `logParsedStructure` (script.js:240-245): how the archive is named, which
    entries are written to it and in what order, and what the user is told.
    The archive is the ordered list of writes; the library that turns it into
    bytes is not part of this model. */
module Archive {
  import opened Text
  import opened Parser

  /** The name used when there is no usable file name. */
  const DefaultName := "project"

  /** The entry that receives the residual text. */
  const ReadmeName := "README.md"

  /** The extension `createZip` strips and the upload check demands. */
  const MdSuffix := ".md"

  /** The extension of the downloaded archive. */
  const ZipSuffix := ".zip"

  /** `nameSource.replace(/\.md$/, '') || 'project'`: one trailing `.md` is
      removed (case-sensitively, at the very end only), and an empty result
      falls back to the default name. */
  function BaseName(nameSource: string): (r: string)
    ensures r != []
    ensures EndsWith(nameSource, MdSuffix) && nameSource != MdSuffix ==> r + MdSuffix == nameSource
    ensures !EndsWith(nameSource, MdSuffix) && nameSource != [] ==> r == nameSource
    ensures nameSource == [] || nameSource == MdSuffix ==> r == DefaultName
  {
    var stripped := if EndsWith(nameSource, MdSuffix) then nameSource[..|nameSource| - |MdSuffix|] else nameSource;
    if stripped == [] then DefaultName else stripped
  }

  /** Naming a Markdown file after a stem and deriving the base name from it
      gives the stem back. */
  lemma BaseNameOfStem(stem: string)
    requires stem != []
    ensures BaseName(stem + MdSuffix) == stem
  {
    assert (stem + MdSuffix)[|stem|..] == MdSuffix;
    assert EndsWith(stem + MdSuffix, MdSuffix);
  }

  /** Only the last `.md` goes: a name ending in `.md.md` keeps one. */
  lemma BaseNameStripsOnce(stem: string)
    requires stem != []
    ensures BaseName(stem + MdSuffix + MdSuffix) == stem + MdSuffix
  {
    BaseNameOfStem(stem + MdSuffix);
  }

  /** The download name `${projectName}.zip`. */
  function ZipName(nameSource: string): (r: string)
    ensures EndsWith(r, ZipSuffix) && |r| > |ZipSuffix|
    ensures r[..|r| - |ZipSuffix|] == BaseName(nameSource)
  {
    var base := BaseName(nameSource);
    assert (base + ZipSuffix)[|base|..] == ZipSuffix;
    base + ZipSuffix
  }

  /** One `zip.file(name, data)` call. */
  datatype Entry = Entry(name: string, data: string)

  /** The writes `createZip` makes for a parse result: one entry per record, in
      order, with the record's path and unchanged content, then `README.md`
      holding the residual text exactly when that text is non-empty. */
  ghost predicate Registered(files: seq<FileRecord>, extraText: string, writes: seq<Entry>)
  {
    && |writes| == |files| + (if extraText != [] then 1 else 0)
    && (forall k :: 0 <= k < |files| ==> writes[k] == Entry(files[k].path, files[k].content))
    && (extraText != [] ==> writes[|files|] == Entry(ReadmeName, extraText))
  }

  /** The loop `for (const file of files) zip.file(file.path, file.content)`
      followed by `if (extraText) zip.file('README.md', extraText)`. */
  method RegisterEntries(files: seq<FileRecord>, extraText: string) returns (writes: seq<Entry>)
    ensures Registered(files, extraText, writes)
  {
    writes := [];
    for i := 0 to |files|
      invariant |writes| == i
      invariant forall k :: 0 <= k < i ==> writes[k] == Entry(files[k].path, files[k].content)
    {
      writes := writes + [Entry(files[i].path, files[i].content)];
    }
    if extraText != [] {
      writes := writes + [Entry(ReadmeName, extraText)];
    }
  }

  /** What the archive holds once every write is made: a later write to a
      name replaces an earlier one. */
  function Contents(writes: seq<Entry>): map<string, string>
    decreases |writes|
  {
    if writes == [] then map[]
    else
      var last := writes[|writes| - 1];
      Contents(writes[..|writes| - 1])[last.name := last.data]
  }

  /** A name is in the archive exactly when some write used it, and then it
      holds the data of the last write to it. */
  lemma {:induction false} ContentsLastWrite(writes: seq<Entry>, name: string)
    ensures name in Contents(writes) <==> exists k :: 0 <= k < |writes| && writes[k].name == name
    ensures forall k :: 0 <= k < |writes| && writes[k].name == name && (forall l :: k < l < |writes| ==> writes[l].name != name) ==>
      name in Contents(writes) && Contents(writes)[name] == writes[k].data
    decreases |writes|
  {
    if writes != [] {
      var init := writes[..|writes| - 1];
      ContentsLastWrite(init, name);
      assert forall k :: 0 <= k < |init| ==> init[k] == writes[k];
      if name !in Contents(writes) {
        forall k | 0 <= k < |writes|
          ensures writes[k].name != name
        {
          if k < |init| {
            assert init[k].name != name;
          }
        }
      }
    }
  }

  /** With residual text, `README.md` holds it, whatever record also named
      `README.md`. */
  lemma ReadmeWins(files: seq<FileRecord>, extraText: string, writes: seq<Entry>)
    requires Registered(files, extraText, writes) && extraText != []
    ensures ReadmeName in Contents(writes) && Contents(writes)[ReadmeName] == extraText
  {
    ContentsLastWrite(writes, ReadmeName);
    assert writes[|files|].name == ReadmeName;
  }

  /** A record's path holds the content of the last record with that path,
      unless the residual text took it over as `README.md`. */
  lemma LastRecordWins(files: seq<FileRecord>, extraText: string, writes: seq<Entry>, k: nat)
    requires Registered(files, extraText, writes)
    requires k < |files| && forall l :: k < l < |files| ==> files[l].path != files[k].path
    requires extraText == [] || files[k].path != ReadmeName
    ensures files[k].path in Contents(writes) && Contents(writes)[files[k].path] == files[k].content
  {
    ContentsLastWrite(writes, files[k].path);
    forall l | k < l < |writes|
      ensures writes[l].name != files[k].path
    {
      if l < |files| {
        assert writes[l].name == files[l].path;
      }
    }
  }

  /** The archive holds a name only if a record has that path or it is the
      `README.md` of non-empty residual text. */
  lemma NothingElse(files: seq<FileRecord>, extraText: string, writes: seq<Entry>, name: string)
    requires Registered(files, extraText, writes)
    requires forall k :: 0 <= k < |files| ==> files[k].path != name
    requires extraText == [] || name != ReadmeName
    ensures name !in Contents(writes)
  {
    ContentsLastWrite(writes, name);
    forall k | 0 <= k < |writes|
      ensures writes[k].name != name
    {
      if k < |files| {
        assert writes[k].name == files[k].path;
      }
    }
  }

  /** What `logParsedStructure` reports: the list of entry names and its
      length. */
  datatype Summary = Summary(names: seq<string>, count: nat)

  /** `fileList = files.map(f => f.path)`, then `README.md` when the residual
      text is non-empty; `totalCount = fileList.length`, duplicates included. */
  function Summarize(files: seq<FileRecord>, extraText: string): (sm: Summary)
    ensures sm.count == |sm.names| == |files| + (if extraText != [] then 1 else 0)
    ensures forall k :: 0 <= k < |files| ==> sm.names[k] == files[k].path
    ensures extraText != [] ==> sm.names[|files|] == ReadmeName
  {
    var paths := seq(|files|, k requires 0 <= k < |files| => files[k].path);
    var names := if extraText != [] then paths + [ReadmeName] else paths;
    Summary(names, |names|)
  }

  /** The summary lists exactly the names of the archive's writes, in the
      order they are made. */
  lemma SummaryListsWrites(files: seq<FileRecord>, extraText: string, writes: seq<Entry>)
    requires Registered(files, extraText, writes)
    ensures |Summarize(files, extraText).names| == |writes|
    ensures forall k :: 0 <= k < |writes| ==> Summarize(files, extraText).names[k] == writes[k].name
  {
  }
}
