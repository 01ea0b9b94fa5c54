# md2repo core, modelled in Dafny

md2repo turns one Markdown-like document into a ZIP archive of files. The
document interleaves prose with file blocks: a header naming a path, followed
by a fenced code block holding the file's content. The browser script
`script.js` finds the blocks with one global, multiline regular expression run
repeatedly with `exec` (`parseMarkdown`), writes one archive entry per block
and a `README.md` holding the prose that is left over (`createZip`), reports
the entry list (`logParsedStructure`), and decides which input to process and
when to stop with an error (`handleProcess`).

The model is a set of Dafny modules, one per concern:

- `Options` (options.dfy): `Option` and `Result`.
- `Text` (text.dfy): JavaScript whitespace (the set shared by `\s` and
  `String.prototype.trim`), line terminators, greedy runs of a character class,
  and `trim`. A string is a sequence of characters (Unicode scalar values).
- `FileBlock` (file_block.dfy): the file-block pattern tried at one position.
  Two descriptions are given and proved to agree. The predicates `HeadShape`,
  `FenceShape` and `AltMatches` say which decompositions the pattern admits.
  The functions `HeadAt`, `FenceFrom`, `TryForm` and `MatchAt` compute the one
  the regular-expression engine picks: alternatives in the order A
  (`### File: \`path\``), B (`###` whitespace path), C (`/path`), every greedy
  quantifier at its longest, and the lazy body stopping at the first closing
  fence.
- `Parser` (parser.dfy): the `exec` loop. `FindMatch` is one `exec` call from
  `lastIndex`; `Scan` is the whole loop. `Leftmost` states, independently of
  `Scan`, what the sequence of matches must be: each match is the first one at
  or after the end of the one before. `ParseMarkdown` is the source's loop,
  proved to collect exactly those matches, one record per match, and the
  trimmed residual text. `Partition` shows the gaps and matched spans give the
  document back.
- `Render` (render.dfy): a reference writer that lays records out as
  `### path` blocks (a header line, an opening fence, the content, a closing
  fence), and the proof that `parseMarkdown` inverts it. A record can be
  written this way when its path is non-empty without whitespace and its
  content has no line feed followed by three backticks and no final carriage
  return. The writer is not part of the script; the parser is proved to
  invert it.
- `Archive` (archive.dfy): the archive base name, the ordered writes
  `createZip` makes, what the archive holds once they are made (a later write
  to the same name replaces an earlier one), and the summary.
- `Process` (process.dfy): `handleProcess` with the textarea text, the loaded
  file's content and its name as parameters.

What the pattern accepts, read off the regular expression itself:

- Between a header and its fence the pattern allows `\s*\r?\n`, so blank lines
  (any whitespace, line breaks included) may separate them, not only
  horizontal whitespace.
- Form B needs at least one whitespace character after `###`, and that
  whitespace may include line breaks, so the path may sit on the next line.
- A form-A path is everything between the backticks; it may span lines and may
  trim to the empty string.
- Only the closing fence's line break and three backticks are consumed; the
  rest of that line goes to the residual text.
- A body never contains a line feed followed by three backticks. It can still
  end in a carriage return: with `\r\r\n` before the closing backticks, the
  closing fence takes only the last `\r\n`. A body ends in `\r` only when the
  closing fence itself started with `\r` (`Parser.BodyEndsClean`).

## Model

| member | source | states |
|---|---|---|
| Text.IsWS | script.js:172-179 | the members of `\s` (and of what `trim` strips): the ECMAScript whitespace and line terminator characters |
| Text.IsLineTerm | script.js:168-181 | the ECMAScript line terminators after which `^` matches under the `m` flag: line feed, carriage return, line and paragraph separators |
| Text.RunEnd | script.js:170-177 | a greedy run of a character class (`[^\`]+`, `\s+`, `\S+`, `\s*`, the tag class): every character from the start to the reported end is in the class and the character at the end is not, or the document ends there |
| Text.Trim | script.js:186 | `String.prototype.trim`: the input with the whitespace at both ends removed |
| Text.TrimSpec | script.js:194 | `trim` leaves a slice of its input with only whitespace outside it; the result is empty exactly when the input is all whitespace, and otherwise starts and ends with a non-whitespace character |
| Text.TrimCharacterized | script.js:194 | any slice with only whitespace outside it and no whitespace at its ends is what `trim` returns |
| Text.TrimIdempotent | script.js:118 | trimming already-trimmed residual text changes nothing, so the second `trim` in the empty-result check sees the parser's result |
| FileBlock.HeadShape | script.js:170-174 | the decompositions a header alternative admits: form A is `### File: \`` and a non-empty backtick-free path closed by a backtick, form B is `###`, non-empty whitespace and a non-empty non-whitespace run, form C is `/` and a non-empty non-whitespace run |
| FileBlock.FenceShape | script.js:176-179 | the decompositions the pattern's tail admits: whitespace ending in a line feed, three backticks, a tag of `[a-zA-Z0-9\-_]`, a line break, any body, and `\r?\n` with three backticks |
| FileBlock.AltMatches | script.js:168-181 | one alternative admits a match at a position: a line start, a header decomposition of that alternative, and a tail decomposition right after it |
| FileBlock.FindCloser | script.js:178-179 | the lazy body ends at the first position from which `\r?\n` and three backticks follow, and no earlier position allows it; no result means no such position exists |
| FileBlock.OpenerBreak | script.js:177 | the `\r?\n` after the opening fence and tag matches at exactly the reported end, and nowhere else |
| FileBlock.FenceFromSound | script.js:176-179 | what the fence matcher reports is a decomposition the pattern's tail admits, and its body holds no earlier place for a closing fence |
| FileBlock.FenceFromExact | script.js:176-179 | the fence matcher fails only when the tail admits no decomposition; otherwise every admitted decomposition has the same opener and a body at least as long |
| FileBlock.HeadAtSound | script.js:170-174 | what the header matcher reports is a decomposition the header alternative admits |
| FileBlock.HeadAtExact | script.js:170-174 | a header followed by a fenced block has the header the matcher finds: the greedy `[^\`]+`, `\s+` and `\S+` leave no other choice |
| FileBlock.TryFormSound | script.js:168-181 | a match of one alternative is admitted by the pattern, with a body that stops at the first closing fence |
| FileBlock.TryFormExact | script.js:168-181 | one alternative fails exactly when the pattern admits no match for it; otherwise its match has the only possible header and the shortest body |
| FileBlock.MatchAtSound | script.js:168-181 | a match at a position is admitted by the pattern, with no earlier place for a closing fence inside the body |
| FileBlock.MatchAtExact | script.js:168-181 | the pattern at one position: no match exactly when no alternative admits one; otherwise no earlier alternative matches, and the chosen one has the only header and the shortest body |
| FileBlock.LineStart | script.js:168-181 | `^` under the `m` flag: a position is a line start when it is the start of the document or follows a line terminator |
| FileBlock.HeadAt | script.js:170-174 | the header alternative as the engine runs it: form A needs `### File: \`` and a non-empty backtick-free path closed by a backtick, form B needs `###`, the longest whitespace run (non-empty) and the longest non-whitespace run after it, form C needs `/` and the longest non-whitespace run; the reported positions lie in order inside the document |
| FileBlock.FenceFrom | script.js:176-179 | the pattern's tail as the engine runs it: whitespace ending in a line feed, three backticks, the longest tag, a line break, the shortest body, a closing fence; the reported positions lie in order inside the document after the start |
| FileBlock.TryForm | script.js:168-181 | one alternative at one position: it needs a line start, its header and then the tail; a match starts at the position, has that alternative and lies inside the document |
| FileBlock.MatchAt | script.js:168-181 | the whole pattern at one position tries alternatives A, B, C in that order and keeps the first that completes; a match starts at the position and lies inside the document |
| Text.RunEndSuffix | script.js:168-181 | a greedy run depends only on the text from where it starts |
| FileBlock.FindCloserSuffix | script.js:178-179 | the lazy body's first closing fence depends only on the text from where the body starts |
| FileBlock.FenceShapeSuffix | script.js:176-179 | a decomposition of the pattern's tail depends only on the text from where the tail starts |
| FileBlock.FenceFromSuffix | script.js:176-179 | what the tail finds depends only on the text from where it starts: in any document it is what it finds at the start of that text, moved by the offset |
| Parser.Leftmost | script.js:183-190 | the leftmost non-overlapping matches from a position: each is the pattern's match at the first position where it matches at or after the end of the previous one, and after the last there is no match |
| Parser.Gaps | script.js:185-192 | the residual pieces: the text from `lastIndex` to each match, then the text after the last match |
| Parser.FindMatch | script.js:184 | one `exec` call reports a match at or after `lastIndex` that lies inside the document |
| Parser.FindMatchLeftmost | script.js:184 | one `exec` call reports the match at the least position from `lastIndex` on, and the pattern matches nowhere before it; no result means no match anywhere after `lastIndex` |
| Parser.Scan | script.js:184-190 | the `exec` loop yields matches that follow one another inside the document without overlapping, each search resuming at the previous match's end |
| Parser.ScanLeftmost | script.js:184-190 | the loop collects the leftmost non-overlapping matches |
| Parser.LeftmostUnique | script.js:184-190 | a sequence is the leftmost non-overlapping matches exactly when it is what the loop collects |
| Parser.LeftmostEqual | script.js:184-190 | from a given position there is only one sequence of leftmost non-overlapping matches |
| Parser.LeftmostOrdered | script.js:184-190 | matches start at strictly increasing positions and do not overlap |
| Parser.Partition | script.js:185-192 | the gaps and the matched spans, interleaved in document order, give back the document exactly |
| Parser.RecordsIndexed | script.js:186-188 | the records are one per match, in match order |
| Parser.ParseMarkdown | script.js:163-195 | `parseMarkdown` collects the leftmost matches, one record per match with the trimmed path and the verbatim body, and the trimmed concatenation of the gaps; with no match the residual text is the trimmed document; nothing at all comes out exactly when the document is all whitespace |
| Parser.MatchStartsVisible | script.js:170-174 | a match starts with the `#` of `###` or the `/` of a bare path |
| Parser.BodyHasNoFence | script.js:178-179 | a captured body never contains a line feed followed by three backticks |
| Parser.BodyEndsClean | script.js:178-179 | a non-empty body ends in a carriage return only when the closing fence took a carriage return of its own |
| Parser.PathShapeA | script.js:170-186 | a `### File:` path is the trimmed text between the backticks and holds no backtick |
| Parser.PathShapeBC | script.js:172-186 | a form-B or form-C path is a non-empty run without whitespace that trimming leaves unchanged; a form-C path starts with `/` and has at least two characters |
| Parser.LeftmostAdmitted | script.js:168-190 | every match the loop collects is admitted by the pattern and lies inside the document |
| Parser.BlankNoMatch | script.js:168-190 | a whitespace-only document holds no match |
| Parser.ParsedNothing | script.js:163-195 | no match and an empty trimmed document happen together exactly when the document is all whitespace |
| Parser.Records | script.js:186-188 | there is one record per match |
| Parser.RecordOf | script.js:186-188 | the record of a match: the trimmed path the alternative captured and the body the lazy group captured |
| Parser.TryFormAfterHead | script.js:168-181 | once its header has matched at a line start, an alternative completes exactly when the tail matches after the header, and then with that header and that fence |
| Parser.HeaderFormsAgree | script.js:168-188 | which header alternative matched does not affect the fence: two headers at line starts followed by the same text both complete or both fail, and then capture the same body and end the same distance past the header |
| Parser.GapsCons | script.js:185 | the residual text before a first match is the text up to it followed by the residual text after it |
| Parser.GapsShift | script.js:185 | starting the gaps one character earlier puts exactly that character in front of the residual text |
| Parser.GapsMatchThenBreak | script.js:185-192 | when a match is followed by a line feed, the residual text gains that line feed and nothing else between the match and the next gap |
| Parser.LeftmostPastBreak | script.js:168-184 | no match starts at a line feed, so the leftmost matches from a line feed are those from the next position |
| Parser.LeftmostCons | script.js:184-190 | a match followed by the leftmost matches from its end is the leftmost sequence from its start |
| Render.BlockHead | script.js:172 | a written block's first line is a form-B header: `###`, whitespace, and the whole path as a whitespace-free run |
| Render.BlockNotFormA | script.js:170 | a written block's first line is never a `### File:` header, so the first alternative fails on it |
| Render.BlockFence | script.js:176-179 | after a written block's path the pattern's tail finds the block's opening fence, its line break and its closing fence |
| Render.BlockBodyClear | script.js:178-179 | no closing fence can end a body anywhere inside a written block's content, so the lazy body stops at the block's own closing fence |
| Render.BlockMatchAt | script.js:168-181 | at a line start, the pattern matches a written block with the block's header, fence and content |
| Render.BlockRecord | script.js:186-188 | the record made of a written block's match has the block's path and content |
| Render.RenderLeftmost | script.js:184-190 | on written blocks, the leftmost non-overlapping matches are exactly the blocks' matches |
| Render.RenderRecords | script.js:186-188 | the record of each written block's match is the record the block was written from |
| Render.RenderGaps | script.js:185-192 | the text outside the written blocks' matches is one line feed per block |
| Render.ParseRendered | script.js:163-195 | `parseMarkdown` on written blocks gives back the records they were written from, in order, and empty residual text |
| Archive.BaseName | script.js:200 | the base name is never empty; one trailing `.md` is removed when present, an unchanged name is kept, and an empty result becomes `project` |
| Archive.BaseNameOfStem | script.js:200 | the base name of `stem.md` is `stem` for any non-empty stem |
| Archive.BaseNameStripsOnce | script.js:200 | only one `.md` is removed: `stem.md.md` gives `stem.md` |
| Archive.ZipName | script.js:215 | the download name is the base name followed by `.zip` |
| Archive.RegisterEntries | script.js:202-209 | one write per record, in order, with the record's path and unchanged content, then `README.md` with the residual text exactly when that text is non-empty |
| Archive.Contents | script.js:204-208 | the archive after the writes: each `zip.file` call adds its name, replacing what an earlier call with the same name wrote |
| Archive.ContentsLastWrite | script.js:202-209 | a name is in the archive exactly when some write used it, and it holds the data of the last write to it |
| Archive.ReadmeWins | script.js:202-209 | with residual text, `README.md` holds that text even when a record also targets `README.md` |
| Archive.LastRecordWins | script.js:202-205 | a path holds the content of the last record with that path unless the residual text took it as `README.md` |
| Archive.NothingElse | script.js:202-209 | the archive holds no name that is neither a record's path nor the `README.md` of non-empty residual text |
| Archive.Summarize | script.js:240-245 | the reported list is the record paths in order, then `README.md` when there is residual text; the count is the list's length, duplicates included |
| Archive.SummaryListsWrites | script.js:240-245 | the reported list is exactly the names of the archive writes, in the order they are made |
| Process.AcceptsUpload | script.js:71 | an upload is accepted exactly when its name ends in `.md` |
| Process.UploadArchiveName | script.js:71 | an accepted upload other than the bare `.md` gives the archive its file name without the extension |
| Process.HandleProcess | script.js:97-122 | the trimmed textarea text wins over a loaded file and names the archive `project`; with neither input the run stops before parsing; after parsing it stops exactly when the chosen input is a loaded file of whitespace only; otherwise the parse, archive name, writes and summary are those of the chosen input |
| Process.SummaryAgreesWithArchive | script.js:121-122 | a successful run reports one name per archive write, in order, and their number |

## Left out

- The page wiring (event listeners, drag and drop, button state, spinner,
  status and error banners) is user interface, not logic.
- `FileReader` loading is asynchronous input; the loaded text and the file
  name are parameters of `Process.HandleProcess`. The `.md` upload check is
  only the predicate `Process.AcceptsUpload`.
- `DOMPurify.sanitize` and the HTML messages are a foreign library and
  presentation; the summary is modelled as its name list and count.
- JSZip is a foreign library: the archive is the ordered list of writes and the
  map they leave. Its byte format, `generateAsync`, its handling of paths
  (leading `/`, folders) and the download link are not modelled, nor is a
  failure while building the archive.
- A Dafny `char` is a Unicode scalar value, while a JavaScript string is a
  sequence of UTF-16 code units. A character outside the Basic Multilingual
  Plane is one `char` here and a surrogate pair there, so on such text the
  model's positions (match starts, `lastIndex`) differ from the script's
  indices. The records and the residual text do not: no surrogate code unit is
  whitespace, a line terminator, a backtick, `#`, `/` or a tag character, so
  the pattern and `trim` pass over a pair exactly as the model passes over its
  one `char`. Lone surrogates cannot be written as a Dafny `char` and are not
  modelled.
