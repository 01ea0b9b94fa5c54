/** `parseMarkdown` (script.js:163-195): the `exec` loop that runs the file-block
    pattern over the whole document, collecting one file record per match and
    the text between matches. */
module Parser {
  import opened Options
  import opened Text
  import opened FileBlock

  /** A file extracted from the document: where it goes and what it holds. */
  datatype FileRecord = FileRecord(path: string, content: string)

  /** What `parseMarkdown` returns: the records in document order and the
      trimmed residual text. */
  datatype ParseResult = ParseResult(files: seq<FileRecord>, extraText: string)

  /** The pattern matches at no position in `[a, b)`. */
  ghost predicate NoMatchIn(s: string, a: nat, b: nat)
  {
    forall p: nat :: a <= p < b && p <= |s| ==> MatchAt(s, p).None?
  }

  /** A position without a match extends a range without one downwards. */
  lemma NoMatchExtend(s: string, a: nat, b: nat)
    requires a <= |s| && MatchAt(s, a).None? && NoMatchIn(s, a + 1, b)
    ensures NoMatchIn(s, a, b)
  {
    forall p: nat | a <= p < b && p <= |s|
      ensures MatchAt(s, p).None?
    {
      if a < p {
        assert a + 1 <= p;
      }
    }
  }

  /** One call of `exec` on the global pattern with `lastIndex == from`: the
      match at the least position from `from` on where the pattern matches. */
  function FindMatch(s: string, from: nat): (r: Option<Match>)
    requires from <= |s|
    ensures r.Some? ==> from <= r.value.start && Within(s, r.value)
    decreases |s| - from
  {
    var here := MatchAt(s, from);
    if here.Some? then here
    else if from == |s| then None
    else FindMatch(s, from + 1)
  }

  /** FindMatch reports the leftmost match: the pattern matches at the
      reported position, with the reported result, and nowhere before it. */
  lemma {:induction false} FindMatchLeftmost(s: string, from: nat)
    requires from <= |s|
    ensures FindMatch(s, from).Some? ==>
      var m := FindMatch(s, from).value;
      MatchAt(s, m.start) == Some(m) && NoMatchIn(s, from, m.start)
    ensures FindMatch(s, from).None? ==> NoMatchIn(s, from, |s| + 1)
    decreases |s| - from
  {
    if MatchAt(s, from).None? && from < |s| {
      FindMatchLeftmost(s, from + 1);
      var r := FindMatch(s, from + 1);
      NoMatchExtend(s, from, if r.Some? then r.value.start else |s| + 1);
    }
  }

  /** `ms` is the sequence of leftmost, non-overlapping matches of the pattern
      in `s[from..]`: each one is the first match at or after the end of the one
      before, and no match starts after the last one. */
  ghost predicate Leftmost(s: string, from: nat, ms: seq<Match>)
    decreases |ms|
  {
    && from <= |s|
    && if ms == [] then NoMatchIn(s, from, |s| + 1)
       else
         && from <= ms[0].start <= |s|
         && MatchAt(s, ms[0].start) == Some(ms[0])
         && NoMatchIn(s, from, ms[0].start)
         && Leftmost(s, ms[0].fence.end, ms[1..])
  }

  /** Matches that follow one another inside `s[from..]` without overlapping. */
  ghost predicate Chain(s: string, from: nat, ms: seq<Match>)
    decreases |ms|
  {
    && from <= |s|
    && (ms != [] ==> from <= ms[0].start && Within(s, ms[0]) && Chain(s, ms[0].fence.end, ms[1..]))
  }

  /** The `while ((match = fileBlockRegex.exec(content)) !== null)` loop from
      `lastIndex == from`: every match, each search resuming at the end of the
      previous match. */
  function Scan(s: string, from: nat): (ms: seq<Match>)
    requires from <= |s|
    ensures Chain(s, from, ms)
    decreases |s| - from
  {
    match FindMatch(s, from)
    case None => []
    case Some(m) => [m] + Scan(s, m.fence.end)
  }

  /** Scan collects the leftmost non-overlapping matches. */
  lemma {:induction false} ScanLeftmost(s: string, from: nat)
    requires from <= |s|
    ensures Leftmost(s, from, Scan(s, from))
    decreases |s| - from
  {
    FindMatchLeftmost(s, from);
    match FindMatch(s, from)
    case None =>
    case Some(m) =>
      ScanLeftmost(s, m.fence.end);
      assert Scan(s, from)[1..] == Scan(s, m.fence.end);
  }

  /** Two leftmost match sequences from the same position agree on their
      first match, and on whether there is one. */
  lemma LeftmostHead(s: string, from: nat, ms: seq<Match>, ns: seq<Match>)
    requires Leftmost(s, from, ms) && Leftmost(s, from, ns)
    ensures ms == [] <==> ns == []
    ensures ms != [] && ns != [] ==> ms[0] == ns[0]
  {
  }

  /** There is only one sequence of leftmost matches from a position. */
  lemma {:induction false} LeftmostEqual(s: string, from: nat, ms: seq<Match>, ns: seq<Match>)
    requires Leftmost(s, from, ms) && Leftmost(s, from, ns)
    ensures ms == ns
    decreases |ms|
  {
    LeftmostHead(s, from, ms, ns);
    if ms != [] {
      LeftmostEqual(s, ms[0].fence.end, ms[1..], ns[1..]);
      assert ms == [ms[0]] + ms[1..] && ns == [ns[0]] + ns[1..];
    }
  }

  /** Leftmost determines the match sequence: Scan's result is the only one. */
  lemma LeftmostUnique(s: string, from: nat, ms: seq<Match>)
    requires from <= |s|
    ensures Leftmost(s, from, ms) <==> ms == Scan(s, from)
  {
    ScanLeftmost(s, from);
    if Leftmost(s, from, ms) {
      LeftmostEqual(s, from, ms, Scan(s, from));
    }
  }

  /** Matches are found in document order and never overlap. */
  lemma {:induction false} LeftmostOrdered(s: string, from: nat, ms: seq<Match>)
    requires Leftmost(s, from, ms)
    ensures forall k :: 0 <= k < |ms| ==> from <= ms[k].start < ms[k].fence.end <= |s|
    ensures forall k, l :: 0 <= k < l < |ms| ==> ms[k].fence.end <= ms[l].start
    decreases |ms|
  {
    if ms != [] {
      var rest := ms[1..];
      LeftmostOrdered(s, ms[0].fence.end, rest);
      forall k | 1 <= k < |ms|
        ensures ms[0].fence.end <= ms[k].start < ms[k].fence.end <= |s|
      {
        assert ms[k] == rest[k - 1];
      }
      forall k, l | 0 <= k < l < |ms|
        ensures ms[k].fence.end <= ms[l].start
      {
        assert ms[l] == rest[l - 1];
        if 0 < k {
          assert ms[k] == rest[k - 1];
        }
      }
    }
  }

  /** The text between matches: the gap before each match, then the tail. */
  function Gaps(s: string, from: nat, ms: seq<Match>): (gs: seq<string>)
    requires Chain(s, from, ms)
    decreases |ms|
  {
    if ms == [] then [s[from..]]
    else [s[from..ms[0].start]] + Gaps(s, ms[0].fence.end, ms[1..])
  }

  /** The text each match consumed, in its original form. */
  function Spans(s: string, from: nat, ms: seq<Match>): (ps: seq<string>)
    requires Chain(s, from, ms)
    decreases |ms|
  {
    if ms == [] then []
    else [s[ms[0].start..ms[0].fence.end]] + Spans(s, ms[0].fence.end, ms[1..])
  }

  /** `gs[0] + ps[0] + gs[1] + ps[1] + ... + gs[n]`. */
  function Weave(gs: seq<string>, ps: seq<string>): string
    requires |gs| == |ps| + 1
    decreases |ps|
  {
    if ps == [] then gs[0] else gs[0] + ps[0] + Weave(gs[1..], ps[1..])
  }

  function Concat(ss: seq<string>): string
    decreases |ss|
  {
    if ss == [] then [] else ss[0] + Concat(ss[1..])
  }

  /** Lossless partition: gaps and matched spans, interleaved in document
      order, give back the document exactly. */
  lemma {:induction false} Partition(s: string, from: nat, ms: seq<Match>)
    requires Chain(s, from, ms)
    ensures |Gaps(s, from, ms)| == |Spans(s, from, ms)| + 1
    ensures Weave(Gaps(s, from, ms), Spans(s, from, ms)) == s[from..]
    decreases |ms|
  {
    if ms != [] {
      var m := ms[0];
      Partition(s, m.fence.end, ms[1..]);
      assert s[from..] == s[from..m.start] + s[m.start..m.fence.end] + s[m.fence.end..];
    }
  }

  /** `s[a..b]`, or the empty string when the bounds do not fit `s`. */
  function Slice(s: string, a: nat, b: nat): string
  {
    if a <= b <= |s| then s[a..b] else []
  }

  /** The path as the alternative captured it, before trimming. */
  function RawPath(s: string, m: Match): string
  {
    Slice(s, m.head.pathStart, m.head.pathEnd)
  }

  /** The body as the lazy group captured it. */
  function Body(s: string, m: Match): string
  {
    Slice(s, m.fence.bodyStart, m.fence.close)
  }

  /** `files.push({ path: path.trim(), content: match[4] })`. */
  function RecordOf(s: string, m: Match): FileRecord
  {
    FileRecord(Trim(RawPath(s, m)), Body(s, m))
  }

  /** The records of `ms`, in order. */
  function Records(s: string, ms: seq<Match>): (rs: seq<FileRecord>)
    ensures |rs| == |ms|
    decreases |ms|
  {
    if ms == [] then [] else Records(s, ms[..|ms| - 1]) + [RecordOf(s, ms[|ms| - 1])]
  }

  /** Records maps RecordOf over the matches, position by position. */
  lemma {:induction false} RecordsIndexed(s: string, ms: seq<Match>)
    ensures forall k :: 0 <= k < |ms| ==> Records(s, ms)[k] == RecordOf(s, ms[k])
    decreases |ms|
  {
    if ms != [] {
      var init := ms[..|ms| - 1];
      RecordsIndexed(s, init);
      forall k | 0 <= k < |ms|
        ensures Records(s, ms)[k] == RecordOf(s, ms[k])
      {
        if k < |init| {
          assert ms[k] == init[k];
        }
      }
    }
  }

  /** What every match reported by MatchAt satisfies: the pattern admits its
      decomposition and its body holds no earlier place for a closing fence. */
  ghost predicate Admitted(s: string, m: Match)
  {
    AltMatches(s, m.start, m.form, m.head, m.fence) && NoCloserIn(s, m.fence.bodyStart, m.fence.close)
  }

  lemma MatchAdmitted(s: string, m: Match)
    requires m.start <= |s| && MatchAt(s, m.start) == Some(m)
    ensures Admitted(s, m) && Within(s, m)
  {
    MatchAtSound(s, m.start);
  }

  /** A match begins with a visible character: the `#` of a `###` header or
      the `/` of a bare path. */
  lemma MatchStartsVisible(s: string, m: Match)
    requires Admitted(s, m)
    ensures m.start < |s| && (s[m.start] == '#' || s[m.start] == '/')
  {
    var i := m.start;
    match m.form
    case FormA =>
      assert s[i] == s[i..i + |HeaderA|][0];
    case FormB =>
      assert s[i] == s[i..i + |HeaderB|][0];
    case FormC =>
  }

  /** The body a match captures never holds a line that opens with three
      backticks: the lazy group stops at the first one. */
  lemma BodyHasNoFence(s: string, m: Match)
    requires Admitted(s, m) && Within(s, m)
    ensures forall q: nat :: !HasAt(Body(s, m), q, "\n```")
  {
    var b := m.fence.bodyStart;
    var body := Body(s, m);
    assert body == s[b..m.fence.close];
    forall q: nat
      ensures !HasAt(body, q, "\n```")
    {
      if q + 4 <= |body| {
        SliceOfSlice(s, b, m.fence.close, q, q + 4);
        assert !IsCloser(s, b + q);
      }
    }
  }

  /** A body ends in a carriage return only when the closing fence took a
      carriage return of its own. */
  lemma BodyEndsClean(s: string, m: Match)
    requires Admitted(s, m) && Within(s, m)
    ensures Body(s, m) != [] && m.fence.end == m.fence.close + 4 ==> Body(s, m)[|Body(s, m)| - 1] != '\r'
  {
    var c := m.fence.close;
    if Body(s, m) != [] && m.fence.end == c + 4 {
      assert Body(s, m)[|Body(s, m)| - 1] == s[c - 1];
      assert s[c] != '\r' && HasAt(s, c, "\n```");
      assert !IsCloser(s, c - 1);
      assert s[c - 1..c + 4] == [s[c - 1]] + "\n```";
    }
  }

  /** After `### File:` the recorded path is the trimmed text between the
      backticks, and holds no backtick. */
  lemma PathShapeA(s: string, m: Match)
    requires Admitted(s, m) && Within(s, m) && m.form == FormA
    ensures forall k :: 0 <= k < |RecordOf(s, m).path| ==> RecordOf(s, m).path[k] != '`'
  {
    var raw := RawPath(s, m);
    var path := Trim(raw);
    TrimSpec(raw);
    var a: nat :| a + |path| <= |raw| && path == raw[a..a + |path|] && WSBetween(raw, 0, a) && WSBetween(raw, a + |path|, |raw|);
    forall k | 0 <= k < |path|
      ensures path[k] != '`'
    {
      assert path[k] == raw[a + k] == s[m.head.pathStart + a + k];
    }
  }

  /** After `###` or as a bare path the recorded path is the whole non-blank
      run, untouched by trimming; a bare path starts with `/` and has at least
      one more character. */
  lemma PathShapeBC(s: string, m: Match)
    requires Admitted(s, m) && Within(s, m) && m.form != FormA
    ensures RecordOf(s, m).path == RawPath(s, m) != []
    ensures forall k :: 0 <= k < |RawPath(s, m)| ==> !IsWS(RawPath(s, m)[k])
    ensures m.form == FormC ==> |RecordOf(s, m).path| >= 2 && RecordOf(s, m).path[0] == '/'
  {
    var raw := RawPath(s, m);
    var p0 := m.head.pathStart;
    assert raw == s[p0..m.head.pathEnd];
    forall k | 0 <= k < |raw|
      ensures !IsWS(raw[k])
    {
      assert raw[k] == s[p0 + k];
      if m.form == FormC && k == 0 {
        assert s[p0] == '/';
      }
    }
    TrimCharacterized(raw, 0, |raw|);
  }

  /** Which header alternative matched plays no part in what follows it: two
      headers at line starts, followed by the same text, either both complete
      a match or both fail, and when they do, the captured bodies are the same
      and the matches end the same distance past their headers. */
  lemma HeaderFormsAgree(s: string, i: nat, form: Form, h: Head, s': string, i': nat, form': Form, h': Head)
    requires i <= |s| && i' <= |s'|
    requires LineStart(s, i) && LineStart(s', i')
    requires HeadAt(s, i, form) == Some(h) && HeadAt(s', i', form') == Some(h')
    requires s[h.next..] == s'[h'.next..]
    ensures TryForm(s, i, form).Some? <==> TryForm(s', i', form').Some?
    ensures TryForm(s, i, form).Some? ==>
      && Body(s, TryForm(s, i, form).value) == Body(s', TryForm(s', i', form').value)
      && TryForm(s, i, form).value.fence.end - h.next == TryForm(s', i', form').value.fence.end - h'.next
  {
    TryFormAfterHead(s, i, form, h);
    TryFormAfterHead(s', i', form', h');
    FenceFromSuffix(s, h.next);
    FenceFromSuffix(s', h'.next);
    if FenceFrom(s, h.next).Some? {
      var g := FenceFrom(s[h.next..], 0).value;
      var m := TryForm(s, i, form).value;
      var m' := TryForm(s', i', form').value;
      BodyShift(s, h.next, g, m);
      BodyShift(s', h'.next, g, m');
    }
  }

  /** Once its header has matched at a line start, an alternative completes
      exactly when the pattern's tail matches after the header. */
  lemma TryFormAfterHead(s: string, i: nat, form: Form, h: Head)
    requires i <= |s| && LineStart(s, i) && HeadAt(s, i, form) == Some(h)
    ensures h.next <= |s|
    ensures TryForm(s, i, form).Some? <==> FenceFrom(s, h.next).Some?
    ensures TryForm(s, i, form).Some? ==> TryForm(s, i, form).value == Match(i, form, h, FenceFrom(s, h.next).value)
  {
  }

  /** The body of a fence found in the suffix from `n` is the body of the
      fence moved back into `s`. */
  lemma BodyShift(s: string, n: nat, g: Fence, m: Match)
    requires n <= |s| && Within(s, m) && m.fence == ShiftFence(g, n)
    ensures Body(s, m) == s[n..][g.bodyStart..g.close]
  {
    assert Body(s, m) == s[g.bodyStart + n..g.close + n];
  }

  /** Every suffix of a leftmost sequence is the leftmost sequence from some
      position. */
  lemma {:induction false} LeftmostSuffix(s: string, from: nat, ms: seq<Match>, k: nat) returns (p: nat)
    requires Leftmost(s, from, ms) && k <= |ms|
    ensures Leftmost(s, p, ms[k..])
    decreases k
  {
    if k == 0 {
      p := from;
    } else {
      p := LeftmostSuffix(s, ms[0].fence.end, ms[1..], k - 1);
      assert ms[1..][k - 1..] == ms[k..];
    }
  }

  /** Every match of a leftmost sequence is one MatchAt reports, so the shape
      lemmas above apply to each of them. */
  lemma LeftmostAdmitted(s: string, from: nat, ms: seq<Match>)
    requires Leftmost(s, from, ms)
    ensures forall k :: 0 <= k < |ms| ==> Admitted(s, ms[k]) && Within(s, ms[k])
  {
    forall k | 0 <= k < |ms|
      ensures Admitted(s, ms[k]) && Within(s, ms[k])
    {
      var p := LeftmostSuffix(s, from, ms, k);
      assert ms[k..][0] == ms[k];
      MatchAdmitted(s, ms[k]);
    }
  }

  /** A document of whitespace only holds no match. */
  lemma BlankNoMatch(s: string)
    requires AllWS(s)
    ensures Scan(s, 0) == []
  {
    FindMatchLeftmost(s, 0);
    if FindMatch(s, 0).Some? {
      var m := FindMatch(s, 0).value;
      MatchAdmitted(s, m);
      MatchStartsVisible(s, m);
    }
  }

  /** Parsing yields nothing, neither a file nor residual text, exactly for a
      document of whitespace only. */
  lemma ParsedNothing(s: string)
    ensures Scan(s, 0) == [] && Trim(s) == [] <==> AllWS(s)
  {
    TrimSpec(s);
    if AllWS(s) {
      BlankNoMatch(s);
    }
  }

  /** Every match of a chain lies inside the document. */
  lemma {:induction false} ChainWithin(s: string, from: nat, ms: seq<Match>)
    requires Chain(s, from, ms)
    ensures forall k :: 0 <= k < |ms| ==> Within(s, ms[k])
    decreases |ms|
  {
    if ms != [] {
      ChainWithin(s, ms[0].fence.end, ms[1..]);
      assert forall k :: 1 <= k < |ms| ==> ms[k] == ms[1..][k - 1];
    }
  }

  /** One iteration of the `exec` loop: the match found at `from` heads the
      rest of the scan, and its gap heads the rest of the residual text. */
  lemma ScanStep(s: string, from: nat, m: Match)
    requires from <= |s| && FindMatch(s, from) == Some(m)
    ensures Scan(s, from) == [m] + Scan(s, m.fence.end)
    ensures Concat(Gaps(s, from, Scan(s, from))) == s[from..m.start] + Concat(Gaps(s, m.fence.end, Scan(s, m.fence.end)))
  {
    var rest := Scan(s, m.fence.end);
    assert Scan(s, from) == [m] + rest;
    assert ([m] + rest)[1..] == rest;
    assert Gaps(s, from, [m] + rest) == [s[from..m.start]] + Gaps(s, m.fence.end, rest);
  }

  /** Starting one character earlier puts that character in front of the
      gaps. */
  lemma GapsShift(s: string, p: nat, ms: seq<Match>)
    requires p < |s| && Chain(s, p + 1, ms)
    ensures Chain(s, p, ms)
    ensures Concat(Gaps(s, p, ms)) == [s[p]] + Concat(Gaps(s, p + 1, ms))
  {
    if ms == [] {
      assert s[p..] == [s[p]] + s[p + 1..];
    } else {
      assert s[p..ms[0].start] == [s[p]] + s[p + 1..ms[0].start];
    }
  }

  /** No match starts at a line feed, so the leftmost matches from one are
      those from the next position. */
  lemma LeftmostPastBreak(s: string, p: nat, ms: seq<Match>)
    requires p < |s| && s[p] == '\n' && Leftmost(s, p + 1, ms)
    ensures Leftmost(s, p, ms)
  {
    if MatchAt(s, p).Some? {
      MatchAdmitted(s, MatchAt(s, p).value);
      MatchStartsVisible(s, MatchAt(s, p).value);
    }
    NoMatchExtend(s, p, if ms == [] then |s| + 1 else ms[0].start);
  }

  /** A match at `m.start` followed by the leftmost matches from its end is
      the leftmost sequence from `m.start`. */
  lemma LeftmostCons(s: string, m: Match, ms: seq<Match>)
    requires m.start <= |s| && MatchAt(s, m.start) == Some(m) && Leftmost(s, m.fence.end, ms)
    ensures Leftmost(s, m.start, [m] + ms)
  {
    assert ([m] + ms)[1..] == ms;
  }

  /** A match that starts the gaps and ends before a line feed: the gaps are
      that line feed followed by the gaps after it. */
  lemma GapsMatchThenBreak(s: string, m: Match, ms: seq<Match>)
    requires Chain(s, m.start, [m] + ms) && m.fence.end < |s| && s[m.fence.end] == '\n'
    requires Chain(s, m.fence.end + 1, ms)
    ensures Concat(Gaps(s, m.start, [m] + ms)) == "\n" + Concat(Gaps(s, m.fence.end + 1, ms))
  {
    GapsCons(s, m.start, m, ms);
    GapsShift(s, m.fence.end, ms);
    var after := Concat(Gaps(s, m.fence.end + 1, ms));
    assert [s[m.fence.end]] == "\n";
    assert s[m.start..m.start] + ([s[m.fence.end]] + after) == "\n" + after;
  }

  /** The gaps before a first match `m`: the text up to it, then the gaps
      after it. */
  lemma GapsCons(s: string, from: nat, m: Match, ms: seq<Match>)
    requires Chain(s, from, [m] + ms)
    ensures Chain(s, m.fence.end, ms)
    ensures Concat(Gaps(s, from, [m] + ms)) == s[from..m.start] + Concat(Gaps(s, m.fence.end, ms))
  {
    assert ([m] + ms)[1..] == ms;
    assert Gaps(s, from, [m] + ms) == [s[from..m.start]] + Gaps(s, m.fence.end, ms);
  }

  /** One turn of the `exec` loop moves the found match from the scan still
      ahead to the matches handled. */
  lemma LoopStepScan(s: string, at: nat, m: Match, done: seq<Match>)
    requires at <= |s| && FindMatch(s, at) == Some(m)
    requires Scan(s, 0) == done + Scan(s, at)
    ensures at <= m.start <= m.fence.end <= |s|
    ensures Scan(s, 0) == (done + [m]) + Scan(s, m.fence.end)
  {
    ScanStep(s, at, m);
  }

  /** One turn of the `exec` loop adds the found match's record. */
  lemma LoopStepRecords(s: string, m: Match, done: seq<Match>)
    ensures Records(s, done) + [RecordOf(s, m)] == Records(s, done + [m])
  {
    assert (done + [m])[..|done + [m]| - 1] == done;
  }

  /** One turn of the `exec` loop moves the gap before the found match from the
      gaps still ahead to the residual text. */
  lemma LoopStepGaps(s: string, at: nat, m: Match, extra: string)
    requires at <= |s| && FindMatch(s, at) == Some(m)
    requires extra + Concat(Gaps(s, at, Scan(s, at))) == Concat(Gaps(s, 0, Scan(s, 0)))
    ensures at <= m.start <= m.fence.end <= |s|
    ensures (extra + s[at..m.start]) + Concat(Gaps(s, m.fence.end, Scan(s, m.fence.end))) == Concat(Gaps(s, 0, Scan(s, 0)))
  {
    ScanStep(s, at, m);
    AppendRegroup(extra, s[at..m.start], Concat(Gaps(s, m.fence.end, Scan(s, m.fence.end))),
      Concat(Gaps(s, at, Scan(s, at))), Concat(Gaps(s, 0, Scan(s, 0))));
  }

  /** Moving a prefix of what is still ahead to what is already done keeps the
      whole. */
  lemma AppendRegroup(done: string, gap: string, ahead: string, rest: string, whole: string)
    requires done + rest == whole && rest == gap + ahead
    ensures (done + gap) + ahead == whole
  {
  }

  /** When the loop stops, the residual text is every gap, concatenated. */
  lemma LoopExit(s: string, at: nat, extra: string)
    requires at <= |s| && FindMatch(s, at).None?
    requires extra + Concat(Gaps(s, at, Scan(s, at))) == Concat(Gaps(s, 0, Scan(s, 0)))
    ensures extra + s[at..] == Concat(Gaps(s, 0, Scan(s, 0)))
  {
    assert Scan(s, at) == [];
    assert Gaps(s, at, []) == [s[at..]];
    assert Concat([s[at..]]) == s[at..];
  }

  /** Without a match the residual text is the whole document. */
  lemma NoMatchGaps(s: string)
    requires Scan(s, 0) == []
    ensures Concat(Gaps(s, 0, Scan(s, 0))) == s
  {
    assert Gaps(s, 0, []) == [s[0..]];
    assert Concat([s[0..]]) == s[0..];
  }

  /** `parseMarkdown`: runs the pattern over `content` with the source's loop
      and returns one record per match, in order, and the trimmed text between
      and around the matches. `ms` names the matches. */
  method ParseMarkdown(content: string) returns (r: ParseResult, ghost ms: seq<Match>)
    ensures Leftmost(content, 0, ms) && Chain(content, 0, ms)
    ensures forall k :: 0 <= k < |ms| ==> Within(content, ms[k])
    ensures |r.files| == |ms|
    ensures forall k :: 0 <= k < |ms| ==> r.files[k] == RecordOf(content, ms[k])
    ensures r.extraText == Trim(Concat(Gaps(content, 0, ms)))
    ensures ms == [] ==> r.extraText == Trim(content)
    ensures r.files == [] && r.extraText == [] <==> AllWS(content)
  {
    var files: seq<FileRecord> := [];
    var extraText := "";
    var lastIndex := 0;
    ghost var done: seq<Match> := [];
    var found := FindMatch(content, lastIndex);
    while found.Some?
      invariant lastIndex <= |content|
      invariant found == FindMatch(content, lastIndex)
      invariant Scan(content, 0) == done + Scan(content, lastIndex)
      invariant files == Records(content, done)
      invariant extraText + Concat(Gaps(content, lastIndex, Scan(content, lastIndex))) == Concat(Gaps(content, 0, Scan(content, 0)))
      decreases |content| - lastIndex
    {
      var m := found.value;
      LoopStepScan(content, lastIndex, m, done);
      LoopStepRecords(content, m, done);
      LoopStepGaps(content, lastIndex, m, extraText);
      extraText := extraText + content[lastIndex..m.start];
      files := files + [RecordOf(content, m)];
      done := done + [m];
      lastIndex := m.fence.end;
      found := FindMatch(content, lastIndex);
    }
    LoopExit(content, lastIndex, extraText);
    extraText := extraText + content[lastIndex..];
    r := ParseResult(files, Trim(extraText));
    ms := done;
    assert ms == Scan(content, 0);
    if ms == [] {
      NoMatchGaps(content);
    }
    ParsedNothing(content);
    ChainWithin(content, 0, ms);
    RecordsIndexed(content, ms);
    ScanLeftmost(content, 0);
  }
}
