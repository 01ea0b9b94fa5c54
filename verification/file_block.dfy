/** The file-block pattern of `parseMarkdown` (script.js:168-181), tried at one
    position of the document.

    The pattern is the global, multiline regular expression
      (?:^### File: `([^`]+)`|^###\s+([\S]+)|^(\/[\S]+))
      \s*\r?\n```(?:[a-zA-Z0-9\-_]+)?\r?\n([\s\S]*?)\r?\n```
    written here on two lines. The predicates `HeadShape`, `FenceShape` and
    `AltMatches` say which decompositions of the text the pattern admits; the
    functions `HeadAt`, `FenceFrom`, `TryForm` and `MatchAt` compute the one a
    backtracking engine reports: the first alternative that matches and, within
    it, the shortest body. */
module FileBlock {
  import opened Options
  import opened Text

  /** The three header alternatives, in the order the pattern tries them:
      `### File: `path``, `### path` and `/path`. */
  datatype Form = FormA | FormB | FormC

  function Rank(form: Form): nat
  {
    match form
    case FormA => 0
    case FormB => 1
    case FormC => 2
  }

  /** Positions of a header: the captured path is `s[pathStart..pathEnd]` and
      the rest of the pattern continues at `next`. */
  datatype Head = Head(pathStart: nat, pathEnd: nat, next: nat)

  /** Positions of a fenced block: the opening backticks at `open`, the end of
      the language tag at `tagEnd`, the captured body `s[bodyStart..close]`, and
      the end of the match after the closing backticks. */
  datatype Fence = Fence(open: nat, tagEnd: nat, bodyStart: nat, close: nat, end: nat)

  /** One match of the pattern, starting at `start`. */
  datatype Match = Match(start: nat, form: Form, head: Head, fence: Fence)

  const HeaderA := "### File: `"
  const HeaderB := "###"
  const Ticks := "```"

  /** `^` under the `m` flag: the start of the input or just after a line terminator. */
  predicate LineStart(s: string, i: nat)
  {
    i == 0 || (i <= |s| && IsLineTerm(s[i - 1]))
  }

  /** The class `[a-zA-Z0-9\-_]` of the language tag. */
  predicate IsTagChar(c: char)
  {
    ('a' <= c <= 'z') || ('A' <= c <= 'Z') || ('0' <= c <= '9') || c == '-' || c == '_'
  }

  /** The class `[^`]` of a form-A path. */
  predicate NotBacktick(c: char)
  {
    c != '`'
  }

  /** `\r?\n` matches `s[t..b]`. */
  predicate LineBreak(s: string, t: nat, b: nat)
  {
    (b == t + 1 && HasAt(s, t, "\n")) || (b == t + 2 && HasAt(s, t, "\r\n"))
  }

  /** A line break starts with a line feed or a carriage return. */
  lemma LineBreakHead(s: string, t: nat, b: nat)
    requires LineBreak(s, t, b)
    ensures t < |s| && (s[t] == '\n' || s[t] == '\r')
  {
    if b == t + 1 && HasAt(s, t, "\n") {
      assert s[t] == s[t..t + 1][0];
    } else {
      assert s[t] == s[t..t + 2][0];
    }
  }

  /** `\r?\n``` ` matches at `q`: a closing fence may follow a body ending at `q`. */
  predicate IsCloser(s: string, q: nat)
  {
    HasAt(s, q, "\n```") || HasAt(s, q, "\r\n```")
  }

  function CloserWidth(s: string, q: nat): nat
    requires IsCloser(s, q)
  {
    if s[q] == '\r' then 5 else 4
  }

  /** No closing fence can follow a body ending anywhere in `[a, b)`. */
  predicate NoCloserIn(s: string, a: nat, b: nat)
  {
    forall q :: a <= q < b ==> !IsCloser(s, q)
  }

  /** The decomposition the pattern's tail `\s*\r?\n```(?:tag)?\r?\n([\s\S]*?)\r?\n```'
      admits when it starts at `j`: whitespace ending in a line feed, the
      opening backticks at the first character after it, a (possibly empty) tag,
      a line break, a body, and a closing fence. */
  ghost predicate FenceShape(s: string, j: nat, f: Fence)
  {
    && j < f.open
    && HasAt(s, f.open, Ticks)
    && WSBetween(s, j, f.open)
    && s[f.open - 1] == '\n'
    && f.open + 3 <= f.tagEnd <= |s|
    && (forall p :: f.open + 3 <= p < f.tagEnd ==> IsTagChar(s[p]))
    && LineBreak(s, f.tagEnd, f.bodyStart)
    && f.bodyStart <= f.close
    && IsCloser(s, f.close)
    && f.end == f.close + CloserWidth(s, f.close)
  }

  /** The positions of a fence that starts at `j` are in order and inside `s`. */
  predicate FenceInside(s: string, j: nat, f: Fence)
  {
    j < f.open < f.tagEnd < f.bodyStart <= f.close < f.end <= |s|
  }

  /** Two fences agree on everything before the body's end. */
  predicate SameOpener(f: Fence, g: Fence)
  {
    f.open == g.open && f.tagEnd == g.tagEnd && f.bodyStart == g.bodyStart
  }

  /** A closing fence ends inside the document, after the body. */
  lemma CloserWithin(s: string, q: nat)
    requires IsCloser(s, q)
    ensures q < q + CloserWidth(s, q) <= |s|
  {
    if HasAt(s, q, "\n```") {
      assert s[q] == s[q..q + 4][0];
    }
  }

  /** The lazy body `([\s\S]*?)\r?\n```': the first closing fence at or after `b`. */
  function FindCloser(s: string, b: nat): (r: Option<nat>)
    requires b <= |s|
    ensures r.Some? ==> b <= r.value < |s| && IsCloser(s, r.value) && NoCloserIn(s, b, r.value)
    ensures r.None? ==> NoCloserIn(s, b, |s|)
    decreases |s| - b
  {
    if b == |s| then None
    else if IsCloser(s, b) then Some(b)
    else FindCloser(s, b + 1)
  }

  /** The `\r?\n` after the opening fence and its tag, ending at the returned index. */
  function OpenerBreak(s: string, t: nat): (r: Option<nat>)
    ensures forall b: nat :: LineBreak(s, t, b) <==> r == Some(b)
  {
    if HasAt(s, t, "\n") then
      assert s[t] == s[t..t + 1][0];
      Some(t + 1)
    else if HasAt(s, t, "\r\n") then Some(t + 2)
    else None
  }

  /** The pattern's tail tried at `j`, as the engine runs it. */
  function FenceFrom(s: string, j: nat): (r: Option<Fence>)
    requires j <= |s|
    ensures r.Some? ==> FenceInside(s, j, r.value)
  {
    var k := RunEnd(s, j, IsWS);
    if k == j || !HasAt(s, k, Ticks) || s[k - 1] != '\n' then None
    else
      var t := RunEnd(s, k + 3, IsTagChar);
      match OpenerBreak(s, t)
      case None => None
      case Some(b) =>
        match FindCloser(s, b)
        case None => None
        case Some(q) =>
          CloserWithin(s, q);
          Some(Fence(k, t, b, q, q + CloserWidth(s, q)))
  }

  /** A fence moved `d` positions to the right. */
  function ShiftFence(f: Fence, d: nat): Fence
  {
    Fence(f.open + d, f.tagEnd + d, f.bodyStart + d, f.close + d, f.end + d)
  }

  /** Whether a closing fence can follow `q`, and how wide it is, depends only
      on the text from `j <= q` on. */
  lemma CloserSuffix(s: string, j: nat, q: nat)
    requires j <= q && j <= |s|
    ensures IsCloser(s, q) <==> IsCloser(s[j..], q - j)
    ensures IsCloser(s, q) ==> CloserWidth(s, q) == CloserWidth(s[j..], q - j)
  {
    HasAtSuffix(s, j, q, "\n```");
    HasAtSuffix(s, j, q, "\r\n```");
    if IsCloser(s, q) {
      CloserWithin(s, q);
      assert s[j..][q - j] == s[q];
    }
  }

  /** The first closing fence from `b` is found at the same place in the
      suffix from `j <= b`. */
  lemma {:induction false} FindCloserSuffix(s: string, j: nat, b: nat)
    requires j <= b <= |s|
    ensures FindCloser(s, b).Some? <==> FindCloser(s[j..], b - j).Some?
    ensures FindCloser(s, b).Some? ==> FindCloser(s, b).value == j + FindCloser(s[j..], b - j).value
    decreases |s| - b
  {
    if b < |s| {
      CloserSuffix(s, j, b);
      if !IsCloser(s, b) {
        FindCloserSuffix(s, j, b + 1);
      }
    }
  }

  /** The line break after the opening fence is found at the same place in the
      suffix from `j <= t`. */
  lemma OpenerBreakSuffix(s: string, j: nat, t: nat)
    requires j <= t && j <= |s|
    ensures OpenerBreak(s, t).Some? <==> OpenerBreak(s[j..], t - j).Some?
    ensures OpenerBreak(s, t).Some? ==> OpenerBreak(s, t).value == j + OpenerBreak(s[j..], t - j).value
  {
    HasAtSuffix(s, j, t, "\n");
    HasAtSuffix(s, j, t, "\r\n");
  }


  /** What FenceFrom finds is a decomposition the pattern's tail admits, and
      its body stops at the first place a closing fence can follow. */
  lemma FenceFromSound(s: string, j: nat)
    requires j <= |s|
    ensures FenceFrom(s, j).Some? ==>
      FenceShape(s, j, FenceFrom(s, j).value) && NoCloserIn(s, FenceFrom(s, j).value.bodyStart, FenceFrom(s, j).value.close)
  {
  }

  /** FenceFrom is exactly the pattern's tail: it fails only when no
      decomposition exists, and otherwise every decomposition has its opener
      and a body at least as long. */
  lemma FenceFromExact(s: string, j: nat)
    requires j <= |s|
    ensures FenceFrom(s, j).None? ==> forall f :: !FenceShape(s, j, f)
    ensures FenceFrom(s, j).Some? ==>
      forall f :: FenceShape(s, j, f) ==> SameOpener(f, FenceFrom(s, j).value) && FenceFrom(s, j).value.close <= f.close
  {
    forall f | FenceShape(s, j, f)
      ensures FenceFrom(s, j).Some? && SameOpener(f, FenceFrom(s, j).value) && FenceFrom(s, j).value.close <= f.close
    {
      var k := RunEnd(s, j, IsWS);
      assert s[f.open] == '`';
      assert k == f.open;
      var t := RunEnd(s, k + 3, IsTagChar);
      LineBreakHead(s, f.tagEnd, f.bodyStart);
      assert t == f.tagEnd;
      assert OpenerBreak(s, t) == Some(f.bodyStart);
      assert !NoCloserIn(s, f.bodyStart, |s|);
    }
  }

  /** The whitespace before the opening fence, seen from the suffix from `j`. */
  lemma OpenerSuffix(s: string, j: nat, o: nat)
    requires j <= |s|
    ensures (o + j <= |s| && WSBetween(s, j, o + j) && (0 < o ==> s[o + j - 1] == '\n'))
        <==> (o <= |s[j..]| && WSBetween(s[j..], 0, o) && (0 < o ==> s[j..][o - 1] == '\n'))
  {
    if o + j <= |s| {
      assert forall p :: j <= p < o + j ==> s[j..][p - j] == s[p];
      assert forall p :: 0 <= p < o ==> s[p + j] == s[j..][p];
    }
  }

  /** The tag after the opening fence, seen from the suffix from `j`. */
  lemma TagSuffix(s: string, j: nat, a: nat, b: nat)
    requires j <= |s|
    ensures (b + j <= |s| && forall p :: a + j <= p < b + j ==> IsTagChar(s[p]))
        <==> (b <= |s[j..]| && forall p :: a <= p < b ==> IsTagChar(s[j..][p]))
  {
    if b + j <= |s| {
      assert forall p :: a + j <= p < b + j ==> s[j..][p - j] == s[p];
      assert forall p :: a <= p < b ==> s[p + j] == s[j..][p];
    }
  }

  /** The line break after the tag, seen from the suffix from `j`. */
  lemma LineBreakSuffix(s: string, j: nat, t: nat, b: nat)
    requires j <= |s|
    ensures LineBreak(s, t + j, b + j) <==> LineBreak(s[j..], t, b)
  {
    HasAtSuffix(s, j, t + j, "\n");
    HasAtSuffix(s, j, t + j, "\r\n");
  }

  /** A decomposition of the pattern's tail from `j` is one in the suffix from
      `j`, moved by `j`. */
  lemma FenceShapeSuffix(s: string, j: nat, g: Fence)
    requires j <= |s|
    ensures FenceShape(s, j, ShiftFence(g, j)) <==> FenceShape(s[j..], 0, g)
  {
    var f := ShiftFence(g, j);
    OpenerSuffix(s, j, g.open);
    TagSuffix(s, j, g.open + 3, g.tagEnd);
    HasAtSuffix(s, j, f.open, Ticks);
    LineBreakSuffix(s, j, g.tagEnd, g.bodyStart);
    CloserSuffix(s, j, f.close);
  }

  /** No closing fence in `[a, b)` of the suffix from `j` is none in
      `[a + j, b + j)` of `s`. */
  lemma NoCloserSuffix(s: string, j: nat, a: nat, b: nat)
    requires j <= |s|
    ensures NoCloserIn(s, a + j, b + j) <==> NoCloserIn(s[j..], a, b)
  {
    if !NoCloserIn(s, a + j, b + j) {
      var q :| a + j <= q < b + j && IsCloser(s, q);
      CloserSuffix(s, j, q);
      assert IsCloser(s[j..], q - j);
    }
    if !NoCloserIn(s[j..], a, b) {
      var q :| a <= q < b && IsCloser(s[j..], q);
      CloserSuffix(s, j, q + j);
      assert IsCloser(s, q + j);
    }
  }

  /** The pattern's tail tried at `j` depends only on the text from `j` on:
      what it finds in `s` is what it finds at the start of `s[j..]`, moved by
      `j`. Whatever precedes `j` (in particular, which header came before)
      plays no part. */
  lemma FenceFromSuffix(s: string, j: nat)
    requires j <= |s|
    ensures FenceFrom(s, j).Some? <==> FenceFrom(s[j..], 0).Some?
    ensures FenceFrom(s, j).Some? ==> FenceFrom(s, j).value == ShiftFence(FenceFrom(s[j..], 0).value, j)
  {
    var u := s[j..];
    FenceFromSound(s, j);
    FenceFromSound(u, 0);
    FenceFromExact(s, j);
    FenceFromExact(u, 0);
    if FenceFrom(s, j).Some? {
      var f := FenceFrom(s, j).value;
      var g := Fence(f.open - j, f.tagEnd - j, f.bodyStart - j, f.close - j, f.end - j);
      assert ShiftFence(g, j) == f;
      FenceShapeSuffix(s, j, g);
      assert FenceShape(u, 0, g);
      var g' := FenceFrom(u, 0).value;
      FenceShapeSuffix(s, j, g');
      NoCloserSuffix(s, j, g'.bodyStart, g'.close);
      NoCloserSuffix(s, j, g.bodyStart, g.close);
      var f' := ShiftFence(g', j);
      assert FenceShape(s, j, f');
      assert SameOpener(f', f) && f.close <= f'.close;
      assert SameOpener(g, g') && g'.close <= g.close;
    } else if FenceFrom(u, 0).Some? {
      var g := FenceFrom(u, 0).value;
      FenceShapeSuffix(s, j, g);
      assert false;
    }
  }

  /** The decomposition one header alternative admits at `i`. */
  ghost predicate HeadShape(s: string, i: nat, form: Form, h: Head)
  {
    match form
    case FormA =>
      && HasAt(s, i, HeaderA)
      && h.pathStart == i + |HeaderA|
      && h.pathStart < h.pathEnd < |s|
      && s[h.pathEnd] == '`'
      && (forall p :: h.pathStart <= p < h.pathEnd ==> s[p] != '`')
      && h.next == h.pathEnd + 1
    case FormB =>
      && HasAt(s, i, HeaderB)
      && i + |HeaderB| < h.pathStart < h.pathEnd <= |s|
      && WSBetween(s, i + |HeaderB|, h.pathStart)
      && (forall p :: h.pathStart <= p < h.pathEnd ==> !IsWS(s[p]))
      && h.next == h.pathEnd
    case FormC =>
      && i < |s|
      && s[i] == '/'
      && h.pathStart == i
      && i + 1 < h.pathEnd <= |s|
      && (forall p :: i < p < h.pathEnd ==> !IsWS(s[p]))
      && h.next == h.pathEnd
  }

  /** The header alternative `form` at `i`, as the engine runs it: every
      quantifier in a header takes the longest run. */
  function HeadAt(s: string, i: nat, form: Form): (r: Option<Head>)
    requires i <= |s|
    ensures r.Some? ==> i <= r.value.pathStart <= r.value.pathEnd <= r.value.next <= |s|
  {
    match form
    case FormA =>
      if !HasAt(s, i, HeaderA) then None
      else
        var k := RunEnd(s, i + |HeaderA|, NotBacktick);
        if k == i + |HeaderA| || k == |s| then None else Some(Head(i + |HeaderA|, k, k + 1))
    case FormB =>
      if !HasAt(s, i, HeaderB) then None
      else
        var k := RunEnd(s, i + |HeaderB|, IsWS);
        var m := RunEnd(s, k, NotWS);
        if k == i + |HeaderB| || m == k then None else Some(Head(k, m, m))
    case FormC =>
      if i == |s| || s[i] != '/' then None
      else
        var m := RunEnd(s, i + 1, NotWS);
        if m == i + 1 then None else Some(Head(i, m, m))
  }

  /** What HeadAt finds is a decomposition the header alternative admits. */
  lemma HeadAtSound(s: string, i: nat, form: Form)
    requires i <= |s|
    ensures HeadAt(s, i, form).Some? ==> HeadShape(s, i, form, HeadAt(s, i, form).value)
  {
  }

  /** A header followed by a fenced block has the header HeadAt finds: the
      fence must begin with whitespace, so a shorter `\S+` run cannot be followed
      by it. */
  lemma HeadAtExact(s: string, i: nat, form: Form, h: Head, f: Fence)
    requires i <= |s|
    requires HeadShape(s, i, form, h) && FenceShape(s, h.next, f)
    ensures HeadAt(s, i, form) == Some(h)
  {
    assert IsWS(s[h.next]);
    match form
    case FormA =>
      assert RunEnd(s, i + |HeaderA|, NotBacktick) == h.pathEnd;
    case FormB =>
      var k := RunEnd(s, i + |HeaderB|, IsWS);
      assert !IsWS(s[h.pathStart]);
      assert forall p :: i + |HeaderB| <= p < h.pathStart ==> IsWS(s[p]);
      assert k == h.pathStart;
      assert RunEnd(s, k, NotWS) == h.pathEnd;
    case FormC =>
      assert RunEnd(s, i + 1, NotWS) == h.pathEnd;
  }

  /** The whole pattern admits the decomposition `(form, h, f)` at `i`. */
  ghost predicate AltMatches(s: string, i: nat, form: Form, h: Head, f: Fence)
  {
    LineStart(s, i) && HeadShape(s, i, form, h) && FenceShape(s, h.next, f)
  }

  /** Positions of a match lie inside the document, in order. */
  predicate Within(s: string, m: Match)
  {
    && m.start <= m.head.pathStart
    && m.head.pathStart <= m.head.pathEnd <= m.head.next
    && m.head.next < m.fence.open < m.fence.tagEnd < m.fence.bodyStart
    && m.fence.bodyStart <= m.fence.close < m.fence.end <= |s|
  }

  /** One alternative of the pattern tried at `i`. */
  function TryForm(s: string, i: nat, form: Form): (r: Option<Match>)
    requires i <= |s|
    ensures r.Some? ==> r.value.start == i && r.value.form == form && Within(s, r.value)
  {
    if !LineStart(s, i) then None
    else
      match HeadAt(s, i, form)
      case None => None
      case Some(h) =>
        match FenceFrom(s, h.next)
        case None => None
        case Some(f) => Some(Match(i, form, h, f))
  }

  /** What TryForm finds is a decomposition the alternative admits, with a body
      that stops at the first closing fence. */
  lemma TryFormSound(s: string, i: nat, form: Form)
    requires i <= |s|
    ensures TryForm(s, i, form).Some? ==>
      var m := TryForm(s, i, form).value;
      AltMatches(s, i, form, m.head, m.fence) && NoCloserIn(s, m.fence.bodyStart, m.fence.close)
  {
    if LineStart(s, i) && HeadAt(s, i, form).Some? {
      HeadAtSound(s, i, form);
      FenceFromSound(s, HeadAt(s, i, form).value.next);
    }
  }

  /** TryForm finds a match of the alternative exactly when one exists, and
      then the one with the shortest body. */
  lemma TryFormExact(s: string, i: nat, form: Form)
    requires i <= |s|
    ensures TryForm(s, i, form).None? ==> forall h, f :: !AltMatches(s, i, form, h, f)
    ensures TryForm(s, i, form).Some? ==>
      var m := TryForm(s, i, form).value;
      forall h, f :: AltMatches(s, i, form, h, f) ==> h == m.head && SameOpener(f, m.fence) && m.fence.close <= f.close
  {
    forall h, f | AltMatches(s, i, form, h, f)
      ensures TryForm(s, i, form).Some?
      ensures var m := TryForm(s, i, form).value;
        h == m.head && SameOpener(f, m.fence) && m.fence.close <= f.close
    {
      HeadAtExact(s, i, form, h, f);
      FenceFromExact(s, h.next);
      FenceFromSound(s, h.next);
    }
  }

  /** The pattern tried at `i`: alternatives A, B and C in that order, the first
      that matches wins. */
  function MatchAt(s: string, i: nat): (r: Option<Match>)
    requires i <= |s|
    ensures r.Some? ==> r.value.start == i && Within(s, r.value)
  {
    var a := TryForm(s, i, FormA);
    if a.Some? then a
    else
      var b := TryForm(s, i, FormB);
      if b.Some? then b else TryForm(s, i, FormC)
  }

  /** A match MatchAt reports is one the pattern admits at `i`, and its body
      contains no earlier place where a closing fence could follow. */
  lemma MatchAtSound(s: string, i: nat)
    requires i <= |s|
    ensures MatchAt(s, i).Some? ==>
      var m := MatchAt(s, i).value;
      AltMatches(s, i, m.form, m.head, m.fence) && NoCloserIn(s, m.fence.bodyStart, m.fence.close)
  {
    TryFormSound(s, i, FormA);
    TryFormSound(s, i, FormB);
    TryFormSound(s, i, FormC);
  }

  /** MatchAt is the leftmost-first semantics of the pattern at one position:
      it reports no match exactly when the pattern admits none; otherwise no
      earlier alternative admits one, and within its alternative it has the only
      possible header and the shortest body. */
  lemma MatchAtExact(s: string, i: nat)
    requires i <= |s|
    ensures MatchAt(s, i).None? ==> forall form, h, f :: !AltMatches(s, i, form, h, f)
    ensures MatchAt(s, i).Some? ==>
      var m := MatchAt(s, i).value;
      forall form, h, f :: AltMatches(s, i, form, h, f) ==>
        && Rank(m.form) <= Rank(form)
        && (form == m.form ==> h == m.head && SameOpener(f, m.fence) && m.fence.close <= f.close)
  {
    TryFormExact(s, i, FormA);
    TryFormExact(s, i, FormB);
    TryFormExact(s, i, FormC);
    forall form, h, f | AltMatches(s, i, form, h, f)
      ensures MatchAt(s, i).Some?
      ensures var m := MatchAt(s, i).value;
        && Rank(m.form) <= Rank(form)
        && (form == m.form ==> h == m.head && SameOpener(f, m.fence) && m.fence.close <= f.close)
    {
      match form
      case FormA =>
      case FormB =>
      case FormC =>
    }
  }
}
