/** A reference writer for the parser: it lays file records out as `### path`
    blocks, and the parser is proved to give back exactly those records with
    no residual text. This is the inverse the parser is designed for; the
    writer itself is not part of the script. */
module Render {
  import opened Options
  import opened Text
  import opened FileBlock
  import opened Parser

  /** A record the writer can lay out so that the parser reads it back: a
      non-empty path without whitespace, and content with no line that opens
      with three backticks and no carriage return at its end. */
  ghost predicate Renderable(f: FileRecord)
  {
    && f.path != []
    && (forall k :: 0 <= k < |f.path| ==> !IsWS(f.path[k]))
    && (forall q :: 0 <= q < |f.content| ==> !HasAt(f.content, q, "\n```"))
    && (f.content == [] || f.content[|f.content| - 1] != '\r')
  }

  /** `### path`, an opening fence, the content, a closing fence, each ending
      in a line feed. */
  function Block(f: FileRecord): string
  {
    "### " + f.path + "\n```\n" + f.content + "\n```\n"
  }

  /** The records' blocks, one after another. */
  function Render(fs: seq<FileRecord>): string
    decreases |fs|
  {
    if fs == [] then [] else Block(fs[0]) + Render(fs[1..])
  }

  /** The match the pattern makes on a block written at `at`. */
  function BlockMatch(at: nat, f: FileRecord): Match
  {
    var pathEnd := at + 4 + |f.path|;
    var close := pathEnd + 5 + |f.content|;
    Match(at, FormB, Head(at + 4, pathEnd, pathEnd), Fence(pathEnd + 1, pathEnd + 4, pathEnd + 5, close, close + 4))
  }

  /** A concatenation occurs where its two parts occur one after the other. */
  lemma HasAtConcat(s: string, at: nat, x: string, y: string)
    requires HasAt(s, at, x + y)
    ensures HasAt(s, at, x) && HasAt(s, at + |x|, y)
  {
    assert s[at..at + |x|] == s[at..at + |x + y|][..|x|];
    assert s[at + |x|..at + |x| + |y|] == s[at..at + |x + y|][|x|..];
  }

  /** A line feed and a fence, then a line feed. */
  lemma FenceLineAt(s: string, x: nat)
    requires HasAt(s, x, "\n```\n")
    ensures s[x] == '\n' && HasAt(s, x + 1, Ticks) && HasAt(s, x, "\n```") && s[x + 4] == '\n'
  {
    assert s[x] == s[x..x + 5][0] && s[x + 4] == s[x..x + 5][4];
    assert s[x + 1..x + 4] == s[x..x + 5][1..4];
    assert s[x..x + 4] == s[x..x + 5][..4];
  }

  /** Where the parts of a block written at `at` sit in `s`. */
  lemma BlockLayout(s: string, at: nat, f: FileRecord)
    requires HasAt(s, at, Block(f))
    ensures var m := BlockMatch(at, f);
      && |Block(f)| == |f.path| + |f.content| + 14
      && HasAt(s, at, "### ")
      && s[m.head.pathStart..m.head.pathEnd] == f.path
      && s[m.head.pathEnd] == '\n'
      && HasAt(s, m.fence.open, Ticks)
      && s[m.fence.tagEnd] == '\n'
      && s[m.fence.bodyStart..m.fence.close] == f.content
      && HasAt(s, m.fence.close, "\n```")
      && s[m.fence.end] == '\n'
      && m.fence.end + 1 == at + |Block(f)|
  {
    var m := BlockMatch(at, f);
    var p, c := f.path, f.content;
    var a2 := "### " + p;
    var a3 := a2 + "\n```\n";
    var a4 := a3 + c;
    assert Block(f) == a4 + "\n```\n";
    HasAtConcat(s, at, a4, "\n```\n");
    HasAtConcat(s, at, a3, c);
    HasAtConcat(s, at, a2, "\n```\n");
    HasAtConcat(s, at, "### ", p);
    FenceLineAt(s, at + |a2|);
    FenceLineAt(s, at + |a4|);
  }

  /** A block's header is a `### path` header of form B. */
  lemma BlockHead(s: string, at: nat, f: FileRecord)
    requires HasAt(s, at, Block(f)) && Renderable(f)
    ensures HeadShape(s, at, FormB, BlockMatch(at, f).head)
  {
    var m := BlockMatch(at, f);
    BlockLayout(s, at, f);
    HasAtConcat(s, at, "###", " ");
    assert s[at + 3] == s[at + 3..at + 4][0] == ' ';
    forall k | m.head.pathStart <= k < m.head.pathEnd
      ensures !IsWS(s[k])
    {
      assert s[k] == s[m.head.pathStart..m.head.pathEnd][k - m.head.pathStart];
    }
  }

  /** A block's header is not a `### File: `` header: where that header has
      "File: `", a block has its path or the line feed after it. */
  lemma BlockNotFormA(s: string, at: nat, f: FileRecord)
    requires HasAt(s, at, Block(f)) && Renderable(f)
    ensures !HasAt(s, at, HeaderA)
  {
    var p := f.path;
    BlockLayout(s, at, f);
    var i := if |p| < 6 then 4 + |p| else 9;
    assert s[at + i] != HeaderA[i] by {
      if |p| < 6 {
        assert s[at + i] == '\n';
      } else {
        assert s[at + i] == s[at + 4..at + 4 + |p|][5] == p[5];
      }
    }
    if at + |HeaderA| <= |s| {
      assert s[at..at + |HeaderA|][i] == s[at + i];
    }
  }

  /** A block's fence is one the pattern's tail admits after the path. */
  lemma BlockFence(s: string, at: nat, f: FileRecord)
    requires HasAt(s, at, Block(f))
    ensures FenceShape(s, BlockMatch(at, f).head.next, BlockMatch(at, f).fence)
  {
    var m := BlockMatch(at, f);
    BlockLayout(s, at, f);
    assert s[m.fence.tagEnd..m.fence.tagEnd + 1] == [s[m.fence.tagEnd]] == "\n";
    assert s[m.fence.close] == s[m.fence.close..m.fence.close + 4][0] == '\n';
  }

  /** From inside a block's content, a line feed with three backticks is
      found only at the closing fence. */
  lemma BlockNoFenceBefore(s: string, at: nat, f: FileRecord)
    requires HasAt(s, at, Block(f)) && Renderable(f)
    ensures var m := BlockMatch(at, f);
      forall x :: m.fence.bodyStart <= x < m.fence.close ==> !HasAt(s, x, "\n```")
  {
    var m := BlockMatch(at, f);
    var b, c := m.fence.bodyStart, m.fence.close;
    BlockLayout(s, at, f);
    assert s[c] == s[c..c + 4][0] == '\n';
    forall x | b <= x < c
      ensures !HasAt(s, x, "\n```")
    {
      if x + 4 <= c {
        SliceOfSlice(s, b, c, x - b, x - b + 4);
        assert !HasAt(f.content, x - b, "\n```");
      } else if x + 4 <= |s| {
        assert s[x..x + 4][c - x] == s[c];
      }
    }
  }

  /** A closing fence needs a line feed with three backticks where it
      starts or one character later, after a carriage return. */
  lemma NotCloser(s: string, q: nat)
    requires !HasAt(s, q, "\n```")
    requires q < |s| && s[q] == '\r' ==> !HasAt(s, q + 1, "\n```")
    ensures !IsCloser(s, q)
  {
    if q + 5 <= |s| && s[q] == '\r' {
      assert s[q + 1..q + 5] == s[q..q + 5][1..];
    } else if q + 5 <= |s| {
      assert s[q..q + 5][0] == s[q];
    }
  }

  /** Inside a block's content, no line opens with three backticks, and the
      content's end is not a carriage return: the first closing fence after the
      opener is the block's own. */
  lemma BlockBodyClear(s: string, at: nat, f: FileRecord)
    requires HasAt(s, at, Block(f)) && Renderable(f)
    ensures NoCloserIn(s, BlockMatch(at, f).fence.bodyStart, BlockMatch(at, f).fence.close)
  {
    var m := BlockMatch(at, f);
    var b, c := m.fence.bodyStart, m.fence.close;
    BlockLayout(s, at, f);
    BlockNoFenceBefore(s, at, f);
    assert b < c ==> s[c - 1] == f.content[|f.content| - 1];
    forall q | b <= q < c
      ensures !IsCloser(s, q)
    {
      NotCloser(s, q);
    }
  }

  /** The pattern matches a block written at a line start with the block's
      own header, fence and content. */
  lemma BlockMatchAt(s: string, at: nat, f: FileRecord)
    requires HasAt(s, at, Block(f)) && Renderable(f) && LineStart(s, at)
    ensures MatchAt(s, at) == Some(BlockMatch(at, f))
  {
    var m := BlockMatch(at, f);
    BlockLayout(s, at, f);
    BlockHead(s, at, f);
    BlockNotFormA(s, at, f);
    BlockFence(s, at, f);
    BlockBodyClear(s, at, f);
    assert AltMatches(s, at, FormB, m.head, m.fence);
    MatchAtExact(s, at);
    MatchAtSound(s, at);
    var r := MatchAt(s, at).value;
    assert r.form == FormB;
    assert r.head == m.head && SameOpener(m.fence, r.fence);
    assert r.fence.close == m.fence.close;
    assert r.fence.end == m.fence.end;
    assert r.fence == m.fence && r.start == m.start;
  }

  /** The record the parser makes of a block's match is the block's record. */
  lemma BlockRecord(s: string, at: nat, f: FileRecord)
    requires HasAt(s, at, Block(f)) && Renderable(f)
    ensures RecordOf(s, BlockMatch(at, f)) == f
  {
    var m := BlockMatch(at, f);
    BlockLayout(s, at, f);
    assert RawPath(s, m) == f.path && Body(s, m) == f.content;
    TrimCharacterized(f.path, 0, |f.path|);
  }

  /** The matches the pattern makes on the records' blocks written one after
      another from `at`. */
  function BlockMatches(at: nat, fs: seq<FileRecord>): (ms: seq<Match>)
    ensures |ms| == |fs|
    decreases |fs|
  {
    if fs == [] then [] else [BlockMatch(at, fs[0])] + BlockMatches(BlockMatch(at, fs[0]).fence.end + 1, fs[1..])
  }

  /** A run of blocks splits into the first block, the line feed that ends
      it, and the run of the remaining blocks. */
  lemma RenderSplit(s: string, at: nat, fs: seq<FileRecord>)
    requires at <= |s| && s[at..] == Render(fs) && fs != []
    ensures var e := BlockMatch(at, fs[0]).fence.end;
      && HasAt(s, at, Block(fs[0]))
      && e < |s| && s[e] == '\n'
      && s[e + 1..] == Render(fs[1..])
  {
    var f := fs[0];
    assert s[at..][..|Block(f)|] == Block(f);
    BlockLayout(s, at, f);
    assert s[BlockMatch(at, f).fence.end + 1..] == s[at..][|Block(f)|..];
  }

  /** The first block of a run written at a line start is matched, and a line
      feed follows its match. */
  lemma RenderHead(s: string, at: nat, fs: seq<FileRecord>)
    requires at <= |s| && s[at..] == Render(fs) && fs != [] && LineStart(s, at) && Renderable(fs[0])
    ensures var e := BlockMatch(at, fs[0]).fence.end;
      && MatchAt(s, at) == Some(BlockMatch(at, fs[0]))
      && e < |s| && s[e] == '\n'
      && s[e + 1..] == Render(fs[1..])
  {
    RenderSplit(s, at, fs);
    BlockMatchAt(s, at, fs[0]);
  }

  /** The blocks written from a line start are the leftmost matches there. */
  lemma {:induction false} RenderLeftmost(s: string, at: nat, fs: seq<FileRecord>)
    requires at <= |s| && s[at..] == Render(fs) && LineStart(s, at)
    requires forall k :: 0 <= k < |fs| ==> Renderable(fs[k])
    ensures Leftmost(s, at, BlockMatches(at, fs))
    decreases |fs|
  {
    if fs == [] {
      assert MatchAt(s, |s|).None?;
    } else {
      var m := BlockMatch(at, fs[0]);
      var e := m.fence.end;
      var tail := BlockMatches(e + 1, fs[1..]);
      RenderHead(s, at, fs);
      RenderLeftmost(s, e + 1, fs[1..]);
      LeftmostPastBreak(s, e, tail);
      LeftmostCons(s, m, tail);
      assert BlockMatches(at, fs) == [m] + tail;
    }
  }

  /** The `k`-th block's match is the match of a block written where the run
      of the blocks from the `k`-th on starts. */
  lemma {:induction false} RenderNth(s: string, at: nat, fs: seq<FileRecord>, k: nat) returns (p: nat)
    requires at <= |s| && s[at..] == Render(fs) && k < |fs|
    ensures p <= |s| && s[p..] == Render(fs[k..])
    ensures BlockMatches(at, fs)[k] == BlockMatch(p, fs[k])
    decreases k
  {
    if k == 0 {
      p := at;
    } else {
      var e := BlockMatch(at, fs[0]).fence.end;
      RenderSplit(s, at, fs);
      p := RenderNth(s, e + 1, fs[1..], k - 1);
      assert fs[1..][k - 1..] == fs[k..];
    }
  }

  /** Each block's match gives back the block's record. */
  lemma RenderRecords(s: string, at: nat, fs: seq<FileRecord>)
    requires at <= |s| && s[at..] == Render(fs)
    requires forall k :: 0 <= k < |fs| ==> Renderable(fs[k])
    ensures forall k :: 0 <= k < |fs| ==> RecordOf(s, BlockMatches(at, fs)[k]) == fs[k]
  {
    forall k | 0 <= k < |fs|
      ensures RecordOf(s, BlockMatches(at, fs)[k]) == fs[k]
    {
      var p := RenderNth(s, at, fs, k);
      RenderSplit(s, p, fs[k..]);
      BlockRecord(s, p, fs[k]);
    }
  }

  /** `n` line feeds. */
  function LineFeeds(n: nat): string
  {
    if n == 0 then [] else "\n" + LineFeeds(n - 1)
  }

  /** Line feeds are whitespace. */
  lemma {:induction false} LineFeedsBlank(n: nat)
    ensures AllWS(LineFeeds(n))
  {
    if n > 0 {
      LineFeedsBlank(n - 1);
      assert forall i :: 1 <= i <= |LineFeeds(n - 1)| ==> LineFeeds(n)[i] == LineFeeds(n - 1)[i - 1];
    }
  }

  /** Between and after the blocks' matches lie only the line feeds that end
      the blocks, one per block. */
  lemma {:induction false} RenderGaps(s: string, at: nat, fs: seq<FileRecord>)
    requires at <= |s| && s[at..] == Render(fs) && Chain(s, at, BlockMatches(at, fs))
    ensures Concat(Gaps(s, at, BlockMatches(at, fs))) == LineFeeds(|fs|)
    decreases |fs|
  {
    if fs == [] {
      var gs: seq<string> := [[]];
      assert gs[1..] == [];
    } else {
      var m := BlockMatch(at, fs[0]);
      var e := m.fence.end;
      var tail := BlockMatches(e + 1, fs[1..]);
      RenderSplit(s, at, fs);
      assert BlockMatches(at, fs) == [m] + tail;
      assert Chain(s, e + 1, tail);
      RenderGaps(s, e + 1, fs[1..]);
      GapsMatchThenBreak(s, m, tail);
    }
  }

  /** Parsing the written blocks gives back the records, in order, and no
      residual text. */
  method ParseRendered(fs: seq<FileRecord>) returns (r: ParseResult)
    requires forall k :: 0 <= k < |fs| ==> Renderable(fs[k])
    ensures r.files == fs
    ensures r.extraText == []
  {
    var doc := Render(fs);
    ghost var ms;
    r, ms := ParseMarkdown(doc);
    assert doc[0..] == doc;
    RenderLeftmost(doc, 0, fs);
    LeftmostEqual(doc, 0, ms, BlockMatches(0, fs));
    RenderRecords(doc, 0, fs);
    assert forall k :: 0 <= k < |fs| ==> r.files[k] == fs[k];
    RenderGaps(doc, 0, fs);
    LineFeedsBlank(|fs|);
    TrimSpec(LineFeeds(|fs|));
  }
}
