/** Extraction of PEP 723 `script` blocks from Python source, line by line. */
module PyScan {
  import opened Text

  const OPENER := "# /// script"
  const CLOSER := "# ///"
  const MAX_LINE := 1024 * 1024

  /** The line scanner: lines end at a newline; a last line without one counts too. */
  function RawLines(src: string): (ls: seq<string>)
    ensures forall i :: 0 <= i < |ls| ==> '\n' !in ls[i]
    decreases |src|
  {
    if src == "" then [] else
      var i := IndexOf(src, '\n');
      if i < 0 then [src]
      else
        assert forall j :: 0 <= j < i ==> src[..i][j] == src[j];
        [src[..i]] + RawLines(src[i + 1..])
  }

  function TrimCR(s: string): (t: string)
    ensures t <= s && (t == [] || t[|t| - 1] != '\r')
  {
    if s != [] && s[|s| - 1] == '\r' then TrimCR(s[..|s| - 1]) else s
  }

  datatype Block = Block(body: string, startLine: nat)

  datatype Result =
    | Blocks(blocks: seq<Block>)
    | NotAComment(line: nat)
    | LineTooLong
    | Unterminated(startLine: nat)

  /** The loop's variables: lines read, and the block being collected, if any. */
  datatype State = State(lineNum: nat, inBlock: bool, blockStart: nat, blockBody: string, blocks: seq<Block>)

  const INITIAL := State(0, false, 0, "", [])

  predicate InComment(t: string) {
    t == "#" || "# " <= t
  }

  /** One line; None when it has no comment prefix inside a block. */
  function Feed(st: State, raw: string): Option<State> {
    var t, n := TrimCR(raw), st.lineNum + 1;
    if !st.inBlock then
      Some(if t == OPENER then State(n, true, n, "", st.blocks) else st.(lineNum := n))
    else if t == CLOSER then
      Some(st.(lineNum := n, inBlock := false, blocks := st.blocks + [Block(st.blockBody, st.blockStart)]))
    else if InComment(t) then Some(st.(lineNum := n, blockBody := st.blockBody + LineText(raw)))
    else None
  }

  /** What one line adds to the body. */
  function LineText(raw: string): string {
    var t := TrimCR(raw);
    (if "# " <= t then t[2..] else "") + "\n"
  }

  function Extract(lines: seq<string>, st: State): Result
    decreases |lines|
  {
    if lines == [] then
      if st.inBlock then Unterminated(st.blockStart) else Blocks(st.blocks)
    else if |lines[0]| >= MAX_LINE then LineTooLong
    else
      match Feed(st, lines[0])
      case None => NotAComment(st.lineNum + 1)
      case Some(next) => Extract(lines[1..], next)
  }

  lemma FirstLine(raw: string, rest: seq<string>, st: State)
    ensures Extract([raw] + rest, st) ==
            if |raw| >= MAX_LINE then LineTooLong
            else if Feed(st, raw).None? then NotAComment(st.lineNum + 1)
            else Extract(rest, Feed(st, raw).value)
  {
    hide Feed;
    assert ([raw] + rest)[1..] == rest;
  }

  lemma RawLinesSplit(src: string, i: int)
    requires src != "" && i == IndexOf(src, '\n')
    ensures RawLines(src) == [if i < 0 then src else src[..i]] + RawLines(if i < 0 then "" else src[i + 1..])
  {
  }

  /** One turn of the loop; None is the malformed-line error. */
  method TakeLine(st: State, raw: string) returns (next: Option<State>)
    ensures next == Feed(st, raw)
  {
    var blocks, inBlock, blockStart, blockBody := st.blocks, st.inBlock, st.blockStart, st.blockBody;
    var lineNum := st.lineNum + 1;
    var line := TrimCR(raw);
    if !inBlock {
      if line == OPENER {
        inBlock := true;
        blockStart := lineNum;
        blockBody := "";
      }
    } else if line == CLOSER {
      blocks := blocks + [Block(blockBody, blockStart)];
      inBlock := false;
    } else if line == "#" {
      blockBody := blockBody + "\n";
      assert LineText(raw) == "\n";
    } else if "# " <= line {
      blockBody := blockBody + (line[2..] + "\n");
    } else {
      return None;
    }
    return Some(State(lineNum, inBlock, blockStart, blockBody, blocks));
  }

  method ExtractScriptBlocks(src: string) returns (r: Result)
    ensures r == Extract(RawLines(src), INITIAL)
  {
    hide Extract, RawLines, TrimCR, Feed;
    var st := INITIAL;
    var rest := src;
    while rest != ""
      invariant Extract(RawLines(rest), st) == Extract(RawLines(src), INITIAL)
      decreases |rest|
    {
      var i := IndexOf(rest, '\n');
      RawLinesSplit(rest, i);
      var raw := rest;
      if i >= 0 {
        raw := rest[..i];
        rest := rest[i + 1..];
      } else {
        rest := "";
      }
      FirstLine(raw, RawLines(rest), st);
      if |raw| >= MAX_LINE {
        return LineTooLong;
      }
      var next := TakeLine(st, raw);
      if next == None {
        return NotAComment(st.lineNum + 1);
      }
      st := next.value;
    }
    NoLines(st);
    if st.inBlock {
      return Unterminated(st.blockStart);
    }
    return Blocks(st.blocks);
  }

  lemma NoLines(st: State)
    ensures RawLines("") == []
    ensures Extract([], st) == if st.inBlock then Unterminated(st.blockStart) else Blocks(st.blocks)
  {
  }

  // ---------------------------------------------------------------- what a well-formed source looks like

  /** Lines before a block, then the block's opener, body lines and closer. */
  datatype Segment = Segment(before: seq<string>, opener: string, body: seq<string>, closer: string)

  predicate Outside(raw: string) {
    |raw| < MAX_LINE && TrimCR(raw) != OPENER
  }

  predicate BodyLine(raw: string) {
    |raw| < MAX_LINE && TrimCR(raw) != CLOSER && InComment(TrimCR(raw))
  }

  ghost predicate WellFormed(g: Segment) {
    (forall i :: 0 <= i < |g.before| ==> Outside(g.before[i])) &&
    |g.opener| < MAX_LINE && TrimCR(g.opener) == OPENER &&
    (forall i :: 0 <= i < |g.body| ==> BodyLine(g.body[i])) &&
    |g.closer| < MAX_LINE && TrimCR(g.closer) == CLOSER
  }

  ghost predicate WellFormedDoc(gs: seq<Segment>, after: seq<string>) {
    (forall i :: 0 <= i < |gs| ==> WellFormed(gs[i])) && forall i :: 0 <= i < |after| ==> Outside(after[i])
  }

  function Doc(gs: seq<Segment>, after: seq<string>): seq<string> {
    if gs == [] then after
    else gs[0].before + ([gs[0].opener] + (gs[0].body + ([gs[0].closer] + Doc(gs[1..], after))))
  }

  function BodyText(body: seq<string>): string {
    if body == [] then "" else LineText(body[0]) + BodyText(body[1..])
  }

  /** The blocks of a document whose first line is number `n` + 1. */
  function BlocksOf(gs: seq<Segment>, n: nat): seq<Block> {
    if gs == [] then []
    else
      var start := n + |gs[0].before| + 1;
      [Block(BodyText(gs[0].body), start)] + BlocksOf(gs[1..], start + |gs[0].body| + 1)
  }

  lemma {:induction false} SkipOutside(before: seq<string>, rest: seq<string>, st: State)
    requires !st.inBlock && forall i :: 0 <= i < |before| ==> Outside(before[i])
    ensures Extract(before + rest, st) == Extract(rest, st.(lineNum := st.lineNum + |before|))
    decreases |before|
  {
    if before == [] {
      assert before + rest == rest;
    } else {
      assert (before + rest)[1..] == before[1..] + rest;
      SkipOutside(before[1..], rest, st.(lineNum := st.lineNum + 1));
    }
  }

  lemma TakeBodyLine(raw: string, rest: seq<string>, st: State)
    requires st.inBlock && BodyLine(raw)
    ensures Extract([raw] + rest, st) ==
            Extract(rest, st.(lineNum := st.lineNum + 1, blockBody := st.blockBody + LineText(raw)))
  {
    hide Extract, TrimCR, LineText;
    FirstLine(raw, rest, st);
  }

  lemma {:induction false} CollectBody(body: seq<string>, rest: seq<string>, st: State)
    requires st.inBlock && forall i :: 0 <= i < |body| ==> BodyLine(body[i])
    ensures Extract(body + rest, st) ==
            Extract(rest, st.(lineNum := st.lineNum + |body|, blockBody := st.blockBody + BodyText(body)))
    decreases |body|
  {
    hide Extract, BodyLine, LineText;
    if body == [] {
      assert body + rest == rest && st.blockBody + "" == st.blockBody;
    } else {
      assert body + rest == [body[0]] + (body[1..] + rest);
      TakeBodyLine(body[0], body[1..] + rest, st);
      CollectBody(body[1..], rest, st.(lineNum := st.lineNum + 1, blockBody := st.blockBody + LineText(body[0])));
      assert st.blockBody + LineText(body[0]) + BodyText(body[1..]) == st.blockBody + (LineText(body[0]) + BodyText(body[1..]));
    }
  }

  lemma OpenBlock(raw: string, rest: seq<string>, st: State)
    requires |raw| < MAX_LINE && TrimCR(raw) == OPENER && !st.inBlock
    ensures Extract([raw] + rest, st) == Extract(rest, State(st.lineNum + 1, true, st.lineNum + 1, "", st.blocks))
  {
    hide Extract, TrimCR;
    FirstLine(raw, rest, st);
  }

  lemma CloseBlock(raw: string, rest: seq<string>, st: State)
    requires |raw| < MAX_LINE && TrimCR(raw) == CLOSER && st.inBlock
    ensures Extract([raw] + rest, st) ==
            Extract(rest, st.(lineNum := st.lineNum + 1, inBlock := false, blocks := st.blocks + [Block(st.blockBody, st.blockStart)]))
  {
    hide Extract, TrimCR;
    FirstLine(raw, rest, st);
  }

  /** Every well-formed document yields exactly its blocks, each with its body and the line of its opener. */
  lemma {:induction false} DocExtracts(gs: seq<Segment>, after: seq<string>, st: State)
    requires !st.inBlock && WellFormedDoc(gs, after)
    ensures Extract(Doc(gs, after), st) == Blocks(st.blocks + BlocksOf(gs, st.lineNum))
    decreases |gs|
  {
    hide Extract, TrimCR, Outside, BodyLine, BodyText;
    if gs == [] {
      SkipOutside(after, [], st);
      assert after + [] == after;
      NoLines(st.(lineNum := st.lineNum + |after|));
      assert st.blocks + [] == st.blocks;
    } else {
      var g, more := gs[0], Doc(gs[1..], after);
      assert WellFormed(g);
      var s1 := st.(lineNum := st.lineNum + |g.before|);
      var s2 := State(s1.lineNum + 1, true, s1.lineNum + 1, "", st.blocks);
      var s3 := s2.(lineNum := s2.lineNum + |g.body|, blockBody := "" + BodyText(g.body));
      var b := Block("" + BodyText(g.body), s2.blockStart);
      var s4 := s3.(lineNum := s3.lineNum + 1, inBlock := false, blocks := st.blocks + [b]);
      SkipOutside(g.before, [g.opener] + (g.body + ([g.closer] + more)), st);
      OpenBlock(g.opener, g.body + ([g.closer] + more), s1);
      CollectBody(g.body, [g.closer] + more, s2);
      CloseBlock(g.closer, more, s3);
      assert "" + BodyText(g.body) == BodyText(g.body);
      DocExtracts(gs[1..], after, s4);
      assert st.blocks + [b] + BlocksOf(gs[1..], s4.lineNum) == st.blocks + ([b] + BlocksOf(gs[1..], s4.lineNum));
    }
  }

  lemma OneMoreSegment(g: Segment, gs: seq<Segment>, after: seq<string>, n: nat)
    requires WellFormed(g) && WellFormedDoc(gs, after)
    ensures WellFormedDoc([g] + gs, after)
    ensures Doc([g] + gs, after) == g.before + ([g.opener] + (g.body + ([g.closer] + Doc(gs, after))))
    ensures var start := n + |g.before| + 1;
            BlocksOf([g] + gs, n) == [Block(BodyText(g.body), start)] + BlocksOf(gs, start + |g.body| + 1)
  {
    hide Outside, BodyLine, BodyText, WellFormed;
    assert ([g] + gs)[1..] == gs;
  }

  lemma BeforeWellFormed(raw: string, g: Segment)
    requires Outside(raw) && WellFormed(g)
    ensures WellFormed(g.(before := [raw] + g.before))
  {
    hide Outside, BodyLine, TrimCR;
  }

  lemma OneMoreBefore(raw: string, g: Segment, gs: seq<Segment>, after: seq<string>, n: nat)
    requires Outside(raw) && WellFormedDoc([g] + gs, after)
    ensures var g' := g.(before := [raw] + g.before);
            WellFormedDoc([g'] + gs, after) && Doc([g'] + gs, after) == [raw] + Doc([g] + gs, after) &&
            BlocksOf([g'] + gs, n) == BlocksOf([g] + gs, n + 1)
  {
    hide Outside, BodyLine, BodyText, WellFormed, Doc, BlocksOf;
    var g' := g.(before := [raw] + g.before);
    assert ([g] + gs)[0] == g && ([g] + gs)[1..] == gs;
    assert WellFormed(g) && WellFormedDoc(gs, after);
    BeforeWellFormed(raw, g);
    OneMoreSegment(g, gs, after, n + 1);
    OneMoreSegment(g', gs, after, n);
    var tail := [g.opener] + (g.body + ([g.closer] + Doc(gs, after)));
    assert [raw] + g.before + tail == [raw] + (g.before + tail);
  }

  /** The lines are this document, and give its blocks. */
  ghost predicate ReadsAs(lines: seq<string>, st: State, gs: seq<Segment>, after: seq<string>) {
    WellFormedDoc(gs, after) && lines == Doc(gs, after)
    && Extract(lines, st) == Blocks(st.blocks + BlocksOf(gs, st.lineNum))
  }

  /** The lines are the rest of a block, its closer, and then this document. */
  ghost predicate ReadsOn(lines: seq<string>, st: State, body: seq<string>, closer: string, gs: seq<Segment>, after: seq<string>) {
    (forall i :: 0 <= i < |body| ==> BodyLine(body[i])) && |closer| < MAX_LINE && TrimCR(closer) == CLOSER
    && WellFormedDoc(gs, after) && lines == body + ([closer] + Doc(gs, after))
    && Extract(lines, st) ==
       Blocks(st.blocks + ([Block(st.blockBody + BodyText(body), st.blockStart)] + BlocksOf(gs, st.lineNum + |body| + 1)))
  }

  /** Conversely, whatever is accepted is such a document: outside a block ... */
  lemma {:induction false} ExtractedIsDoc(lines: seq<string>, st: State)
    requires !st.inBlock && Extract(lines, st).Blocks?
    ensures exists gs, after :: ReadsAs(lines, st, gs, after)
    decreases |lines|
  {
    hide TrimCR, BodyText;
    if lines == [] {
      assert st.blocks + [] == st.blocks;
      assert ReadsAs(lines, st, [], []);
    } else {
      var raw, rest := lines[0], lines[1..];
      assert lines == [raw] + rest;
      FirstLine(raw, rest, st);
      hide Extract;
      var next := Feed(st, raw).value;
      if next.inBlock {
        ExtractedFromOpener(raw, rest, st);
      } else {
        ExtractedIsDoc(rest, next);
        var gs, after :| ReadsAs(rest, next, gs, after);
        if gs == [] {
          assert ReadsAs(lines, st, gs, [raw] + after);
        } else {
          var g, tail := gs[0], gs[1..];
          assert gs == [g] + tail;
          OneMoreBefore(raw, g, tail, after, st.lineNum);
          assert ReadsAs(lines, st, [g.(before := [raw] + g.before)] + tail, after);
        }
      }
    }
  }

  lemma {:induction false} ExtractedFromOpener(raw: string, rest: seq<string>, st: State)
    requires !st.inBlock && |raw| < MAX_LINE && TrimCR(raw) == OPENER && Extract([raw] + rest, st).Blocks?
    ensures exists gs, after :: ReadsAs([raw] + rest, st, gs, after)
    decreases |rest| + 1, 0
  {
    hide TrimCR, BodyText, Extract, BodyLine, Doc, BlocksOf;
    OpenBlock(raw, rest, st);
    var inside := State(st.lineNum + 1, true, st.lineNum + 1, "", st.blocks);
    ExtractedIsBody(rest, inside);
    var body, closer, gs, after :| ReadsOn(rest, inside, body, closer, gs, after);
    var g := Segment([], raw, body, closer);
    assert "" + BodyText(body) == BodyText(body);
    OneMoreSegment(g, gs, after, st.lineNum);
    assert [] + ([raw] + rest) == [raw] + rest;
    assert ReadsAs([raw] + rest, st, [g] + gs, after);
  }

  lemma OneMoreBodyLine(raw: string, body: seq<string>, t: string)
    ensures BodyText([raw] + body) == LineText(raw) + BodyText(body)
    ensures t + LineText(raw) + BodyText(body) == t + BodyText([raw] + body)
  {
    hide LineText;
    assert ([raw] + body)[1..] == body;
  }

  /** ... and inside one. */
  lemma {:induction false} ExtractedIsBody(lines: seq<string>, st: State)
    requires st.inBlock && Extract(lines, st).Blocks?
    ensures exists body, closer, gs, after :: ReadsOn(lines, st, body, closer, gs, after)
    decreases |lines|
  {
    hide TrimCR, LineText, BodyText;
    assert lines != [];
    var raw, rest := lines[0], lines[1..];
    assert lines == [raw] + rest;
    FirstLine(raw, rest, st);
    hide Extract;
    var next := Feed(st, raw).value;
    if next.inBlock {
      ExtractedIsBody(rest, next);
      var b, closer, gs, after :| ReadsOn(rest, next, b, closer, gs, after);
      OneMoreLine(lines, st, next, b, closer, gs, after);
    } else {
      ExtractedIsDoc(rest, next);
      var gs, after :| ReadsAs(rest, next, gs, after);
      NoBodyText(st.blockBody);
      assert next.blocks + BlocksOf(gs, next.lineNum) == st.blocks + ([Block(st.blockBody, st.blockStart)] + BlocksOf(gs, next.lineNum));
      assert ReadsOn(lines, st, [], raw, gs, after);
    }
  }

  lemma OneMoreLine(lines: seq<string>, st: State, next: State, b: seq<string>, closer: string, gs: seq<Segment>, after: seq<string>)
    requires lines != [] && st.inBlock && |lines[0]| < MAX_LINE && Feed(st, lines[0]) == Some(next) && next.inBlock
    requires Extract(lines, st) == Extract(lines[1..], next) && ReadsOn(lines[1..], next, b, closer, gs, after)
    ensures ReadsOn(lines, st, [lines[0]] + b, closer, gs, after)
  {
    hide TrimCR, LineText, BodyText, Extract, Doc, BlocksOf, WellFormedDoc;
    var raw := lines[0];
    OneMoreBodyLine(raw, b, st.blockBody);
    assert lines == [raw] + lines[1..];
    assert [raw] + (b + ([closer] + Doc(gs, after))) == [raw] + b + ([closer] + Doc(gs, after));
  }

  lemma NoBodyText(t: string)
    ensures t + BodyText([]) == t
  {
  }

  /** `lines` is a well-formed document with exactly the blocks `bs`. */
  ghost predicate HasBlocks(lines: seq<string>, bs: seq<Block>) {
    exists gs, after :: WellFormedDoc(gs, after) && lines == Doc(gs, after) && bs == BlocksOf(gs, 0)
  }

  lemma AcceptedHasBlocks(lines: seq<string>, bs: seq<Block>)
    requires Extract(lines, INITIAL) == Blocks(bs)
    ensures HasBlocks(lines, bs)
  {
    hide Extract, Doc, BlocksOf, WellFormedDoc;
    ExtractedIsDoc(lines, INITIAL);
    var gs, after :| ReadsAs(lines, INITIAL, gs, after);
    assert [] + BlocksOf(gs, 0) == BlocksOf(gs, 0);
  }

  /** A source is accepted with certain blocks if and only if it is a well-formed document
      with exactly those blocks. */
  lemma AcceptedIff(lines: seq<string>, bs: seq<Block>)
    ensures Extract(lines, INITIAL) == Blocks(bs) <==> HasBlocks(lines, bs)
  {
    hide Extract, Doc, BlocksOf, WellFormedDoc;
    if Extract(lines, INITIAL) == Blocks(bs) {
      AcceptedHasBlocks(lines, bs);
    }
    if HasBlocks(lines, bs) {
      var gs, after :| WellFormedDoc(gs, after) && lines == Doc(gs, after) && bs == BlocksOf(gs, 0);
      DocExtracts(gs, after, INITIAL);
      assert [] + bs == bs;
    }
  }

  // ---------------------------------------------------------------- sources as text

  /** A line break is LF or CRLF. */
  predicate LineBreak(e: string) {
    e == "\n" || e == "\r\n"
  }

  /** Every line has its break, but the last may do without unless it is empty. */
  ghost predicate Breaks(ls: seq<string>, breaks: seq<string>) {
    |ls| == |breaks| &&
    forall i :: 0 <= i < |ls| ==> LineBreak(breaks[i]) || (i == |ls| - 1 && breaks[i] == "" && ls[i] != "")
  }

  /** Lines with their breaks. */
  function SourceText(ls: seq<string>, breaks: seq<string>): string
    requires |ls| == |breaks|
  {
    if ls == [] then "" else ls[0] + breaks[0] + SourceText(ls[1..], breaks[1..])
  }

  /** A line as written: no line break inside, no carriage return at its end. */
  predicate CleanLine(l: string) {
    '\n' !in l && (l == "" || l[|l| - 1] != '\r')
  }

  /** The raw lines scanned from a text: each line, with the CR of a CRLF still on it. */
  function Scanned(ls: seq<string>, breaks: seq<string>): (raws: seq<string>)
    requires |ls| == |breaks|
    ensures |raws| == |ls|
  {
    if ls == [] then [] else [ls[0] + if breaks[0] == "\r\n" then "\r" else ""] + Scanned(ls[1..], breaks[1..])
  }

  lemma TextLine(l: string, e: string, rest: string)
    requires '\n' !in l && (LineBreak(e) || (e == "" && rest == "" && l != ""))
    ensures RawLines(l + e + rest) == [l + if e == "\r\n" then "\r" else ""] + RawLines(rest)
  {
    var raw := l + if e == "\r\n" then "\r" else "";
    var src := l + e + rest;
    assert forall i :: 0 <= i < |raw| ==> src[i] == raw[i];
    if e == "" {
      assert src == raw == l;
      assert IndexOf(src, '\n') == -1;
      RawLinesSplit(src, -1);
    } else {
      assert src == raw + "\n" + rest;
      assert src[|raw|] == '\n' && src[..|raw|] == raw && src[|raw| + 1..] == rest;
      assert forall i :: 0 <= i < |raw| ==> raw[i] in raw;
      assert IndexOf(src, '\n') == |raw|;
      RawLinesSplit(src, |raw|);
    }
  }

  lemma {:induction false} TextScans(ls: seq<string>, breaks: seq<string>)
    requires Breaks(ls, breaks) && forall i :: 0 <= i < |ls| ==> '\n' !in ls[i]
    ensures RawLines(SourceText(ls, breaks)) == Scanned(ls, breaks)
    decreases |ls|
  {
    hide RawLines;
    if ls == [] {
      NoLines(INITIAL);
    } else {
      TextLine(ls[0], breaks[0], SourceText(ls[1..], breaks[1..]));
      TextScans(ls[1..], breaks[1..]);
    }
  }

  lemma TrimClean(l: string)
    requires CleanLine(l)
    ensures TrimCR(l) == l && TrimCR(l + "") == l && TrimCR(l + "\r") == l
  {
    assert l + "" == l;
    var s := l + "\r";
    assert s[..|s| - 1] == l;
  }

  lemma {:induction false} ScannedAt(ls: seq<string>, breaks: seq<string>, i: nat)
    requires |ls| == |breaks| && i < |ls| && CleanLine(ls[i])
    ensures TrimCR(Scanned(ls, breaks)[i]) == ls[i] && |Scanned(ls, breaks)[i]| <= |ls[i]| + 1
    decreases |ls|
  {
    if i == 0 {
      TrimClean(ls[0]);
    } else {
      ScannedAt(ls[1..], breaks[1..], i - 1);
    }
  }

  // ---------------------------------------------------------------- wrapped blocks

  /** A block to be wrapped: the lines before it, its body, and the comment lines that carry it. */
  datatype Wrapped = Wrapped(before: seq<string>, body: seq<string>, comments: seq<string>)

  /** How a line of the body may be written. */
  predicate Carried(comment: string, text: string) {
    comment == "# " + text || (text == "" && comment == "#")
  }

  /** The lines of a source that holds these blocks. */
  function SourceLines(ws: seq<Wrapped>, after: seq<string>): seq<string> {
    if ws == [] then after
    else ws[0].before + (["# /// script"] + (ws[0].comments + (["# ///"] + SourceLines(ws[1..], after))))
  }

  /** A line that fits the scanner's buffer whatever its break. */
  predicate Written(l: string) {
    CleanLine(l) && |l| < 1048575
  }

  ghost predicate PlainLines(ls: seq<string>) {
    forall i :: 0 <= i < |ls| ==> Written(ls[i]) && ls[i] != "# /// script"
  }

  ghost predicate CommentLines(comments: seq<string>, body: seq<string>) {
    |comments| == |body| && forall i :: 0 <= i < |body| ==> Written(comments[i]) && Carried(comments[i], body[i]) && body[i] != "///"
  }

  ghost predicate Placeable(ws: seq<Wrapped>, after: seq<string>) {
    PlainLines(after) && forall k :: 0 <= k < |ws| ==> PlainLines(ws[k].before) && CommentLines(ws[k].comments, ws[k].body)
  }

  function Terminated(body: seq<string>): string {
    if body == [] then "" else body[0] + "\n" + Terminated(body[1..])
  }

  /** Scanned again, a terminated body gives its lines. */
  lemma {:induction false} TerminatedLines(body: seq<string>)
    requires forall i :: 0 <= i < |body| ==> '\n' !in body[i]
    ensures RawLines(Terminated(body)) == body
    decreases |body|
  {
    hide RawLines;
    if body == [] {
      NoLines(INITIAL);
    } else {
      TextLine(body[0], "\n", Terminated(body[1..]));
      TerminatedLines(body[1..]);
      assert body[0] + "" == body[0] && body == [body[0]] + body[1..];
    }
  }

  /** The blocks to come out of them, the first line being number `n` + 1. */
  function BlocksFor(ws: seq<Wrapped>, n: nat): (bs: seq<Block>)
    ensures |bs| == |ws|
  {
    if ws == [] then []
    else
      var start := n + |ws[0].before| + 1;
      [Block(Terminated(ws[0].body), start)] + BlocksFor(ws[1..], start + |ws[0].comments| + 1)
  }

  /** One raw line per written line, and trimming gives the written line back. */
  ghost predicate Carries(raws: seq<string>, ls: seq<string>) {
    |raws| == |ls| && forall i :: 0 <= i < |ls| ==> TrimCR(raws[i]) == ls[i] && |raws[i]| < MAX_LINE
  }

  lemma CarriesParts(raws: seq<string>, a: seq<string>, b: seq<string>)
    requires Carries(raws, a + b)
    ensures |raws| == |a| + |b|
    ensures Carries(raws[..|a|], a) && Carries(raws[|a|..], b) && raws == raws[..|a|] + raws[|a|..]
  {
    hide TrimCR;
    forall i | 0 <= i < |a|
      ensures TrimCR(raws[..|a|][i]) == a[i] && |raws[i]| < MAX_LINE
    {
      assert TrimCR(raws[i]) == (a + b)[i];
    }
    forall i | 0 <= i < |b|
      ensures TrimCR(raws[|a|..][i]) == b[i] && |raws[|a| + i]| < MAX_LINE
    {
      assert TrimCR(raws[|a| + i]) == (a + b)[|a| + i];
    }
  }

  lemma CommentIsBody(raw: string, comment: string, text: string)
    requires TrimCR(raw) == comment && |raw| < MAX_LINE && Carried(comment, text) && text != "///"
    ensures BodyLine(raw) && LineText(raw) == text + "\n"
  {
    if comment == "#" {
      assert !("# " <= comment) && comment != CLOSER;
    } else {
      assert comment[2..] == text && CLOSER[2..] == "///";
    }
  }

  lemma {:induction false} CommentsAreBody(raws: seq<string>, comments: seq<string>, body: seq<string>)
    requires Carries(raws, comments) && CommentLines(comments, body)
    ensures (forall i :: 0 <= i < |raws| ==> BodyLine(raws[i])) && BodyText(raws) == Terminated(body)
    decreases |body|
  {
    hide TrimCR, Carried, BodyLine, LineText, Written;
    if body != [] {
      CommentIsBody(raws[0], comments[0], body[0]);
      CommentsAreBody(raws[1..], comments[1..], body[1..]);
      forall i | 0 <= i < |raws|
        ensures BodyLine(raws[i])
      {
        if i > 0 { assert raws[i] == raws[1..][i - 1]; }
      }
    }
  }

  lemma PlainAreOutside(raws: seq<string>, ls: seq<string>)
    requires Carries(raws, ls) && PlainLines(ls)
    ensures forall i :: 0 <= i < |raws| ==> Outside(raws[i])
  {
    hide TrimCR, Written;
  }

  /** A wrapped block is read, from its lines before to its closer. */
  lemma BlockReads(before: seq<string>, opener: string, comments: seq<string>, w: Wrapped, tail: seq<string>, st: State)
    requires !st.inBlock && Carries(before, w.before) && PlainLines(w.before)
    requires TrimCR(opener) == "# /// script" && |opener| < MAX_LINE
    requires Carries(comments, w.comments) && CommentLines(w.comments, w.body)
    ensures var n := st.lineNum + |before| + 1;
            Extract(before + ([opener] + (comments + tail)), st) ==
            Extract(tail, State(n + |comments|, true, n, Terminated(w.body), st.blocks))
  {
    hide Extract, TrimCR, Outside, BodyLine, BodyText, Carries, PlainLines, CommentLines;
    PlainAreOutside(before, w.before);
    CommentsAreBody(comments, w.comments, w.body);
    var s1 := st.(lineNum := st.lineNum + |before|);
    SkipOutside(before, [opener] + (comments + tail), st);
    OpenBlock(opener, comments + tail, s1);
    CollectBody(comments, tail, State(s1.lineNum + 1, true, s1.lineNum + 1, "", st.blocks));
    assert "" + BodyText(comments) == BodyText(comments);
  }

  /** Where the scan stands behind the blocks and the lines after them. */
  lemma {:induction false} BlocksRead(raws: seq<string>, ws: seq<Wrapped>, after: seq<string>, tail: seq<string>, st: State)
    requires !st.inBlock && Placeable(ws, after) && Carries(raws, SourceLines(ws, after))
    ensures Extract(raws + tail, st) ==
            Extract(tail, st.(lineNum := st.lineNum + |raws|, blocks := st.blocks + BlocksFor(ws, st.lineNum)))
    decreases |ws|
  {
    hide Extract, TrimCR, Carries, PlainLines, CommentLines, Outside;
    if ws == [] {
      PlainAreOutside(raws, after);
      SkipOutside(raws, tail, st);
      assert st.blocks + [] == st.blocks;
    } else {
      var w, more := ws[0], SourceLines(ws[1..], after);
      var before, opener, comments, closer, rest := BlockParts(raws, w, more);
      var n := st.lineNum + |before| + 1;
      var st' := State(n + |comments| + 1, false, n, Terminated(w.body), st.blocks + [Block(Terminated(w.body), n)]);
      assert raws + tail == before + ([opener] + (comments + ([closer] + (rest + tail))));
      BlockReads(before, opener, comments, w, [closer] + (rest + tail), st);
      CloseBlock(closer, rest + tail, State(n + |comments|, true, n, Terminated(w.body), st.blocks));
      BlocksRead(rest, ws[1..], after, tail, st');
      SameOutside(tail, st'.(lineNum := st'.lineNum + |rest|, blocks := st'.blocks + BlocksFor(ws[1..], st'.lineNum)),
                  st.(lineNum := st.lineNum + |raws|, blocks := st.blocks + BlocksFor(ws, st.lineNum)));
    }
  }

  /** Outside a block nothing of the last one is looked at. */
  lemma {:induction false} SameOutside(lines: seq<string>, a: State, b: State)
    requires !a.inBlock && !b.inBlock && a.lineNum == b.lineNum && a.blocks == b.blocks
    ensures Extract(lines, a) == Extract(lines, b)
    decreases |lines|
  {
    hide TrimCR;
    if lines != [] && TrimCR(lines[0]) != OPENER {
      SameOutside(lines[1..], a.(lineNum := a.lineNum + 1), b.(lineNum := b.lineNum + 1));
    }
  }

  lemma BlockParts(raws: seq<string>, w: Wrapped, more: seq<string>)
    returns (before: seq<string>, opener: string, comments: seq<string>, closer: string, rest: seq<string>)
    requires Carries(raws, w.before + (["# /// script"] + (w.comments + (["# ///"] + more))))
    ensures raws == before + ([opener] + (comments + ([closer] + rest)))
    ensures Carries(before, w.before) && Carries(comments, w.comments) && Carries(rest, more)
    ensures |before| == |w.before| && |comments| == |w.comments|
    ensures TrimCR(opener) == "# /// script" && TrimCR(closer) == "# ///" && |opener| < MAX_LINE && |closer| < MAX_LINE
  {
    hide TrimCR, Carries;
    var n, m := |w.before|, |w.comments|;
    CarriesLength(raws, w.before + (["# /// script"] + (w.comments + (["# ///"] + more))));
    CarriesParts(raws, w.before, ["# /// script"] + (w.comments + (["# ///"] + more)));
    var r1 := raws[n..];
    CarriesParts(r1, ["# /// script"], w.comments + (["# ///"] + more));
    CarriesOne(r1[..1], "# /// script");
    var r2 := r1[1..];
    CarriesParts(r2, w.comments, ["# ///"] + more);
    var r3 := r2[m..];
    CarriesParts(r3, ["# ///"], more);
    CarriesOne(r3[..1], "# ///");
    before, opener, comments, closer, rest := raws[..n], r1[0], r2[..m], r3[0], r3[1..];
    assert r1[..1] == [opener] && r3[..1] == [closer];
  }

  lemma CarriesLength(raws: seq<string>, ls: seq<string>)
    requires Carries(raws, ls)
    ensures |raws| == |ls|
  {
  }

  lemma CarriesOne(raws: seq<string>, l: string)
    requires Carries(raws, [l])
    ensures |raws| == 1 && TrimCR(raws[0]) == l && |raws[0]| < MAX_LINE
  {
  }

  /** `bs` are the blocks wrapped: their bodies newline-terminated, and the lines of their openers. */
  ghost predicate AreBlocks(bs: seq<Block>, ws: seq<Wrapped>) {
    |bs| == |ws| &&
    forall k :: 0 <= k < |ws| ==>
      bs[k].body == Terminated(ws[k].body) && bs[k].startLine == |SourceLines(ws[..k], ws[k].before)| + 1
  }

  lemma {:induction false} BlocksForAt(ws: seq<Wrapped>, n: nat, k: nat)
    requires k < |ws|
    ensures BlocksFor(ws, n)[k] == Block(Terminated(ws[k].body), n + |SourceLines(ws[..k], ws[k].before)| + 1)
    decreases |ws|
  {
    if k == 0 {
      assert ws[..0] == [];
    } else {
      var next := n + |ws[0].before| + 1 + |ws[0].comments| + 1;
      BlocksForAt(ws[1..], next, k - 1);
      assert ws[1..][..k - 1] == ws[..k][1..];
      assert BlocksFor(ws, n)[k] == BlocksFor(ws[1..], next)[k - 1];
    }
  }

  lemma ScannedCarries(ls: seq<string>, breaks: seq<string>)
    requires |ls| == |breaks| && forall i :: 0 <= i < |ls| ==> Written(ls[i])
    ensures Carries(Scanned(ls, breaks), ls)
  {
    hide TrimCR, Scanned;
    forall i | 0 <= i < |ls|
      ensures TrimCR(Scanned(ls, breaks)[i]) == ls[i] && |Scanned(ls, breaks)[i]| < MAX_LINE
    {
      ScannedAt(ls, breaks, i);
    }
  }

  lemma {:induction false} SourceLinesWritten(ws: seq<Wrapped>, after: seq<string>)
    requires Placeable(ws, after)
    ensures forall i :: 0 <= i < |SourceLines(ws, after)| ==> Written(SourceLines(ws, after)[i])
    decreases |ws|
  {
    hide Written, Carried;
    if ws != [] {
      SourceLinesWritten(ws[1..], after);
      FixedLinesWritten();
      assert PlainLines(ws[0].before) && CommentLines(ws[0].comments, ws[0].body);
    }
  }

  lemma FixedLinesWritten()
    ensures Written("# /// script") && Written("# ///")
  {
  }

  /** For every list of blocks wrapped as comments, empty body lines written "# " or "#", among
      lines without an opener, each line ended by LF or CRLF as it pleases and the last perhaps
      by nothing: exactly those blocks come out, with their bodies and the lines of their openers. */
  lemma WrappedBlocksExtracted(ws: seq<Wrapped>, after: seq<string>, breaks: seq<string>)
    requires Placeable(ws, after) && Breaks(SourceLines(ws, after), breaks)
    ensures var r := Extract(RawLines(SourceText(SourceLines(ws, after), breaks)), INITIAL);
            r.Blocks? && AreBlocks(r.blocks, ws)
  {
    hide Extract, RawLines, SourceText, TrimCR, Carries, SourceLines, BlocksFor, Terminated;
    var ls := SourceLines(ws, after);
    SourceLinesWritten(ws, after);
    TextScans(ls, breaks);
    var raws := Scanned(ls, breaks);
    ScannedCarries(ls, breaks);
    BlocksRead(raws, ws, after, [], INITIAL);
    assert raws + [] == raws;
    var end := State(|raws|, false, 0, "", [] + BlocksFor(ws, 0));
    NoLines(end);
    assert [] + BlocksFor(ws, 0) == BlocksFor(ws, 0);
    forall k | 0 <= k < |ws|
      ensures BlocksFor(ws, 0)[k] == Block(Terminated(ws[k].body), |SourceLines(ws[..k], ws[k].before)| + 1)
    {
      BlocksForAt(ws, 0, k);
    }
  }

  // ---------------------------------------------------------------- what is refused

  /** Where a scan stands that has read blocks, an opener and some of its comments. */
  lemma OpenedRead(raws: seq<string>, ws: seq<Wrapped>, w: Wrapped, before: seq<string>, opener: string,
                   comments: seq<string>, tail: seq<string>) returns (st: State)
    requires Placeable(ws, []) && Carries(raws, SourceLines(ws, []))
    requires Carries(before, w.before) && PlainLines(w.before) && TrimCR(opener) == "# /// script" && |opener| < MAX_LINE
    requires Carries(comments, w.comments) && CommentLines(w.comments, w.body)
    ensures Extract(raws + (before + ([opener] + (comments + tail))), INITIAL) == Extract(tail, st)
    ensures st.inBlock && st.blockStart == |raws| + |before| + 1 && st.lineNum == st.blockStart + |comments|
  {
    hide Extract, TrimCR, Carries, SourceLines, PlainLines, CommentLines;
    var behind := State(|raws|, false, 0, "", [] + BlocksFor(ws, 0));
    BlocksRead(raws, ws, [], before + ([opener] + (comments + tail)), INITIAL);
    BlockReads(before, opener, comments, w, tail, behind);
    st := State(|raws| + |before| + 1 + |comments|, true, |raws| + |before| + 1, Terminated(w.body), behind.blocks);
  }

  /** A block that is never closed is reported with its opener's line; a line in it that is no
      comment with its own; a line too long for the scanner's buffer as such. */
  lemma BadBlockRefused(raws: seq<string>, ws: seq<Wrapped>, w: Wrapped, before: seq<string>, opener: string,
                        comments: seq<string>, bad: string, more: seq<string>)
    requires Placeable(ws, []) && Carries(raws, SourceLines(ws, []))
    requires Carries(before, w.before) && PlainLines(w.before) && TrimCR(opener) == "# /// script" && |opener| < MAX_LINE
    requires Carries(comments, w.comments) && CommentLines(w.comments, w.body)
    ensures Extract(raws + (before + ([opener] + (comments + []))), INITIAL) == Unterminated(|raws| + |before| + 1)
    ensures |bad| >= 1048576 ==> Extract(raws + (before + ([opener] + (comments + ([bad] + more)))), INITIAL) == LineTooLong
    ensures |bad| < 1048576 && TrimCR(bad) != "#" && !("# " <= TrimCR(bad)) ==>
              Extract(raws + (before + ([opener] + (comments + ([bad] + more)))), INITIAL) ==
              NotAComment(|raws| + |before| + 1 + |comments| + 1)
  {
    hide Extract, TrimCR, Carries, SourceLines, PlainLines, CommentLines;
    var open := OpenedRead(raws, ws, w, before, opener, comments, []);
    NoLines(open);
    var st := OpenedRead(raws, ws, w, before, opener, comments, [bad] + more);
    FirstLine(bad, more, st);
    assert "# " <= CLOSER;
  }

  /** A line too long is refused outside a block too. */
  lemma LongLineRefused(raws: seq<string>, ws: seq<Wrapped>, after: seq<string>, bad: string, more: seq<string>)
    requires Placeable(ws, after) && Carries(raws, SourceLines(ws, after)) && |bad| >= 1048576
    ensures Extract(raws + ([bad] + more), INITIAL) == LineTooLong
  {
    hide Extract, TrimCR, Carries, SourceLines;
    BlocksRead(raws, ws, after, [bad] + more, INITIAL);
    FirstLine(bad, more, State(|raws|, false, 0, "", [] + BlocksFor(ws, 0)));
  }
}
