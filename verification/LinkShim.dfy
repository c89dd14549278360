/** The Unix link: a shell script whose exec line must mean the same argv. */
module LinkShim {
  // The lexer follows sections 2.2.1, 2.2.2 and 2.3 of the Shell Command Language in
  // POSIX.1-2017 for quoting, blanks, newlines and comments; of double quotes it knows the
  // word "$@" alone, and any other unquoted special character makes it give up.

  import opened Text
  import opened Link

  // ---------------------------------------------------------------- a POSIX shell lexer

  /** One word of a command: a literal, or all of the caller's arguments. */
  datatype Word = Literal(text: string) | AllArgs

  predicate Plain(c: char) {
    'a' <= c <= 'z' || 'A' <= c <= 'Z' || '0' <= c <= '9' || c == '-' || c == '_' || c == '.' || c == '/' || c == '='
  }

  predicate Delimiter(s: string) {
    s == [] || s[0] == ' ' || s[0] == '\t' || s[0] == '\n'
  }

  function Flush(word: Option<string>, cmd: seq<Word>): seq<Word> {
    if word.Some? then cmd + [Literal(word.value)] else cmd
  }

  function Append(word: Option<string>, t: string): Option<string> {
    Some(if word.Some? then word.value + t else t)
  }

  /** Reads one command up to its newline: its words, and the text after it. `word` is
      the word being read, if one has started. None when the text is not understood. */
  function Lex(s: string, word: Option<string>, cmd: seq<Word>): Option<(seq<Word>, string)>
    decreases |s|
  {
    if s == [] then Some((Flush(word, cmd), []))
    else if s[0] == '\n' then Some((Flush(word, cmd), s[1..]))
    else if s[0] == ' ' || s[0] == '\t' then Lex(s[1..], None, Flush(word, cmd))
    else if s[0] == '#' && word.None? then
      var j := IndexOf(s, '\n');
      Lex(if j < 0 then [] else s[j..], None, cmd)
    else if s[0] == '\'' then
      var j := IndexOf(s[1..], '\'');
      if j < 0 then None else Lex(s[j + 2..], Append(word, s[1..j + 1]), cmd)
    else if s[0] == '\\' then
      if |s| == 1 then None
      else if s[1] == '\n' then Lex(s[2..], word, cmd)
      else Lex(s[2..], Append(word, [s[1]]), cmd)
    else if s[0] == '"' then
      if word.None? && "\"$@\"" <= s && Delimiter(s[4..]) then Lex(s[4..], None, cmd + [AllArgs]) else None
    else if Plain(s[0]) || s[0] == '#' then Lex(s[1..], Append(word, [s[0]]), cmd)
    else None
  }

  lemma {:induction false} LexShrinks(s: string, word: Option<string>, cmd: seq<Word>)
    ensures var r := Lex(s, word, cmd); r.Some? && s != [] ==> |r.value.1| < |s|
    decreases |s|
  {
    if s == [] || s[0] == '\n' {
    } else if s[0] == ' ' || s[0] == '\t' {
      LexShrinks(s[1..], None, Flush(word, cmd));
    } else if s[0] == '#' && word.None? {
      var j := IndexOf(s, '\n');
      if j >= 0 { LexShrinks(s[j..], None, cmd); }
    } else if s[0] == '\'' {
      var j := IndexOf(s[1..], '\'');
      if j >= 0 { LexShrinks(s[j + 2..], Append(word, s[1..j + 1]), cmd); }
    } else if s[0] == '\\' {
      if |s| > 1 {
        LexShrinks(s[2..], word, cmd);
        LexShrinks(s[2..], Append(word, [s[1]]), cmd);
      }
    } else if s[0] == '"' {
      if |s| >= 4 { LexShrinks(s[4..], None, cmd + [AllArgs]); }
    } else {
      LexShrinks(s[1..], Append(word, [s[0]]), cmd);
    }
  }

  /** The commands of a script, empty lines and comment lines dropped. */
  function Commands(s: string): Option<seq<seq<Word>>>
    decreases |s|
  {
    if s == [] then Some([]) else
      LexShrinks(s, None, []);
      match Lex(s, None, [])
      case None => None
      case Some((cmd, rest)) =>
        match Commands(rest)
        case None => None
        case Some(more) => Some(if cmd == [] then more else [cmd] + more)
  }

  /** The fields of a command once "$@" is replaced by the caller's arguments. */
  function Expand(cmd: seq<Word>, caller: seq<string>): seq<string> {
    if cmd == [] then []
    else (if cmd[0].AllArgs? then caller else [cmd[0].text]) + Expand(cmd[1..], caller)
  }

  // ---------------------------------------------------------------- quoting

  function ReplaceQuote(c: char): string {
    if c == '\'' then "'\\''" else [c]
  }

  function ReplaceQuotes(s: string): string {
    if s == [] then [] else ReplaceQuote(s[0]) + ReplaceQuotes(s[1..])
  }

  function ShSingleQuote(s: string): string {
    "'" + ReplaceQuotes(s) + "'"
  }

  lemma {:induction false} NothingToReplace(s: string)
    requires '\'' !in s
    ensures ReplaceQuotes(s) == s
  {
    if s != [] { NothingToReplace(s[1..]); }
  }

  lemma {:induction false} ReplaceConcat(a: string, b: string)
    ensures ReplaceQuotes(a + b) == ReplaceQuotes(a) + ReplaceQuotes(b)
  {
    hide ReplaceQuote;
    if a == [] {
      assert a + b == b;
    } else {
      ReplaceConcat(a[1..], b);
      assert (a + b)[1..] == a[1..] + b;
      var h, x, y := ReplaceQuote(a[0]), ReplaceQuotes(a[1..]), ReplaceQuotes(b);
      assert h + (x + y) == h + x + y;
    }
  }

  /** A single quote takes everything up to the next one. */
  lemma LexQuote(inner: string, j: nat, word: Option<string>, cmd: seq<Word>)
    requires j < |inner| && j == IndexOf(inner, '\'')
    ensures Lex("'" + inner, word, cmd) == Lex(inner[j + 1..], Append(word, inner[..j]), cmd)
  {
    hide IndexOf, Append;
    var s := "'" + inner;
    assert s[1..] == inner;
    assert s[1..j + 1] == inner[..j] && s[j + 2..] == inner[j + 1..];
  }

  lemma QuoteEnds(t: string, rest: string)
    requires '\'' !in t
    ensures var inner := t + "'" + rest;
            IndexOf(inner, '\'') == |t| && inner[..|t|] == t && inner[|t| + 1..] == rest
  {
    var inner := t + "'" + rest;
    assert inner[|t|] == '\'';
    assert forall i :: 0 <= i < |t| ==> inner[i] == t[i];
  }

  /** Text without a quote, in single quotes, extends the word by exactly itself. */
  lemma QuotedRun(t: string, rest: string, word: Option<string>, cmd: seq<Word>)
    requires '\'' !in t
    ensures Lex("'" + t + "'" + rest, word, cmd) == Lex(rest, Append(word, t), cmd)
  {
    hide Lex, IndexOf;
    var inner := t + "'" + rest;
    QuoteEnds(t, rest);
    LexQuote(inner, |t|, word, cmd);
    assert "'" + t + "'" + rest == "'" + inner;
  }

  lemma EscapedQuote(rest: string, word: Option<string>, cmd: seq<Word>)
    ensures Lex("\\'" + rest, word, cmd) == Lex(rest, Append(word, "'"), cmd)
  {
    var s := "\\'" + rest;
    assert s[2..] == rest && s[0] == '\\' && s[1] == '\'';
  }

  lemma Regroup(q: string, e: string, a: string, b: string)
    ensures q + (a + (q + e + q + b)) + q == q + a + q + (e + (q + b + q))
  {
  }

  lemma QuoteSplits(a: string, b: string)
    requires '\'' !in a
    ensures ShSingleQuote(a + "'" + b) == "'" + a + "'" + ("\\'" + ShSingleQuote(b))
  {
    var tail := "'" + b;
    NothingToReplace(a);
    ReplaceConcat(a, tail);
    assert a + "'" + b == a + tail;
    assert tail[0] == '\'' && tail[1..] == b;
    assert ReplaceQuotes(tail) == "'" + "\\'" + "'" + ReplaceQuotes(b);
    hide ReplaceQuotes;
    Regroup("'", "\\'", a, ReplaceQuotes(b));
  }

  /** Every quoted literal is one word, equal to the original string, whatever it contains. */
  lemma {:induction false} QuotedLiteral(x: string, rest: string, word: Option<string>, cmd: seq<Word>)
    ensures Lex(ShSingleQuote(x) + rest, word, cmd) == Lex(rest, Append(word, x), cmd)
    decreases |x|
  {
    hide Lex, ReplaceQuotes;
    var j := IndexOf(x, '\'');
    if j < 0 {
      NothingToReplace(x);
      QuotedRun(x, rest, word, cmd);
    } else {
      var a, b := x[..j], x[j + 1..];
      assert x == a + "'" + b;
      QuoteSplits(a, b);
      hide ShSingleQuote;
      var tail := ShSingleQuote(b) + rest;
      assert "'" + a + "'" + ("\\'" + ShSingleQuote(b)) + rest == "'" + a + "'" + ("\\'" + tail);
      QuotedRun(a, "\\'" + tail, word, cmd);
      EscapedQuote(tail, Append(word, a), cmd);
      QuotedLiteral(b, rest, Append(Append(word, a), "'"), cmd);
      AppendAppend(word, a, "'");
      AppendAppend(word, a + "'", b);
    }
  }

  lemma AppendAppend(word: Option<string>, a: string, b: string)
    ensures Append(Append(word, a), b) == Append(word, a + b)
  {
    if word.Some? {
      assert word.value + a + b == word.value + (a + b);
    }
  }

  // ---------------------------------------------------------------- the script

  /** The pieces of the exec line after `exec`. */
  datatype Token = Bare(text: string) | Quoted(text: string) | Flag(name: string, value: string)

  function Meaning(t: Token): string {
    match t
    case Bare(text) => text
    case Quoted(text) => text
    case Flag(name, value) => name + value
  }

  function Render(t: Token): string {
    match t
    case Bare(text) => text
    case Quoted(text) => ShSingleQuote(text)
    case Flag(name, value) => name + ShSingleQuote(value)
  }

  /** Unquoted text is made of characters the shell takes literally. */
  predicate Tame(t: Token) {
    (t.Bare? ==> t.text != "" && forall c :: c in t.text ==> Plain(c)) &&
    (t.Flag? ==> t.name != "" && forall c :: c in t.name ==> Plain(c))
  }

  function RenderAll(ts: seq<Token>): string {
    if ts == [] then "" else " " + Render(ts[0]) + RenderAll(ts[1..])
  }

  function MountTokens(mounts: seq<string>): seq<Token> {
    if mounts == [] then [] else [Bare("--mount"), Quoted(mounts[0])] + MountTokens(mounts[1..])
  }

  function DbTokens(db: string): seq<Token> {
    if db != "" then [Bare("--db"), Quoted(db)] else []
  }

  function TraceTokens(spec: LinkSpec): seq<Token> {
    if spec.traceLevelSet then [Flag("--trace-http=", TraceLevelName(spec.traceLevel))] else []
  }

  function ToolTokens(tool: string): seq<Token> {
    if tool != "" then [Quoted(tool)] else []
  }

  function Tokens(spec: LinkSpec): seq<Token> {
    [Quoted(spec.particleBin), Bare("run")] + DbTokens(spec.dbPath) + MountTokens(spec.mounts) + TraceTokens(spec)
    + [Quoted(spec.target)] + ToolTokens(spec.tool)
  }

  const TAIL := " \"$@\"" + "\n"
  const INTERPRETER := "!/bin/sh"
  const REMARK := " generated by `particle link` -> "

  function ExecLine(spec: LinkSpec): string {
    "exec" + RenderAll(Tokens(spec)) + TAIL
  }

  /** The whole script. */
  function ShimText(spec: LinkSpec): string {
    "#" + INTERPRETER + "\n" + "#" + REMARK + Description(spec) + "\n" + ExecLine(spec)
  }

  lemma {:induction false} RenderAllConcat(a: seq<Token>, b: seq<Token>)
    ensures RenderAll(a + b) == RenderAll(a) + RenderAll(b)
    decreases |a|
  {
    hide Render;
    if a == [] {
      assert a + b == b;
    } else {
      RenderAllConcat(a[1..], b);
      assert (a + b)[1..] == a[1..] + b;
      var h, x, y := " " + Render(a[0]), RenderAll(a[1..]), RenderAll(b);
      assert h + (x + y) == h + x + y;
    }
  }

  /** `run` and its flags, up to the target. */
  method WriteFlags(spec: LinkSpec, start: string) returns (out: string, ghost ts: seq<Token>)
    ensures ts == [Quoted(spec.particleBin), Bare("run")] + DbTokens(spec.dbPath) + MountTokens(spec.mounts)
    ensures out == start + RenderAll(ts)
  {
    hide RenderAll, Render, ShSingleQuote;
    ts := AppendQuoted(start, start, [], spec.particleBin);
    out := start + " ";
    out := out + ShSingleQuote(spec.particleBin);
    ts := AppendBare(start, out, ts, "run");
    out := out + " run";
    if spec.dbPath != "" {
      ts := AppendPair(start, out, ts, "--db", spec.dbPath);
      out := out + " --db ";
      out := out + ShSingleQuote(spec.dbPath);
    }
    out, ts := WriteMounts(spec.mounts, start, out, ts);
  }

  method WriteMounts(mounts: seq<string>, ghost start: string, out0: string, ghost ts0: seq<Token>)
    returns (out: string, ghost ts: seq<Token>)
    requires out0 == start + RenderAll(ts0)
    ensures ts == ts0 + MountTokens(mounts) && out == start + RenderAll(ts)
  {
    hide RenderAll, Render, ShSingleQuote;
    out, ts := out0, ts0;
    var i := 0;
    while i < |mounts|
      invariant 0 <= i <= |mounts|
      invariant out == start + RenderAll(ts)
      invariant ts + MountTokens(mounts[i..]) == ts0 + MountTokens(mounts)
    {
      assert mounts[i..][1..] == mounts[i + 1..];
      ts := AppendPair(start, out, ts, "--mount", mounts[i]);
      out := out + " --mount ";
      out := out + ShSingleQuote(mounts[i]);
      i := i + 1;
    }
    assert ts == ts0 + MountTokens(mounts);
  }

  method ShimScript(spec: LinkSpec) returns (out: string)
    ensures out == ShimText(spec)
  {
    hide RenderAll, Render, ShSingleQuote, Description;
    var note := DescribeLink(spec);
    out := "#" + INTERPRETER + "\n";
    out := out + "#" + REMARK + note + "\n";
    out := out + "exec";
    ghost var head := out;
    ghost var ts;
    out, ts := WriteFlags(spec, out);
    if spec.traceLevelSet {
      ts := AppendFlag(head, out, ts, "--trace-http=", TraceLevelName(spec.traceLevel));
      out := out + " --trace-http=";
      out := out + ShSingleQuote(TraceLevelName(spec.traceLevel));
    }
    ts := AppendQuoted(head, out, ts, spec.target);
    out := out + " ";
    out := out + ShSingleQuote(spec.target);
    if spec.tool != "" {
      ts := AppendQuoted(head, out, ts, spec.tool);
      out := out + " ";
      out := out + ShSingleQuote(spec.tool);
    }
    assert ts == Tokens(spec);
    out := out + TAIL;
  }

  lemma AppendOne(head: string, out: string, ts: seq<Token>, t: Token) returns (longer: seq<Token>)
    requires out == head + RenderAll(ts)
    ensures longer == ts + [t] && out + " " + Render(t) == head + RenderAll(longer)
  {
    hide Render;
    longer := ts + [t];
    RenderAllConcat(ts, [t]);
    assert [t][1..] == [];
    assert RenderAll([t]) == " " + Render(t);
  }

  lemma AppendBare(head: string, out: string, ts: seq<Token>, x: string) returns (longer: seq<Token>)
    requires out == head + RenderAll(ts)
    ensures longer == ts + [Bare(x)] && out + (" " + x) == head + RenderAll(longer)
  {
    hide RenderAll;
    longer := AppendOne(head, out, ts, Bare(x));
    assert out + " " + x == out + (" " + x);
  }

  lemma AppendQuoted(head: string, out: string, ts: seq<Token>, x: string) returns (longer: seq<Token>)
    requires out == head + RenderAll(ts) || (ts == [] && out == head)
    ensures longer == ts + [Quoted(x)] && out + " " + ShSingleQuote(x) == head + RenderAll(longer)
  {
    longer := AppendOne(head, out, ts, Quoted(x));
  }

  lemma AppendFlag(head: string, out: string, ts: seq<Token>, name: string, x: string) returns (longer: seq<Token>)
    requires out == head + RenderAll(ts)
    ensures longer == ts + [Flag(name, x)] && out + (" " + name) + ShSingleQuote(x) == head + RenderAll(longer)
  {
    hide RenderAll, ShSingleQuote;
    longer := AppendOne(head, out, ts, Flag(name, x));
    assert out + " " + (name + ShSingleQuote(x)) == out + (" " + name) + ShSingleQuote(x);
  }

  lemma AppendPair(head: string, out: string, ts: seq<Token>, flag: string, x: string) returns (longer: seq<Token>)
    requires out == head + RenderAll(ts)
    ensures longer == ts + [Bare(flag), Quoted(x)]
    ensures out + (" " + flag + " ") + ShSingleQuote(x) == head + RenderAll(longer)
  {
    hide RenderAll, ShSingleQuote;
    var one := AppendBare(head, out, ts, flag);
    longer := AppendQuoted(head, out + (" " + flag), one, x);
    assert longer == ts + [Bare(flag), Quoted(x)];
    assert out + (" " + flag) + " " == out + (" " + flag + " ");
  }

  /** The script is for sh, its comment says what it runs, and the exec line is its last. */
  lemma ShimLayout(spec: LinkSpec)
    ensures ShimText(spec) ==
            "#!/bin/sh" + "\n" + "# generated by `particle link` -> " + Description(spec) + "\n" + ExecLine(spec)
  {
    hide Description, ExecLine;
    assert "#" + INTERPRETER == "#!/bin/sh";
    assert "#" + REMARK == "# generated by `particle link` -> ";
    var head, note, line := "#" + INTERPRETER + "\n", Description(spec), ExecLine(spec);
    assert head + "#" + REMARK == head + ("#" + REMARK);
  }

  // ---------------------------------------------------------------- what the shell makes of it

  lemma {:induction false} PlainRun(t: string, rest: string, word: Option<string>, cmd: seq<Word>)
    requires t != "" && forall c :: c in t ==> Plain(c)
    ensures Lex(t + rest, word, cmd) == Lex(rest, Append(word, t), cmd)
    decreases |t|
  {
    var s := t + rest;
    assert s[0] == t[0] && t[0] in t && s[1..] == t[1..] + rest;
    if |t| == 1 {
      assert t == [t[0]] && t[1..] + rest == rest;
    } else {
      PlainRun(t[1..], rest, Append(word, [t[0]]), cmd);
      AppendAppend(word, [t[0]], t[1..]);
      assert t == [t[0]] + t[1..];
    }
  }

  lemma BlankEndsWord(rest: string, word: Option<string>, cmd: seq<Word>)
    ensures Lex(" " + rest, word, cmd) == Lex(rest, None, Flush(word, cmd))
  {
    assert (" " + rest)[1..] == rest;
  }

  /** A rendered token starts and is one word: its meaning. */
  lemma TokenLexes(t: Token, rest: string, word: Option<string>, cmd: seq<Word>)
    requires Tame(t)
    ensures Lex(" " + Render(t) + rest, word, cmd) == Lex(rest, Some(Meaning(t)), Flush(word, cmd))
  {
    hide Lex;
    assert " " + Render(t) + rest == " " + (Render(t) + rest);
    BlankEndsWord(Render(t) + rest, word, cmd);
    match t {
      case Bare(text) =>
        PlainRun(text, rest, None, Flush(word, cmd));
      case Quoted(text) =>
        QuotedLiteral(text, rest, None, Flush(word, cmd));
      case Flag(name, value) =>
        assert name + ShSingleQuote(value) + rest == name + (ShSingleQuote(value) + rest);
        PlainRun(name, ShSingleQuote(value) + rest, None, Flush(word, cmd));
        QuotedLiteral(value, rest, Append(None, name), Flush(word, cmd));
    }
  }

  function Literals(ts: seq<Token>): seq<Word> {
    if ts == [] then [] else [Literal(Meaning(ts[0]))] + Literals(ts[1..])
  }

  lemma TailLexes(word: string, cmd: seq<Word>)
    ensures Lex(TAIL, Some(word), cmd) == Some((cmd + [Literal(word)] + [AllArgs], []))
  {
    var t := TAIL[1..];
    assert t[..4] == "\"$@\"" && t[4..] == "\n" && "\n"[1..] == [];
    assert Lex("\n", None, cmd + [Literal(word)] + [AllArgs]) == Some((cmd + [Literal(word)] + [AllArgs], []));
    assert Lex(t, None, cmd + [Literal(word)]) == Lex(t[4..], None, cmd + [Literal(word)] + [AllArgs]);
  }

  lemma {:induction false} LineLexes(ts: seq<Token>, word: string, cmd: seq<Word>)
    requires forall i :: 0 <= i < |ts| ==> Tame(ts[i])
    ensures Lex(RenderAll(ts) + TAIL, Some(word), cmd) == Some((cmd + [Literal(word)] + Literals(ts) + [AllArgs], []))
    decreases |ts|
  {
    hide Lex, Render;
    if ts == [] {
      TailLexes(word, cmd);
      assert RenderAll(ts) + TAIL == TAIL;
      assert cmd + [Literal(word)] + Literals(ts) == cmd + [Literal(word)];
    } else {
      var rest := RenderAll(ts[1..]) + TAIL;
      assert RenderAll(ts) + TAIL == " " + Render(ts[0]) + rest;
      TokenLexes(ts[0], rest, Some(word), cmd);
      LineLexes(ts[1..], Meaning(ts[0]), cmd + [Literal(word)]);
      assert cmd + [Literal(word)] + [Literal(Meaning(ts[0]))] + Literals(ts[1..]) == cmd + [Literal(word)] + Literals(ts);
    }
  }

  lemma CommentLexes(text: string, rest: string)
    requires '\n' !in text
    ensures Lex("#" + text + "\n" + rest, None, []) == Some(([], rest))
  {
    var s := "#" + text + "\n" + rest;
    var n := |text| + 1;
    assert s[n] == '\n' && s[n..] == "\n" + rest && s[n..][1..] == rest;
    assert forall i :: 0 < i < n ==> s[i] == text[i - 1];
    assert IndexOf(s, '\n') == n;
  }

  /** A comment line is no command. */
  lemma CommentDropped(text: string, rest: string)
    requires '\n' !in text
    ensures Commands("#" + text + "\n" + rest) == Commands(rest)
  {
    CommentLexes(text, rest);
  }

  /** The tokens, one by one, are safe to write and mean the arguments. */
  ghost predicate Denote(ts: seq<Token>, args: seq<string>) {
    |ts| == |args| && forall i :: 0 <= i < |ts| ==> Tame(ts[i]) && Meaning(ts[i]) == args[i]
  }

  lemma DenoteConcat(a: seq<Token>, x: seq<string>, b: seq<Token>, y: seq<string>)
    requires Denote(a, x) && Denote(b, y)
    ensures Denote(a + b, x + y)
  {
    hide Tame, Meaning;
  }

  lemma {:induction false} MountsDenote(mounts: seq<string>)
    ensures Denote(MountTokens(mounts), MountArgs(mounts))
  {
    if mounts != [] {
      MountsDenote(mounts[1..]);
      DenoteConcat([Bare("--mount"), Quoted(mounts[0])], ["--mount", mounts[0]], MountTokens(mounts[1..]), MountArgs(mounts[1..]));
    }
  }

  lemma PiecesDenote(spec: LinkSpec)
    ensures Denote([Quoted(spec.particleBin), Bare("run")], [spec.particleBin, "run"])
    ensures Denote(DbTokens(spec.dbPath), DbArgs(spec.dbPath))
    ensures Denote(TraceTokens(spec), TraceArgs(spec))
    ensures Denote([Quoted(spec.target)], [spec.target])
    ensures Denote(ToolTokens(spec.tool), ToolArgs(spec.tool))
  {
  }

  lemma TokensDenoteArgv(spec: LinkSpec)
    ensures Denote(Tokens(spec), Argv(spec))
  {
    hide Denote, DbTokens, DbArgs, TraceTokens, TraceArgs, ToolTokens, ToolArgs, MountTokens, MountArgs;
    PiecesDenote(spec);
    MountsDenote(spec.mounts);
    var ts, args := [Quoted(spec.particleBin), Bare("run")], [spec.particleBin, "run"];
    DenoteConcat(ts, args, DbTokens(spec.dbPath), DbArgs(spec.dbPath));
    ts, args := ts + DbTokens(spec.dbPath), args + DbArgs(spec.dbPath);
    DenoteConcat(ts, args, MountTokens(spec.mounts), MountArgs(spec.mounts));
    ts, args := ts + MountTokens(spec.mounts), args + MountArgs(spec.mounts);
    DenoteConcat(ts, args, TraceTokens(spec), TraceArgs(spec));
    ts, args := ts + TraceTokens(spec), args + TraceArgs(spec);
    DenoteConcat(ts, args, [Quoted(spec.target)], [spec.target]);
    ts, args := ts + [Quoted(spec.target)], args + [spec.target];
    DenoteConcat(ts, args, ToolTokens(spec.tool), ToolArgs(spec.tool));
  }

  lemma ExpandCons(w: Word, cmd: seq<Word>, caller: seq<string>)
    ensures Expand([w] + cmd, caller) == (if w.AllArgs? then caller else [w.text]) + Expand(cmd, caller)
  {
    assert ([w] + cmd)[1..] == cmd;
  }

  lemma {:induction false} ExpandLiterals(ts: seq<Token>, args: seq<string>, caller: seq<string>)
    requires |ts| == |args| && forall i :: 0 <= i < |ts| ==> Meaning(ts[i]) == args[i]
    ensures Expand(Literals(ts) + [AllArgs], caller) == args + caller
    decreases |ts|
  {
    hide Meaning, Expand;
    if ts == [] {
      ExpandCons(AllArgs, [], caller);
      assert Literals(ts) + [AllArgs] == [AllArgs] + [];
      assert Expand([], caller) == [] by { ExpandNothing(caller); }
    } else {
      var rest := Literals(ts[1..]) + [AllArgs];
      ExpandLiterals(ts[1..], args[1..], caller);
      ExpandCons(Literal(Meaning(ts[0])), rest, caller);
      assert Literals(ts) + [AllArgs] == [Literal(Meaning(ts[0]))] + rest;
      assert args == [args[0]] + args[1..];
    }
  }

  lemma ExpandNothing(caller: seq<string>)
    ensures Expand([], caller) == []
  {
  }

  lemma ExecLexes(ts: seq<Token>)
    requires forall i :: 0 <= i < |ts| ==> Tame(ts[i])
    ensures Lex("exec" + RenderAll(ts) + TAIL, None, []) == Some(([Literal("exec")] + Literals(ts) + [AllArgs], []))
  {
    hide Lex, RenderAll, Literals;
    var rest := RenderAll(ts) + TAIL;
    assert "exec" + RenderAll(ts) + TAIL == "exec" + rest;
    PlainRun("exec", rest, None, []);
    LineLexes(ts, "exec", []);
    assert [] + [Literal("exec")] == [Literal("exec")];
  }

  lemma SingleCommand(line: string, cmd: seq<Word>)
    requires line != [] && cmd != [] && Lex(line, None, []) == Some((cmd, []))
    ensures Commands(line) == Some([cmd])
  {
    hide Lex;
    assert Commands([]) == Some([]);
    assert [cmd] + [] == [cmd];
  }

  // ---------------------------------------------------------------- the comment

  /** Every line is empty or a comment. */
  predicate Quiet(s: string)
    decreases |s|
  {
    s == [] ||
    if s[0] == ' ' || s[0] == '\t' || s[0] == '\n' then Quiet(s[1..])
    else s[0] == '#' && var j := IndexOf(s, '\n'); j < 0 || Quiet(s[j + 1..])
  }

  /** Every line but the first is. */
  predicate QuietNote(note: string) {
    var j := IndexOf(note, '\n');
    j < 0 || Quiet(note[j + 1..])
  }

  predicate Unquoted(c: char) {
    c != '\'' && c != '\\' && c != '"'
  }

  lemma BlankDropped(c: char, s: string)
    requires c == ' ' || c == '\t' || c == '\n'
    ensures Commands([c] + s) == Commands(s)
  {
    var t := [c] + s;
    assert t[1..] == s;
    assert Lex([], None, []) == Some(([], [])) && Commands([]) == Some([]);
  }

  lemma CutLine(s: string, j: nat)
    requires j < |s| && j == IndexOf(s, '\n')
    ensures s == s[..j] + "\n" + s[j + 1..] && '\n' !in s[..j]
  {
    hide IndexOf;
    NoneBefore(s, j);
    CutAround(s, j);
  }

  lemma CutAround(s: string, j: nat)
    requires j < |s| && s[j] == '\n'
    ensures s == s[..j] + "\n" + s[j + 1..]
  {
  }

  lemma NoneBefore(s: string, j: nat)
    requires j < |s| && j == IndexOf(s, '\n')
    ensures '\n' !in s[..j]
  {
    hide IndexOf;
    assert forall i :: 0 <= i < j ==> s[..j][i] == s[i];
  }

  /** Quiet lines add no command. */
  lemma {:induction false} QuietDropped(a: string, line: string)
    requires Quiet(a)
    ensures Commands(a + "\n" + line) == Commands(line)
    decreases |a|
  {
    hide Commands, IndexOf;
    var s := a + "\n" + line;
    if a == [] {
      assert s == ['\n'] + line;
      BlankDropped('\n', line);
    } else if a[0] == '#' {
      var j := IndexOf(a, '\n');
      if j < 0 {
        assert a == "#" + a[1..];
        CommentDropped(a[1..], line);
      } else {
        CutLine(a, j);
        assert a[..j] == "#" + a[1..j];
        var more := a[j + 1..] + "\n" + line;
        assert s == "#" + a[1..j] + "\n" + more;
        assert '\n' !in a[1..j] by { assert forall i :: 0 <= i < j - 1 ==> a[1..j][i] == a[..j][i + 1]; }
        CommentDropped(a[1..j], more);
        QuietDropped(a[j + 1..], line);
      }
    } else {
      assert s == [a[0]] + (a[1..] + "\n" + line);
      BlankDropped(a[0], a[1..] + "\n" + line);
      QuietDropped(a[1..], line);
    }
  }

  /** A word has started, or is about to. */
  predicate Speaks(t: string, word: Option<string>, cmd: seq<Word>) {
    cmd != [] || word.Some? || (t != [] && t[0] != ' ' && t[0] != '\t' && t[0] != '#')
  }

  /** Without quotes or backslashes a command ends with its line, if it is understood. */
  lemma {:induction false} LineEndsCommand(t: string, rest: string, word: Option<string>, cmd: seq<Word>)
    requires '\n' !in t && forall c :: c in t ==> Unquoted(c)
    ensures var r := Lex(t + "\n" + rest, word, cmd);
            r.Some? ==> r.value.1 == rest && (Speaks(t, word, cmd) ==> r.value.0 != [])
    decreases |t|
  {
    hide IndexOf;
    var s := t + "\n" + rest;
    if t == [] {
      assert s[0] == '\n' && s[1..] == rest;
    } else {
      assert s[0] == t[0] && t[0] in t && s[1..] == t[1..] + "\n" + rest;
      if t[0] == ' ' || t[0] == '\t' {
        LineEndsCommand(t[1..], rest, None, Flush(word, cmd));
      } else if t[0] == '#' && word.None? {
        CommentEnds(t, rest, cmd);
      } else if Plain(t[0]) || t[0] == '#' {
        LineEndsCommand(t[1..], rest, Append(word, [t[0]]), cmd);
      }
    }
  }

  lemma CommentEnds(t: string, rest: string, cmd: seq<Word>)
    requires t != [] && t[0] == '#' && '\n' !in t
    ensures Lex(t + "\n" + rest, None, cmd) == Some((cmd, rest))
  {
    var s := t + "\n" + rest;
    assert s[|t|] == '\n' && forall i :: 0 <= i < |t| ==> s[i] == t[i] && t[i] in t;
    assert IndexOf(s, '\n') == |t|;
    assert s[|t|..] == "\n" + rest && ("\n" + rest)[1..] == rest;
  }

  lemma LoudLine(t: string, rest: string)
    requires '\n' !in t && (forall c :: c in t ==> Unquoted(c)) && Speaks(t, None, [])
    ensures var r := Commands(t + "\n" + rest);
            r.Some? ==> Commands(rest).Some? && |r.value| == 1 + |Commands(rest).value|
  {
    LineEndsCommand(t, rest, None, []);
    hide Lex;
    assert t + "\n" + rest != [];
  }

  /** Any other line adds one, or makes the script unreadable. */
  lemma {:induction false} LoudAdds(a: string, line: string)
    requires forall c :: c in a ==> Unquoted(c)
    ensures var r := Commands(a + "\n" + line);
            r.Some? ==> Commands(line).Some? && |r.value| >= |Commands(line).value| + if Quiet(a) then 0 else 1
    decreases |a|
  {
    hide Commands, IndexOf;
    var s := a + "\n" + line;
    if Quiet(a) {
      QuietDropped(a, line);
    } else if a[0] == ' ' || a[0] == '\t' || a[0] == '\n' {
      assert s == [a[0]] + (a[1..] + "\n" + line);
      BlankDropped(a[0], a[1..] + "\n" + line);
      LoudAdds(a[1..], line);
    } else {
      var j := IndexOf(a, '\n');
      if j < 0 {
        LoudLine(a, line);
      } else {
        CutLine(a, j);
        var more := a[j + 1..] + "\n" + line;
        assert s == a[..j] + "\n" + more;
        assert forall c :: c in a[..j] ==> c in a;
        assert forall c :: c in a[j + 1..] ==> c in a;
        LoudAdds(a[j + 1..], line);
        if a[0] == '#' {
          assert a[..j] == "#" + a[1..j];
          assert '\n' !in a[1..j] by { assert forall i :: 0 <= i < j - 1 ==> a[1..j][i] == a[..j][i + 1]; }
          CommentDropped(a[1..j], more);
        } else {
          LoudLine(a[..j], more);
        }
      }
    }
  }

  lemma HeadsAreOneLine()
    ensures '\n' !in INTERPRETER && '\n' !in REMARK
  {
  }

  lemma InterpreterDropped(spec: LinkSpec)
    ensures Commands(ShimText(spec)) == Commands("#" + (REMARK + Description(spec)) + "\n" + ExecLine(spec))
  {
    hide Commands, ExecLine, Description;
    HeadsAreOneLine();
    var head, remark, note, line := INTERPRETER, REMARK, Description(spec), ExecLine(spec);
    assert "#" + head + "\n" + "#" + remark + note + "\n" + line == "#" + head + "\n" + ("#" + (remark + note) + "\n" + line);
    CommentDropped(head, "#" + (remark + note) + "\n" + line);
  }

  lemma NoteDropped(remark: string, note: string, line: string)
    requires '\n' !in remark
    ensures var j := IndexOf(note, '\n');
            Commands("#" + (remark + note) + "\n" + line) == Commands(if j < 0 then line else note[j + 1..] + "\n" + line)
  {
    hide Commands, IndexOf;
    var j := IndexOf(note, '\n');
    if j < 0 {
      CommentDropped(remark + note, line);
    } else {
      CutLine(note, j);
      var more := note[j + 1..] + "\n" + line;
      assert "#" + (remark + note) + "\n" + line == "#" + (remark + note[..j]) + "\n" + more;
      CommentDropped(remark + note[..j], more);
    }
  }

  /** The script up to the end of the comment's first line is no command. */
  lemma CommentLines(spec: LinkSpec)
    ensures var note := Description(spec); var j := IndexOf(note, '\n');
            Commands(ShimText(spec)) == Commands(if j < 0 then ExecLine(spec) else note[j + 1..] + "\n" + ExecLine(spec))
  {
    hide Commands, ExecLine, Description, IndexOf, ShimText;
    HeadsAreOneLine();
    InterpreterDropped(spec);
    NoteDropped(REMARK, Description(spec), ExecLine(spec));
  }

  lemma ExecExpands(ts: seq<Token>, args: seq<string>, caller: seq<string>)
    requires Denote(ts, args)
    ensures Expand([Literal("exec")] + Literals(ts) + [AllArgs], caller) == ["exec"] + args + caller
  {
    ExpandLiterals(ts, args, caller);
    hide Literals, Denote;
    var cmd := [Literal("exec")] + Literals(ts) + [AllArgs];
    assert cmd[0] == Literal("exec") && cmd[1..] == Literals(ts) + [AllArgs];
    assert ["exec"] + args + caller == ["exec"] + (args + caller);
  }

  lemma AllTame(ts: seq<Token>, args: seq<string>)
    requires Denote(ts, args)
    ensures forall i :: 0 <= i < |ts| ==> Tame(ts[i])
  {
    hide Tame, Meaning;
  }

  lemma ExecLineRuns(spec: LinkSpec, caller: seq<string>)
    ensures var cmds := Commands(ExecLine(spec));
            cmds.Some? && |cmds.value| == 1 && Expand(cmds.value[0], caller) == ["exec"] + Argv(spec) + caller
  {
    hide Lex, Commands, RenderAll, Tokens, Argv, Literals, Denote, Tame, Expand;
    var ts := Tokens(spec);
    TokensDenoteArgv(spec);
    ExecExpands(ts, Argv(spec), caller);
    AllTame(ts, Argv(spec));
    ExecLexes(ts);
    SingleCommand(ExecLine(spec), [Literal("exec")] + Literals(ts) + [AllArgs]);
  }

  /** The script is one command: `exec`, exactly the argv the trailer encodes, and then the
      caller's arguments. */
  ghost predicate RunsArgv(spec: LinkSpec, caller: seq<string>) {
    var cmds := Commands(ShimText(spec));
    cmds.Some? && |cmds.value| == 1 && Expand(cmds.value[0], caller) == ["exec"] + Argv(spec) + caller
  }

  /** It is, whatever quotes, blanks or shell metacharacters the strings of the link hold, if
      every line of its description but the first is empty or a comment. */
  lemma ShimRunsArgv(spec: LinkSpec, caller: seq<string>)
    requires QuietNote(Description(spec))
    ensures RunsArgv(spec, caller)
  {
    hide Commands, ExecLine, Description, Argv, Quiet, ShimText, Expand;
    var note := Description(spec);
    var j := IndexOf(note, '\n');
    CommentLines(spec);
    ExecLineRuns(spec, caller);
    if j >= 0 {
      QuietDropped(note[j + 1..], ExecLine(spec));
    }
  }

  /** A link whose mounts, target and tool have no newline in them is of that kind. */
  lemma OneLineRunsArgv(spec: LinkSpec, caller: seq<string>)
    requires '\n' !in spec.target && '\n' !in spec.tool
    requires forall i :: 0 <= i < |spec.mounts| ==> '\n' !in spec.mounts[i]
    ensures RunsArgv(spec, caller)
  {
    hide RunsArgv, Description;
    OneLineDescription(spec);
    ShimRunsArgv(spec, caller);
  }

  /** And where no quote or backslash hides a newline, only then. */
  lemma ShimRunsArgvIff(spec: LinkSpec, caller: seq<string>)
    requires forall c :: c in Description(spec) ==> Unquoted(c)
    ensures RunsArgv(spec, caller) <==> QuietNote(Description(spec))
  {
    hide Commands, ExecLine, Description, Argv, Quiet, ShimText, Expand;
    var note := Description(spec);
    var j := IndexOf(note, '\n');
    if QuietNote(note) {
      ShimRunsArgv(spec, caller);
    } else {
      CommentLines(spec);
      ExecLineRuns(spec, caller);
      assert forall c :: c in note[j + 1..] ==> c in note;
      LoudAdds(note[j + 1..], ExecLine(spec));
    }
  }

  /** With a backslash it can be otherwise: one at the end of the description takes the newline
      before the exec line away, so that a second line changes nothing. */
  lemma ContinuedNoteRuns(bin: string, caller: seq<string>)
    ensures var spec := LinkSpec(bin, "\\", "", ["a=/x" + "\n" + ""], TraceOff, false, "");
            RunsArgv(spec, caller) && !QuietNote(Description(spec))
  {
    var spec := LinkSpec(bin, "\\", "", ["a=/x" + "\n" + ""], TraceOff, false, "");
    OneMountNote(bin, "a=/x", "", "\\");
    assert ("" + " " + "\\")[1..] == "\\";
    assert !Quiet("" + " " + "\\");
    assert ExecLine(spec) != [] by { ExecLineNotEmpty(spec); }
    CommentLines(spec);
    ExecLineRuns(spec, caller);
    hide Commands, ShimText, ExecLine, Description, Expand, Argv;
    Continues(ExecLine(spec));
  }

  lemma ExecLineNotEmpty(spec: LinkSpec)
    ensures ExecLine(spec) != []
  {
    hide RenderAll;
    assert |"exec"| == 4;
  }

  /** The description of a link with one mount, its directory's name on two lines. */
  lemma OneMountNote(bin: string, dir: string, more: string, target: string)
    requires '\n' !in dir
    ensures var note := Description(LinkSpec(bin, target, "", [dir + "\n" + more], TraceOff, false, ""));
            IndexOf(note, '\n') >= 0 && note[IndexOf(note, '\n') + 1..] == more + " " + target
  {
    var mount := dir + "\n" + more;
    var note := Description(LinkSpec(bin, target, "", [mount], TraceOff, false, ""));
    var run := "particle run";
    var flag := " --mount ";
    assert '\n' !in run && '\n' !in flag;
    assert [mount][1..] == [];
    assert MountText([mount]) == flag + mount;
    assert note == run + (flag + mount) + " " + target;
    hide IndexOf;
    Neither(flag, dir);
    Neither(run, flag + dir);
    Regrouped(run, flag, dir, more, target);
    NewlineAt(run + (flag + dir), more + " " + target);
  }

  lemma Regrouped(run: string, flag: string, dir: string, more: string, target: string)
    ensures run + (flag + (dir + "\n" + more)) + " " + target == (run + (flag + dir)) + "\n" + (more + " " + target)
  {
  }

  lemma Continues(line: string)
    requires line != []
    ensures Commands("" + " " + "\\" + "\n" + line) == Commands(line)
  {
    var s := "\\" + "\n" + line;
    assert "" + " " + "\\" + "\n" + line == [' '] + s;
    BlankDropped(' ', s);
    assert s[0] == '\\' && s[1] == '\n' && s[2..] == line;
    assert Lex(s, None, []) == Lex(line, None, []);
    hide Lex;
  }

  const SPLIT_MOUNT := "a=/x" + "\n" + "y"

  /** A mount's directory with a newline in its name: what follows is a command of its own. */
  lemma NewlineMountParts(bin: string)
    ensures var cmds := Commands(ShimText(LinkSpec(bin, "t", "", [SPLIT_MOUNT], TraceOff, false, "")));
            cmds.Some? && |cmds.value| == 2 && cmds.value[0] == [Literal("y"), Literal("t")]
  {
    var spec := LinkSpec(bin, "t", "", [SPLIT_MOUNT], TraceOff, false, "");
    OneMountNote(bin, "a=/x", "y", "t");
    assert "y" + " " + "t" == "y t";
    CommentLines(spec);
    ExecLineRuns(spec, []);
    hide Commands, ShimText, ExecLine, Description;
    SplitLine(ExecLine(spec));
  }

  lemma NewlineAt(head: string, rest: string)
    requires '\n' !in head
    ensures IndexOf(head + "\n" + rest, '\n') == |head| && (head + "\n" + rest)[|head| + 1..] == rest
  {
    var s := head + "\n" + rest;
    assert s[|head|] == '\n' && forall i :: 0 <= i < |head| ==> s[i] == head[i] && head[i] in head;
  }

  lemma SplitLine(line: string)
    requires Commands(line).Some?
    ensures Commands("y t" + "\n" + line) == Some([[Literal("y"), Literal("t")]] + Commands(line).value)
  {
    var s := "y t" + "\n" + line;
    assert s == "y" + (" " + ("t" + ("\n" + line)));
    PlainRun("y", " " + ("t" + ("\n" + line)), None, []);
    BlankEndsWord("t" + ("\n" + line), Some("y"), []);
    PlainRun("t", "\n" + line, None, [Literal("y")]);
    NewlineEnds(line, Some("t"), [Literal("y")]);
    assert [Literal("y")] + [Literal("t")] == [Literal("y"), Literal("t")] && [] + [Literal("y")] == [Literal("y")];
    hide Lex;
  }

  lemma NewlineEnds(rest: string, word: Option<string>, cmd: seq<Word>)
    ensures Lex("\n" + rest, word, cmd) == Some((Flush(word, cmd), rest))
  {
    assert ("\n" + rest)[1..] == rest;
  }
}
