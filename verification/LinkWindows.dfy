/** The Windows link at run time: the command line the launcher builds, and how the child splits it. */
module LinkWindows {
  // The launcher quotes the trailer's argv and appends the caller's own tail verbatim; the child
  // splits the line again as CommandLineToArgvW does. A `char` here is one character: blanks,
  // quotes and backslashes are single UTF-16 units, and nothing else is looked at, so the units
  // of the others may as well be taken together.

  import opened Text

  predicate Blank(c: char) {
    c == ' ' || c == '\t'
  }

  function Slashes(n: nat): (s: string)
    ensures |s| == n && forall i :: 0 <= i < n ==> s[i] == '\\'
  {
    seq(n, i => '\\')
  }

  // ---------------------------------------------------------------- CommandLineToArgvW

  function SkipBlanks(s: string): (r: string)
    ensures |r| <= |s| && (r == [] || !Blank(r[0]))
  {
    if s != [] && Blank(s[0]) then SkipBlanks(s[1..]) else s
  }

  /** The arguments from here on: `cur` is the argument being read, `bs` the backslashes just
      seen, `q` the quotes that are open. */
  function Scan(s: string, cur: string, bs: nat, q: nat): seq<string>
    decreases |s|, 1
  {
    if s == [] then [cur + Slashes(bs)]
    else if Blank(s[0]) && q == 0 then [cur + Slashes(bs)] + Next(s)
    else if s[0] == '\\' then Scan(s[1..], cur, bs + 1, q)
    else if s[0] == '"' then
      if bs % 2 == 0 then Quotes(s[1..], cur + Slashes(bs / 2), q + 1)
      else Quotes(s[1..], cur + Slashes(bs / 2) + "\"", q)
    else Scan(s[1..], cur + Slashes(bs) + [s[0]], 0, q)
  }

  /** A run of quotes: every third one is literal, two close each other. */
  function Quotes(s: string, cur: string, q: nat): seq<string>
    decreases |s|, 2
  {
    if s != [] && s[0] == '"' then
      if q + 1 == 3 then Quotes(s[1..], cur + "\"", 0) else Quotes(s[1..], cur, q + 1)
    else Scan(s, cur, 0, if q == 2 then 0 else q)
  }

  /** The arguments after the blanks that end one. */
  function Next(s: string): seq<string>
    decreases |s|, 0
  {
    var r := SkipBlanks(s);
    if r == [] || |r| == |s| then [] else Scan(r, "", 0, 0)
  }

  /** Where the program's own name ends: at the next quote, or unquoted at the next blank. */
  function NameEnd(s: string): (n: nat)
    ensures n <= |s|
  {
    if s != [] && s[0] == '"' then
      var j := IndexOf(s[1..], '"');
      if j < 0 then |s| else j + 2
    else PlainEnd(s)
  }

  function PlainEnd(s: string): (n: nat)
    ensures n <= |s| && (n < |s| ==> Blank(s[n])) && forall i :: 0 <= i < n ==> !Blank(s[i])
  {
    if s == [] || Blank(s[0]) then 0 else
      var n := PlainEnd(s[1..]);
      assert forall i :: 0 < i < n + 1 ==> s[i] == s[1..][i - 1];
      1 + n
  }

  function ProgramName(s: string): string {
    if s != [] && s[0] == '"' then
      var j := IndexOf(s[1..], '"');
      if j < 0 then s[1..] else s[1..j + 1]
    else s[..PlainEnd(s)]
  }

  /** Everything behind the program's name and the blanks after it. */
  function Tail(s: string): string {
    SkipBlanks(s[NameEnd(s)..])
  }

  function TailArgs(t: string): seq<string> {
    if t == [] then [] else Scan(t, "", 0, 0)
  }

  function CommandLineToArgv(s: string): (args: seq<string>)
    ensures args != []
  {
    [ProgramName(s)] + TailArgs(Tail(s))
  }

  // ---------------------------------------------------------------- the launcher

  predicate NeedsQuotes(arg: string) {
    arg == "" || exists i :: 0 <= i < |arg| && (Blank(arg[i]) || arg[i] == '"')
  }

  /** The text between the quotes: `bs` backslashes precede it. */
  function Body(s: string, bs: nat): string
    decreases |s|
  {
    if s == [] then Slashes(bs * 2)
    else if s[0] == '\\' then Body(s[1..], bs + 1)
    else if s[0] == '"' then Slashes(bs * 2 + 1) + "\"" + Body(s[1..], 0)
    else Slashes(bs) + [s[0]] + Body(s[1..], 0)
  }

  function Quoted(arg: string): string {
    if NeedsQuotes(arg) then "\"" + Body(arg, 0) + "\"" else arg
  }

  /** Only an empty argument, or one with a blank or a quote in it, is put between quotes. */
  lemma QuotedOnlyIf(arg: string)
    ensures arg != "" && ' ' !in arg && '\t' !in arg && '"' !in arg ==> Quoted(arg) == arg
    ensures arg == "" || ' ' in arg || '\t' in arg || '"' in arg ==>
              |Quoted(arg)| >= 2 && Quoted(arg)[0] == '"' && Quoted(arg)[|Quoted(arg)| - 1] == '"'
  {
    hide Body;
  }

  lemma OneSlash(out: string, n: nat)
    ensures out + Slashes(n) + "\\" == out + Slashes(n + 1)
  {
  }

  lemma NoSlashes(out: string)
    ensures out + Slashes(0) == out
  {
  }

  method Push(out0: string, n: nat) returns (out: string)
    ensures out == out0 + Slashes(n)
  {
    out := out0;
    NoSlashes(out0);
    for k := 0 to n
      invariant out == out0 + Slashes(k)
    {
      OneSlash(out0, k);
      out := out + "\\";
    }
  }

  lemma {:induction false} BodySlashes(s: string, i: nat, n: nat, bs: nat)
    requires i + n <= |s| && forall k :: i <= k < i + n ==> s[k] == '\\'
    ensures Body(s[i..], bs) == Body(s[i + n..], bs + n)
    decreases n
  {
    if n > 0 {
      assert s[i..][1..] == s[i + 1..] && s[i..][0] == '\\';
      BodySlashes(s, i + 1, n - 1, bs + 1);
    }
  }

  lemma BodyChar(s: string, i: nat, bs: nat)
    requires i < |s| && s[i] != '\\'
    ensures Body(s[i..], bs) ==
            (if s[i] == '"' then Slashes(bs * 2 + 1) + "\"" else Slashes(bs) + [s[i]]) + Body(s[i + 1..], 0)
  {
    assert s[i..][1..] == s[i + 1..] && s[i..][0] == s[i];
  }

  /** What is still to be written from position `i` on. */
  function Todo(arg: string, i: nat): string
    requires i <= |arg|
  {
    if i < |arg| then Body(arg[i..], 0) else ""
  }

  /** The text one turn of the loop writes: `bs` backslashes, and the character after them. */
  function Turn(arg: string, i: nat, bs: nat): string
    requires i <= |arg|
  {
    if i == |arg| then Slashes(bs * 2)
    else if arg[i] == '"' then Slashes(bs * 2 + 1) + "\"" else Slashes(bs) + [arg[i]]
  }

  lemma TodoTurn(arg: string, start: nat, i: nat)
    requires start <= i <= |arg| && start < |arg|
    requires (forall k :: start <= k < i ==> arg[k] == '\\') && (i < |arg| ==> arg[i] != '\\')
    ensures Todo(arg, start) == Turn(arg, i, i - start) + if i < |arg| then Todo(arg, i + 1) else ""
  {
    hide Slashes, Body;
    var bs := i - start;
    BodySlashes(arg, start, bs, 0);
    assert arg[|arg|..] == "";
    BodyEnd(bs);
    if i < |arg| {
      BodyChar(arg, i, bs);
    } else {
      assert Slashes(bs * 2) + "" == Slashes(bs * 2);
    }
  }

  lemma BodyEnd(bs: nat)
    ensures Body("", bs) == Slashes(bs * 2) && Body("", 0) == ""
  {
  }

  lemma JoinTurn(a: string, b: string, c: string)
    ensures a + (b + c) == (a + b) + c
  {
  }

  /** Writes the backslashes and the character behind them. */
  method WriteTurn(arg: string, i: nat, bs: nat, out0: string) returns (out: string)
    requires i <= |arg|
    ensures out == out0 + Turn(arg, i, bs)
  {
    hide Slashes;
    if i == |arg| {
      out := Push(out0, bs * 2);
    } else if arg[i] == '"' {
      out := Push(out0, bs * 2 + 1);
      out := out + "\"";
      JoinTurn(out0, Slashes(bs * 2 + 1), "\"");
    } else {
      out := Push(out0, bs);
      out := out + [arg[i]];
      JoinTurn(out0, Slashes(bs), [arg[i]]);
    }
  }

  method AppendQuoted(arg: string, out0: string) returns (out: string)
    ensures out == out0 + Quoted(arg)
  {
    hide Body, Slashes, Todo, Turn;
    var needs := arg == "" || exists i :: 0 <= i < |arg| && (Blank(arg[i]) || arg[i] == '"');
    if !needs {
      return out0 + arg;
    }
    hide Blank;
    out := out0 + "\"";
    ghost var open := out;
    ghost var text := Todo(arg, 0);
    var i := 0;
    while i < |arg|
      invariant 0 <= i <= |arg| && out + Todo(arg, i) == open + text
    {
      var start := i;
      var bs := 0;
      while i < |arg| && arg[i] == '\\'
        invariant start <= i <= |arg| && bs == i - start
        invariant forall k :: start <= k < i ==> arg[k] == '\\'
      {
        bs := bs + 1;
        i := i + 1;
      }
      TodoTurn(arg, start, i);
      JoinTurn(out, Turn(arg, i, bs), if i < |arg| then Todo(arg, i + 1) else "");
      TodoDone(arg);
      out := WriteTurn(arg, i, bs, out);
      if i < |arg| {
        i := i + 1;
      }
    }
    TodoDone(arg);
    assert out + "" == out;
    out := out + "\"";
    JoinTurn(out0, "\"", text + "\"");
    JoinTurn(open, text, "\"");
    JoinTurn("\"", text, "\"");
  }

  lemma TodoDone(arg: string)
    ensures Todo(arg, |arg|) == "" && Todo(arg, 0) == Body(arg, 0)
  {
    assert arg[0..] == arg;
  }

  // ---------------------------------------------------------------- reading a quoted argument back

  predicate EndsArg(rest: string) {
    rest == [] || Blank(rest[0])
  }

  lemma {:induction false} ScanSlashes(n: nat, t: string, cur: string, bs: nat, q: nat)
    ensures Scan(Slashes(n) + t, cur, bs, q) == Scan(t, cur, bs + n, q)
    decreases n
  {
    var s := Slashes(n) + t;
    if n == 0 {
      assert s == t;
    } else {
      assert s[1..] == Slashes(n - 1) + t;
      ScanSlashes(n - 1, t, cur, bs + 1, q);
    }
  }

  lemma ScanPlain(c: char, t: string, cur: string, bs: nat)
    requires c != '\\' && c != '"'
    ensures Scan([c] + t, cur, bs, 1) == Scan(t, cur + Slashes(bs) + [c], 0, 1)
    ensures !Blank(c) ==> Scan([c] + t, cur, bs, 0) == Scan(t, cur + Slashes(bs) + [c], 0, 0)
  {
    assert ([c] + t)[1..] == t;
  }

  /** An odd number of backslashes before a quote makes it literal, and half of them stay. */
  lemma ScanEscaped(bs: nat, t: string, cur: string)
    requires t == [] || t[0] != '"'
    ensures Scan(Slashes(bs * 2 + 1) + "\"" + t, cur, 0, 1) == Scan(t, cur + Slashes(bs) + "\"", 0, 1)
  {
    hide Slashes;
    var u := "\"" + t;
    ScanSlashes(bs * 2 + 1, u, cur, 0, 1);
    assert Slashes(bs * 2 + 1) + "\"" + t == Slashes(bs * 2 + 1) + u;
    assert u[1..] == t && (bs * 2 + 1) / 2 == bs && (bs * 2 + 1) % 2 == 1;
  }

  /** A quote right behind an escaped one still closes. */
  lemma ScanEscapedClose(bs: nat, rest: string, cur: string)
    requires EndsArg(rest)
    ensures Scan(Slashes(bs * 2 + 1) + "\"" + ("\"" + rest), cur, 0, 1) == Scan(rest, cur + Slashes(bs) + "\"", 0, 0)
  {
    hide Slashes;
    var t := "\"" + rest;
    var u := "\"" + t;
    ScanSlashes(bs * 2 + 1, u, cur, 0, 1);
    assert Slashes(bs * 2 + 1) + "\"" + t == Slashes(bs * 2 + 1) + u;
    assert u[1..] == t && t[1..] == rest && (bs * 2 + 1) / 2 == bs && (bs * 2 + 1) % 2 == 1;
    assert Quotes(t, cur + Slashes(bs) + "\"", 1) == Quotes(rest, cur + Slashes(bs) + "\"", 2);
  }

  lemma ScanClose(bs: nat, rest: string, cur: string)
    requires EndsArg(rest)
    ensures Scan(Slashes(bs * 2) + "\"" + rest, cur, 0, 1) == Scan(rest, cur + Slashes(bs), 0, 0)
  {
    hide Slashes;
    var u := "\"" + rest;
    ScanSlashes(bs * 2, u, cur, 0, 1);
    assert Slashes(bs * 2) + "\"" + rest == Slashes(bs * 2) + u;
    assert u[1..] == rest && bs * 2 / 2 == bs && bs * 2 % 2 == 0;
  }

  lemma BodyStart(s: string, bs: nat)
    ensures Body(s, bs) == [] <==> s == [] && bs == 0
    ensures Body(s, bs) != [] ==> Body(s, bs)[0] != '"'
    decreases |s|
  {
    if s != [] && s[0] == '\\' { BodyStart(s[1..], bs + 1); }
  }

  /** Between the quotes the child reads back exactly the argument. */
  lemma {:induction false} BodyReads(s: string, bs: nat, rest: string, cur: string)
    requires EndsArg(rest)
    ensures Scan(Body(s, bs) + ("\"" + rest), cur, 0, 1) == Scan(rest, cur + Slashes(bs) + s, 0, 0)
    decreases |s|
  {
    hide Scan, Slashes;
    var end := "\"" + rest;
    if s == [] {
      ScanClose(bs, rest, cur);
      assert Slashes(bs * 2) + "\"" + rest == Slashes(bs * 2) + end;
      assert cur + Slashes(bs) + [] == cur + Slashes(bs);
    } else if s[0] == '\\' {
      BodyReads(s[1..], bs + 1, rest, cur);
      OneSlash(cur, bs);
      assert cur + Slashes(bs) + s == cur + Slashes(bs) + "\\" + s[1..];
    } else {
      var tail := Body(s[1..], 0);
      BodyStart(s[1..], 0);
      NoSlashes(cur + Slashes(bs) + [s[0]]);
      assert cur + Slashes(bs) + s == cur + Slashes(bs) + [s[0]] + s[1..];
      if s[0] == '"' && tail == [] {
        ScanEscapedClose(bs, rest, cur);
        assert Body(s, bs) + end == Slashes(bs * 2 + 1) + "\"" + end;
        assert s[1..] == [] && cur + Slashes(bs) + s == cur + Slashes(bs) + "\"";
      } else if s[0] == '"' {
        ScanEscaped(bs, tail + end, cur);
        BodyReads(s[1..], 0, rest, cur + Slashes(bs) + "\"");
        assert Body(s, bs) + end == Slashes(bs * 2 + 1) + "\"" + (tail + end);
      } else {
        ScanSlashes(bs, [s[0]] + (tail + end), cur, 0, 1);
        ScanPlain(s[0], tail + end, cur, bs);
        BodyReads(s[1..], 0, rest, cur + Slashes(bs) + [s[0]]);
        assert Body(s, bs) + end == Slashes(bs) + ([s[0]] + (tail + end));
      }
    }
  }

  /** Outside quotes, without blanks and quotes, every character stands for itself. */
  lemma {:induction false} PlainReads(s: string, bs: nat, rest: string, cur: string)
    requires EndsArg(rest) && forall i :: 0 <= i < |s| ==> !Blank(s[i]) && s[i] != '"'
    ensures Scan(s + rest, cur, bs, 0) == [cur + Slashes(bs) + s] + Next(rest)
    decreases |s|
  {
    hide Slashes, Next;
    if s == [] {
      assert s + rest == rest && cur + Slashes(bs) + s == cur + Slashes(bs);
      NothingNext();
    } else {
      assert (s + rest)[1..] == s[1..] + rest;
      if s[0] == '\\' {
        PlainReads(s[1..], bs + 1, rest, cur);
        OneSlash(cur, bs);
        assert cur + Slashes(bs) + s == cur + Slashes(bs) + "\\" + s[1..];
      } else {
        PlainReads(s[1..], 0, rest, cur + Slashes(bs) + [s[0]]);
        NoSlashes(cur + Slashes(bs) + [s[0]]);
        assert cur + Slashes(bs) + s == cur + Slashes(bs) + [s[0]] + s[1..];
      }
    }
  }

  lemma NothingNext()
    ensures Next([]) == []
  {
  }

  /** Every argument, quoted, is read back as itself, whatever backslashes, blanks and quotes
      it holds. */
  lemma QuotedReads(arg: string, rest: string)
    requires EndsArg(rest)
    ensures Scan(Quoted(arg) + rest, "", 0, 0) == [arg] + Next(rest)
  {
    hide Body, Next;
    if NeedsQuotes(arg) {
      var b := Body(arg, 0);
      var u := b + ("\"" + rest);
      BodyStart(arg, 0);
      BodyReads(arg, 0, rest, "");
      assert Quoted(arg) + rest == "\"" + u;
      assert ("\"" + u)[1..] == u;
      assert "" + Slashes(0) == "" && "" + Slashes(0) + arg == arg;
      if arg == "" {
        assert u == "\"" + rest && u[1..] == rest;
        ArgEnds(rest, "");
      } else {
        assert u[0] == b[0];
        ArgEnds(rest, arg);
      }
    } else {
      PlainReads(arg, 0, rest, "");
      assert "" + Slashes(0) + arg == arg;
    }
  }

  lemma ArgEnds(rest: string, cur: string)
    requires EndsArg(rest)
    ensures Scan(rest, cur, 0, 0) == [cur] + Next(rest)
  {
    NoSlashes(cur);
    NothingNext();
  }

  // ---------------------------------------------------------------- the whole command line

  /** The quoted arguments with a blank between them. */
  function Line(args: seq<string>): string
    requires args != []
  {
    if |args| == 1 then Quoted(args[0]) else Quoted(args[0]) + " " + Line(args[1..])
  }

  function WithTail(tail: string): string {
    if tail == "" then "" else " " + tail
  }

  function ChildLine(prefix: seq<string>, own: string): string
    requires prefix != []
  {
    Line(prefix) + WithTail(Tail(own))
  }

  method ArgsTail(cmd: string) returns (tail: string)
    ensures tail == Tail(cmd)
  {
    hide IndexOf, SkipBlanks;
    var i := 0;
    if cmd != [] && cmd[0] == '"' {
      i := 1;
      while i < |cmd| && cmd[i] != '"'
        invariant 1 <= i <= |cmd| && forall k :: 1 <= k < i ==> cmd[k] != '"'
      {
        i := i + 1;
      }
      QuoteAt(cmd, i);
      if i < |cmd| {
        i := i + 1;
      }
    } else {
      while i < |cmd| && cmd[i] != ' ' && cmd[i] != '\t'
        invariant 0 <= i <= |cmd| && forall k :: 0 <= k < i ==> !Blank(cmd[k])
      {
        i := i + 1;
      }
      PlainEndIs(cmd, i);
    }
    assert i == NameEnd(cmd);
    while i < |cmd| && (cmd[i] == ' ' || cmd[i] == '\t')
      invariant 0 <= i <= |cmd| && SkipBlanks(cmd[i..]) == Tail(cmd)
    {
      SkipOne(cmd, i);
      i := i + 1;
    }
    SkipNone(cmd[i..]);
    return cmd[i..];
  }

  lemma QuoteAt(cmd: string, i: nat)
    requires 1 <= i <= |cmd| && (forall k :: 1 <= k < i ==> cmd[k] != '"') && (i < |cmd| ==> cmd[i] == '"')
    ensures IndexOf(cmd[1..], '"') == if i < |cmd| then i - 1 else -1
  {
    var inner := cmd[1..];
    assert forall k :: 0 <= k < i - 1 ==> inner[k] == cmd[k + 1];
    assert i < |cmd| ==> inner[i - 1] == '"';
  }

  lemma {:induction false} PlainEndIs(s: string, i: nat)
    requires i <= |s| && (i < |s| ==> Blank(s[i])) && forall k :: 0 <= k < i ==> !Blank(s[k])
    ensures PlainEnd(s) == i
    decreases i
  {
    if i > 0 {
      PlainEndIs(s[1..], i - 1);
    }
  }

  lemma SkipOne(s: string, i: nat)
    requires i < |s| && Blank(s[i])
    ensures SkipBlanks(s[i..]) == SkipBlanks(s[i + 1..])
  {
    assert s[i..][1..] == s[i + 1..];
  }

  lemma SkipNone(s: string)
    requires s == [] || !Blank(s[0])
    ensures SkipBlanks(s) == s
  {
  }

  lemma LineSplits(prefix: seq<string>, i: nat)
    requires i < |prefix|
    ensures Line(prefix[i..]) == Quoted(prefix[i]) + if i + 1 == |prefix| then "" else " " + Line(prefix[i + 1..])
  {
    hide Quoted;
    assert prefix[i..][0] == prefix[i] && prefix[i..][1..] == prefix[i + 1..];
    if i + 1 < |prefix| {
      assert Quoted(prefix[i]) + " " + Line(prefix[i + 1..]) == Quoted(prefix[i]) + (" " + Line(prefix[i + 1..]));
    }
  }

  /** The launcher's loop over the prefix, then the caller's tail. */
  method BuildCommandLine(prefix: seq<string>, own: string) returns (cmdline: string)
    requires prefix != []
    ensures cmdline == ChildLine(prefix, own)
  {
    hide Quoted, Line, Tail;
    cmdline := "";
    assert prefix[0..] == prefix;
    var i := 0;
    while i < |prefix|
      invariant 0 <= i <= |prefix|
      invariant cmdline + (if i == |prefix| then "" else (if i > 0 then " " else "") + Line(prefix[i..])) == Line(prefix)
    {
      ghost var before := cmdline;
      ghost var more := if i + 1 == |prefix| then "" else " " + Line(prefix[i + 1..]);
      ghost var gap := if i > 0 then " " else "";
      LineSplits(prefix, i);
      assert before + gap + Quoted(prefix[i]) + more == before + (gap + (Quoted(prefix[i]) + more));
      if i > 0 {
        cmdline := cmdline + " ";
      }
      assert cmdline == before + gap;
      cmdline := AppendQuoted(prefix[i], cmdline);
      i := i + 1;
    }
    assert cmdline + "" == cmdline;
    var tail := ArgsTail(own);
    if tail != "" {
      assert cmdline + (" " + tail) == cmdline + " " + tail;
      cmdline := cmdline + " ";
      cmdline := cmdline + tail;
    }
  }

  lemma NextAfterBlank(t: string)
    requires t == [] || !Blank(t[0])
    ensures Next(" " + t) == TailArgs(t) && SkipBlanks(" " + t) == t
  {
    assert (" " + t)[1..] == t;
    SkipNone(t);
  }

  /** A line of quoted arguments, with any tail behind it, splits into those arguments and the
      tail's own. */
  lemma {:induction false} LineReads(args: seq<string>, tail: string)
    requires args != [] && (tail == [] || !Blank(tail[0]))
    ensures Scan(Line(args) + WithTail(tail), "", 0, 0) == args + TailArgs(tail)
    decreases |args|
  {
    hide Quoted, Scan, TailArgs;
    var rest := WithTail(tail);
    if |args| == 1 {
      QuotedReads(args[0], rest);
      NextOfTail(tail);
      assert args == [args[0]];
    } else {
      var more := Line(args[1..]) + rest;
      QuotedReads(args[0], " " + more);
      LineReads(args[1..], tail);
      LineNotBlank(args[1..], rest);
      NextAfterBlank(more);
      assert TailArgs(more) == Scan(more, "", 0, 0) by { TailArgsIs(more); }
      assert Line(args) + rest == Quoted(args[0]) + (" " + more);
      assert args == [args[0]] + args[1..];
      assert [args[0]] + (args[1..] + TailArgs(tail)) == args + TailArgs(tail);
    }
  }

  lemma TailArgsIs(t: string)
    requires t != []
    ensures TailArgs(t) == Scan(t, "", 0, 0)
  {
  }

  lemma NextOfTail(tail: string)
    requires tail == [] || !Blank(tail[0])
    ensures Next(WithTail(tail)) == TailArgs(tail)
  {
    if tail == [] { NothingNext(); } else { NextAfterBlank(tail); }
  }

  lemma LineNotBlank(args: seq<string>, rest: string)
    requires args != []
    ensures Line(args) + rest != [] && !Blank((Line(args) + rest)[0])
  {
    var a := args[0];
    assert Quoted(a) != "" && !Blank(Quoted(a)[0]);
    assert Line(args)[0] == Quoted(a)[0];
  }

  // ---------------------------------------------------------------- the program's own name

  /** The name survives: no quote in it, and no backslash right before the closing quote. */
  predicate NameOk(name: string) {
    '"' !in name && (NeedsQuotes(name) && name != "" ==> name[|name| - 1] != '\\')
  }

  lemma SlashFirst(bs: nat, s: string)
    ensures Slashes(bs + 1) + s == Slashes(bs) + ("\\" + s)
  {
  }

  lemma CharFirst(bs: nat, c: char, s: string)
    ensures Slashes(bs) + [c] + (Slashes(0) + s) == Slashes(bs) + ([c] + s)
  {
  }

  predicate TrailingSlash(s: string, bs: nat) {
    if s == [] then bs > 0 else s[|s| - 1] == '\\'
  }

  /** Without quotes the text is itself, its trailing backslashes doubled. */
  lemma {:induction false} BodyOfName(s: string, bs: nat)
    requires '"' !in s
    ensures '"' !in Body(s, bs)
    ensures !TrailingSlash(s, bs) ==> Body(s, bs) == Slashes(bs) + s
    ensures TrailingSlash(s, bs) ==> |Body(s, bs)| > bs + |s|
    decreases |s|
  {
    hide Slashes;
    if s != [] {
      assert s == [s[0]] + s[1..];
      if s[0] == '\\' {
        BodyOfName(s[1..], bs + 1);
        SlashFirst(bs, s[1..]);
      } else {
        BodyOfName(s[1..], 0);
        CharFirst(bs, s[0], s[1..]);
      }
    }
  }

  lemma QuotedName(b: string, rest: string)
    requires '"' !in b
    ensures var s := "\"" + b + "\"" + rest; ProgramName(s) == b && s[NameEnd(s)..] == rest
  {
    var s := "\"" + b + "\"" + rest;
    var inner := s[1..];
    assert inner == b + "\"" + rest;
    assert inner[|b|] == '"' && forall i :: 0 <= i < |b| ==> inner[i] == b[i];
    assert IndexOf(inner, '"') == |b|;
    hide IndexOf;
    assert s[1..|b| + 1] == b && s[|b| + 2..] == rest;
  }

  /** With a good name the line splits right behind it. */
  lemma NameReads(name: string, rest: string)
    requires EndsArg(rest) && NameOk(name)
    ensures var s := Quoted(name) + rest; ProgramName(s) == name && s[NameEnd(s)..] == rest
  {
    hide ProgramName, NameEnd;
    var s := Quoted(name) + rest;
    if NeedsQuotes(name) {
      BodyOfName(name, 0);
      assert Slashes(0) + name == name;
      QuotedName(name, rest);
    } else {
      PlainName(name, rest);
    }
  }

  lemma PlainName(name: string, rest: string)
    requires EndsArg(rest) && !NeedsQuotes(name)
    ensures var s := name + rest; ProgramName(s) == name && s[NameEnd(s)..] == rest
  {
    var s := name + rest;
    assert forall i :: 0 <= i < |name| ==> s[i] == name[i] && !Blank(name[i]);
    PlainEndIs(s, |name|);
    assert s[..|name|] == name && s[|name|..] == rest;
  }

  lemma BadName(name: string, rest: string)
    requires EndsArg(rest) && !NameOk(name)
    ensures ProgramName(Quoted(name) + rest) != name
  {
    hide Body;
    var s := Quoted(name) + rest;
    if '"' in name {
      var i :| 0 <= i < |name| && name[i] == '"';
      NameHasNoQuote(s);
    } else {
      BodyOfName(name, 0);
      QuotedName(Body(name, 0), rest);
    }
  }

  lemma NameHasNoQuote(s: string)
    requires s != [] && s[0] == '"'
    ensures '"' !in ProgramName(s)
  {
    var inner := s[1..];
    var j := IndexOf(inner, '"');
    if j >= 0 {
      assert s[1..j + 1] == inner[..j];
      assert forall i :: 0 <= i < j ==> inner[..j][i] == inner[i];
    }
  }

  /** The line behind the program's name. */
  function AfterName(prefix: seq<string>, tail: string): string
    requires prefix != []
  {
    if |prefix| == 1 then WithTail(tail) else " " + (Line(prefix[1..]) + WithTail(tail))
  }

  lemma Regroup4(a: string, b: string, c: string, d: string)
    ensures (a + (b + c)) + d == a + (b + (c + d))
  {
  }

  lemma LineAfterName(prefix: seq<string>, tail: string)
    requires prefix != []
    ensures Line(prefix) + WithTail(tail) == Quoted(prefix[0]) + AfterName(prefix, tail)
    ensures EndsArg(AfterName(prefix, tail))
  {
    hide Quoted, Line;
    LineSplits(prefix, 0);
    assert prefix[0..] == prefix;
    if |prefix| > 1 {
      Regroup4(Quoted(prefix[0]), " ", Line(prefix[1..]), WithTail(tail));
    } else {
      assert Quoted(prefix[0]) + "" == Quoted(prefix[0]);
    }
  }

  /** The arguments after the name are read back, whatever they hold. */
  lemma AfterNameReads(prefix: seq<string>, tail: string)
    requires prefix != [] && (tail == [] || !Blank(tail[0]))
    ensures TailArgs(SkipBlanks(AfterName(prefix, tail))) == prefix[1..] + TailArgs(tail)
  {
    hide Quoted, Scan, Line, TailArgs;
    if |prefix| == 1 {
      SkipTail(tail);
      assert prefix[1..] + TailArgs(tail) == TailArgs(tail);
    } else {
      var more := Line(prefix[1..]) + WithTail(tail);
      LineNotBlank(prefix[1..], WithTail(tail));
      NextAfterBlank(more);
      LineReads(prefix[1..], tail);
      TailArgsIs(more);
    }
  }

  /** For every link argv and every command line of the launcher itself: the child sees exactly
      that argv and then the caller's own arguments, as the launcher would have seen them, if
      and only if the program's name holds no quote and, where it must be quoted, does not end
      in a backslash. */
  lemma ChildReadsIff(prefix: seq<string>, own: string)
    requires prefix != []
    ensures CommandLineToArgv(ChildLine(prefix, own)) == prefix + CommandLineToArgv(own)[1..] <==> NameOk(prefix[0])
  {
    hide Quoted, NameOk, ProgramName, NameEnd, TailArgs, Line, AfterName, WithTail;
    var tail := Tail(own);
    var rest := AfterName(prefix, tail);
    LineAfterName(prefix, tail);
    assert CommandLineToArgv(own)[1..] == TailArgs(tail);
    if NameOk(prefix[0]) {
      NameReads(prefix[0], rest);
      AfterNameReads(prefix, tail);
      PutTogether(prefix, TailArgs(tail));
    } else {
      BadName(prefix[0], rest);
      assert CommandLineToArgv(ChildLine(prefix, own))[0] != (prefix + TailArgs(tail))[0];
    }
  }

  /** Split without a special rule for the program's name, the line gives back every argv. */
  lemma LineSplitsEvenly(prefix: seq<string>, own: string)
    requires prefix != []
    ensures TailArgs(ChildLine(prefix, own)) == prefix + CommandLineToArgv(own)[1..]
  {
    hide Scan, Line, TailArgs, WithTail, SkipBlanks;
    var tail := Tail(own);
    LineNotBlank(prefix, WithTail(tail));
    LineReads(prefix, tail);
    TailArgsIs(ChildLine(prefix, own));
    assert CommandLineToArgv(own)[1..] == TailArgs(tail);
  }

  lemma PutTogether(prefix: seq<string>, more: seq<string>)
    requires prefix != []
    ensures [prefix[0]] + (prefix[1..] + more) == prefix + more
  {
  }

  lemma SkipTail(tail: string)
    requires tail == [] || !Blank(tail[0])
    ensures SkipBlanks(WithTail(tail)) == tail
  {
    if tail != [] { NextAfterBlank(tail); }
  }

  /** A name that is not read back: one with a blank and a backslash at its end is read with two.
      No path of an executable ends so; only a trailer written by hand has it. */
  lemma BackslashNameParts(own: string)
    ensures CommandLineToArgv(ChildLine(["a b\\"], own)) != ["a b\\"] + CommandLineToArgv(own)[1..]
  {
    var name := "a b\\";
    assert name[1] == ' ' && name[3] == '\\';
    assert NeedsQuotes(name) && !NameOk(name);
    ChildReadsIff([name], own);
  }
}
