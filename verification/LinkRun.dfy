/** A link on Windows from end to end: the trailer, the launcher's command line, the child's arguments. */
module LinkRun {
  import opened Text
  import opened Utf8
  import opened Link
  import opened LinkTrailer
  import W = LinkWindows

  function DecodeAll(args: seq<string>): seq<string>
    requires AllUtf8(args)
  {
    seq(|args|, i requires 0 <= i < |args| => Decode(args[i]))
  }

  function EncodeAll(args: seq<string>): seq<string> {
    seq(|args|, i requires 0 <= i < |args| => Encode(args[i]))
  }

  lemma DecodedAllEncode(args: seq<string>)
    requires AllUtf8(args)
    ensures EncodeAll(DecodeAll(args)) == args
  {
    hide Encode, Decode, ValidUtf8;
    forall i | 0 <= i < |args|
      ensures Encode(DecodeAll(args)[i]) == args[i]
    {
      DecodedEncodes(args[i]);
    }
  }

  lemma EncodeAllConcat(a: seq<string>, b: seq<string>)
    ensures EncodeAll(a + b) == EncodeAll(a) + EncodeAll(b)
  {
    hide Encode;
  }

  /** Whether a name survives can be seen from its bytes. */
  lemma NameOkInBytes(s: string)
    requires ValidUtf8(s)
    ensures W.NameOk(Decode(s)) <==> W.NameOk(s)
  {
    hide Decode, ValidUtf8;
    QuotesIff(s);
    QuotesIff(Decode(s));
    AsciiKept(s, ' ');
    AsciiKept(s, '\t');
    AsciiKept(s, '"');
    AsciiKept(s, '\\');
  }

  lemma QuotesIff(s: string)
    ensures W.NeedsQuotes(s) <==> s == "" || ' ' in s || '\t' in s || '"' in s
  {
  }

  /** The command line the launcher builds from the trailer it finds behind its stub, when it is
      itself called as `own`. */
  function LaunchLine(data: string, own: string): Option<string> {
    match ParseTrailer(data)
    case None => None
    case Some(prefix) => if prefix == [] then None else Some(W.ChildLine(DecodeAll(prefix), own))
  }

  lemma ArgvStarts(spec: LinkSpec)
    ensures Argv(spec) != [] && Argv(spec)[0] == spec.particleBin
  {
  }

  /** For every link whose trailer can be read, and every command line of the launcher: a child
      that splits its line as CommandLineToArgvW does gets the link's argv and then the caller's
      arguments, if the particle binary's path holds no quote and, where it holds a blank, does
      not end in a backslash. A child that reads the program's name like any other argument gets
      them always. */
  lemma LinkReachesChild(stub: string, spec: LinkSpec, own: string)
    requires AllUtf8(Argv(spec)) && |Payload(Argv(spec))| < WORD32
    ensures ParseTrailer(stub + Trailer(Argv(spec))) == Some(Argv(spec))
    ensures var line, tail := LaunchLine(stub + Trailer(Argv(spec)), own), W.CommandLineToArgv(own)[1..];
            line.Some? &&
            (W.NameOk(spec.particleBin) ==>
               EncodeAll(W.CommandLineToArgv(line.value)) == Argv(spec) + EncodeAll(tail)) &&
            EncodeAll(W.TailArgs(line.value)) == Argv(spec) + EncodeAll(tail)
  {
    hide Encode, Decode, ValidUtf8, Argv, ParseTrailer, Trailer, Payload, EncodeAll, DecodeAll, W.NameOk, W.TailArgs, W.CommandLineToArgv, W.ChildLine;
    var args := Argv(spec);
    TrailerReadsBackIff(stub, args);
    ArgvStarts(spec);
    var prefix := DecodeAll(args);
    DecodedAllEncode(args);
    DecodedStarts(args);
    NameOkInBytes(args[0]);
    W.ChildReadsIff(prefix, own);
    W.LineSplitsEvenly(prefix, own);
    EncodeAllConcat(prefix, W.CommandLineToArgv(own)[1..]);
  }

  lemma DecodedStarts(args: seq<string>)
    requires AllUtf8(args) && args != []
    ensures ValidUtf8(args[0]) && DecodeAll(args) != [] && DecodeAll(args)[0] == Decode(args[0])
  {
  }
}
