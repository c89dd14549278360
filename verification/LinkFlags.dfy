/** A link's argv as `particle run` reads it, and the description shown for it. */
module LinkFlags {
  import opened Text
  import opened Link

  /** What `particle run` makes of its flags; `rest` is the particle, the tool and its arguments. */
  datatype Invocation = Invocation(db: string, mounts: seq<string>, level: TraceLevel, rest: seq<string>)

  const NO_FLAGS := Invocation("", [], TraceOff, [])

  /** The levels as ParseTraceLevel spells them. */
  function ParseLevel(s: string): Option<TraceLevel> {
    if s == "" || s == "basic" then Some(TraceBasic)
    else if s == "headers" then Some(TraceHeaders)
    else if s == "full" then Some(TraceFull)
    else None
  }

  /** The flag parser takes an argument for a positional one. */
  predicate Positional(arg: string) {
    arg == "" || arg[0] != '-' || arg == "-"
  }

  /** Flags up to the first positional argument, which ends them; None is a usage error. */
  function ReadFlags(args: seq<string>, got: Invocation): Option<Invocation>
    decreases |args|
  {
    if args == [] then None
    else if Positional(args[0]) then Some(got.(rest := args))
    else if args[0] == "--" then (if |args| == 1 then None else Some(got.(rest := args[1..])))
    else if args[0] == "--db" then
      if |args| == 1 then None else ReadFlags(args[2..], got.(db := args[1]))
    else if args[0] == "--mount" then
      if |args| == 1 then None else ReadFlags(args[2..], got.(mounts := got.mounts + [args[1]]))
    else if "--db=" <= args[0] then ReadFlags(args[1..], got.(db := args[0][5..]))
    else if "--mount=" <= args[0] then ReadFlags(args[1..], got.(mounts := got.mounts + [args[0][8..]]))
    else if args[0] == "--trace-http" then ReadFlags(args[1..], got.(level := TraceBasic))
    else if "--trace-http=" <= args[0] then
      match ParseLevel(args[0][13..])
      case None => None
      case Some(level) => ReadFlags(args[1..], got.(level := level))
    else None
  }

  lemma PairRead(flag: string, value: string, more: seq<string>, got: Invocation)
    requires flag == "--db" || flag == "--mount"
    ensures ReadFlags([flag, value] + more, got) ==
            ReadFlags(more, if flag == "--db" then got.(db := value) else got.(mounts := got.mounts + [value]))
  {
    var args := [flag, value] + more;
    assert args[0] == flag && args[1] == value && args[2..] == more;
  }

  lemma {:induction false} MountsRead(mounts: seq<string>, more: seq<string>, got: Invocation)
    ensures ReadFlags(MountArgs(mounts) + more, got) == ReadFlags(more, got.(mounts := got.mounts + mounts))
    decreases |mounts|
  {
    hide ReadFlags;
    if mounts == [] {
      assert MountArgs(mounts) + more == more && got.mounts + [] == got.mounts;
    } else {
      var next := got.(mounts := got.mounts + [mounts[0]]);
      assert MountArgs(mounts) + more == ["--mount", mounts[0]] + (MountArgs(mounts[1..]) + more);
      PairRead("--mount", mounts[0], MountArgs(mounts[1..]) + more, got);
      MountsRead(mounts[1..], more, next);
      assert got.mounts + [mounts[0]] + mounts[1..] == got.mounts + mounts;
    }
  }

  /** The level `particle run` ends up with: without a name it would be the basic one. */
  function LevelRead(spec: LinkSpec): TraceLevel {
    if !spec.traceLevelSet then TraceOff else if spec.traceLevel == TraceOff then TraceBasic else spec.traceLevel
  }

  lemma TraceRead(spec: LinkSpec, more: seq<string>, got: Invocation)
    requires got.level == TraceOff
    ensures ReadFlags(TraceArgs(spec) + more, got) == ReadFlags(more, got.(level := LevelRead(spec)))
  {
    if spec.traceLevelSet {
      var name := TraceLevelName(spec.traceLevel);
      var flag := "--trace-http=" + name;
      var args := [flag] + more;
      assert TraceArgs(spec) + more == args && args[0] == flag && args[1..] == more;
      assert flag[13..] == name;
      assert ParseLevel(name) == Some(LevelRead(spec));
      assert flag[2] == 't' && flag[0] == '-' && |flag| >= 13;
      assert flag != "--trace-http" && "--trace-http=" <= flag;
    } else {
      assert TraceArgs(spec) + more == more;
    }
  }

  /** `particle run` reads back from a link's argv what was put into the link: database, mounts in
      order, trace level, then particle, tool and the caller's arguments. */
  lemma LinkReadsBack(spec: LinkSpec, caller: seq<string>)
    requires Positional(spec.target)
    ensures var argv, tool := Argv(spec), if spec.tool == "" then [] else [spec.tool];
            |argv| > 2 && argv[0] == spec.particleBin && argv[1] == "run" &&
            ReadFlags(argv[2..] + caller, NO_FLAGS) ==
            Some(Invocation(spec.dbPath, spec.mounts, LevelRead(spec), [spec.target] + tool + caller))
  {
    hide ReadFlags, LevelRead, MountArgs, TraceArgs;
    var positional := [spec.target] + ToolArgs(spec.tool) + caller;
    var mounts, trace := MountArgs(spec.mounts), TraceArgs(spec);
    assert Argv(spec)[2..] + caller == DbArgs(spec.dbPath) + (mounts + (trace + positional));
    var withDb := NO_FLAGS.(db := spec.dbPath);
    if spec.dbPath != "" {
      PairRead("--db", spec.dbPath, mounts + (trace + positional), NO_FLAGS);
    } else {
      assert DbArgs(spec.dbPath) + (mounts + (trace + positional)) == mounts + (trace + positional);
    }
    MountsRead(spec.mounts, trace + positional, withDb);
    assert [] + spec.mounts == spec.mounts;
    var withMounts := withDb.(mounts := spec.mounts);
    TraceRead(spec, positional, withMounts);
    PositionalEnds(positional, withMounts.(level := LevelRead(spec)));
  }

  lemma PositionalEnds(args: seq<string>, got: Invocation)
    requires args != [] && Positional(args[0])
    ensures ReadFlags(args, got) == Some(got.(rest := args))
  {
  }

  // ---------------------------------------------------------------- the description

  /** Each argument behind a blank. */
  function Spaced(args: seq<string>): string {
    if args == [] then "" else " " + args[0] + Spaced(args[1..])
  }

  lemma {:induction false} SpacedConcat(a: seq<string>, b: seq<string>)
    ensures Spaced(a + b) == Spaced(a) + Spaced(b)
    decreases |a|
  {
    if a == [] {
      assert a + b == b;
    } else {
      assert (a + b)[1..] == a[1..] + b;
      SpacedConcat(a[1..], b);
      var x, y, z := " " + a[0], Spaced(a[1..]), Spaced(b);
      assert x + (y + z) == x + y + z;
    }
  }

  lemma SpacedOne(arg: string)
    ensures Spaced([arg]) == " " + arg
  {
    assert [arg][1..] == [];
  }

  lemma {:induction false} SpacedMounts(mounts: seq<string>)
    ensures Spaced(MountArgs(mounts)) == MountText(mounts)
  {
    hide Spaced;
    if mounts == [] {
      assert Spaced([]) == "" by { SpacedNothing(); }
    } else {
      SpacedMounts(mounts[1..]);
      SpacedConcat(["--mount", mounts[0]], MountArgs(mounts[1..]));
      SpacedConcat(["--mount"], [mounts[0]]);
      assert ["--mount"] + [mounts[0]] == ["--mount", mounts[0]];
      SpacedOne("--mount");
      SpacedOne(mounts[0]);
      assert " " + "--mount" + (" " + mounts[0]) == " --mount " + mounts[0];
    }
  }

  lemma SpacedNothing()
    ensures Spaced([]) == ""
  {
  }

  lemma SpacedTrace(spec: LinkSpec)
    ensures Spaced(TraceArgs(spec)) == TraceText(spec)
  {
    hide TraceLevelName, Spaced;
    SpacedNothing();
    if spec.traceLevelSet {
      SpacedOne("--trace-http=" + TraceLevelName(spec.traceLevel));
      assert " " + ("--trace-http=" + TraceLevelName(spec.traceLevel)) == " --trace-http=" + TraceLevelName(spec.traceLevel);
    }
  }

  function ToolText(tool: string): string {
    if tool != "" then " " + tool else ""
  }

  lemma SpacedTool(tool: string)
    ensures Spaced(ToolArgs(tool)) == ToolText(tool)
  {
    hide Spaced;
    SpacedNothing();
    if tool != "" { SpacedOne(tool); }
  }

  lemma SpacedPieces(run: seq<string>, flags: seq<string>, trace: seq<string>, target: seq<string>, tool: seq<string>)
    ensures Spaced(run + flags + trace + target + tool) ==
            Spaced(run) + Spaced(flags) + Spaced(trace) + Spaced(target) + Spaced(tool)
  {
    hide Spaced;
    SpacedConcat(run, flags);
    SpacedConcat(run + flags, trace);
    SpacedConcat(run + flags + trace, target);
    SpacedConcat(run + flags + trace + target, tool);
  }

  lemma ArgvPieces(spec: LinkSpec)
    ensures Argv(spec.(dbPath := ""))[1..] ==
            ["run"] + MountArgs(spec.mounts) + TraceArgs(spec) + [spec.target] + ToolArgs(spec.tool)
  {
    hide MountArgs, ToolArgs, TraceLevelName;
    var plain := spec.(dbPath := "");
    assert TraceArgs(plain) == TraceArgs(spec) && DbArgs("") == [];
    assert [spec.particleBin, "run"] + [] == [spec.particleBin] + ["run"];
    DropFirst(spec.particleBin, ["run"], MountArgs(spec.mounts), TraceArgs(spec), [spec.target], ToolArgs(spec.tool));
  }

  lemma DropFirst(x: string, a: seq<string>, b: seq<string>, c: seq<string>, d: seq<string>, e: seq<string>)
    ensures ([x] + a + b + c + d + e)[1..] == a + b + c + d + e
  {
  }

  lemma RunIsSpaced()
    ensures "particle" + Spaced(["run"]) == "particle run"
  {
    SpacedOne("run");
  }

  lemma Regrouped(p: string, r: string, m: string, t: string, g: string, o: string)
    ensures p + (r + m + t + g + o) == (p + r) + m + t + g + o
  {
  }

  /** The description is the argv with plain `particle` for the binary and without the database,
      one blank between arguments. */
  lemma DescriptionIsArgv(spec: LinkSpec)
    ensures "particle" + Spaced(Argv(spec.(dbPath := ""))[1..]) == Description(spec)
  {
    hide Spaced, Argv, MountArgs, TraceArgs, ToolArgs, MountText, TraceText;
    ArgvPieces(spec);
    SpacedPieces(["run"], MountArgs(spec.mounts), TraceArgs(spec), [spec.target], ToolArgs(spec.tool));
    SpacedMounts(spec.mounts);
    SpacedTrace(spec);
    SpacedOne(spec.target);
    SpacedTool(spec.tool);
    RunIsSpaced();
    Regrouped("particle", Spaced(["run"]), MountText(spec.mounts), TraceText(spec), " " + spec.target, ToolText(spec.tool));
    DescriptionPieces(spec);
  }

  lemma DescriptionPieces(spec: LinkSpec)
    ensures Description(spec) == "particle run" + MountText(spec.mounts) + TraceText(spec) + (" " + spec.target) + ToolText(spec.tool)
  {
    hide MountText, TraceText;
    var head := "particle run" + MountText(spec.mounts) + TraceText(spec);
    assert head + " " + spec.target == head + (" " + spec.target);
  }
}
