/** What `particle link` writes: one argv, as a shell shim on Unix and as a binary trailer on Windows. */
module Link {
  datatype TraceLevel = TraceOff | TraceBasic | TraceHeaders | TraceFull

  datatype LinkSpec = LinkSpec(particleBin: string, target: string, tool: string, mounts: seq<string>,
                               traceLevel: TraceLevel, traceLevelSet: bool, dbPath: string)

  function TraceLevelName(l: TraceLevel): string {
    match l
    case TraceBasic => "basic"
    case TraceHeaders => "headers"
    case TraceFull => "full"
    case TraceOff => ""
  }

  function MountArgs(mounts: seq<string>): seq<string> {
    if mounts == [] then [] else ["--mount", mounts[0]] + MountArgs(mounts[1..])
  }

  function DbArgs(db: string): seq<string> {
    if db != "" then ["--db", db] else []
  }

  function TraceArgs(spec: LinkSpec): seq<string> {
    if spec.traceLevelSet then ["--trace-http=" + TraceLevelName(spec.traceLevel)] else []
  }

  function ToolArgs(tool: string): seq<string> {
    if tool != "" then [tool] else []
  }

  /** The command line a link stands for, before the caller's own arguments. */
  function Argv(spec: LinkSpec): seq<string> {
    [spec.particleBin, "run"] + DbArgs(spec.dbPath) + MountArgs(spec.mounts) + TraceArgs(spec)
    + [spec.target] + ToolArgs(spec.tool)
  }

  // ---------------------------------------------------------------- the human-readable form

  function MountText(mounts: seq<string>): string {
    if mounts == [] then "" else " --mount " + mounts[0] + MountText(mounts[1..])
  }

  function TraceText(spec: LinkSpec): string {
    if spec.traceLevelSet then " --trace-http=" + TraceLevelName(spec.traceLevel) else ""
  }

  /** The run line as the link's own comment shows it, nothing quoted. */
  function Description(spec: LinkSpec): string {
    "particle run" + MountText(spec.mounts) + TraceText(spec) + " " + spec.target
    + (if spec.tool != "" then " " + spec.tool else "")
  }

  method DescribeLink(spec: LinkSpec) returns (out: string)
    ensures out == Description(spec)
  {
    out := WriteMounts(spec.mounts, "particle run");
    if spec.traceLevelSet {
      out := out + " --trace-http=" + TraceLevelName(spec.traceLevel);
    }
    out := out + " " + spec.target;
    if spec.tool != "" {
      out := out + " " + spec.tool;
    }
  }

  method WriteMounts(mounts: seq<string>, head: string) returns (out: string)
    ensures out == head + MountText(mounts)
  {
    out := head;
    var i := 0;
    while i < |mounts|
      invariant 0 <= i <= |mounts|
      invariant out + MountText(mounts[i..]) == head + MountText(mounts)
    {
      OneMoreMount(out, mounts, i);
      out := out + " --mount ";
      out := out + mounts[i];
      i := i + 1;
    }
  }

  lemma OneMoreMount(out: string, mounts: seq<string>, i: nat)
    requires i < |mounts|
    ensures out + MountText(mounts[i..]) == out + " --mount " + mounts[i] + MountText(mounts[i + 1..])
  {
    assert mounts[i..][1..] == mounts[i + 1..];
  }

  /** Strings on one line make a description on one line. */
  lemma OneLineDescription(spec: LinkSpec)
    requires '\n' !in spec.target && '\n' !in spec.tool
    requires forall i :: 0 <= i < |spec.mounts| ==> '\n' !in spec.mounts[i]
    ensures '\n' !in Description(spec)
  {
    hide MountText, TraceLevelName;
    OneLineMounts(spec.mounts);
    OneLineTrace(spec);
    var tool := if spec.tool != "" then " " + spec.tool else "";
    assert '\n' !in "particle run" && '\n' !in " " && '\n' !in tool;
    Neither("particle run", MountText(spec.mounts));
    Neither("particle run" + MountText(spec.mounts), TraceText(spec));
    Neither("particle run" + MountText(spec.mounts) + TraceText(spec), " ");
    Neither("particle run" + MountText(spec.mounts) + TraceText(spec) + " ", spec.target);
    Neither("particle run" + MountText(spec.mounts) + TraceText(spec) + " " + spec.target, tool);
  }

  lemma Neither(a: string, b: string)
    requires '\n' !in a && '\n' !in b
    ensures '\n' !in a + b
  {
  }

  lemma OneLineTrace(spec: LinkSpec)
    ensures '\n' !in TraceText(spec)
  {
    assert '\n' !in TraceLevelName(spec.traceLevel);
    Neither(" --trace-http=", TraceLevelName(spec.traceLevel));
  }

  lemma {:induction false} OneLineMounts(mounts: seq<string>)
    requires forall i :: 0 <= i < |mounts| ==> '\n' !in mounts[i]
    ensures '\n' !in MountText(mounts)
  {
    if mounts != [] { OneLineMounts(mounts[1..]); }
  }
}
