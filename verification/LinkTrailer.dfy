/** The Windows link: a length-prefixed argv appended to the launcher, and the launcher's reader. */
module LinkTrailer {
  import opened Text
  import opened Link
  import opened Utf8

  const MAGIC := "PRTCLNK1"
  const WORD32 := 0x1_0000_0000

  /** Little-endian PutUint32 of the value truncated to 32 bits. */
  function U32(n: nat): (b: string)
    ensures |b| == 4
  {
    [(n % 256) as char, (n / 256 % 256) as char, (n / 256 / 256 % 256) as char, (n / 256 / 256 / 256 % 256) as char]
  }

  function FromU32(b: string): nat
    requires |b| == 4
  {
    b[0] as int + 256 * (b[1] as int) + 65536 * (b[2] as int) + 16777216 * (b[3] as int)
  }

  lemma U32RoundTrip(n: nat)
    ensures FromU32(U32(n)) == n % WORD32
  {
    var q1 := n / 256;
    var q2 := q1 / 256;
    var q3 := q2 / 256;
    var q4 := q3 / 256;
    var low := n % 256 + 256 * (q1 % 256) + 65536 * (q2 % 256) + 16777216 * (q3 % 256);
    assert FromU32(U32(n)) == low;
    assert n == low + WORD32 * q4;
    RemainderIs(n, low, q4);
  }

  lemma RemainderIs(n: nat, low: nat, q: nat)
    requires n == low + WORD32 * q && low < WORD32
    ensures n % WORD32 == low
  {
  }

  // ---------------------------------------------------------------- the writer

  function Items(args: seq<string>): string {
    if args == [] then "" else U32(|args[0]|) + args[0] + Items(args[1..])
  }

  function Payload(args: seq<string>): string {
    U32(|args|) + Items(args)
  }

  function Trailer(args: seq<string>): string {
    Payload(args) + U32(|Payload(args)|) + MAGIC
  }

  /** The argv, appended flag by flag. */
  method BuildArgs(spec: LinkSpec) returns (args: seq<string>)
    ensures args == Argv(spec)
  {
    args := [spec.particleBin, "run"];
    if spec.dbPath != "" {
      args := args + ["--db", spec.dbPath];
    }
    ghost var head := args;
    var i := 0;
    while i < |spec.mounts|
      invariant 0 <= i <= |spec.mounts|
      invariant args + MountArgs(spec.mounts[i..]) == head + MountArgs(spec.mounts)
    {
      assert spec.mounts[i..][1..] == spec.mounts[i + 1..];
      args := args + ["--mount", spec.mounts[i]];
      i := i + 1;
    }
    assert args == head + MountArgs(spec.mounts);
    if spec.traceLevelSet {
      args := args + ["--trace-http=" + TraceLevelName(spec.traceLevel)];
    }
    args := args + [spec.target];
    if spec.tool != "" {
      args := args + [spec.tool];
    }
  }

  method EncodeTrailer(spec: LinkSpec) returns (out: string)
    ensures out == Trailer(Argv(spec))
  {
    hide U32;
    var args := BuildArgs(spec);
    var payload := U32(|args|);
    var k := 0;
    while k < |args|
      invariant 0 <= k <= |args|
      invariant payload + Items(args[k..]) == Payload(args)
    {
      assert args[k..][1..] == args[k + 1..];
      payload := payload + U32(|args[k]|);
      payload := payload + args[k];
      k := k + 1;
    }
    assert payload == Payload(args);
    out := payload;
    out := out + U32(|payload|);
    out := out + MAGIC;
  }

  // ---------------------------------------------------------------- the format

  /** A length is written as four bytes, the lowest first. */
  lemma LengthBytes(n: nat)
    requires n < 0x1_0000_0000
    ensures var b := U32(n);
            |b| == 4 && n == b[0] as int + 0x100 * (b[1] as int) + 0x10000 * (b[2] as int) + 0x1000000 * (b[3] as int)
    ensures forall i :: 0 <= i < 4 ==> U32(n)[i] as int < 0x100
  {
    U32RoundTrip(n);
  }

  lemma {:induction false} ItemsConcat(a: seq<string>, b: seq<string>)
    ensures Items(a + b) == Items(a) + Items(b)
    decreases |a|
  {
    hide U32;
    if a == [] {
      assert a + b == b;
    } else {
      assert (a + b)[1..] == a[1..] + b;
      ItemsConcat(a[1..], b);
      var x, y, z := U32(|a[0]|) + a[0], Items(a[1..]), Items(b);
      assert x + (y + z) == x + y + z;
    }
  }

  /** The trailer: the number of arguments, each argument behind its length, the length of all
      that, and eight letters. */
  lemma TrailerLayout(args: seq<string>, arg: string)
    ensures Trailer(args) == Payload(args) + U32(|Payload(args)|) + "PRTCLNK1"
    ensures Payload(args) == U32(|args|) + Items(args) && Items([]) == ""
    ensures Items(args + [arg]) == Items(args) + (U32(|arg|) + arg)
  {
    hide U32;
    ItemsConcat(args, [arg]);
    assert [arg][1..] == [];
  }

  // ---------------------------------------------------------------- the launcher's reader

  function ReadU32(p: string): Option<(nat, string)> {
    if |p| < 4 then None else Some((FromU32(p[..4]), p[4..]))
  }

  function ReadArgs(p: string, argc: nat): (r: Option<seq<string>>)
    ensures r.Some? ==> AllUtf8(r.value)
    decreases argc
  {
    if argc == 0 then Some([]) else
      match ReadU32(p)
      case None => None
      case Some((n, rest)) =>
        if n > |rest| || !ValidUtf8(rest[..n]) then None else
          match ReadArgs(rest[n..], argc - 1)
          case None => None
          case Some(more) => Some([rest[..n]] + more)
  }

  /** Reads the launcher's own bytes from the end. */
  function ParseTrailer(data: string): (r: Option<seq<string>>)
    ensures r.Some? ==> AllUtf8(r.value)
  {
    if |data| < |MAGIC| + 4 then None else
      var head := data[..|data| - |MAGIC|];
      if data[|data| - |MAGIC|..] != MAGIC then None else
        var body := head[..|head| - 4];
        var payloadLen := FromU32(head[|head| - 4..]);
        if payloadLen > |body| then None else
          match ReadU32(body[|body| - payloadLen..])
          case None => None
          case Some((argc, p)) => ReadArgs(p, argc)
  }

  // ---------------------------------------------------------------- reading back what was written

  predicate AllUtf8(args: seq<string>) {
    forall i :: 0 <= i < |args| ==> ValidUtf8(args[i])
  }

  lemma ReadOne(a: string, more: string, argc: nat)
    requires |a| < WORD32
    ensures ReadArgs(U32(|a|) + a + more, argc + 1) ==
            if !ValidUtf8(a) || ReadArgs(more, argc).None? then None
            else Some([a] + ReadArgs(more, argc).value)
  {
    hide ValidUtf8, U32, FromU32;
    var p := U32(|a|) + a + more;
    U32RoundTrip(|a|);
    assert p[..4] == U32(|a|);
    assert p[4..] == a + more;
    assert p[4..][..|a|] == a && p[4..][|a|..] == more;
  }

  lemma {:induction false} ItemsReadBack(args: seq<string>)
    requires |Items(args)| < WORD32
    ensures ReadArgs(Items(args), |args|) == if AllUtf8(args) then Some(args) else None
    decreases |args|
  {
    hide ValidUtf8, U32, FromU32;
    if args != [] {
      ReadOne(args[0], Items(args[1..]), |args| - 1);
      ItemsReadBack(args[1..]);
      assert args == [args[0]] + args[1..];
      assert AllUtf8(args) <==> ValidUtf8(args[0]) && AllUtf8(args[1..]);
    }
  }

  /** The reader never returns more bytes than it was given. */
  lemma {:induction false} ReadArgsFits(p: string, argc: nat)
    ensures var r := ReadArgs(p, argc); r.Some? ==> |Items(r.value)| <= |p|
    decreases argc
  {
    if argc > 0 && |p| >= 4 {
      var n, rest := FromU32(p[..4]), p[4..];
      if n <= |rest| && ValidUtf8(rest[..n]) {
        ReadArgsFits(rest[n..], argc - 1);
        var r := ReadArgs(rest[n..], argc - 1);
        if r.Some? {
          assert ([rest[..n]] + r.value)[1..] == r.value;
        }
      }
    }
  }

  lemma {:induction false} ItemsAtLeast(args: seq<string>)
    ensures |Items(args)| >= 4 * |args|
  {
    if args != [] { ItemsAtLeast(args[1..]); }
  }

  lemma TrailerFields(stub: string, args: seq<string>)
    ensures var data := stub + Trailer(args);
            |data| >= |MAGIC| + 4 && data[|data| - |MAGIC|..] == MAGIC &&
            var head := data[..|data| - |MAGIC|];
            head[|head| - 4..] == U32(|Payload(args)|) && head[..|head| - 4] == stub + Payload(args)
  {
    var data := stub + Trailer(args);
    assert data == (stub + Payload(args) + U32(|Payload(args)|)) + MAGIC;
  }

  /** A payload that fits 32 bits is handed to the reader whole. */
  lemma SmallPayloadReads(stub: string, args: seq<string>)
    requires |Payload(args)| < WORD32
    ensures ParseTrailer(stub + Trailer(args)) == ReadArgs(Items(args), |args|)
  {
    hide ReadArgs, Items, U32, FromU32;
    var payload := Payload(args);
    var body := stub + payload;
    TrailerFields(stub, args);
    U32RoundTrip(|payload|);
    assert body[|body| - |payload|..] == payload;
    assert payload[..4] == U32(|args|) && payload[4..] == Items(args);
    ItemsAtLeast(args);
    U32RoundTrip(|args|);
  }

  /** A longer one is cut short, so whatever is read is not what was written. */
  lemma LargePayloadDiffers(stub: string, args: seq<string>)
    requires |Payload(args)| >= WORD32
    ensures ParseTrailer(stub + Trailer(args)) != Some(args)
  {
    hide ReadArgs, Items, U32, FromU32;
    TrailerFields(stub, args);
    U32RoundTrip(|Payload(args)|);
    var body := stub + Payload(args);
    var slice := body[|body| - |Payload(args)| % WORD32..];
    if |slice| >= 4 {
      ReadArgsFits(slice[4..], FromU32(slice[..4]));
    }
  }

  /** Whatever stub precedes it, the trailer reads back as exactly the argv it encodes if
      and only if the payload's length fits 32 bits and every argument is UTF-8. */
  lemma TrailerReadsBackIff(stub: string, args: seq<string>)
    ensures ParseTrailer(stub + Trailer(args)) == Some(args) <==> AllUtf8(args) && |Payload(args)| < WORD32
  {
    if |Payload(args)| < WORD32 {
      SmallPayloadReads(stub, args);
      ItemsReadBack(args);
    } else {
      LargePayloadDiffers(stub, args);
    }
  }

  // ---------------------------------------------------------------- what the launcher accepts

  predicate AllBytes(s: string) {
    forall i :: 0 <= i < |s| ==> s[i] as int < 0x100
  }

  lemma U32Back(b: string)
    requires |b| == 4 && AllBytes(b)
    ensures FromU32(b) < 0x1_0000_0000 && U32(FromU32(b)) == b
  {
    var b0, b1, b2, b3 := b[0] as int, b[1] as int, b[2] as int, b[3] as int;
    var n := FromU32(b);
    assert n == b0 + 256 * (b1 + 256 * (b2 + 256 * b3));
    assert n % 256 == b0 && n / 256 == b1 + 256 * (b2 + 256 * b3);
    assert n / 256 % 256 == b1 && n / 256 / 256 == b2 + 256 * b3;
    assert n / 256 / 256 % 256 == b2 && n / 256 / 256 / 256 == b3;
  }

  /** What is read was written there. */
  lemma {:induction false} ReadIsWritten(p: string, argc: nat)
    requires AllBytes(p) && ReadArgs(p, argc).Some?
    ensures var args := ReadArgs(p, argc).value; |args| == argc && |Items(args)| <= |p| && p[..|Items(args)|] == Items(args)
    decreases argc
  {
    hide ValidUtf8, U32, FromU32;
    if argc > 0 {
      var n, rest := FromU32(p[..4]), p[4..];
      U32Back(p[..4]);
      var arg, tail := rest[..n], rest[n..];
      ReadIsWritten(tail, argc - 1);
      var more := ReadArgs(tail, argc - 1).value;
      assert ([arg] + more)[1..] == more;
      assert p == p[..4] + arg + tail;
      PrefixBehind(p[..4] + arg, Items(more), tail);
    }
  }

  lemma PrefixBehind(a: string, b: string, tail: string)
    requires |b| <= |tail| && tail[..|b|] == b
    ensures (a + tail)[..|a + b|] == a + b
  {
  }

  /** Bytes behind the arguments are not looked at. */
  lemma {:induction false} ReadsWithMore(args: seq<string>, extra: string)
    requires AllUtf8(args) && |Items(args)| < WORD32
    ensures ReadArgs(Items(args) + extra, |args|) == Some(args)
    decreases |args|
  {
    hide ValidUtf8, U32, FromU32;
    if args != [] {
      ReadsWithMore(args[1..], extra);
      ReadOne(args[0], Items(args[1..]) + extra, |args| - 1);
      var head := U32(|args[0]|) + args[0];
      assert head + Items(args[1..]) + extra == head + (Items(args[1..]) + extra);
      assert args == [args[0]] + args[1..];
    }
  }

  /** `data` ends in a trailer for these arguments, `extra` bytes perhaps behind them. */
  ghost predicate EndsInTrailer(data: string, args: seq<string>, stub: string, extra: string) {
    var payload := U32(|args|) + Items(args) + extra;
    |payload| < 0x1_0000_0000 && data == stub + payload + U32(|payload|) + "PRTCLNK1"
  }

  /** The launcher accepts a file, with certain arguments, if and only if it ends in a trailer for
      them and they are UTF-8. */
  lemma AcceptedIff(data: string, args: seq<string>)
    requires AllBytes(data)
    ensures ParseTrailer(data) == Some(args) <==> AllUtf8(args) && exists stub, extra :: EndsInTrailer(data, args, stub, extra)
  {
    hide ParseTrailer, EndsInTrailer;
    if ParseTrailer(data) == Some(args) { AcceptedEnds(data, args); }
    if stub, extra :| AllUtf8(args) && EndsInTrailer(data, args, stub, extra) {
      EndsAccepted(data, args, stub, extra);
    }
  }

  lemma AcceptedEnds(data: string, args: seq<string>)
    requires AllBytes(data) && ParseTrailer(data) == Some(args)
    ensures AllUtf8(args) && exists stub, extra :: EndsInTrailer(data, args, stub, extra)
  {
    hide ReadArgs, Items, U32, FromU32;
    var head := data[..|data| - 8];
    var body, len := head[..|head| - 4], head[|head| - 4..];
    U32Back(len);
    var n := FromU32(len);
    var payload := body[|body| - n..];
    assert forall i :: 0 <= i < n ==> payload[i] == data[|body| - n + i];
    U32Back(payload[..4]);
    ReadIsWritten(payload[4..], FromU32(payload[..4]));
    var stub, extra := body[..|body| - n], payload[4..][|Items(args)|..];
    assert payload[4..] == Items(args) + extra;
    assert payload == U32(|args|) + Items(args) + extra;
    assert data == stub + payload + len + "PRTCLNK1";
    assert EndsInTrailer(data, args, stub, extra);
  }

  lemma EndsAccepted(data: string, args: seq<string>, stub: string, extra: string)
    requires AllUtf8(args) && EndsInTrailer(data, args, stub, extra)
    ensures ParseTrailer(data) == Some(args)
  {
    hide ReadArgs, Items, U32, FromU32, AllUtf8;
    var payload := U32(|args|) + Items(args) + extra;
    var body := stub + payload;
    var head := body + U32(|payload|);
    assert data == head + MAGIC;
    assert data[..|data| - 8] == head && data[|data| - 8..] == MAGIC;
    assert head[..|head| - 4] == body && head[|head| - 4..] == U32(|payload|);
    U32RoundTrip(|payload|);
    assert body[|body| - |payload|..] == payload;
    ItemsAtLeast(args);
    U32RoundTrip(|args|);
    assert payload[..4] == U32(|args|) && payload[4..] == Items(args) + extra;
    ReadsWithMore(args, extra);
  }

  /** A lone surrogate, as a Windows path may hold one and Go spells it in bytes. */
  const SURROGATE := [0xED as char, 0xA0 as char, 0x80 as char]

  lemma SurrogateArgs()
    ensures Argv(LinkSpec("p", "t", "", [], TraceOff, false, SURROGATE)) == ["p", "run", "--db", SURROGATE, "t"]
    ensures |Items(["p", "run", "--db", SURROGATE, "t"])| == 32 && !ValidUtf8(SURROGATE)
  {
    hide U32;
    assert ["p", "run", "--db", SURROGATE, "t"][1..] == ["run", "--db", SURROGATE, "t"];
    assert ["run", "--db", SURROGATE, "t"][1..] == ["--db", SURROGATE, "t"];
    assert ["--db", SURROGATE, "t"][1..] == [SURROGATE, "t"] && [SURROGATE, "t"][1..] == ["t"] && ["t"][1..] == [];
    assert |Items(["t"])| == 5;
    assert |Items([SURROGATE, "t"])| == 12;
    assert |Items(["--db", SURROGATE, "t"])| == 20;
    assert |Items(["run", "--db", SURROGATE, "t"])| == 27;
  }

  /** A database path with a lone surrogate makes a link whose trailer the launcher does not read. */
  lemma SurrogatePathParts(stub: string)
    ensures ParseTrailer(stub + Trailer(Argv(LinkSpec("p", "t", "", [], TraceOff, false, SURROGATE)))) == None
  {
    hide Items, ValidUtf8, ParseTrailer, Argv;
    var args := ["p", "run", "--db", SURROGATE, "t"];
    SurrogateArgs();
    SmallPayloadReads(stub, args);
    ItemsReadBack(args);
    assert args[3] == SURROGATE;
  }
}
