/**
 `npm:` import specifiers: a name, perhaps scoped, a version and a subpath, as the
 import scanner splits them, and name and subpath as the bundler splits them again.
 */
module NpmSpec {
  import opened Text

  /** strings.IndexAny(s, "@/"). */
  function IndexAtOrSlash(s: string): (r: int)
    ensures -1 <= r < |s|
    ensures forall i :: 0 <= i < (if r < 0 then |s| else r) ==> s[i] != '@' && s[i] != '/'
    ensures r >= 0 ==> s[r] == '@' || s[r] == '/'
  {
    if s == [] then -1
    else if s[0] == '@' || s[0] == '/' then 0
    else
      var r := IndexAtOrSlash(s[1..]);
      assert forall i :: 0 < i < |s| ==> s[i] == s[1..][i - 1];
      if r < 0 then -1 else r + 1
  }

  datatype Npm = Npm(name: string, version: string, subpath: string)

  /** The version and subpath after the name. */
  function SplitRest(name: string, rest: string): Npm {
    if rest != [] && rest[0] == '@' then
      var afterAt := rest[1..];
      var slash := IndexOf(afterAt, '/');
      if slash >= 0 then Npm(name, afterAt[..slash], afterAt[slash..]) else Npm(name, afterAt, "")
    else Npm(name, "", rest)
  }

  /** Where the name ends after `npm:`; None when the scope has no package. */
  function NameEnd(s: string): (n: Option<nat>)
    requires s != ""
    ensures n.Some? ==> n.value <= |s| && (n.value < |s| ==> s[n.value] == '@' || s[n.value] == '/')
  {
    if s[0] == '@' then
      var slash := IndexOf(s[1..], '/');
      if slash < 0 then None else
        var afterScope := 1 + slash + 1;
        var next := IndexAtOrSlash(s[afterScope..]);
        Some(if next < 0 then |s| else afterScope + next)
    else
      var next := IndexAtOrSlash(s);
      Some(if next < 0 then |s| else next)
  }

  /** None when the specifier is malformed. */
  function ParseNpmSpec(spec: string): Option<Npm> {
    if !("npm:" <= spec) || spec == "npm:" then None else
      var s := spec[4..];
      match NameEnd(s)
      case None => None
      case Some(n) => Some(if n == |s| then Npm(s, "", "") else SplitRest(s[..n], s[n..]))
  }

  /** A specifier is malformed exactly without its prefix, with nothing behind it, or with a scope
      and no package. */
  lemma MalformedIff(spec: string)
    ensures ParseNpmSpec(spec) == None <==>
            !("npm:" <= spec) || spec == "npm:" || (|spec| > 4 && spec[4] == '@' && '/' !in spec[5..])
  {
    if "npm:" <= spec && spec != "npm:" {
      assert spec[4..][0] == spec[4] && spec[4..][1..] == spec[5..];
    }
  }

  /** Where the package name of a bare specifier ends. */
  function BareEnd(spec: string): (n: nat)
    ensures n <= |spec|
  {
    if spec != [] && spec[0] == '@' then
      var slash := IndexOf(spec[1..], '/');
      if slash < 0 then |spec| else
        var afterScope := 1 + slash + 1;
        var nextSlash := IndexOf(spec[afterScope..], '/');
        if nextSlash < 0 then |spec| else afterScope + nextSlash
    else
      var slash := IndexOf(spec, '/');
      if slash < 0 then |spec| else slash
  }

  /** A bare specifier's package name and subpath. */
  function SplitBareSpecifier(spec: string): (string, string) {
    var n := BareEnd(spec);
    if n == |spec| then (spec, "") else (spec[..n], spec[n..])
  }

  // ---------------------------------------------------------------- what a specifier is made of

  /** A package name without its scope: free of `@` and `/`. */
  predicate Simple(n: string) {
    '@' !in n && '/' !in n
  }

  /** `name`, or `@scope/name`. */
  predicate PackageName(n: string) {
    (n != "" && Simple(n)) ||
    (n != "" && n[0] == '@' && var slash := IndexOf(n[1..], '/'); slash >= 0 && Simple(n[slash + 2..]))
  }

  predicate Subpath(p: string) {
    p == "" || p[0] == '/'
  }

  function Written(name: string, at: bool, version: string, subpath: string): string {
    "npm:" + name + (if at then "@" + version else "") + subpath
  }

  lemma IndexOfConcat(a: string, b: string, c: char)
    requires c in a
    ensures IndexOf(a + b, c) == IndexOf(a, c)
  {
    var k := IndexOf(a, c);
    assert (a + b)[k] == c;
    assert forall i :: 0 <= i < k ==> (a + b)[i] == a[i];
  }

  lemma IndexAfter(a: string, b: string, c: char)
    requires c !in a && b != "" && b[0] == c
    ensures IndexOf(a + b, c) == |a|
  {
    assert (a + b)[|a|] == c;
    assert forall i :: 0 <= i < |a| ==> (a + b)[i] == a[i];
  }

  lemma FirstAtOrSlash(a: string, b: string)
    requires Simple(a) && (b == "" || b[0] == '@' || b[0] == '/')
    ensures IndexAtOrSlash(a + b) == if b == "" then -1 else |a|
  {
    var s := a + b;
    assert forall i :: 0 <= i < |a| ==> s[i] == a[i];
    assert b != "" ==> s[|a|] == b[0];
  }

  /** After the name, the version and subpath read back as written. */
  lemma RestReadsBack(name: string, at: bool, version: string, subpath: string)
    requires '/' !in version && Subpath(subpath) && (!at ==> version == "")
    ensures SplitRest(name, (if at then "@" + version else "") + subpath) == Npm(name, version, subpath)
  {
    var rest := (if at then "@" + version else "") + subpath;
    if at {
      assert rest[1..] == version + subpath;
      if subpath != "" {
        IndexAfter(version, subpath, '/');
        assert (version + subpath)[..|version|] == version && (version + subpath)[|version|..] == subpath;
      } else {
        assert version + subpath == version;
      }
    } else {
      assert rest == subpath;
    }
  }

  lemma ScopedNameEnd(name: string, rest: string, slash: nat)
    requires name != "" && name[0] == '@' && IndexOf(name[1..], '/') == slash && Simple(name[slash + 2..])
    requires rest == "" || rest[0] == '@' || rest[0] == '/'
    ensures NameEnd(name + rest) == Some(|name|)
  {
    var s := name + rest;
    assert s[1..] == name[1..] + rest;
    IndexOfConcat(name[1..], rest, '/');
    assert s[slash + 2..] == name[slash + 2..] + rest;
    FirstAtOrSlash(name[slash + 2..], rest);
  }

  /** A package name ends where the version or subpath begins, scoped or not. */
  lemma NameEndsItself(name: string, rest: string)
    requires PackageName(name) && (rest == "" || rest[0] == '@' || rest[0] == '/')
    ensures NameEnd(name + rest) == Some(|name|)
  {
    if name[0] == '@' {
      ScopedNameEnd(name, rest, IndexOf(name[1..], '/'));
    } else {
      FirstAtOrSlash(name, rest);
    }
  }

  lemma ParseAtName(name: string, rest: string)
    requires PackageName(name) && (rest == "" || rest[0] == '@' || rest[0] == '/')
    ensures ParseNpmSpec("npm:" + (name + rest)) == Some(SplitRest(name, rest))
  {
    hide NameEnd, PackageName;
    var s := name + rest;
    NameEndsItself(name, rest);
    NameNotEmpty(name);
    assert ("npm:" + s)[4..] == s && "npm:" <= "npm:" + s;
    assert s[..|name|] == name && s[|name|..] == rest;
    assert rest == "" ==> s == name;
  }

  lemma NameNotEmpty(name: string)
    requires PackageName(name)
    ensures name != ""
  {
  }

  /** Anything written as a specifier parses back to its parts. */
  lemma WrittenParses(name: string, at: bool, version: string, subpath: string)
    requires PackageName(name) && '/' !in version && Subpath(subpath) && (!at ==> version == "")
    ensures ParseNpmSpec(Written(name, at, version, subpath)) == Some(Npm(name, version, subpath))
  {
    hide ParseNpmSpec, SplitRest, PackageName;
    var rest := (if at then "@" + version else "") + subpath;
    ParseAtName(name, rest);
    RestReadsBack(name, at, version, subpath);
    assert Written(name, at, version, subpath) == "npm:" + (name + rest);
  }

  lemma CutAt(t: string, k: nat)
    requires k <= |t| && forall i :: 0 <= i < k ==> t[i] != '/'
    ensures t == t[..k] + t[k..] && '/' !in t[..k] && "@" + t == "@" + t[..k] + t[k..]
  {
    var v := t[..k];
    assert forall i :: 0 <= i < k ==> v[i] == t[i];
  }

  /** The version ends before position `k`. */
  predicate SplitAt(name: string, afterAt: string, k: nat) {
    k <= |afterAt| && (forall i :: 0 <= i < k ==> afterAt[i] != '/') && Subpath(afterAt[k..])
    && SplitRest(name, "@" + afterAt) == Npm(name, afterAt[..k], afterAt[k..])
  }

  lemma SplitsAt(name: string, afterAt: string)
    ensures exists k :: SplitAt(name, afterAt, k)
  {
    var slash := IndexOf(afterAt, '/');
    var k := if slash >= 0 then slash else |afterAt|;
    assert ("@" + afterAt)[1..] == afterAt;
    assert slash < 0 ==> afterAt[..k] == afterAt && afterAt[k..] == "";
    assert SplitAt(name, afterAt, k);
  }

  lemma RestSplitsLosslessly(name: string, rest: string)
    requires rest == "" || rest[0] == '@' || rest[0] == '/'
    ensures var r := SplitRest(name, rest);
            r.name == name && '/' !in r.version && Subpath(r.subpath) &&
            (rest == "@" + r.version + r.subpath || (r.version == "" && rest == r.subpath))
  {
    if rest != "" && rest[0] == '@' {
      hide SplitRest, Subpath;
      var afterAt := rest[1..];
      assert rest == "@" + afterAt;
      SplitsAt(name, afterAt);
      var k :| SplitAt(name, afterAt, k);
      CutAt(afterAt, k);
    }
  }

  lemma ScopedName(s: string, slash: int, n: int)
    requires s != "" && s[0] == '@' && slash == IndexOf(s[1..], '/') && slash >= 0 && slash + 2 <= n <= |s|
    requires forall i :: slash + 2 <= i < n ==> s[i] != '@' && s[i] != '/'
    ensures PackageName(s[..n])
  {
    var name := s[..n];
    var tail, pkg := name[1..], name[slash + 2..];
    assert tail[slash] == s[1..][slash] == '/';
    assert forall i :: 0 <= i < slash ==> tail[i] == s[1..][i];
    assert IndexOf(tail, '/') == slash;
    assert forall i :: 0 <= i < |pkg| ==> pkg[i] == s[slash + 2 + i];
  }

  lemma NameEndIsName(s: string)
    requires s != "" && NameEnd(s).Some? && NameEnd(s).value > 0
    ensures PackageName(s[..NameEnd(s).value])
  {
    var n := NameEnd(s).value;
    if s[0] == '@' {
      var slash := IndexOf(s[1..], '/');
      var after := s[slash + 2..];
      assert forall i :: slash + 2 <= i < |s| ==> s[i] == after[i - slash - 2];
      ScopedName(s, slash, n);
    } else {
      var name := s[..n];
      assert forall i :: 0 <= i < n ==> name[i] == s[i];
    }
  }

  lemma Rejoined(spec: string, name: string, rest: string, r: Npm)
    requires spec == "npm:" + (name + rest) && r.name == name
    requires rest == "@" + r.version + r.subpath || (r.version == "" && rest == r.subpath)
    ensures spec == Written(name, true, r.version, r.subpath) || (r.version == "" && spec == Written(name, false, "", r.subpath))
  {
    if rest == "@" + r.version + r.subpath {
      assert spec == "npm:" + name + ("@" + r.version) + r.subpath;
    } else {
      assert spec == "npm:" + name + "" + r.subpath;
    }
  }

  /** Every specifier accepted with a name is exactly its parts, rejoined: nothing of it is lost. */
  lemma ParseIsLossless(spec: string)
    requires var r := ParseNpmSpec(spec); r.Some? && r.value.name != ""
    ensures var r := ParseNpmSpec(spec).value;
            PackageName(r.name) && '/' !in r.version && Subpath(r.subpath) &&
            (spec == Written(r.name, true, r.version, r.subpath) ||
             (r.version == "" && spec == Written(r.name, false, "", r.subpath)))
  {
    hide NameEnd, PackageName, Written, SplitRest;
    var s := spec[4..];
    var n := NameEnd(s).value;
    var name, rest := s[..n], s[n..];
    assert s == name + rest && spec == "npm:" + s;
    WholeName(s);
    NameEndIsName(s);
    RestSplitsLosslessly(name, rest);
    Rejoined(spec, name, rest, SplitRest(name, rest));
  }

  lemma WholeName(s: string)
    ensures SplitRest(s[..|s|], s[|s|..]) == Npm(s, "", "")
    ensures forall n :: 0 <= n <= |s| ==> SplitRest(s[..n], s[n..]).name == s[..n]
  {
    assert s[..|s|] == s && s[|s|..] == "";
  }

  lemma ScopedBareEnd(name: string, subpath: string, slash: nat)
    requires name != "" && name[0] == '@' && IndexOf(name[1..], '/') == slash && Simple(name[slash + 2..]) && Subpath(subpath)
    ensures BareEnd(name + subpath) == |name|
  {
    hide IndexOf, Simple, Subpath, BareEnd;
    var spec, pkg := name + subpath, name[slash + 2..];
    DropFromName(name, subpath, 1);
    IndexOfConcat(name[1..], subpath, '/');
    DropFromName(name, subpath, slash + 2);
    SlashIn(pkg, subpath);
    BareEndOf(spec, slash);
  }

  lemma BareEndOf(spec: string, slash: nat)
    requires spec != "" && spec[0] == '@' && IndexOf(spec[1..], '/') == slash
    ensures var next := IndexOf(spec[slash + 2..], '/');
            BareEnd(spec) == if next < 0 then |spec| else slash + 2 + next
  {
    hide IndexOf;
  }

  lemma DropFromName(name: string, subpath: string, n: nat)
    requires n <= |name|
    ensures (name + subpath)[n..] == name[n..] + subpath
  {
  }

  lemma SlashIn(e: string, subpath: string)
    requires Simple(e) && Subpath(subpath)
    ensures IndexOf(e + subpath, '/') == if subpath == "" then -1 else |e|
  {
    if subpath == "" {
      assert e + subpath == e;
    } else {
      IndexAfter(e, subpath, '/');
    }
  }

  /** Putting the subpath behind the name, as the bundler does, loses neither. */
  lemma BareSplitsBack(name: string, subpath: string)
    requires PackageName(name) && Subpath(subpath)
    ensures SplitBareSpecifier(name + subpath) == (name, subpath)
  {
    var spec := name + subpath;
    if name[0] == '@' {
      ScopedBareEnd(name, subpath, IndexOf(name[1..], '/'));
    } else {
      SlashIn(name, subpath);
    }
    assert BareEnd(spec) == |name|;
    hide BareEnd;
    assert spec[..|name|] == name && spec[|name|..] == subpath;
    assert subpath == "" ==> spec == name;
  }
}
