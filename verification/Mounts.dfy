/** Declared filesystem mounts: manifest validation, preopen assembly, and what the guest then reaches. */
module Mounts {
  import opened ByteSize
  import opened Text
  import opened FsPaths
  import opened PathClean

  datatype Access = ReadOnly | ReadWrite | OtherAccess

  /** `capabilities.filesystem.mounts[name]`. */
  datatype MountDecl = MountDecl(description: string, path: string, access: Access, required: bool)

  /** `capabilities.filesystem.temp[name]`. */
  datatype TempDecl = TempDecl(description: string, path: string, maxSize: SizeText)

  datatype FsCapability = FsCapability(mounts: map<string, MountDecl>, temp: map<string, TempDecl>)

  datatype Runtime = JavaScript | Python

  /** A filesystem the host hands in; `None` is Go's nil. */
  type Supplied = map<string, Option<int>>

  /** What a preopen serves: the runtime's own files, or a supplied filesystem, wrapped or not. */
  datatype Served = Builtin | Writable(fs: int) | Guarded(fs: int)

  datatype Entry = Entry(path: string, served: Served)

  /** A declaration, by the map it is in. */
  datatype Owner = MountOf(name: string) | TempOf(name: string)

  // ---------------------------------------------------------------- overlapping paths

  predicate PathsOverlap(a: string, b: string) {
    a == b || b + "/" <= a || a + "/" <= b
  }

  /** The components a path resolves to. */
  ghost function Components(p: string): seq<string> {
    Resolve(Elems(p), [], true)
  }

  ghost predicate CleanAbsolute(p: string) {
    p != "" && p[0] == '/' && Clean(p) == p && p != "/"
  }

  lemma ComponentsOfClean(p: string)
    requires CleanAbsolute(p)
    ensures Components(p) == Elems(p[1..]) && Elems(p) == [""] + Components(p)
  {
    hide Elems, Resolve, AllElems;
    var q := p[1..];
    assert p == "/" + q;
    CleanAbsoluteIff(p);
    SlashFirst(q);
    ValidRelIsAllElems(q);
    SkipEmpty(Elems(q));
    ResolveKeepsValid(Elems(q), [], true);
    assert [] + Elems(q) == Elems(q);
  }

  lemma SkipEmpty(es: seq<string>)
    ensures Resolve([""] + es, [], true) == Resolve(es, [], true)
  {
    assert ([""] + es)[1..] == es;
  }

  /** On clean absolute paths, overlapping is naming the same node, or one node being an
      ancestor of the other. */
  lemma OverlapIffComparable(a: string, b: string)
    requires CleanAbsolute(a) && CleanAbsolute(b)
    ensures PathsOverlap(a, b) <==> Components(a) <= Components(b) || Components(b) <= Components(a)
  {
    hide Elems, Components, CleanAbsolute, Under;
    var x, y := Components(a), Components(b);
    ComponentsOfClean(a);
    ComponentsOfClean(b);
    UnderIffElems(a, b);
    UnderIffElems(b, a);
    JoinOfElems(a);
    JoinOfElems(b);
    PrefixBehind(x, y);
    PrefixBehind(y, x);
    assert PathsOverlap(a, b) <==> a == b || Under(b, a) || Under(a, b) by { UnderAreFixes(a, b); }
  }

  lemma UnderAreFixes(a: string, b: string)
    ensures PathsOverlap(a, b) <==> a == b || Under(b, a) || Under(a, b)
  {
  }

  lemma PrefixBehind(x: seq<string>, y: seq<string>)
    ensures x <= y <==> [""] + x <= [""] + y
    ensures [""] + x == [""] + y <==> x == y
  {
    var u, v := [""] + x, [""] + y;
    assert u[1..] == x && v[1..] == y;
    if u <= v {
      assert u == v[..|u|];
      assert x == y[..|x|] by { assert v[..|u|][1..] == y[..|x|]; }
    }
    if x <= y {
      assert v[..|u|] == [""] + y[..|x|];
    }
  }

  // ---------------------------------------------------------------- manifest validation

  predicate NameChar(c: char) {
    c == '-' || c == '_' || 'a' <= c <= 'z' || 'A' <= c <= 'Z' || '0' <= c <= '9'
  }

  predicate ValidName(name: string) {
    name != "" && forall i :: 0 <= i < |name| ==> NameChar(name[i])
  }

  method ValidateMountName(name: string) returns (ok: bool)
    ensures ok <==> ValidName(name)
  {
    if name == "" {
      return false;
    }
    for i := 0 to |name|
      invariant forall j :: 0 <= j < i ==> NameChar(name[j])
    {
      var r := name[i];
      if !(r == '-' || r == '_' || ('a' <= r && r <= 'z') || ('A' <= r && r <= 'Z') || ('0' <= r && r <= '9')) {
        return false;
      }
    }
    return true;
  }

  predicate ValidateMountPath(p: string) {
    p != "" && "/" <= p && Clean(p) == p && p != "/"
  }

  /** A mount path is a slash in front of a proper relative path. */
  lemma MountPathIff(p: string)
    ensures ValidateMountPath(p) <==> p != "" && p[0] == '/' && ValidRel(p[1..])
    ensures ValidateMountPath(p) <==> CleanAbsolute(p)
  {
    hide Clean, ValidRel;
    if p != "" && p[0] == '/' {
      CleanAbsoluteIff(p);
      EmptyNotValid();
      assert p == "/" ==> p[1..] == "";
    }
  }

  lemma EmptyNotValid()
    ensures !ValidRel("")
  {
  }

  ghost predicate Declared(cap: FsCapability, o: Owner) {
    match o
    case MountOf(n) => n in cap.mounts
    case TempOf(n) => n in cap.temp
  }

  ghost function PathOf(cap: FsCapability, o: Owner): string
    requires Declared(cap, o)
  {
    match o
    case MountOf(n) => cap.mounts[n].path
    case TempOf(n) => cap.temp[n].path
  }

  predicate MountOk(name: string, m: MountDecl) {
    ValidName(name) && m.description != "" && ValidateMountPath(m.path) && m.access != OtherAccess
  }

  predicate TempOk(cap: FsCapability, name: string, t: TempDecl) {
    ValidName(name) && name !in cap.mounts && t.description != "" && ValidateMountPath(t.path)
    && t.maxSize != "" && ParseSize(t.maxSize).Some?
  }

  /** Every declaration is well formed and no two share a path. */
  ghost predicate ValidCap(cap: FsCapability) {
    && (forall n :: n in cap.mounts ==> MountOk(n, cap.mounts[n]))
    && (forall n :: n in cap.temp ==> TempOk(cap, n, cap.temp[n]))
    && forall o, p :: Declared(cap, o) && Declared(cap, p) && o != p ==> PathOf(cap, o) != PathOf(cap, p)
  }

  /** The declarations already passed are well formed, own the seen paths, and share none. */
  ghost predicate PassedOk(cap: FsCapability, passed: set<Owner>, seen: set<string>) {
    && (forall o :: o in passed ==> Declared(cap, o) && DeclOk(cap, o))
    && (forall o, p :: o in passed && p in passed && o != p ==> PathOf(cap, o) != PathOf(cap, p))
    && (forall o :: o in passed ==> PathOf(cap, o) in seen)
    && forall s :: s in seen ==> exists o :: o in passed && PathOf(cap, o) == s
  }

  ghost predicate DeclOk(cap: FsCapability, o: Owner)
    requires Declared(cap, o)
  {
    match o
    case MountOf(n) => MountOk(n, cap.mounts[n])
    case TempOf(n) => TempOk(cap, n, cap.temp[n])
  }

  lemma PassOne(cap: FsCapability, passed: set<Owner>, seen: set<string>, o: Owner)
    requires PassedOk(cap, passed, seen) && Declared(cap, o) && DeclOk(cap, o) && PathOf(cap, o) !in seen
    ensures PassedOk(cap, passed + {o}, seen + {PathOf(cap, o)})
  {
    hide DeclOk, PathOf, Declared;
    var all, paths := passed + {o}, seen + {PathOf(cap, o)};
    forall s | s in paths
      ensures exists q :: q in all && PathOf(cap, q) == s
    {
      if s in seen {
        var q :| q in passed && PathOf(cap, q) == s;
        assert q in all;
      } else {
        assert o in all;
      }
    }
  }

  /** A declaration that is malformed, or whose path is taken, spoils the manifest. */
  lemma OneBad(cap: FsCapability, passed: set<Owner>, seen: set<string>, o: Owner)
    requires PassedOk(cap, passed, seen) && Declared(cap, o) && o !in passed
    requires !DeclOk(cap, o) || PathOf(cap, o) in seen
    ensures !ValidCap(cap)
  {
    hide MountOk, TempOk;
    if DeclOk(cap, o) {
      var q :| q in passed && PathOf(cap, q) == PathOf(cap, o);
    }
  }

  lemma AllPassed(cap: FsCapability, passed: set<Owner>, seen: set<string>)
    requires PassedOk(cap, passed, seen)
    requires forall o :: Declared(cap, o) ==> o in passed
    ensures ValidCap(cap)
  {
    hide MountOk, TempOk;
    forall n | n in cap.mounts
      ensures MountOk(n, cap.mounts[n])
    {
      assert Declared(cap, MountOf(n));
    }
    forall n | n in cap.temp
      ensures TempOk(cap, n, cap.temp[n])
    {
      assert Declared(cap, TempOf(n));
    }
  }

  /** Both loops in whatever order the maps yield their entries. */
  method ValidateFilesystem(cap: FsCapability) returns (ok: bool)
    ensures ok <==> ValidCap(cap)
  {
    hide PassedOk, ValidCap, ValidName, ValidateMountPath, ParseSize;
    var seen: set<string> := {};
    ghost var passed: set<Owner> := {};
    assert PassedOk(cap, {}, {}) by { NonePassed(cap); }
    var rest := cap.mounts.Keys;
    while rest != {}
      invariant rest <= cap.mounts.Keys && PassedOk(cap, passed, seen)
      invariant forall o :: o in passed <==> o.MountOf? && o.name in cap.mounts.Keys - rest
      decreases |rest|
    {
      var name :| name in rest;
      rest := rest - {name};
      var m := cap.mounts[name];
      var nameOk := ValidateMountName(name);
      if !nameOk || m.description == "" || !ValidateMountPath(m.path) || m.access == OtherAccess || m.path in seen {
        OneBad(cap, passed, seen, MountOf(name));
        return false;
      }
      PassOne(cap, passed, seen, MountOf(name));
      passed, seen := passed + {MountOf(name)}, seen + {m.path};
    }
    rest := cap.temp.Keys;
    while rest != {}
      invariant rest <= cap.temp.Keys && PassedOk(cap, passed, seen)
      invariant forall o :: o in passed <==>
          if o.MountOf? then o.name in cap.mounts else o.name in cap.temp.Keys - rest
      decreases |rest|
    {
      var name :| name in rest;
      rest := rest - {name};
      var t := cap.temp[name];
      var nameOk := ValidateMountName(name);
      var size := ParseByteSize(t.maxSize);
      if !nameOk || name in cap.mounts || t.description == "" || !ValidateMountPath(t.path)
         || t.maxSize == "" || size.None? || t.path in seen
      {
        OneBad(cap, passed, seen, TempOf(name));
        return false;
      }
      PassOne(cap, passed, seen, TempOf(name));
      passed, seen := passed + {TempOf(name)}, seen + {t.path};
    }
    AllPassed(cap, passed, seen);
    return true;
  }

  lemma NonePassed(cap: FsCapability)
    ensures PassedOk(cap, {}, {})
  {
  }

  // ---------------------------------------------------------------- preopen assembly

  const PYTHON_STDLIB := "/usr/local/lib/python3.14"

  /** Guest paths the runtime serves itself through the "/" preopen. */
  function BuiltinGuestPaths(rt: Runtime): seq<string> {
    ["/particle"] + if rt == Python then [PYTHON_STDLIB, "/runtime"] else []
  }

  /** The host may run this manifest with these filesystems. */
  ghost predicate Buildable(cap: FsCapability, supplied: Supplied) {
    && (forall n :: n in supplied ==> n in cap.mounts || n in cap.temp)
    && MountsSupplied(cap, supplied) && TempsSupplied(cap, supplied)
  }

  ghost predicate MountSupplied(cap: FsCapability, supplied: Supplied, n: string)
    requires n in cap.mounts
  {
    if n in supplied then supplied[n].Some? else !cap.mounts[n].required
  }

  ghost predicate MountsSupplied(cap: FsCapability, supplied: Supplied) {
    forall n :: n in cap.mounts ==> MountSupplied(cap, supplied, n)
  }

  ghost predicate TempsSupplied(cap: FsCapability, supplied: Supplied) {
    forall n :: n in cap.temp ==> n in supplied && supplied[n].Some?
  }

  /** The declarations that become preopens. */
  ghost predicate Exposed(cap: FsCapability, supplied: Supplied, o: Owner) {
    Declared(cap, o) && o.name in supplied && supplied[o.name].Some?
  }

  ghost function EntryOf(cap: FsCapability, supplied: Supplied, o: Owner): Entry
    requires Exposed(cap, supplied, o)
  {
    var fs := supplied[o.name].value;
    Entry(PathOf(cap, o),
          if o.MountOf? && cap.mounts[o.name].access == ReadOnly then Guarded(fs) else Writable(fs))
  }

  /** One entry per owner, in the owners' order. */
  ghost predicate EntriesOf(cap: FsCapability, supplied: Supplied, entries: seq<Entry>, owners: seq<Owner>) {
    && |entries| == |owners|
    && (forall i :: 0 <= i < |owners| ==> Exposed(cap, supplied, owners[i]) && entries[i] == EntryOf(cap, supplied, owners[i]))
    && forall i, j :: 0 <= i < j < |owners| ==> owners[i] != owners[j]
  }

  lemma OneMoreEntry(cap: FsCapability, supplied: Supplied, entries: seq<Entry>, owners: seq<Owner>, o: Owner)
    requires EntriesOf(cap, supplied, entries, owners) && Exposed(cap, supplied, o) && o !in owners
    ensures EntriesOf(cap, supplied, entries + [EntryOf(cap, supplied, o)], owners + [o])
    ensures forall q :: q in owners + [o] <==> q in owners || q == o
  {
    hide Exposed, EntryOf;
  }

  /** Every supplied name must have been declared. */
  method CheckDeclared(cap: FsCapability, supplied: Supplied) returns (ok: bool)
    ensures ok <==> forall n :: n in supplied ==> n in cap.mounts || n in cap.temp
  {
    var rest := supplied.Keys;
    while rest != {}
      invariant rest <= supplied.Keys
      invariant forall n :: n in supplied.Keys - rest ==> n in cap.mounts || n in cap.temp
      decreases |rest|
    {
      var name :| name in rest;
      rest := rest - {name};
      if name !in cap.mounts && name !in cap.temp {
        return false;
      }
    }
    return true;
  }

  /** The mount loop: an absent optional mount is skipped. */
  method ExposeMounts(cap: FsCapability, supplied: Supplied) returns (r: Option<seq<Entry>>, ghost owners: seq<Owner>)
    ensures r.Some? <==> MountsSupplied(cap, supplied)
    ensures r.Some? ==> EntriesOf(cap, supplied, r.value, owners)
    ensures forall o :: r.Some? ==> (o in owners <==> o.MountOf? && Exposed(cap, supplied, o))
  {
    hide EntriesOf;
    owners := [];
    var entries: seq<Entry> := [];
    NoEntries(cap, supplied);
    var rest := cap.mounts.Keys;
    while rest != {}
      invariant rest <= cap.mounts.Keys && EntriesOf(cap, supplied, entries, owners)
      invariant forall n :: n in cap.mounts.Keys - rest ==> MountSupplied(cap, supplied, n)
      invariant forall o :: o in owners <==> o.MountOf? && o.name in cap.mounts.Keys - rest && o.name in supplied
      decreases |rest|
    {
      var name :| name in rest;
      rest := rest - {name};
      var decl := cap.mounts[name];
      if name !in supplied {
        if decl.required {
          assert !MountSupplied(cap, supplied, name);
          return None, owners;
        }
      } else {
        var sub := supplied[name];
        if sub.None? {
          assert !MountSupplied(cap, supplied, name);
          return None, owners;
        }
        var inner := if decl.access == ReadOnly then Guarded(sub.value) else Writable(sub.value);
        OneMoreEntry(cap, supplied, entries, owners, MountOf(name));
        entries, owners := entries + [Entry(decl.path, inner)], owners + [MountOf(name)];
      }
    }
    r := Some(entries);
  }

  /** The temp loop, adding to the mounts' entries: every declared temp must be supplied. */
  method ExposeTemps(cap: FsCapability, supplied: Supplied, before: seq<Entry>, ghost had: seq<Owner>)
      returns (r: Option<seq<Entry>>, ghost owners: seq<Owner>)
    requires EntriesOf(cap, supplied, before, had) && forall o :: o in had ==> o.MountOf?
    ensures r.Some? <==> TempsSupplied(cap, supplied)
    ensures r.Some? ==> EntriesOf(cap, supplied, r.value, owners)
    ensures forall o :: r.Some? ==> (o in owners <==> o in had || (o.TempOf? && Exposed(cap, supplied, o)))
  {
    hide EntriesOf;
    var entries := before;
    owners := had;
    var rest := cap.temp.Keys;
    while rest != {}
      invariant rest <= cap.temp.Keys && EntriesOf(cap, supplied, entries, owners)
      invariant forall n :: n in cap.temp.Keys - rest ==> n in supplied && supplied[n].Some?
      invariant forall o :: o in owners <==> o in had || (o.TempOf? && o.name in cap.temp.Keys - rest)
      decreases |rest|
    {
      var name :| name in rest;
      rest := rest - {name};
      var decl := cap.temp[name];
      if name !in supplied || supplied[name].None? {
        return None, owners;
      }
      OneMoreEntry(cap, supplied, entries, owners, TempOf(name));
      entries, owners := entries + [Entry(decl.path, Writable(supplied[name].value))], owners + [TempOf(name)];
    }
    r := Some(entries);
  }

  /** `None` stands for every error return. */
  method BuildMountPreopens(cap: FsCapability, supplied: Supplied) returns (r: Option<seq<Entry>>, ghost owners: seq<Owner>)
    ensures r.Some? <==> Buildable(cap, supplied)
    ensures r.Some? ==> EntriesOf(cap, supplied, r.value, owners)
    ensures forall o :: r.Some? ==> (o in owners <==> Exposed(cap, supplied, o))
  {
    hide EntriesOf, Exposed, MountsSupplied, TempsSupplied;
    owners := [];
    var declared := CheckDeclared(cap, supplied);
    if !declared {
      return None, owners;
    }
    var mounts;
    mounts, owners := ExposeMounts(cap, supplied);
    if mounts.None? {
      return None, owners;
    }
    r, owners := ExposeTemps(cap, supplied, mounts.value, owners);
  }

  lemma NoEntries(cap: FsCapability, supplied: Supplied)
    ensures EntriesOf(cap, supplied, [], [])
  {
  }

  /** No exposed declaration overlaps a path the runtime serves itself. */
  ghost predicate ClearOfReserved(cap: FsCapability, supplied: Supplied, rt: Runtime) {
    forall o, r :: Exposed(cap, supplied, o) && r in BuiltinGuestPaths(rt) ==> !PathsOverlap(PathOf(cap, o), r)
  }

  const ROOT := Entry("/", Builtin)

  /** The catch-all first, then one entry per exposed declaration. */
  ghost predicate Preopens(cap: FsCapability, supplied: Supplied, entries: seq<Entry>, owners: seq<Owner>) {
    && entries != [] && entries[0] == ROOT && EntriesOf(cap, supplied, entries[1..], owners)
    && forall o :: o in owners <==> Exposed(cap, supplied, o)
  }

  method OverlapsReserved(path: string, reserved: seq<string>) returns (hit: bool)
    ensures hit <==> exists r :: r in reserved && PathsOverlap(path, r)
  {
    hide PathsOverlap;
    for k := 0 to |reserved|
      invariant forall m :: 0 <= m < k ==> !PathsOverlap(path, reserved[m])
    {
      if PathsOverlap(path, reserved[k]) {
        assert reserved[k] in reserved;
        return true;
      }
    }
    return false;
  }

  method AssemblePreopens(cap: FsCapability, supplied: Supplied, rt: Runtime)
      returns (r: Option<seq<Entry>>, ghost owners: seq<Owner>)
    ensures r.Some? <==> Buildable(cap, supplied) && ClearOfReserved(cap, supplied, rt)
    ensures r.Some? ==> Preopens(cap, supplied, r.value, owners)
  {
    hide PathsOverlap, Buildable, BuiltinGuestPaths, PathOf;
    var built;
    built, owners := BuildMountPreopens(cap, supplied);
    if built.None? {
      return None, owners;
    }
    var user := built.value;
    var reserved := BuiltinGuestPaths(rt);
    for i := 0 to |user|
      invariant forall j, r :: 0 <= j < i && r in reserved ==> !PathsOverlap(user[j].path, r)
    {
      var hit := OverlapsReserved(user[i].path, reserved);
      if hit {
        assert owners[i] in owners && Exposed(cap, supplied, owners[i]);
        return None, owners;
      }
    }
    var entries := [ROOT] + user;
    assert entries[1..] == user;
    forall o, r | Exposed(cap, supplied, o) && r in reserved
      ensures !PathsOverlap(PathOf(cap, o), r)
    {
      assert o in owners;
      var j :| 0 <= j < |owners| && owners[j] == o;
      assert user[j].path == PathOf(cap, o);
    }
    r := Some(entries);
  }

  // ---------------------------------------------------------------- what the guest reaches

  /** The preopen path `q` covers the absolute path `p`. */
  ghost predicate Covers(q: string, p: string) {
    q == "/" || OnPath(q, p)
  }

  /** The guest's libc resolves `p` against the longest covering preopen, entry `i`. */
  ghost predicate RoutesTo(entries: seq<Entry>, p: string, i: int) {
    && 0 <= i < |entries| && Covers(entries[i].path, p)
    && forall j :: 0 <= j < |entries| && Covers(entries[j].path, p) ==> |entries[j].path| <= |entries[i].path|
  }

  lemma UserEntry(cap: FsCapability, supplied: Supplied, entries: seq<Entry>, owners: seq<Owner>, i: int)
    requires Preopens(cap, supplied, entries, owners) && 0 < i < |entries|
    ensures |owners| == |entries| - 1 && owners[i - 1] in owners && Exposed(cap, supplied, owners[i - 1])
    ensures entries[i] == EntryOf(cap, supplied, owners[i - 1])
  {
    hide Exposed, EntryOf;
    assert entries[1..][i - 1] == entries[i];
  }

  lemma EntryFor(cap: FsCapability, supplied: Supplied, entries: seq<Entry>, owners: seq<Owner>, o: Owner)
    requires Preopens(cap, supplied, entries, owners) && Exposed(cap, supplied, o)
    ensures exists i :: 0 < i < |entries| && entries[i] == EntryOf(cap, supplied, o)
  {
    hide Exposed, EntryOf;
    assert o in owners;
    var j :| 0 <= j < |owners| && owners[j] == o;
    assert entries[1..][j] == entries[j + 1];
    assert entries[j + 1] == EntryOf(cap, supplied, o);
  }

  /** A declared path of a valid manifest is absolute and longer than "/". */
  lemma PathIsLong(cap: FsCapability, o: Owner)
    requires ValidCap(cap) && Declared(cap, o)
    ensures |PathOf(cap, o)| > 1 && PathOf(cap, o)[0] == '/'
  {
    hide Clean;
    var p := PathOf(cap, o);
    assert ValidateMountPath(p) by {
      match o
      case MountOf(n) => assert MountOk(n, cap.mounts[n]);
      case TempOf(n) => assert TempOk(cap, n, cap.temp[n]);
    }
  }

  /** Preopen paths are pairwise distinct. */
  lemma PreopenPathsDistinct(cap: FsCapability, supplied: Supplied, entries: seq<Entry>, owners: seq<Owner>, i: int, j: int)
    requires ValidCap(cap) && Preopens(cap, supplied, entries, owners) && 0 <= i < j < |entries|
    ensures entries[i].path != entries[j].path
  {
    hide DeclOk, MountOk, TempOk;
    UserEntry(cap, supplied, entries, owners, j);
    PathIsLong(cap, owners[j - 1]);
    if i > 0 {
      UserEntry(cap, supplied, entries, owners, i);
    }
  }

  lemma CoverIsPrefix(q: string, p: string)
    requires Covers(q, p) && p != "" && p[0] == '/'
    ensures |q| <= |p| && q == p[..|q|]
  {
    if Under(q, p) { UnderAt(q, p); }
  }

  /** Every absolute path is routed, and to one entry only. */
  lemma RouteIsUnique(cap: FsCapability, supplied: Supplied, entries: seq<Entry>, owners: seq<Owner>, p: string, i: int, j: int)
    requires ValidCap(cap) && Preopens(cap, supplied, entries, owners) && p != "" && p[0] == '/'
    requires RoutesTo(entries, p, i) && RoutesTo(entries, p, j)
    ensures i == j
  {
    hide ValidCap, Preopens, Covers;
    CoverIsPrefix(entries[i].path, p);
    CoverIsPrefix(entries[j].path, p);
    if i < j {
      PreopenPathsDistinct(cap, supplied, entries, owners, i, j);
    } else if j < i {
      PreopenPathsDistinct(cap, supplied, entries, owners, j, i);
    }
  }

  lemma {:induction false} LongestExists(entries: seq<Entry>, p: string)
    requires entries != [] && Covers(entries[0].path, p)
    ensures exists i :: RoutesTo(entries, p, i)
    decreases |entries|
  {
    hide Covers;
    var n := |entries| - 1;
    if n == 0 {
      assert RoutesTo(entries, p, 0);
    } else {
      LongestExists(entries[..n], p);
      var i :| RoutesTo(entries[..n], p, i);
      if Covers(entries[n].path, p) && |entries[n].path| > |entries[i].path| {
        assert RoutesTo(entries, p, n);
      } else {
        assert RoutesTo(entries, p, i);
      }
    }
  }

  /** The route of an absolute path goes to the innermost exposed declaration covering it,
      with that declaration's access, and to the runtime's own files when there is none. */
  lemma RouteIsInnermost(cap: FsCapability, supplied: Supplied, entries: seq<Entry>, owners: seq<Owner>, p: string, i: int)
    requires ValidCap(cap) && Preopens(cap, supplied, entries, owners) && RoutesTo(entries, p, i)
    ensures i == 0 <==> forall o :: Exposed(cap, supplied, o) ==> !OnPath(PathOf(cap, o), p)
    ensures i > 0 ==> exists o :: InnermostAt(cap, supplied, o, p) && entries[i] == EntryOf(cap, supplied, o)
  {
    hide ValidCap, Preopens, OnPath;
    forall o | Exposed(cap, supplied, o) && OnPath(PathOf(cap, o), p)
      ensures i > 0 && |PathOf(cap, o)| <= |entries[i].path|
    {
      EntryFor(cap, supplied, entries, owners, o);
      var j :| 0 < j < |entries| && entries[j] == EntryOf(cap, supplied, o);
      PathIsLong(cap, o);
      assert Covers(entries[j].path, p);
      assert entries[0] == ROOT by { FirstIsRoot(cap, supplied, entries, owners); }
    }
    if i > 0 {
      UserEntry(cap, supplied, entries, owners, i);
      PathIsLong(cap, owners[i - 1]);
      assert InnermostAt(cap, supplied, owners[i - 1], p);
    }
  }

  lemma FirstIsRoot(cap: FsCapability, supplied: Supplied, entries: seq<Entry>, owners: seq<Owner>)
    requires Preopens(cap, supplied, entries, owners)
    ensures entries != [] && entries[0] == ROOT
  {
  }

  /** `o` covers `p`, and no exposed declaration covers it more closely. */
  ghost predicate InnermostAt(cap: FsCapability, supplied: Supplied, o: Owner, p: string) {
    && Exposed(cap, supplied, o) && OnPath(PathOf(cap, o), p)
    && forall q :: Exposed(cap, supplied, q) && OnPath(PathOf(cap, q), p) ==> |PathOf(cap, q)| <= |PathOf(cap, o)|
  }

  /** Two paths cover a common path exactly when they overlap. */
  lemma CommonPathOverlaps(a: string, b: string, p: string)
    requires OnPath(a, p) && OnPath(b, p)
    ensures PathsOverlap(a, b)
  {
    UnderAt(a, p);
    UnderAt(b, p);
    UnderAt(a, b);
    UnderAt(b, a);
    if |a| < |b| {
      assert b == p[..|b|] && b[|a|] == p[|a|];
      assert b[..|a|] == p[..|a|];
    } else if |b| < |a| {
      assert a == p[..|a|] && a[|b|] == p[|b|];
      assert a[..|b|] == p[..|b|];
    }
  }

  /** Every path at or below one the runtime reserves is served by the runtime. */
  ghost predicate ReservedUnshadowed(entries: seq<Entry>, rt: Runtime) {
    forall r, p, i :: r in BuiltinGuestPaths(rt) && OnPath(r, p) && RoutesTo(entries, p, i) ==> i == 0
  }

  /** The overlap check refuses a set of mounts exactly when one of them would shadow a
      reserved path. */
  lemma ReservedUnshadowedIff(cap: FsCapability, supplied: Supplied, rt: Runtime, entries: seq<Entry>, owners: seq<Owner>)
    requires ValidCap(cap) && Preopens(cap, supplied, entries, owners)
    ensures ClearOfReserved(cap, supplied, rt) <==> ReservedUnshadowed(entries, rt)
  {
    hide ValidCap, Preopens, OnPath, PathsOverlap, RoutesTo, PathOf, BuiltinGuestPaths;
    if ClearOfReserved(cap, supplied, rt) {
      forall r, p, i | r in BuiltinGuestPaths(rt) && OnPath(r, p) && RoutesTo(entries, p, i)
        ensures i == 0
      {
        RouteIsInnermost(cap, supplied, entries, owners, p, i);
        forall o | Exposed(cap, supplied, o)
          ensures !OnPath(PathOf(cap, o), p)
        {
          if OnPath(PathOf(cap, o), p) { CommonPathOverlaps(PathOf(cap, o), r, p); }
        }
      }
    }
    if ReservedUnshadowed(entries, rt) {
      forall o, r | Exposed(cap, supplied, o) && r in BuiltinGuestPaths(rt)
        ensures !PathsOverlap(PathOf(cap, o), r)
      {
        if PathsOverlap(PathOf(cap, o), r) { ShadowedBy(cap, supplied, rt, entries, owners, o, r); }
      }
    }
  }

  lemma ShadowedBy(cap: FsCapability, supplied: Supplied, rt: Runtime, entries: seq<Entry>, owners: seq<Owner>, o: Owner, r: string)
    requires ValidCap(cap) && Preopens(cap, supplied, entries, owners)
    requires Exposed(cap, supplied, o) && r in BuiltinGuestPaths(rt) && PathsOverlap(PathOf(cap, o), r)
    ensures !ReservedUnshadowed(entries, rt)
  {
    hide ValidCap, Preopens, RoutesTo, BuiltinGuestPaths, PathOf;
    var u := PathOf(cap, o);
    var p := if |u| < |r| then r else u;
    assert OnPath(u, p) && OnPath(r, p);
    FirstIsRoot(cap, supplied, entries, owners);
    assert Covers(entries[0].path, p);
    LongestExists(entries, p);
    var i :| RoutesTo(entries, p, i);
    RouteIsInnermost(cap, supplied, entries, owners, p, i);
  }

  /** Every path at or below a supplied mount is served by a user's filesystem, and the
      mount's own path by that mount. */
  lemma MountIsReached(cap: FsCapability, supplied: Supplied, entries: seq<Entry>, owners: seq<Owner>, o: Owner, p: string, i: int)
    requires ValidCap(cap) && Preopens(cap, supplied, entries, owners) && Exposed(cap, supplied, o)
    requires OnPath(PathOf(cap, o), p) && RoutesTo(entries, p, i)
    ensures entries[i].served != Builtin
    ensures p == PathOf(cap, o) ==> entries[i] == EntryOf(cap, supplied, o)
  {
    hide ValidCap, Preopens;
    RouteIsInnermost(cap, supplied, entries, owners, p, i);
    var q :| InnermostAt(cap, supplied, q, p) && entries[i] == EntryOf(cap, supplied, q);
    if p == PathOf(cap, o) {
      UnderAt(PathOf(cap, q), p);
      assert PathOf(cap, q) == p;
      assert q == o by { PathsOwnedOnce(cap, q, o); }
    }
  }

  lemma PathsOwnedOnce(cap: FsCapability, o: Owner, p: Owner)
    requires ValidCap(cap) && Declared(cap, o) && Declared(cap, p) && PathOf(cap, o) == PathOf(cap, p)
    ensures o == p
  {
    hide MountOk, TempOk;
  }

  /** Under an accepted manifest and mount map every absolute path is served by exactly one
      entry: the runtime's own at and below every reserved path, a user's at and below every
      supplied mount, guarded exactly when the innermost mount there is declared read-only. */
  lemma EveryPathServed(cap: FsCapability, supplied: Supplied, rt: Runtime, entries: seq<Entry>, owners: seq<Owner>,
                        p: string) returns (i: int)
    requires ValidCap(cap) && Preopens(cap, supplied, entries, owners) && ClearOfReserved(cap, supplied, rt)
    requires p != "" && p[0] == '/'
    ensures RoutesTo(entries, p, i) && forall j :: RoutesTo(entries, p, j) ==> j == i
    ensures (exists r :: r in BuiltinGuestPaths(rt) && OnPath(r, p)) ==> entries[i].served == Builtin
    ensures (exists o :: Exposed(cap, supplied, o) && OnPath(PathOf(cap, o), p)) <==> entries[i].served != Builtin
    ensures entries[i].served.Guarded? <==>
            exists o :: InnermostAt(cap, supplied, o, p) && o.MountOf? && cap.mounts[o.name].access == ReadOnly
  {
    hide ValidCap, Preopens, OnPath, BuiltinGuestPaths, PathOf;
    FirstIsRoot(cap, supplied, entries, owners);
    assert Covers(entries[0].path, p);
    LongestExists(entries, p);
    i :| RoutesTo(entries, p, i);
    forall j | RoutesTo(entries, p, j)
      ensures j == i
    {
      RouteIsUnique(cap, supplied, entries, owners, p, i, j);
    }
    RouteIsInnermost(cap, supplied, entries, owners, p, i);
    ReservedUnshadowedIff(cap, supplied, rt, entries, owners);
    if o :| InnermostAt(cap, supplied, o, p) {
      InnermostIsUnique(cap, supplied, p);
    }
  }

  lemma InnermostIsUnique(cap: FsCapability, supplied: Supplied, p: string)
    requires ValidCap(cap)
    ensures forall o, q :: InnermostAt(cap, supplied, o, p) && InnermostAt(cap, supplied, q, p) ==> o == q
  {
    hide ValidCap;
    forall o, q | InnermostAt(cap, supplied, o, p) && InnermostAt(cap, supplied, q, p)
      ensures o == q
    {
      OnPathIsPrefix(PathOf(cap, o), p);
      OnPathIsPrefix(PathOf(cap, q), p);
      PathsOwnedOnce(cap, o, q);
    }
  }

  lemma OnPathIsPrefix(c: string, p: string)
    requires OnPath(c, p)
    ensures |c| <= |p| && c == p[..|c|]
  {
    UnderAt(c, p);
  }
}
