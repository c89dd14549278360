/** Mounts, with every name and path spelled out. */
module MountLaws {
  import opened ByteSize
  import opened Text
  import opened FsPaths
  import opened PathClean
  import opened Mounts

  // ---------------------------------------------------------------- manifests

  const LOWER := {'a', 'b', 'c', 'd', 'e', 'f', 'g', 'h', 'i', 'j', 'k', 'l', 'm',
                  'n', 'o', 'p', 'q', 'r', 's', 't', 'u', 'v', 'w', 'x', 'y', 'z'}
  const UPPER := {'A', 'B', 'C', 'D', 'E', 'F', 'G', 'H', 'I', 'J', 'K', 'L', 'M',
                  'N', 'O', 'P', 'Q', 'R', 'S', 'T', 'U', 'V', 'W', 'X', 'Y', 'Z'}
  const OTHERS := {'0', '1', '2', '3', '4', '5', '6', '7', '8', '9', '-', '_'}

  /** The characters of a mount name. */
  predicate InAlphabet(c: char) {
    c in LOWER || c in UPPER || c in OTHERS
  }

  lemma AlphabetIs(c: char)
    ensures NameChar(c) <==> InAlphabet(c)
  {
  }

  /** A usable name, a description, and an absolute path of proper names below the root. */
  ghost predicate GoodDecl(name: string, description: string, path: string) {
    && name != "" && (forall c :: c in name ==> InAlphabet(c))
    && description != ""
    && path != "" && path[0] == '/' && ValidRel(path[1..])
  }

  /** No path is declared twice, within one of the two maps or across them. */
  ghost predicate PathsDistinct(cap: FsCapability) {
    && (forall m, n :: m in cap.mounts && n in cap.mounts && m != n ==> cap.mounts[m].path != cap.mounts[n].path)
    && (forall m, n :: m in cap.temp && n in cap.temp && m != n ==> cap.temp[m].path != cap.temp[n].path)
    && forall m, n :: m in cap.mounts && n in cap.temp ==> cap.mounts[m].path != cap.temp[n].path
  }

  lemma NameIff(name: string)
    ensures ValidName(name) <==> name != "" && forall c :: c in name ==> InAlphabet(c)
  {
    hide NameChar, InAlphabet;
    forall i | 0 <= i < |name|
      ensures NameChar(name[i]) <==> InAlphabet(name[i])
    {
      AlphabetIs(name[i]);
    }
    if forall c :: c in name ==> InAlphabet(c) {
      assert forall i :: 0 <= i < |name| ==> name[i] in name;
    }
  }

  lemma DeclIff(name: string, description: string, path: string)
    ensures ValidName(name) && description != "" && ValidateMountPath(path) <==> GoodDecl(name, description, path)
  {
    hide ValidName, ValidateMountPath, ValidRel;
    NameIff(name);
    MountPathIff(path);
  }

  lemma EmptyIsNoSize()
    ensures ParseSize("") == None
  {
    assert TrimSpace("") == "";
  }

  lemma PathsDistinctIff(cap: FsCapability)
    ensures PathsDistinct(cap) <==>
            forall o, p :: Declared(cap, o) && Declared(cap, p) && o != p ==> PathOf(cap, o) != PathOf(cap, p)
  {
    if forall o, p :: Declared(cap, o) && Declared(cap, p) && o != p ==> PathOf(cap, o) != PathOf(cap, p) {
      forall m, n | m in cap.mounts && n in cap.mounts && m != n
        ensures cap.mounts[m].path != cap.mounts[n].path
      {
        assert PathOf(cap, MountOf(m)) != PathOf(cap, MountOf(n));
      }
      forall m, n | m in cap.temp && n in cap.temp && m != n
        ensures cap.temp[m].path != cap.temp[n].path
      {
        assert PathOf(cap, TempOf(m)) != PathOf(cap, TempOf(n));
      }
      forall m, n | m in cap.mounts && n in cap.temp
        ensures cap.mounts[m].path != cap.temp[n].path
      {
        assert PathOf(cap, MountOf(m)) != PathOf(cap, TempOf(n));
      }
    }
  }

  /** A manifest's filesystem section is accepted if and only if every declaration has a name over
      the alphabet, a description and a proper path, mounts an access, temps a size and a name no
      mount has, and no path is declared twice. */
  lemma ManifestIff(cap: FsCapability)
    ensures ValidCap(cap) <==>
            && (forall n :: n in cap.mounts ==>
                  var m := cap.mounts[n]; GoodDecl(n, m.description, m.path) && (m.access == ReadOnly || m.access == ReadWrite))
            && (forall n :: n in cap.temp ==>
                  var t := cap.temp[n]; GoodDecl(n, t.description, t.path) && n !in cap.mounts && ParseSize(t.maxSize).Some?)
            && PathsDistinct(cap)
  {
    hide ValidName, ValidateMountPath, GoodDecl, ParseSize, PathsDistinct, PathOf, Declared;
    PathsDistinctIff(cap);
    EmptyIsNoSize();
    forall n | n in cap.mounts
      ensures MountOk(n, cap.mounts[n]) <==>
              var m := cap.mounts[n]; GoodDecl(n, m.description, m.path) && (m.access == ReadOnly || m.access == ReadWrite)
    {
      DeclIff(n, cap.mounts[n].description, cap.mounts[n].path);
    }
    forall n | n in cap.temp
      ensures TempOk(cap, n, cap.temp[n]) <==>
              var t := cap.temp[n]; GoodDecl(n, t.description, t.path) && n !in cap.mounts && ParseSize(t.maxSize).Some?
    {
      DeclIff(n, cap.temp[n].description, cap.temp[n].path);
    }
  }

  // ---------------------------------------------------------------- booting

  /** Equal to a path, below it, or above it. */
  predicate Touches(a: string, b: string) {
    a == b || b + "/" <= a || a + "/" <= b
  }

  predicate TouchesReserved(path: string, rt: Runtime) {
    match rt
    case JavaScript => Touches(path, "/particle")
    case Python => Touches(path, "/particle") || Touches(path, "/usr/local/lib/python3.14") || Touches(path, "/runtime")
  }

  lemma ReservedAre(rt: Runtime, path: string)
    ensures (exists r :: r in BuiltinGuestPaths(rt) && PathsOverlap(path, r)) <==> TouchesReserved(path, rt)
  {
    var js, stdlib, boot := "/particle", "/usr/local/lib/python3.14", "/runtime";
    assert BuiltinGuestPaths(JavaScript) == [js];
    assert BuiltinGuestPaths(Python) == [js, stdlib, boot];
    hide PathsOverlap;
    assert PathsOverlap(path, js) <==> Touches(path, js) by { OverlapIsTouching(path, js); }
    assert PathsOverlap(path, stdlib) <==> Touches(path, stdlib) by { OverlapIsTouching(path, stdlib); }
    assert PathsOverlap(path, boot) <==> Touches(path, boot) by { OverlapIsTouching(path, boot); }
    hide Touches, BuiltinGuestPaths;
    assert js in [js, stdlib, boot] && stdlib in [js, stdlib, boot] && boot in [js, stdlib, boot] && js in [js];
  }

  lemma OverlapIsTouching(a: string, b: string)
    ensures PathsOverlap(a, b) <==> Touches(a, b)
  {
  }

  /** A particle boots exactly when every supplied name is declared, every required mount and every
      temp is supplied, nothing supplied is nil, and no supplied declaration's path equals, lies below
      or lies above a path the runtime serves itself: /particle, and for Python
      /usr/local/lib/python3.14 and /runtime. */
  lemma BootsIff(cap: FsCapability, supplied: Supplied, rt: Runtime)
    ensures Buildable(cap, supplied) && ClearOfReserved(cap, supplied, rt) <==>
            && (forall n :: n in supplied ==> n in cap.mounts || n in cap.temp)
            && (forall n :: n in cap.mounts && cap.mounts[n].required ==> n in supplied)
            && (forall n :: n in cap.temp ==> n in supplied)
            && (forall n :: n in supplied ==> supplied[n] != None)
            && (forall n :: n in cap.mounts && n in supplied ==> !TouchesReserved(cap.mounts[n].path, rt))
            && (forall n :: n in cap.temp && n in supplied ==> !TouchesReserved(cap.temp[n].path, rt))
  {
    hide PathsOverlap, TouchesReserved, BuiltinGuestPaths;
    forall o | Exposed(cap, supplied, o)
      ensures TouchesReserved(PathOf(cap, o), rt) <==>
              exists r :: r in BuiltinGuestPaths(rt) && PathsOverlap(PathOf(cap, o), r)
    {
      ReservedAre(rt, PathOf(cap, o));
    }
    forall n | n in cap.mounts && n in supplied && supplied[n].Some?
      ensures Exposed(cap, supplied, MountOf(n)) && PathOf(cap, MountOf(n)) == cap.mounts[n].path
    {
    }
    forall n | n in cap.temp && n in supplied && supplied[n].Some?
      ensures Exposed(cap, supplied, TempOf(n)) && PathOf(cap, TempOf(n)) == cap.temp[n].path
    {
    }
  }

  /** At or below a path. */
  predicate Within(p: string, dir: string) {
    p == dir || dir + "/" <= p
  }

  /** Once booted, /particle and all below it is the runtime's own, and so are the standard library
      and /runtime under Python. */
  lemma ReservedIsBuiltin(cap: FsCapability, supplied: Supplied, rt: Runtime, entries: seq<Entry>, owners: seq<Owner>, p: string, i: int)
    requires ValidCap(cap) && Preopens(cap, supplied, entries, owners) && ClearOfReserved(cap, supplied, rt)
    requires Within(p, "/particle") || (rt == Python && (Within(p, "/usr/local/lib/python3.14") || Within(p, "/runtime")))
    requires RoutesTo(entries, p, i)
    ensures entries[i] == Entry("/", Builtin)
  {
    hide ValidCap, ClearOfReserved, RoutesTo, OnPath;
    assert BuiltinGuestPaths(rt)[0] == "/particle";
    assert rt == Python ==> BuiltinGuestPaths(rt)[1] == "/usr/local/lib/python3.14" && BuiltinGuestPaths(rt)[2] == "/runtime";
    var r := if Within(p, "/particle") then "/particle"
             else if Within(p, "/runtime") then "/runtime" else "/usr/local/lib/python3.14";
    assert r in BuiltinGuestPaths(rt);
    assert OnPath(r, p) by { WithinIsOnPath(p, r); }
    hide BuiltinGuestPaths, OnPath, Within;
    ReservedUnshadowedIff(cap, supplied, rt, entries, owners);
    assert i == 0;
  }

  lemma WithinIsOnPath(p: string, dir: string)
    ensures Within(p, dir) <==> OnPath(dir, p)
  {
  }

  /** A supplied mount's path leads to the filesystem supplied for it, guarded exactly when it is
      declared read-only; a temp's path to its own, writable. */
  lemma PathLeadsToSupplied(cap: FsCapability, supplied: Supplied, entries: seq<Entry>, owners: seq<Owner>, name: string, fs: int, i: int)
    requires ValidCap(cap) && Preopens(cap, supplied, entries, owners) && name in supplied && supplied[name] == Some(fs)
    ensures name in cap.mounts && RoutesTo(entries, cap.mounts[name].path, i) ==>
              entries[i].served == if cap.mounts[name].access == ReadOnly then Guarded(fs) else Writable(fs)
    ensures name in cap.temp && RoutesTo(entries, cap.temp[name].path, i) ==> entries[i].served == Writable(fs)
  {
    hide ValidCap, Preopens, RoutesTo, OnPath;
    if name in cap.mounts && RoutesTo(entries, cap.mounts[name].path, i) {
      assert OnPath(cap.mounts[name].path, cap.mounts[name].path) by { OnItself(cap.mounts[name].path); }
      MountIsReached(cap, supplied, entries, owners, MountOf(name), cap.mounts[name].path, i);
    }
    if name in cap.temp && RoutesTo(entries, cap.temp[name].path, i) {
      assert OnPath(cap.temp[name].path, cap.temp[name].path) by { OnItself(cap.temp[name].path); }
      MountIsReached(cap, supplied, entries, owners, TempOf(name), cap.temp[name].path, i);
    }
  }

  lemma OnItself(p: string)
    ensures OnPath(p, p)
  {
  }
}
