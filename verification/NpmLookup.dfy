/** What the scanner records for an `npm:` import, and the files in which the bundler looks for it. */
module NpmLookup {
  import opened Text
  import opened Utf8
  import opened FsPaths
  import opened PathClean
  import opened NpmSpec

  datatype Scan = Dependency(npm: Npm) | MalformedSpecifier | MissingVersion

  /** What the scanner records for an `npm:` import. */
  function ClassifyNpm(spec: string): Scan {
    match ParseNpmSpec(spec)
    case None => MalformedSpecifier
    case Some(r) => if r.version == "" then MissingVersion else Dependency(r)
  }

  /** path.Join of two elements. */
  function PathJoin(a: string, b: string): string {
    if a == "" then (if b == "" then "" else Clean(b))
    else if b == "" then Clean(a) else Clean(a + "/" + b)
  }

  /** What is appended to a path, in turn, to find a file: nothing first. */
  const SUFFIXES := ["", ".ts", ".tsx", ".js", ".jsx", ".mjs", ".cjs", ".json"]

  /** The files resolveAsFile tries, in order. */
  function Probes(candidate: string): (ps: seq<string>)
    ensures |ps| == |SUFFIXES|
  {
    var c := Clean(candidate);
    seq(|SUFFIXES|, i requires 0 <= i < |SUFFIXES| => c + SUFFIXES[i])
  }

  /** The first of `ps` that is a file. */
  function FirstFile(files: set<string>, ps: seq<string>): (r: Option<string>)
    ensures r.Some? ==> r.value in ps && r.value in files
    ensures r.None? ==> forall i :: 0 <= i < |ps| ==> ps[i] !in files
  {
    if ps == [] then None else if ps[0] in files then Some(ps[0]) else FirstFile(files, ps[1..])
  }

  lemma {:induction false} FirstFileIs(files: set<string>, ps: seq<string>, k: nat)
    requires k <= |ps| && forall i :: 0 <= i < k ==> ps[i] !in files
    ensures FirstFile(files, ps) == if k < |ps| && ps[k] in files then Some(ps[k]) else FirstFile(files, ps[k..])
  {
    if k > 0 {
      FirstFileIs(files, ps[1..], k - 1);
      assert ps[1..][k - 1..] == ps[k..];
    }
  }

  method ResolveAsFile(files: set<string>, path: string) returns (found: Option<string>)
    ensures found == FirstFile(files, Probes(path))
  {
    hide Clean, FirstFile;
    var candidate := Clean(path);
    ghost var ps := Probes(path);
    assert ps[0] == candidate + "" == candidate;
    if candidate in files {
      FirstFileIs(files, ps, 0);
      return Some(candidate);
    }
    var i := 1;
    while i < |SUFFIXES|
      invariant 1 <= i <= |SUFFIXES|
      invariant forall k :: 0 <= k < i ==> ps[k] !in files
    {
      if candidate + SUFFIXES[i] in files {
        FirstFileIs(files, ps, i);
        return Some(candidate + SUFFIXES[i]);
      }
      i := i + 1;
    }
    NoFile(files, ps);
    return None;
  }

  lemma {:induction false} NoFile(files: set<string>, ps: seq<string>)
    requires forall i :: 0 <= i < |ps| ==> ps[i] !in files
    ensures FirstFile(files, ps) == None
  {
    if ps != [] { NoFile(files, ps[1..]); }
  }

  /** `manifests` are the package.json files read on the way, `probes` the files tried in order. */
  datatype Target =
    | Malformed
    | RelativeFile(path: string)
    | RootedFile(path: string)
    | PackageFile(manifests: seq<string>, probes: seq<string>)

  /** A bare specifier, where no package.json names an entry. */
  function ResolveBare(nodeModules: string, bare: string): Target {
    var (name, subpath) := SplitBareSpecifier(bare);
    var dir := PathJoin(nodeModules, name);
    if subpath == "" then
      PackageFile([PathJoin(dir, "package.json")], Probes(PathJoin(dir, "index")))
    else
      var candidate := PathJoin(dir, subpath);
      PackageFile([PathJoin(dir, "package.json"), PathJoin(candidate, "package.json")],
                  Probes(candidate) + Probes(PathJoin(candidate, "index")))
  }

  /** Where the bundler looks for an `npm:` import. */
  function ResolveNpm(nodeModules: string, spec: string): Target {
    match ParseNpmSpec(spec)
    case None => Malformed
    case Some(r) =>
      if r.name == "" then Malformed else
        var bare := r.name + r.subpath;
        if "./" <= bare || "../" <= bare then RelativeFile(bare)
        else if "/" <= bare then RootedFile(bare[1..])
        else ResolveBare(nodeModules, bare)
  }

  /** The files tried in the end, if the import is looked up as a package. */
  function Tried(nodeModules: string, spec: string): seq<string> {
    var t := ResolveNpm(nodeModules, spec);
    if t.PackageFile? then t.probes else []
  }

  /** The package's own directory. */
  function PackageDir(nodeModules: string, name: string): string {
    FsPaths.Join(nodeModules, name)
  }

  /** A path of proper elements, at or below the package's directory. */
  ghost predicate Inside(dir: string, p: string) {
    ValidRel(p) && OnPath(dir, p)
  }

  ghost predicate AllInside(dir: string, ps: seq<string>) {
    forall i :: 0 <= i < |ps| ==> Inside(dir, ps[i])
  }

  /** Every file the bundler reads or tries lies in the package's directory. */
  ghost predicate LooksInside(nodeModules: string, name: string, t: Target) {
    var dir := PackageDir(nodeModules, name);
    t.PackageFile? && AllInside(dir, t.manifests) && AllInside(dir, t.probes)
  }

  /** The files tried at a clean path, spelled out. */
  lemma ProbesAre(c: string)
    requires Clean(c) == c
    ensures Probes(c) == [c, c + ".ts", c + ".tsx", c + ".js", c + ".jsx", c + ".mjs", c + ".cjs", c + ".json"]
  {
    hide Clean;
    assert c + "" == c;
  }

  // ---------------------------------------------------------------- walking up and down

  /** A relative path, resolved: so many steps up, then down through `names`. */
  datatype Net = Net(ups: nat, names: seq<string>)

  const HERE := Net(0, [])

  /** Where a path's elements lead, starting from `at`. */
  function Walk(es: seq<string>, at: Net): Net
    decreases |es|
  {
    if es == [] then at
    else if es[0] == "" || es[0] == "." then Walk(es[1..], at)
    else if es[0] == ".." then
      Walk(es[1..], if at.names == [] then Net(at.ups + 1, []) else Net(at.ups, at.names[..|at.names| - 1]))
    else Walk(es[1..], Net(at.ups, at.names + [es[0]]))
  }

  function Ups(n: nat): (es: seq<string>)
    ensures |es| == n && forall i :: 0 <= i < n ==> es[i] == ".."
  {
    seq(n, i => "..")
  }

  function NetElems(n: Net): seq<string> {
    Ups(n.ups) + n.names
  }

  function NetPath(n: Net): string {
    if n == HERE then "." else JoinElems(NetElems(n))
  }

  ghost predicate NoSlashes(es: seq<string>) {
    forall i :: 0 <= i < |es| ==> '/' !in es[i]
  }

  lemma StepUp(n: Net)
    requires AllElems(n.names)
    ensures var out := NetElems(n); n.names != [] ==>
              out[|out| - 1] != ".." && out[..|out| - 1] == NetElems(Net(n.ups, n.names[..|n.names| - 1]))
    ensures n.names == [] ==>
              (NetElems(n) != [] ==> NetElems(n)[n.ups - 1] == "..") && NetElems(n) + [".."] == NetElems(Net(n.ups + 1, []))
  {
  }

  lemma {:induction false} WalkIsResolve(es: seq<string>, at: Net)
    requires NoSlashes(es) && AllElems(at.names)
    ensures AllElems(Walk(es, at).names)
    ensures Resolve(es, NetElems(at), false) == NetElems(Walk(es, at))
    decreases |es|
  {
    if es != [] {
      StepUp(at);
      if es[0] == "" || es[0] == "." {
        WalkIsResolve(es[1..], at);
      } else if es[0] == ".." {
        WalkIsResolve(es[1..], if at.names == [] then Net(at.ups + 1, []) else Net(at.ups, at.names[..|at.names| - 1]));
      } else {
        var down := Net(at.ups, at.names + [es[0]]);
        assert NetElems(at) + [es[0]] == NetElems(down);
        WalkIsResolve(es[1..], down);
      }
    }
  }

  lemma {:induction false} WalkAppend(a: seq<string>, b: seq<string>, at: Net)
    ensures Walk(a + b, at) == Walk(b, Walk(a, at))
    decreases |a|
  {
    if a == [] {
      assert a + b == b;
    } else {
      var next := Walk([a[0]], at);
      assert (a + b)[1..] == a[1..] + b;
      WalkAppend(a[1..], b, at);
      WalkAppend(a[1..], b, if at.names == [] then Net(at.ups + 1, []) else Net(at.ups, at.names[..|at.names| - 1]));
      WalkAppend(a[1..], b, Net(at.ups, at.names + [a[0]]));
    }
  }

  lemma {:induction false} WalkDown(names: seq<string>, at: Net)
    requires AllElems(names)
    ensures Walk(names, at) == Net(at.ups, at.names + names)
    decreases |names|
  {
    if names == [] {
      assert at.names + names == at.names;
    } else {
      WalkDown(names[1..], Net(at.ups, at.names + [names[0]]));
      assert at.names + [names[0]] + names[1..] == at.names + names;
    }
  }

  lemma {:induction false} WalkUp(n: nat, at: nat)
    ensures Walk(Ups(n), Net(at, [])) == Net(at + n, [])
    decreases n
  {
    if n > 0 {
      assert Ups(n)[1..] == Ups(n - 1);
      WalkUp(n - 1, at + 1);
    }
  }

  /** A resolved path leads where it says. */
  lemma WalkOfNetPath(n: Net)
    requires AllElems(n.names)
    ensures Walk(Elems(NetPath(n)), HERE) == n
    ensures n != HERE ==> Elems(NetPath(n)) == NetElems(n)
  {
    hide Elems, JoinElems;
    if n == HERE {
      NoSlash(".");
      assert ["."][1..] == [];
    } else {
      ElemsOfJoin(NetElems(n));
      WalkAppend(Ups(n.ups), n.names, HERE);
      WalkUp(n.ups, 0);
      WalkDown(n.names, Net(n.ups, []));
      assert [] + n.names == n.names;
    }
  }

  lemma CleanIsWalk(p: string)
    requires p != "" && p[0] != '/'
    ensures Clean(p) == NetPath(Walk(Elems(p), HERE)) && AllElems(Walk(Elems(p), HERE).names)
  {
    hide Elems, JoinElems;
    assert NetElems(HERE) == [];
    WalkIsResolve(Elems(p), HERE);
  }

  // ---------------------------------------------------------------- from a directory

  /** Where `net` leads from the directory with elements `base`. */
  function From(base: seq<string>, net: Net): Net {
    if net.ups <= |base| then Net(0, base[..|base| - net.ups] + net.names) else Net(net.ups - |base|, net.names)
  }

  lemma FromStep(base: seq<string>, at: Net)
    ensures at.names != [] ==>
              var a, b := From(base, at), From(base, Net(at.ups, at.names[..|at.names| - 1]));
              a.names != [] && b == Net(a.ups, a.names[..|a.names| - 1])
    ensures at.names == [] ==>
              var a, b := From(base, at), From(base, Net(at.ups + 1, []));
              b == if a.names == [] then Net(a.ups + 1, []) else Net(a.ups, a.names[..|a.names| - 1])
  {
    if at.names != [] && at.ups <= |base| {
      var keep := base[..|base| - at.ups];
      assert (keep + at.names)[..|keep + at.names| - 1] == keep + at.names[..|at.names| - 1];
    }
    if at.names == [] && at.ups <= |base| {
      var keep := base[..|base| - at.ups];
      assert keep + [] == keep;
      if at.ups < |base| {
        assert keep[..|keep| - 1] == base[..|base| - at.ups - 1] == base[..|base| - at.ups - 1] + [];
      }
    }
  }

  /** Walking from a directory is walking from nowhere and then placing the result there. */
  lemma {:induction false} WalkFrom(base: seq<string>, es: seq<string>, at: Net)
    ensures Walk(es, From(base, at)) == From(base, Walk(es, at))
    decreases |es|
  {
    if es != [] {
      FromStep(base, at);
      if es[0] == "" || es[0] == "." {
        WalkFrom(base, es[1..], at);
      } else if es[0] == ".." {
        WalkFrom(base, es[1..], if at.names == [] then Net(at.ups + 1, []) else Net(at.ups, at.names[..|at.names| - 1]));
      } else {
        var down := Net(at.ups, at.names + [es[0]]);
        WalkFrom(base, es[1..], down);
        if at.ups <= |base| {
          var keep := base[..|base| - at.ups];
          assert keep + at.names + [es[0]] == keep + down.names;
        }
      }
    }
  }

  /** What climbs comes back down by the names it climbed out of, and then goes further. */
  predicate EndsBelow(base: seq<string>, net: Net) {
    net.ups <= |base| && base[|base| - net.ups..] < net.names
  }

  lemma BelowIff(base: seq<string>, net: Net)
    ensures From(base, net).ups == 0 && base < From(base, net).names <==> EndsBelow(base, net)
  {
    if net.ups <= |base| {
      var keep, gone := base[..|base| - net.ups], base[|base| - net.ups..];
      assert base == keep + gone;
      var names := keep + net.names;
      assert names[|keep|..] == net.names;
      if gone < net.names {
        assert names[..|base|] == keep + net.names[..|gone|];
      }
      if base < names {
        assert gone == names[..|base|][|keep|..] == net.names[..|gone|];
      }
    }
  }

  // ---------------------------------------------------------------- the package the scanner recorded

  /** The elements of the package's directory. */
  function DirElems(nodeModules: string, name: string): seq<string> {
    (if nodeModules == "." then [] else Elems(nodeModules)) + Elems(name)
  }

  /** Where the package's directory is. */
  function DirWalk(nodeModules: string, name: string): Net {
    Walk(Elems(nodeModules) + Elems(name), HERE)
  }

  lemma DirJoinIsWalk(nodeModules: string, name: string)
    requires ValidPath(nodeModules) && name != ""
    ensures PathJoin(nodeModules, name) == NetPath(DirWalk(nodeModules, name))
    ensures AllElems(DirWalk(nodeModules, name).names)
  {
    hide Elems, JoinElems, Clean, ValidRel, Walk;
    NameOfValid(nodeModules);
    ElemsAppend(nodeModules, name);
    CleanIsWalk(nodeModules + "/" + name);
  }

  /** Joining to a resolved path is walking on from where it leads. */
  lemma JoinIsWalk(n: Net, p: string)
    requires AllElems(n.names) && p != ""
    ensures PathJoin(NetPath(n), p) == NetPath(Walk(Elems(p), n)) && AllElems(Walk(Elems(p), n).names)
  {
    hide Elems, JoinElems, Clean, Walk;
    NetPathStart(n);
    ElemsAppend(NetPath(n), p);
    CleanIsWalk(NetPath(n) + "/" + p);
    WalkOfNetPath(n);
    WalkAppend(Elems(NetPath(n)), Elems(p), HERE);
  }

  lemma NameOfValid(p: string)
    requires ValidPath(p)
    ensures p != "" && p[0] != '/'
  {
    if p != "." { ValidRelShape(p); }
  }

  lemma NetPathStart(n: Net)
    requires AllElems(n.names)
    ensures NetPath(n) != "" && NetPath(n)[0] != '/'
  {
    if n != HERE {
      var es := NetElems(n);
      if |es| > 1 { JoinCons(es[0], es[1..]); assert es == [es[0]] + es[1..]; }
      assert es[0] == ".." || ValidElem(es[0]);
      assert es[0][0] in es[0];
    }
  }

  lemma DirElemsAre(nodeModules: string, name: string)
    requires ValidPath(nodeModules)
    ensures Elems(PackageDir(nodeModules, name)) == DirElems(nodeModules, name) != []
  {
    hide Elems;
    if nodeModules == "." {
      assert [] + Elems(name) == Elems(name);
    } else {
      ElemsAppend(nodeModules, name);
    }
  }

  /** With a proper name the walk starts from the package's directory. */
  lemma ProperNameWalk(nodeModules: string, name: string)
    requires ValidPath(nodeModules) && AllElems(Elems(name))
    ensures DirWalk(nodeModules, name) == Net(0, DirElems(nodeModules, name)) == From(DirElems(nodeModules, name), HERE)
  {
    hide Elems;
    var base := DirElems(nodeModules, name);
    assert base[..|base|] + [] == base;
    if nodeModules == "." {
      NoSlash(".");
      assert (["."] + Elems(name))[1..] == Elems(name) == base;
      WalkDown(base, HERE);
    } else {
      ValidRelIsAllElems(nodeModules);
      assert AllElems(base);
      WalkDown(base, HERE);
    }
    assert [] + base == base;
  }

  lemma InDirIff(nodeModules: string, name: string, n: Net)
    requires ValidPath(nodeModules) && AllElems(n.names)
    ensures Inside(PackageDir(nodeModules, name), NetPath(n)) <==> n.ups == 0 && DirElems(nodeModules, name) <= n.names
  {
    hide Elems, JoinElems, ValidRel, Under;
    var dir, base, p := PackageDir(nodeModules, name), DirElems(nodeModules, name), NetPath(n);
    DirElemsAre(nodeModules, name);
    WalkOfNetPath(n);
    ValidRelIsAllElems(p);
    UnderIffElems(dir, p);
    JoinOfElems(dir);
    JoinOfElems(p);
    if n == HERE {
      NoSlash(".");
      assert Elems(p)[0] == ".";
    } else if n.ups > 0 {
      assert NetElems(n)[0] == "..";
    } else {
      assert NetElems(n) == n.names;
      assert base <= n.names <==> base == n.names || base < n.names;
    }
  }

  lemma InDirNameProper(nodeModules: string, name: string, names: seq<string>)
    requires AllElems(names) && DirElems(nodeModules, name) <= names
    ensures AllElems(Elems(name))
  {
    hide Elems, ValidElem;
    var base, es := DirElems(nodeModules, name), Elems(name);
    assert forall k :: 0 <= k < |base| ==> base[k] == names[k];
    assert forall i :: 0 <= i < |es| ==> es[i] == base[|base| - |es| + i];
  }

  lemma LeafValid(leaf: string)
    requires leaf == "package.json" || leaf == "index"
    ensures ValidElem(leaf) && Elems(leaf) == [leaf]
  {
    NoSlash(leaf);
  }

  /** A fixed file name joined to a resolved path. */
  lemma LeafJoin(n: Net, leaf: string)
    requires AllElems(n.names) && (leaf == "package.json" || leaf == "index")
    ensures AllElems(n.names + [leaf]) && PathJoin(NetPath(n), leaf) == NetPath(Net(n.ups, n.names + [leaf]))
  {
    hide Elems, NetPath, PathJoin, ValidElem;
    LeafValid(leaf);
    JoinIsWalk(n, leaf);
    WalkDown([leaf], n);
  }

  predicate Suffix(t: string) {
    t == "" || (|t| > 2 && t[0] == '.' && '/' !in t)
  }

  lemma SuffixesAre()
    ensures SUFFIXES[0] == "" && SUFFIXES[1] == ".ts" && forall i :: 0 <= i < |SUFFIXES| ==> Suffix(SUFFIXES[i])
  {
  }

  /** The last name with a suffix put on. */
  function Suffixed(names: seq<string>, t: string): seq<string>
    requires names != []
  {
    names[..|names| - 1] + [names[|names| - 1] + t]
  }

  lemma SuffixedPath(n: Net, t: string)
    requires AllElems(n.names) && n.names != [] && Suffix(t)
    ensures AllElems(Suffixed(n.names, t)) && NetPath(n) + t == NetPath(Net(n.ups, Suffixed(n.names, t)))
  {
    hide JoinElems, Elems, NetElems;
    var k := |n.names| - 1;
    var up, last := NetElems(Net(n.ups, n.names[..k])), n.names[k];
    assert ValidElem(last + t);
    assert NetElems(n) == up + [last] && NetElems(Net(n.ups, Suffixed(n.names, t))) == up + [last + t] by {
      assert n.names == n.names[..k] + [last];
      NetElemsSplit(n.ups, n.names[..k], last);
      NetElemsSplit(n.ups, n.names[..k], last + t);
    }
    JoinOne(last);
    JoinOne(last + t);
    if up == [] {
      assert up + [last] == [last] && up + [last + t] == [last + t];
    } else {
      JoinAppend(up, [last]);
      JoinAppend(up, [last + t]);
      assert (JoinElems(up) + "/" + last) + t == JoinElems(up) + "/" + (last + t);
    }
  }

  lemma NetElemsSplit(ups: nat, names: seq<string>, last: string)
    ensures NetElems(Net(ups, names + [last])) == NetElems(Net(ups, names)) + [last]
  {
  }

  lemma ResolvedIsClean(n: Net)
    requires AllElems(n.names)
    ensures Clean(NetPath(n)) == NetPath(n)
  {
    hide Clean, NetPath, Elems;
    NetPathStart(n);
    WalkOfNetPath(n);
    CleanIsWalk(NetPath(n));
  }

  /** A sibling with a longer name does not lie in the directory. */
  lemma SiblingOutside(dir: string, t: string)
    requires t != "" && t[0] != '/'
    ensures !OnPath(dir, dir + t)
  {
    UnderAt(dir, dir + t);
    assert (dir + t)[|dir|] == t[0];
  }

  /** All files tried at a resolved path lie in the package's directory exactly when the path
      lies strictly below it. */
  lemma ProbesInsideIff(nodeModules: string, name: string, n: Net)
    requires ValidPath(nodeModules) && AllElems(n.names)
    ensures AllInside(PackageDir(nodeModules, name), Probes(NetPath(n))) <==>
            n.ups == 0 && DirElems(nodeModules, name) < n.names
  {
    hide Elems, Inside, NetPath, Clean, OnPath;
    var dir, base, ps := PackageDir(nodeModules, name), DirElems(nodeModules, name), Probes(NetPath(n));
    ResolvedIsClean(n);
    SuffixesAre();
    InDirIff(nodeModules, name, n);
    if n.ups == 0 && base < n.names {
      forall i | 0 <= i < |ps|
        ensures Inside(dir, ps[i])
      {
        var names := Suffixed(n.names, SUFFIXES[i]);
        SuffixedPath(n, SUFFIXES[i]);
        InDirIff(nodeModules, name, Net(0, names));
        assert names[..|base|] == n.names[..|base|] == base;
      }
    } else if AllInside(dir, ps) {
      assert ps[0] == NetPath(n) + "" == NetPath(n);
      assert Inside(dir, ps[0]) && n.names == base;
      DirIsPath(nodeModules, name, n);
      SiblingOutside(dir, ".ts");
      assert Inside(dir, ps[1]) && ps[1] == dir + ".ts";
      InsideIsOnPath(dir, ps[1]);
    }
  }

  lemma InsideIsOnPath(dir: string, p: string)
    requires Inside(dir, p)
    ensures OnPath(dir, p)
  {
  }

  lemma DirIsPath(nodeModules: string, name: string, n: Net)
    requires ValidPath(nodeModules) && n == Net(0, DirElems(nodeModules, name))
    ensures NetPath(n) == PackageDir(nodeModules, name)
  {
    hide Elems, JoinElems;
    DirElemsAre(nodeModules, name);
    assert NetElems(n) == n.names;
    JoinOfElems(PackageDir(nodeModules, name));
  }

  lemma ManifestInside(nodeModules: string, name: string, n: Net)
    requires ValidPath(nodeModules) && AllElems(n.names)
    ensures n.ups == 0 && DirElems(nodeModules, name) <= n.names ==>
              Inside(PackageDir(nodeModules, name), PathJoin(NetPath(n), "package.json"))
  {
    hide Elems, Inside, NetPath, PathJoin;
    LeafJoin(n, "package.json");
    InDirIff(nodeModules, name, Net(n.ups, n.names + ["package.json"]));
  }

  lemma IndexInsideIff(nodeModules: string, name: string, n: Net)
    requires ValidPath(nodeModules) && AllElems(n.names)
    ensures AllInside(PackageDir(nodeModules, name), Probes(PathJoin(NetPath(n), "index"))) <==>
            n.ups == 0 && DirElems(nodeModules, name) <= n.names
  {
    hide Elems, AllInside, NetPath, PathJoin, Probes;
    LeafJoin(n, "index");
    ProbesInsideIff(nodeModules, name, Net(n.ups, n.names + ["index"]));
  }

  /** What is joined to the package's directory, a subpath or an entry of its package.json, is
      only tried inside it exactly when the name is proper and the path ends strictly below. */
  lemma EntryStaysIff(nodeModules: string, name: string, p: string)
    requires ValidPath(nodeModules) && name != "" && p != ""
    ensures AllInside(PackageDir(nodeModules, name), Probes(PathJoin(PathJoin(nodeModules, name), p))) <==>
            AllElems(Elems(name)) && EndsBelow(DirElems(nodeModules, name), Walk(Elems(p), HERE))
  {
    hide Elems, Walk, AllInside, AllElems, Probes, PathJoin, NetPath, DirWalk;
    var base, at := DirElems(nodeModules, name), DirWalk(nodeModules, name);
    var n := Walk(Elems(p), at);
    DirJoinIsWalk(nodeModules, name);
    JoinIsWalk(at, p);
    ProbesInsideIff(nodeModules, name, n);
    if AllElems(Elems(name)) {
      ProperNameWalk(nodeModules, name);
      WalkFrom(base, Elems(p), HERE);
      BelowIff(base, Walk(Elems(p), HERE));
    } else if base <= n.names {
      InDirNameProper(nodeModules, name, n.names);
    }
  }

  lemma IndexStaysIff(nodeModules: string, name: string)
    requires ValidPath(nodeModules) && name != ""
    ensures AllInside(PackageDir(nodeModules, name), Probes(PathJoin(PathJoin(nodeModules, name), "index"))) <==>
            AllElems(Elems(name))
  {
    hide Elems, AllInside, AllElems, Probes, PathJoin, NetPath, DirWalk;
    var base, at := DirElems(nodeModules, name), DirWalk(nodeModules, name);
    DirJoinIsWalk(nodeModules, name);
    IndexInsideIff(nodeModules, name, at);
    if AllElems(Elems(name)) {
      ProperNameWalk(nodeModules, name);
    } else if base <= at.names {
      InDirNameProper(nodeModules, name, at.names);
    }
  }

  /** With a proper name and a subpath that stays, the package.json files read and the index
      files tried stay as well. */
  lemma RestStays(nodeModules: string, name: string, subpath: string)
    requires ValidPath(nodeModules) && name != "" && AllElems(Elems(name))
    requires subpath != "" ==> EndsBelow(DirElems(nodeModules, name), Walk(Elems(subpath), HERE))
    ensures var dir, join := PackageDir(nodeModules, name), PathJoin(nodeModules, name);
            Inside(dir, PathJoin(join, "package.json")) &&
            (subpath != "" ==> Inside(dir, PathJoin(PathJoin(join, subpath), "package.json")) &&
                               AllInside(dir, Probes(PathJoin(PathJoin(join, subpath), "index"))))
  {
    hide Elems, Walk, AllInside, AllElems, Inside, Probes, PathJoin, NetPath, DirWalk;
    var base, at := DirElems(nodeModules, name), DirWalk(nodeModules, name);
    DirJoinIsWalk(nodeModules, name);
    ProperNameWalk(nodeModules, name);
    ManifestInside(nodeModules, name, at);
    if subpath != "" {
      var n := Walk(Elems(subpath), at);
      JoinIsWalk(at, subpath);
      WalkFrom(base, Elems(subpath), HERE);
      BelowIff(base, Walk(Elems(subpath), HERE));
      ManifestInside(nodeModules, name, n);
      IndexInsideIff(nodeModules, name, n);
    }
  }

  /** The condition, on the recorded parts. */
  ghost predicate Stays(nodeModules: string, name: string, subpath: string) {
    AllElems(Elems(name)) && (subpath == "" || EndsBelow(DirElems(nodeModules, name), Walk(Elems(subpath), HERE)))
  }

  /** Everything looked at for a package of a proper name, and for a proper path in it. */
  lemma PackageLookup(nodeModules: string, name: string, path: string)
    requires ValidPath(nodeModules) && PackageName(name) && AllElems(Elems(name)) && ValidRel(path)
    ensures var dir := PackageDir(nodeModules, name);
            ResolveBare(nodeModules, name) == PackageFile([dir + "/" + "package.json"], Probes(dir + "/" + "index"))
    ensures var file := PackageDir(nodeModules, name) + "/" + path;
            ResolveBare(nodeModules, name + ("/" + path)) ==
            PackageFile([PackageDir(nodeModules, name) + "/" + "package.json", file + "/" + "package.json"],
                        Probes(file) + Probes(file + "/" + "index"))
    ensures Clean(PackageDir(nodeModules, name) + "/" + path) == PackageDir(nodeModules, name) + "/" + path
    ensures Clean(PackageDir(nodeModules, name) + "/" + "index") == PackageDir(nodeModules, name) + "/" + "index"
  {
    hide Elems, AllElems, PackageName, SplitBareSpecifier, Clean, Walk, ValidPath, ValidRel, Probes, PackageDir, DirWalk, NetPath;
    NameNotEmpty(name);
    BareSplitsBack(name, "");
    assert name + "" == name;
    BareSplitsBack(name, "/" + path);
    var dir := PackageDir(nodeModules, name);
    DirIsRel(nodeModules, name);
    ValidRelShape(path);
    LeafRel("package.json");
    LeafRel("index");
    JoinsCleanly(dir, "package.json");
    JoinsCleanly(dir, "index");
    JoinsCleanly(dir, path);
    var file := dir + "/" + path;
    SlashesMerge(dir, path);
    JoinsCleanly(file, "package.json");
    JoinsCleanly(file, "index");
  }

  lemma LeafRel(leaf: string)
    requires leaf == "package.json" || leaf == "index"
    ensures ValidRel(leaf)
  {
    LeafValid(leaf);
    NoSlash(leaf);
    OneElem(leaf);
    ValidRelIsAllElems(leaf);
  }

  lemma DirIsRel(nodeModules: string, name: string)
    requires ValidPath(nodeModules) && name != "" && AllElems(Elems(name))
    ensures PathJoin(nodeModules, name) == PackageDir(nodeModules, name) && ValidRel(PackageDir(nodeModules, name))
  {
    hide Elems, PathJoin, Walk;
    DirJoinIsWalk(nodeModules, name);
    ProperNameWalk(nodeModules, name);
    DirIsPath(nodeModules, name, DirWalk(nodeModules, name));
    DirElemsAre(nodeModules, name);
    ValidRelIsAllElems(PackageDir(nodeModules, name));
  }

  lemma JoinsCleanly(dir: string, path: string)
    requires ValidRel(dir) && ValidRel(path)
    ensures PathJoin(dir, path) == dir + "/" + path && ValidRel(dir + "/" + path) && Clean(dir + "/" + path) == dir + "/" + path
  {
    hide Elems, ValidRel, Clean;
    ValidRelShape(dir);
    ValidRelShape(path);
    ValidRelIsAllElems(dir);
    ValidRelIsAllElems(path);
    ElemsAppend(dir, path);
    ValidRelIsAllElems(dir + "/" + path);
    ValidPathIsClean(dir + "/" + path);
  }

  lemma SlashesMerge(dir: string, path: string)
    requires ValidRel(dir) && ValidRel(path)
    ensures PathJoin(dir, "/" + path) == dir + "/" + path
  {
    hide Elems, ValidRel, Clean;
    ValidRelShape(dir);
    ElemA();
    CleanRules(dir, "a", path);
    JoinsCleanly(dir, path);
    assert dir + "/" + ("/" + path) == dir + "/" + ("" + "/" + path);
  }

  lemma ElemA()
    ensures ValidElem("a")
  {
  }

  lemma AllInsideConcat(dir: string, a: seq<string>, b: seq<string>)
    ensures AllInside(dir, a + b) <==> AllInside(dir, a) && AllInside(dir, b)
  {
    hide Inside;
    assert forall i :: 0 <= i < |a| ==> (a + b)[i] == a[i];
    assert forall i :: 0 <= i < |b| ==> (a + b)[|a| + i] == b[i];
  }

  lemma LookupStaysIff(nodeModules: string, name: string, subpath: string)
    requires ValidPath(nodeModules) && PackageName(name) && Subpath(subpath)
    ensures LooksInside(nodeModules, name, ResolveBare(nodeModules, name + subpath)) <==> Stays(nodeModules, name, subpath)
  {
    hide PackageName, Subpath, ValidPath, Inside, AllElems, PathJoin, Elems, Walk, EndsBelow, SplitBareSpecifier, Probes;
    NameNotEmpty(name);
    BareSplitsBack(name, subpath);
    var dir, join := PackageDir(nodeModules, name), PathJoin(nodeModules, name);
    if subpath == "" {
      IndexStaysIff(nodeModules, name);
    } else {
      var candidate := PathJoin(join, subpath);
      EntryStaysIff(nodeModules, name, subpath);
      AllInsideConcat(dir, Probes(candidate), Probes(PathJoin(candidate, "index")));
    }
    if Stays(nodeModules, name, subpath) {
      RestStays(nodeModules, name, subpath);
    }
  }

  /** What is written with a version is recorded, without one refused, and what does not parse
      malformed. */
  lemma ClassifiedIs(name: string, at: bool, version: string, subpath: string, spec: string)
    requires PackageName(name) && '/' !in version && Subpath(subpath) && (!at ==> version == "")
    ensures ClassifyNpm(Written(name, at, version, subpath)) ==
            if version == "" then MissingVersion else Dependency(Npm(name, version, subpath))
    ensures ClassifyNpm(spec) == MalformedSpecifier <==>
            !("npm:" <= spec) || spec == "npm:" || (|spec| > 4 && spec[4] == '@' && '/' !in spec[5..])
  {
    hide ParseNpmSpec, Written, PackageName;
    WrittenParses(name, at, version, subpath);
    MalformedIff(spec);
  }

  /** A recorded dependency always has a name. */
  lemma DependencyIsNamed(nodeModules: string, spec: string)
    requires ClassifyNpm(spec).Dependency?
    ensures ClassifyNpm(spec).npm.name != "" && ResolveNpm(nodeModules, spec) != Malformed
  {
    var s := spec[4..];
    assert s[0..] == s;
  }

  /** Everything the bundler reads or tries for a package the scanner recorded, entries named by
      a package.json aside, lies in that package's directory if and only if every element of the name is a proper file name, and
      the recorded subpath, if there is one, ends strictly below the directory, coming back
      down by the same names as far as it climbs. */
  lemma BundlerFindsDependencyIff(nodeModules: string, spec: string)
    requires ValidPath(nodeModules) && ClassifyNpm(spec).Dependency?
    ensures var d := ClassifyNpm(spec).npm;
            LooksInside(nodeModules, d.name, ResolveNpm(nodeModules, spec)) <==> Stays(nodeModules, d.name, d.subpath)
  {
    hide ParseNpmSpec, PackageName, Subpath, ValidPath, AllInside, AllElems, EndsBelow, ResolveBare;
    DependencyIsNamed(nodeModules, spec);
    ParseIsLossless(spec);
    var d := ClassifyNpm(spec).npm;
    RelativeLookalike(d.name, d.subpath);
    LookupStaysIff(nodeModules, d.name, d.subpath);
  }

  /** Then whatever file it settles on is the package's. */
  lemma ResolvedFileInside(nodeModules: string, spec: string, files: set<string>)
    requires ValidPath(nodeModules) && ClassifyNpm(spec).Dependency?
    requires var d := ClassifyNpm(spec).npm; Stays(nodeModules, d.name, d.subpath)
    ensures var t, dir := ResolveNpm(nodeModules, spec), PackageDir(nodeModules, ClassifyNpm(spec).npm.name);
            t.PackageFile? && (FirstFile(files, t.probes).Some? ==> Inside(dir, FirstFile(files, t.probes).value))
  {
    hide ClassifyNpm, ResolveNpm, Stays, Inside;
    BundlerFindsDependencyIff(nodeModules, spec);
  }

  lemma RelativeLookalike(name: string, subpath: string)
    requires PackageName(name) && Subpath(subpath)
    ensures "./" <= name + subpath || "../" <= name + subpath ==> !AllElems(Elems(name))
    ensures !("/" <= name + subpath)
  {
    var bare := name + subpath;
    assert forall i :: 0 <= i < |name| ==> bare[i] == name[i];
    assert forall i :: |name| <= i < |bare| ==> bare[i] == subpath[i - |name|];
    if "./" <= bare { assert bare[0] == '.' && bare[1] == '/'; }
    if "../" <= bare { assert bare[0] == '.' && bare[1] == '.' && bare[2] == '/'; }
    if name[0] != '@' {
      assert forall i :: 0 <= i < |name| ==> name[i] in name;
      NoSlash(name);
      OneElem(name);
    }
  }

  ghost predicate NamesNothing(es: seq<string>) {
    forall i :: 0 <= i < |es| ==> es[i] == "" || es[i] == "."
  }

  /** Without `..` a subpath goes down by its names alone. */
  lemma {:induction false} PlainWalk(es: seq<string>, at: Net)
    requires ".." !in es
    ensures Walk(es, at).ups == at.ups && |at.names| <= |Walk(es, at).names|
    ensures |at.names| == |Walk(es, at).names| <==> NamesNothing(es)
    decreases |es|
  {
    if es != [] {
      assert NamesNothing(es) <==> (es[0] == "" || es[0] == ".") && NamesNothing(es[1..]) by {
        assert forall i :: 0 < i < |es| ==> es[i] == es[1..][i - 1];
      }
      PlainWalk(es[1..], at);
      PlainWalk(es[1..], Net(at.ups, at.names + [es[0]]));
    }
  }

  /** With a proper name, a subpath without `..` stays in the package exactly when it is empty or
      names something. */
  lemma PlainSubpathStaysIff(nodeModules: string, spec: string)
    requires ValidPath(nodeModules) && ClassifyNpm(spec).Dependency?
    requires var d := ClassifyNpm(spec).npm; AllElems(Elems(d.name)) && ".." !in Elems(d.subpath)
    ensures var d := ClassifyNpm(spec).npm;
            LooksInside(nodeModules, d.name, ResolveNpm(nodeModules, spec)) <==>
            d.subpath == "" || !NamesNothing(Elems(d.subpath))
  {
    hide ClassifyNpm, ResolveNpm, LooksInside, NamesNothing;
    var d := ClassifyNpm(spec).npm;
    BundlerFindsDependencyIff(nodeModules, spec);
    PlainWalk(Elems(d.subpath), HERE);
    assert DirElems(nodeModules, d.name)[|DirElems(nodeModules, d.name)|..] == [];
  }

  lemma DefaultDir()
    ensures ValidPath("node_modules") && Elems("node_modules") == ["node_modules"]
  {
    hide ValidUtf8, Elems;
    AsciiIsValid("node_modules");
    assert '/' !in "node_modules";
    NoSlash("node_modules");
    OneElem("node_modules");
    ValidRelIsAllElems("node_modules");
  }

  lemma ClimbElems()
    ensures Elems("/../b") == ["", "..", "b"] && Elems("a") == ["a"]
  {
    hide Elems;
    NoSlash("a");
    NoSlash("b");
    ElemsCons("..", "b");
    SlashFirst("../b");
    assert ".." + "/" + "b" == "../b" && "/" + "../b" == "/../b";
    assert [".."] + ["b"] == ["..", "b"] && [""] + ["..", "b"] == ["", "..", "b"];
  }

  const PACKAGE_A := Net(0, ["node_modules", "a"])

  lemma WalkCons(e: string, es: seq<string>, at: Net)
    ensures Walk([e] + es, at) == Walk(es, Walk([e], at)) && Walk([], at) == at
  {
    WalkAppend([e], es, at);
  }

  lemma ClimbWalk()
    ensures Walk(["", "..", "b"], PACKAGE_A) == Net(0, ["node_modules", "b"])
  {
    hide Walk;
    assert ["", "..", "b"] == [""] + ([".."] + ["b"]);
    WalkCons("", [".."] + ["b"], PACKAGE_A);
    WalkCons("..", ["b"], PACKAGE_A);
    SingleSteps();
  }

  lemma SingleSteps()
    ensures Walk([""], PACKAGE_A) == PACKAGE_A && Walk([".."], PACKAGE_A) == Net(0, ["node_modules"])
    ensures Walk(["b"], Net(0, ["node_modules"])) == Net(0, ["node_modules", "b"])
  {
    assert [""][1..] == [] && [".."][1..] == [] && ["b"][1..] == [];
    assert ["node_modules", "a"][..1] == ["node_modules"];
  }

  lemma FromPackageA()
    ensures DirWalk("node_modules", "a") == PACKAGE_A && Walk(["", ""], PACKAGE_A) == PACKAGE_A
  {
    hide Elems, Walk, AllElems, ValidPath, NetPath;
    DefaultDir();
    NoSlash("a");
    InNodeModules("a");
    WalkDown(["node_modules", "a"], HERE);
    assert ["node_modules"] + ["a"] == ["node_modules", "a"] == [] + ["node_modules", "a"];
    assert ["", ""] == [""] + [""];
    WalkCons("", [""], PACKAGE_A);
    SingleSteps();
  }

  lemma InNodeModules(leaf: string)
    requires leaf == "a" || leaf == "b"
    ensures NetPath(Net(0, ["node_modules", leaf])) == "node_modules" + "/" + leaf
    ensures AllElems(["node_modules", leaf])
  {
    hide JoinElems;
    assert NetElems(Net(0, ["node_modules", leaf])) == ["node_modules"] + [leaf];
    JoinCons("node_modules", [leaf]);
    JoinOne(leaf);
  }

  predicate Starts(ps: seq<string>, p: string) {
    |ps| > 1 && ps[0] == p && ps[1] == p + ".ts"
  }

  lemma PackageARecorded(subpath: string)
    requires subpath != "" && Subpath(subpath)
    ensures ClassifyNpm(Written("a", true, "1", subpath)) == Dependency(Npm("a", "1", subpath))
    ensures ResolveNpm("node_modules", Written("a", true, "1", subpath)) == ResolveBare("node_modules", "a" + subpath)
  {
    hide ParseNpmSpec, Written, ResolveBare;
    WrittenParses("a", true, "1", subpath);
    assert ("a" + subpath)[0] == 'a';
  }

  lemma ProbesStart(n: Net, rest: seq<string>)
    requires AllElems(n.names)
    ensures Starts(Probes(NetPath(n)) + rest, NetPath(n))
  {
    hide Clean, NetPath;
    ResolvedIsClean(n);
    SuffixesAre();
    var ps := Probes(NetPath(n));
    assert ps[0] == NetPath(n) + "" == NetPath(n);
    assert (ps + rest)[0] == ps[0] && (ps + rest)[1] == ps[1];
  }

  /** What is tried for version 1 of package `a` with a subpath. */
  lemma PackageAFiles(subpath: string, leaf: string)
    requires subpath != "" && Subpath(subpath) && (leaf == "a" || leaf == "b")
    requires Walk(Elems(subpath), PACKAGE_A) == Net(0, ["node_modules", leaf])
    ensures ClassifyNpm(Written("a", true, "1", subpath)) == Dependency(Npm("a", "1", subpath))
    ensures Starts(Tried("node_modules", Written("a", true, "1", subpath)), "node_modules" + "/" + leaf)
  {
    hide ClassifyNpm, ResolveNpm, Written, SplitBareSpecifier, Elems, Walk, ValidPath, PathJoin, NetPath, Probes, Starts, DirWalk, AllElems;
    PackageARecorded(subpath);
    BareSplitsBack("a", subpath);
    DefaultDir();
    FromPackageA();
    InNodeModules("a");
    InNodeModules(leaf);
    DirJoinIsWalk("node_modules", "a");
    JoinIsWalk(PACKAGE_A, subpath);
    var candidate := PathJoin(PathJoin("node_modules", "a"), subpath);
    ProbesStart(Net(0, ["node_modules", leaf]), Probes(PathJoin(candidate, "index")));
  }

  /** The condition can fail: here the scanner records package `a`, the bundler tries package `b`. */
  lemma ClimbingSubpathParts()
    ensures ClassifyNpm(Written("a", true, "1", "/../b")) == Dependency(Npm("a", "1", "/../b"))
    ensures Starts(Tried("node_modules", Written("a", true, "1", "/../b")), "node_modules" + "/" + "b")
  {
    hide Tried, ClassifyNpm, Elems, Walk, Written, Starts;
    ClimbElems();
    ClimbWalk();
    PackageAFiles("/../b", "b");
  }

  /** And here it takes a file beside the package's directory before any file in it. */
  lemma TrailingSlashParts(files: set<string>)
    requires "node_modules" + "/" + "a" !in files && "node_modules" + "/" + "a" + ".ts" in files
    ensures ClassifyNpm(Written("a", true, "1", "/")) == Dependency(Npm("a", "1", "/"))
    ensures FirstFile(files, Tried("node_modules", Written("a", true, "1", "/"))) == Some("node_modules" + "/" + "a" + ".ts")
  {
    hide Tried, ClassifyNpm, Elems, Walk, Written, FirstFile;
    SlashFirst("");
    NoSlash("");
    assert "/" + "" == "/" && [""] + [""] == ["", ""];
    FromPackageA();
    PackageAFiles("/", "a");
    FirstFileIs(files, Tried("node_modules", Written("a", true, "1", "/")), 1);
  }

  /** And so does one that leaves node_modules alone: package `.` with a subpath is read as a
      relative file. */
  lemma DotPackageParts(nodeModules: string)
    ensures ClassifyNpm(Written(".", true, "1", "/x")) == Dependency(Npm(".", "1", "/x"))
    ensures ResolveNpm(nodeModules, Written(".", true, "1", "/x")) == RelativeFile("." + "/x")
  {
    hide ParseNpmSpec, Written;
    WrittenParses(".", true, "1", "/x");
    assert "./" <= "." + "/x";
  }
}
