/** The overlay: longest-prefix routing and synthesized directories. */
module MountedFs {
  import opened Text
  import opened Utf8
  import opened FsPaths
  import opened PathClean
  import opened FileView

  /** A mounted filesystem, as far as Stat goes: what it says about a path inside it. */
  datatype SubFs = SubFs(stat: string -> Option<Info>)

  type Mounts = map<string, SubFs>

  datatype Answer = Delegated(prefix: string, path: string) | Synthetic | NoEntry | Bad

  /** `name` is the mount `prefix` or lies inside it. */
  predicate Matches(prefix: string, name: string) {
    prefix == "" || name == prefix || Under(prefix, name)
  }

  /** Mount paths are clean names without a leading slash; "" mounts at the root. */
  ghost predicate ValidMounts(mounts: Mounts) {
    forall p :: p in mounts ==> p == "" || ValidRel(p)
  }

  ghost predicate Longest(paths: set<string>, name: string, best: string) {
    best in paths && Matches(best, name) && forall p :: p in paths && Matches(p, name) ==> |p| <= |best|
  }

  ghost predicate Routed(mounts: Mounts, name: string) {
    exists p :: p in mounts && Matches(p, name)
  }

  lemma SameLengthMatch(a: string, b: string, name: string)
    requires Matches(a, name) && Matches(b, name) && |a| == |b|
    ensures a == b
  {
    if a != "" {
      if Under(a, name) { UnderAt(a, name); }
      if Under(b, name) { UnderAt(b, name); }
      assert name[..|a|] == a && name[..|b|] == b;
    }
  }

  /** The longest match is unique, so no iteration order can change the route. */
  lemma LongestUnique(paths: set<string>, name: string, a: string, b: string)
    requires Longest(paths, name, a) && Longest(paths, name, b)
    ensures a == b
  {
    SameLengthMatch(a, b, name);
  }

  /** The path inside the mount: what is left of the name, or "." at the mount itself. */
  ghost predicate IsRemainder(prefix: string, name: string, sub: string) {
    if name == prefix then sub == "."
    else if prefix == "" then sub == name
    else name == prefix + "/" + sub
  }

  function TrimPrefix(s: string, p: string): string {
    if p <= s then s[|p|..] else s
  }

  lemma RemainderIs(prefix: string, name: string)
    requires Matches(prefix, name) && ProperPath(name) && (prefix == "" || ValidRel(prefix))
    ensures var sub := TrimPrefix(TrimPrefix(name, prefix), "/");
            IsRemainder(prefix, name, if sub == "" then "." else sub)
  {
    hide ValidRel, Under;
    if name != "." { ValidRelShape(name); }
    if name == prefix {
      assert TrimPrefix(name, prefix) == "";
    } else if prefix == "" {
      assert name[0..] == name;
    } else {
      TrimUnder(prefix, name);
    }
  }

  lemma TrimUnder(prefix: string, name: string)
    requires Under(prefix, name)
    ensures var sub := TrimPrefix(TrimPrefix(name, prefix), "/"); name == prefix + "/" + sub
  {
    UnderAt(prefix, name);
    var tail := name[|prefix|..];
    assert TrimPrefix(name, prefix) == tail;
    assert tail[0] == '/' && tail[1..] == name[|prefix| + 1..];
    assert "/" <= tail;
    CutOut(name, |prefix|);
  }

  class MountFs {
    const mounts: Mounts

    constructor (mounts: Mounts)
      ensures this.mounts == mounts
    {
      this.mounts := mounts;
    }

    /** Scans the mounts in whatever order the map yields them. */
    method RouteToMount(name: string) returns (best: string, sub: string, found: bool)
      requires ValidMounts(mounts) && ProperPath(name)
      ensures found <==> Routed(mounts, name)
      ensures found ==> Longest(mounts.Keys, name, best) && IsRemainder(best, name, sub)
    {
      hide ValidRel, IsRemainder;
      best, sub, found := "", "", false;
      var rest := mounts.Keys;
      while rest != {}
        invariant rest <= mounts.Keys
        invariant found <==> exists p :: p in mounts.Keys - rest && Matches(p, name)
        invariant found ==> Longest(mounts.Keys - rest, name, best)
        invariant !found ==> best == ""
        decreases |rest|
      {
        var prefix :| prefix in rest;
        ghost var seen := mounts.Keys - rest;
        rest := rest - {prefix};
        assert mounts.Keys - rest == seen + {prefix};
        if prefix == "" {
          if !found {
            best, found := "", true;
          }
          assert Matches(prefix, name);
        } else if name == prefix || prefix + "/" <= name {
          assert Matches(prefix, name);
          if !found || |prefix| > |best| {
            best, found := prefix, true;
          }
        }
      }
      assert mounts.Keys - rest == mounts.Keys;
      if !found {
        return;
      }
      RemainderIs(best, name);
      sub := TrimPrefix(TrimPrefix(name, best), "/");
      if sub == "" {
        sub := ".";
      }
    }

    method HasMountUnder(name: string) returns (yes: bool)
      ensures yes <==> exists p :: p in mounts && p != "" && Below(name, p)
    {
      var rest := mounts.Keys;
      while rest != {}
        invariant rest <= mounts.Keys
        invariant forall p :: p in mounts.Keys - rest && p != "" ==> !Below(name, p)
        decreases |rest|
      {
        var prefix :| prefix in rest;
        rest := rest - {prefix};
        if prefix != "" && (name == "." || name + "/" <= prefix) {
          assert Below(name, prefix);
          return true;
        }
      }
      return false;
    }

    method DirectChildren(name: string) returns (out: seq<string>)
      requires ValidMounts(mounts)
      ensures ListsOnce(out, Children(mounts.Keys - {""}, name))
    {
      hide ValidRel, Below, Step, Children, ChildrenSeen, ListsOnce, ValidMounts, MountPaths;
      out := [];
      var seen: set<string> := {};
      ListsNone();
      var keys := mounts.Keys;
      var rest := keys;
      MountPathsOf(mounts);
      NoneSeen(keys, name);
      while rest != {}
        invariant rest <= keys
        invariant seen == ChildrenSeen(keys, rest, name) && ListsOnce(out, seen)
        decreases |rest|
      {
        var prefix :| prefix in rest;
        SeeMount(keys, rest, prefix, name);
        rest := rest - {prefix};
        if prefix != "" && Below(name, prefix) {
          var first := Step(name, prefix);
          StepNotEmpty(keys, name, prefix);
          assert first in seen ==> seen + {first} == seen;
          if first != "" && first !in seen {
            ListOneMore(out, seen, first);
            seen := seen + {first};
            out := out + [first];
          }
        }
      }
      AllSeen(keys, name);
    }

    method Stat(name0: string) returns (r: Answer)
      requires ValidMounts(mounts)
      ensures Stats(mounts, name0, r)
    {
      if !ValidPath(name0) {
        return Bad;
      }
      ValidPathIsClean(name0);
      var name := Clean(name0);
      var best, sub, found := RouteToMount(name);
      if found {
        return Delegated(best, sub);
      }
      var under := HasMountUnder(name);
      if under {
        return Synthetic;
      }
      return NoEntry;
    }

    /** Open and ReadDir share this shape; a synthetic directory lists its children. */
    method Open(name0: string) returns (r: Answer, listing: seq<string>)
      requires ValidMounts(mounts)
      ensures Opens(mounts, name0, r, listing)
    {
      listing := [];
      if !ValidPath(name0) {
        r := Bad;
        return;
      }
      ValidPathIsClean(name0);
      var name := Clean(name0);
      var best, sub, found := RouteToMount(name);
      if found {
        r := Delegated(best, sub);
        return;
      }
      var children := DirectChildren(name);
      if |children| == 0 {
        r := NoEntry;
        return;
      }
      assert children[0] in children;
      r, listing := Synthetic, children;
    }
  }

  ghost predicate Distinct(xs: seq<string>) {
    forall i, j :: 0 <= i < j < |xs| ==> xs[i] != xs[j]
  }

  /** `xs` lists each name of the set once and nothing else. */
  ghost predicate ListsOnce(xs: seq<string>, names: set<string>) {
    Distinct(xs) && forall c :: c in xs <==> c in names
  }

  lemma ListsNone()
    ensures ListsOnce([], {})
  {
  }

  lemma ListOneMore(xs: seq<string>, names: set<string>, x: string)
    requires ListsOnce(xs, names) && x !in names
    ensures ListsOnce(xs + [x], names + {x})
  {
  }

  /** The children due to the mounts already passed, with `rest` still to come. */
  ghost function ChildrenSeen(keys: set<string>, rest: set<string>, name: string): set<string> {
    Children(keys - rest - {""}, name)
  }

  lemma NoneSeen(keys: set<string>, name: string)
    ensures ChildrenSeen(keys, keys, name) == {}
  {
  }

  lemma AllSeen(keys: set<string>, name: string)
    ensures ChildrenSeen(keys, {}, name) == Children(keys - {""}, name)
  {
    assert keys - {} == keys;
  }

  lemma SeeMount(keys: set<string>, rest: set<string>, prefix: string, name: string)
    requires prefix in rest && rest <= keys
    ensures ChildrenSeen(keys, rest - {prefix}, name) ==
            if prefix != "" && Below(name, prefix)
            then ChildrenSeen(keys, rest, name) + {Step(name, prefix)}
            else ChildrenSeen(keys, rest, name)
  {
    hide Below, Step, Children;
    var past := keys - rest - {""};
    if prefix == "" {
      assert keys - (rest - {prefix}) - {""} == past;
    } else {
      assert keys - (rest - {prefix}) - {""} == past + {prefix};
      OneMoreChild(past, prefix, name);
    }
  }

  lemma OneMoreChild(past: set<string>, prefix: string, name: string)
    ensures Children(past + {prefix}, name) ==
            if Below(name, prefix) then Children(past, name) + {Step(name, prefix)} else Children(past, name)
  {
    hide Below, Step;
  }

  ghost predicate MountPaths(paths: set<string>) {
    forall p :: p in paths ==> p == "" || ValidRel(p)
  }

  lemma MountPathsOf(mounts: Mounts)
    requires ValidMounts(mounts)
    ensures MountPaths(mounts.Keys)
  {
  }

  lemma StepNotEmpty(paths: set<string>, name: string, p: string)
    requires MountPaths(paths) && p in paths && p != "" && Below(name, p)
    ensures Step(name, p) != ""
  {
    RestOfValid(name, p);
    ValidRelShape(Rest(name, p));
  }

  /** What Stat answers. */
  ghost predicate Stats(mounts: Mounts, name: string, r: Answer) {
    if !ValidPath(name) then r.Bad?
    else if Routed(mounts, name) then
      r.Delegated? && Longest(mounts.Keys, name, r.prefix) && IsRemainder(r.prefix, name, r.path)
    else if exists p :: p in mounts && p != "" && Below(name, p) then r.Synthetic? else r.NoEntry?
  }

  /** What Open and ReadDir answer. */
  ghost predicate Opens(mounts: Mounts, name: string, r: Answer, listing: seq<string>) {
    if !ValidPath(name) then r.Bad?
    else if Routed(mounts, name) then
      r.Delegated? && Longest(mounts.Keys, name, r.prefix) && IsRemainder(r.prefix, name, r.path)
    else if Children(mounts.Keys - {""}, name) != {} then
      r.Synthetic? && ListsOnce(listing, Children(mounts.Keys - {""}, name))
    else r.NoEntry?
  }

  /** Stat succeeds: a synthetic directory, or the mount says so. */
  ghost predicate Succeeds(mounts: Mounts, r: Answer) {
    r.Synthetic? || (r.Delegated? && r.prefix in mounts && mounts[r.prefix].stat(r.path).Some?)
  }

  /** What an answer is, in names alone: the mount that is the name or lies above it, the longest of
      these, and the rest of the name; or a directory above some mount. */
  lemma RouteSays(mounts: Mounts, name: string, r: Answer)
    requires ValidPath(name) && Stats(mounts, name, r)
    ensures r.Delegated? <==> exists p :: p in mounts && (p == "" || p == name || p + "/" <= name)
    ensures r.Delegated? ==> r.prefix in mounts
    ensures r.Delegated? && r.prefix == name ==> r.path == "."
    ensures r.Delegated? && r.prefix != name ==> name == (if r.prefix == "" then "" else r.prefix + "/") + r.path
    ensures r.Delegated? ==>
              forall p :: p in mounts && (p == "" || p == name || p + "/" <= name) ==> |p| <= |r.prefix|
    ensures r.Synthetic? <==>
            (forall p :: p in mounts ==> p != "" && p != name && !(p + "/" <= name)) &&
            exists p :: p in mounts && (name == "." || name + "/" <= p)
    ensures r != Bad
  {
    forall p | p in mounts
      ensures Matches(p, name) <==> p == "" || p == name || p + "/" <= name
    {
    }
    if r.Delegated? && r.prefix == "" { assert "" + r.path == r.path; }
  }

  /** What a synthetic directory lists: the next name on the way to each mount below it. */
  lemma ListingSays(mounts: Mounts, name: string, r: Answer, listing: seq<string>, c: string)
    requires ValidMounts(mounts) && ValidPath(name) && Opens(mounts, name, r, listing) && r.Synthetic?
    ensures c in listing <==>
            c != "" && '/' !in c && exists p :: p in mounts && (p == Join(name, c) || Join(name, c) + "/" <= p)
  {
    hide ValidUtf8, ValidRel, Children;
    NameNotEmpty(name);
    ChildIff(mounts.Keys - {""}, name, c);
    var paths, child := mounts.Keys - {""}, Join(name, c);
    if c != "" && '/' !in c {
      if p :| p in paths && OnPath(child, p) {
        assert p in mounts && (p == child || child + "/" <= p);
      }
      if p :| p in mounts && (p == child || child + "/" <= p) {
        assert p in paths && OnPath(child, p);
      }
    }
  }

  /** Every mount's root can be statted. */
  ghost predicate RootsStat(mounts: Mounts) {
    forall p :: p in mounts ==> mounts[p].stat(".").Some?
  }

  /** For a name outside every mount, Open succeeds, Stat succeeds, and the listing is
      not empty, all under the same condition. */
  lemma OutsideMountsAgree(mounts: Mounts, name: string, s: Answer, o: Answer, listing: seq<string>)
    requires ValidMounts(mounts) && ValidPath(name) && !Routed(mounts, name)
    requires Stats(mounts, name, s) && Opens(mounts, name, o, listing)
    ensures s == o
    ensures s.Synthetic? ==> listing != []
    ensures s.Synthetic? || s.NoEntry?
  {
    ChildrenEmptyIff(mounts.Keys - {""}, name);
    if o.Synthetic? {
      var c :| c in Children(mounts.Keys - {""}, name);
      assert c in listing;
    }
  }

  lemma JoinOfName(name: string, c: string)
    requires ProperPath(name) && ValidElem(c)
    ensures ValidRel(Join(name, c)) && Parent(Join(name, c)) == name
  {
    if name != "." { ValidRelShape(name); }
    ParentOfJoin(name, c);
    JoinIsValid(name, c);
  }

  lemma JoinIsValid(name: string, c: string)
    requires ProperPath(name) && ValidElem(c)
    ensures ValidRel(Join(name, c))
  {
    hide Elems, ValidElem;
    assert '/' !in c by { ElemHasNoSlash(c); }
    NoSlash(c);
    OneElem(c);
    ValidRelIsAllElems(c);
    if name != "." {
      ValidRelIsAllElems(name);
      ElemsAppend(name, c);
      ValidRelIsAllElems(Join(name, c));
    }
  }

  lemma ElemHasNoSlash(c: string)
    requires ValidElem(c)
    ensures '/' !in c
  {
  }

  /** A mount matching a child of an unrouted name is that child itself. */
  lemma MountAtChild(mounts: Mounts, name: string, c: string, p: string)
    requires ValidMounts(mounts) && ProperPath(name) && ValidElem(c) && !Routed(mounts, name)
    requires p in mounts && Matches(p, Join(name, c))
    ensures p == Join(name, c)
  {
    var child := Join(name, c);
    JoinOfName(name, c);
    assert !Matches(p, name);
    if p != child {
      UnderParent(p, child);
    }
  }

  /** The listed names of a synthetic directory, those that are UTF-8, are exactly the children
      that Stat finds. */
  lemma ListedIffStats(mounts: Mounts, name: string, c: string, o: Answer, listing: seq<string>, s: Answer)
    requires ValidMounts(mounts) && RootsStat(mounts) && ValidPath(name) && !Routed(mounts, name) && ValidElem(c)
    requires Opens(mounts, name, o, listing) && o.Synthetic? && Stats(mounts, Join(name, c), s)
    ensures c in listing && ValidUtf8(c) <==> Succeeds(mounts, s)
  {
    hide ValidRel, Under, Join, Children, ValidUtf8;
    var paths, child := mounts.Keys - {""}, Join(name, c);
    JoinOfName(name, c);
    JoinUtf8(name, c);
    NameNotEmpty(name);
    ChildIff(paths, name, c);
    assert child != "" && child != "." by { ValidRelShape(child); }
    if !ValidUtf8(child) {
      assert s.Bad?;
    } else if Routed(mounts, child) {
      MountAtChild(mounts, name, c, s.prefix);
      assert OnPath(child, s.prefix) && s.prefix in paths;
      assert s.path == ".";
    } else if s.Synthetic? {
      var p :| p in mounts && p != "" && Below(child, p);
      assert OnPath(child, p) && p in paths;
    } else {
      forall p | p in paths
        ensures !OnPath(child, p)
      {
        assert !Matches(p, child) && !Below(child, p);
      }
    }
  }

  lemma NameNotEmpty(name: string)
    requires ProperPath(name)
    ensures name != ""
  {
    if name != "." { ValidRelShape(name); }
  }

  // ---------------------------------------------------------------- reading a synthetic directory

  /** Its pages never report the end: past the last child they are empty. */
  class SyntheticDir {
    const children: seq<string>
    var pos: nat

    constructor (children: seq<string>)
      ensures this.children == children && pos == 0
    {
      this.children, pos := children, 0;
    }

    method ReadDir(n: int) returns (page: seq<string>)
      requires pos <= |children|
      modifies this
      ensures old(pos) <= pos <= |children| && page == children[old(pos)..pos]
      ensures pos - old(pos) == if 0 < n <= |children| - old(pos) then n else |children| - old(pos)
    {
      var remaining := children[pos..];
      var k := n;
      if n <= 0 || n > |remaining| {
        k := |remaining|;
      }
      page := remaining[..k];
      assert page == children[pos..pos + k];
      pos := pos + k;
    }
  }
}
