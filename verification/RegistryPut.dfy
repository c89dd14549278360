/** The registry's store: walking a particle's filesystem into rows, and serving the rows back. */
module RegistryPut {
  import opened Text
  import opened Utf8
  import opened FsPaths
  import opened FileView
  import opened Registry
  import opened RegistryFs

  /** A walk comes to a stored path exactly when no other stored path is one of its ancestors. */
  ghost predicate Reached(paths: set<string>, p: string) {
    p in paths && forall q :: q in paths ==> !Under(q, p)
  }

  ghost function Walked(files: Files): Files {
    map p | p in files && Reached(files.Keys, p) :: files[p]
  }

  /** The part of the walk below a directory. */
  ghost function WalkedBelow(files: Files, d: string): Files {
    map p | p in files && Reached(files.Keys, p) && Below(d, p) :: files[p]
  }

  /** The part below a directory that goes through these children. */
  ghost function WalkedThrough(files: Files, d: string, leaves: set<string>): Files {
    map p | p in files && Reached(files.Keys, p) && Below(d, p) && Step(d, p) in leaves :: files[p]
  }

  /** A directory the walk enters: no stored path is it or above it. */
  ghost predicate Enterable(paths: set<string>, d: string) {
    d == "." || (ValidRel(d) && d !in paths && IsDir(paths, d) && forall q :: q in paths ==> !Under(q, d))
  }

  lemma ChildOf(paths: set<string>, d: string, leaf: string)
    requires AllValid(paths) && Enterable(paths, d) && leaf in Children(paths, d)
    ensures var c := Join(d, leaf);
            ValidRel(c) && Parent(c) == d && |c| > (if d == "." then 0 else |d|) &&
            (forall q :: q in paths ==> !Under(q, c)) &&
            (if c in paths then Reached(paths, c) else Enterable(paths, c) && c != ".")
  {
    hide ValidRel, Under, Step;
    ChildIff(paths, d, leaf);
    var c := Join(d, leaf);
    var p :| p in paths && OnPath(c, p);
    OnPathIsStep(c, p);
    ParentOfJoin(d, leaf);
    forall q | q in paths
      ensures !Under(q, c)
    {
      UnderParent(q, c);
    }
    ValidRelShape(c);
  }

  /** Below one child lie exactly the paths whose first step it is. */
  lemma StepInto(files: Files, d: string, leaf: string, p: string)
    requires AllValid(files.Keys) && Enterable(files.Keys, d) && leaf in Children(files.Keys, d)
    requires p in files && Reached(files.Keys, p)
    ensures var c := Join(d, leaf);
            Below(d, p) && Step(d, p) == leaf <==> if c in files then p == c else Below(c, p)
  {
    hide ValidRel, Step, Rest;
    var c := Join(d, leaf);
    ChildOf(files.Keys, d, leaf);
    ParentOfJoin(d, leaf) by { ChildIff(files.Keys, d, leaf); }
    if Below(d, p) && Step(d, p) == leaf {
      StepIsOnPath(d, p);
      assert OnPath(c, p);
    }
    if OnPath(c, p) {
      OnPathIsStep(c, p);
    }
    if c !in files { ValidRelShape(c); }
  }

  lemma ThroughOneMore(files: Files, d: string, seen: set<string>, leaf: string, more: Files)
    requires AllValid(files.Keys) && Enterable(files.Keys, d) && leaf in Children(files.Keys, d) && leaf !in seen
    requires var c := Join(d, leaf); more == if c in files then map[c := files[c]] else WalkedBelow(files, c)
    ensures WalkedThrough(files, d, seen + {leaf}) == WalkedThrough(files, d, seen) + more
    ensures WalkedThrough(files, d, seen).Keys !! more.Keys
  {
    hide ValidRel, Step, Rest, Below;
    var c := Join(d, leaf);
    ChildOf(files.Keys, d, leaf);
    forall p | p in files && Reached(files.Keys, p)
      ensures Below(d, p) && Step(d, p) == leaf <==> p in more
    {
      StepInto(files, d, leaf, p);
    }
    forall p | p in more
      ensures p in files && Reached(files.Keys, p) && more[p] == files[p]
    {
    }
  }

  lemma ThroughAll(files: Files, d: string)
    ensures WalkedThrough(files, d, Children(files.Keys, d)) == WalkedBelow(files, d)
    ensures WalkedThrough(files, d, {}) == map[]
    ensures d == "." ==> WalkedBelow(files, d) == Walked(files)
  {
    hide Step;
    forall p | p in files && Below(d, p)
      ensures Step(d, p) in Children(files.Keys, d)
    {
    }
  }

  // ---------------------------------------------------------------- the walk

  ghost function NamesUpTo(es: seq<DirEntry>, i: nat): set<string>
    requires i <= |es|
  {
    set j | 0 <= j < i :: es[j].name
  }

  lemma NamesGrow(es: seq<DirEntry>, i: nat, table: map<string, Info>)
    requires i < |es| && ListingOf(es, table)
    ensures NamesUpTo(es, i + 1) == NamesUpTo(es, i) + {es[i].name} && es[i].name !in NamesUpTo(es, i)
    ensures es[i].name in table && es[i].info == table[es[i].name]
  {
    forall j | 0 <= j < i
      ensures es[j].name != es[i].name
    {
      assert Less(Names(es)[j], Names(es)[i]);
      LessTotal(es[i].name, es[i].name);
    }
  }

  lemma NamesAll(es: seq<DirEntry>, table: map<string, Info>)
    requires ListingOf(es, table)
    ensures NamesUpTo(es, |es|) == table.Keys && NamesUpTo(es, 0) == {}
  {
    forall n
      ensures n in NamesUpTo(es, |es|) <==> n in table
    {
      if n in table {
        assert n in Names(es);
        var j :| 0 <= j < |Names(es)| && Names(es)[j] == n;
        assert es[j].name == n;
      }
    }
  }

  ghost predicate Bounded(paths: set<string>, bound: nat) {
    forall p :: p in paths ==> |p| <= bound
  }

  ghost function Depth(d: string): nat {
    if d == "." then 0 else |d|
  }

  lemma DirIsShorter(paths: set<string>, d: string, bound: nat)
    requires Bounded(paths, bound) && d != "." && IsDir(paths, d)
    ensures |d| < bound
  {
    var p :| p in paths && Under(d, p);
    UnderAt(d, p);
  }

  /** What the walk finds in one directory, and that it can be read. */
  lemma DirOpens(files: Files, d: string, n: Node)
    requires ValidPath(d) && d !in files && IsDir(files.Keys, d) && ShowsFileFirst(n, files, d)
    ensures n.Dir? && ListingOf(n.entries, FileFirstTable(SizesOf(files), d))
    ensures FileFirstTable(SizesOf(files), d).Keys == Children(files.Keys, d)
  {
    hide ListingOf;
    assert SizesOf(files).Keys == files.Keys;
  }

  lemma RootIsFree(files: Files)
    requires AllValid(files.Keys)
    ensures "." !in files && Enterable(files.Keys, ".") && ValidUtf8(".")
  {
    RootUtf8();
    if "." in files { ValidRelShape("."); }
  }

  /** Some path below a directory has no stored path above it. */
  lemma {:induction false} ReachedOnWay(paths: set<string>, d: string, p: string)
    requires p in paths && Under(d, p) && forall q :: q in paths ==> q != d && !Under(q, d)
    ensures exists q :: Reached(paths, q) && Under(d, q)
    decreases |p|
  {
    hide Under;
    if !Reached(paths, p) {
      var q :| q in paths && Under(q, p);
      UnderAt(q, p);
      UnderAt(d, p);
      UnderAt(q, d);
      UnderAt(d, q);
      if |d| < |q| {
        assert q[..|d|] == p[..|q|][..|d|] == p[..|d|];
        assert q[|d|] == p[|d|];
        ReachedOnWay(paths, d, q);
      }
    }
  }

  /** A directory that cannot be opened has an unreadable path in it. */
  lemma UnreadableDir(files: Files, d: string)
    requires Enterable(files.Keys, d) && !ValidUtf8(d) && d != "."
    ensures !AllUtf8(WalkedBelow(files, d).Keys)
  {
    hide ValidUtf8, ValidRel, Under;
    var p :| p in files.Keys && Under(d, p);
    ReachedOnWay(files.Keys, d, p);
    var q :| Reached(files.Keys, q) && Under(d, q);
    UnderAt(d, q);
    CutUtf8(q, |d|);
    assert q in WalkedBelow(files, d);
  }

  /** What cannot be read below one child cannot be read below the directory. */
  lemma ChildLost(files: Files, d: string, leaf: string, more: Files)
    requires AllValid(files.Keys) && Enterable(files.Keys, d) && leaf in Children(files.Keys, d)
    requires var c := Join(d, leaf); more == if c in files then map[c := files[c]] else WalkedBelow(files, c)
    requires !AllUtf8(more.Keys)
    ensures !AllUtf8(WalkedBelow(files, d).Keys)
  {
    hide ValidUtf8, ValidRel, Step, Children;
    ThroughOneMore(files, d, {}, leaf, more);
    var p :| p in more.Keys && !ValidUtf8(p);
    assert p in WalkedThrough(files, d, {} + {leaf});
    assert p in WalkedBelow(files, d);
  }

  /** One directory of fs.WalkDir and all below it: the rows inserted, none of them twice, or
      None when something on the way cannot be opened. */
  method WalkDir(mem: MemFs, d: string, ghost bound: nat) returns (r: Option<Files>)
    requires AllValid(mem.files.Keys) && Bounded(mem.files.Keys, bound)
    requires "." !in mem.files && Enterable(mem.files.Keys, d)
    ensures r == if AllUtf8(WalkedBelow(mem.files, d).Keys) then Some(WalkedBelow(mem.files, d)) else None
    decreases bound - Depth(d)
  {
    hide ValidRel, ValidUtf8, Enterable, AllValid, AllUtf8, Reached, WalkedThrough, WalkedBelow, FileFirstTable, ListingOf, Children, Bounded;
    var files := mem.files;
    var n := mem.Open(d);
    OpensAsDirIff(files, d, n);
    if !n.Dir? {
      return None;
    }
    var es := n.entries;
    ghost var table := FileFirstTable(SizesOf(files), d);
    var rows: Files := map[];
    NamesAll(es, table);
    ThroughAll(files, d);
    NothingLost(rows);
    for i := 0 to |es|
      invariant rows == WalkedThrough(files, d, NamesUpTo(es, i)) && AllUtf8(rows.Keys)
    {
      var leaf := es[i].name;
      NamesGrow(es, i, table);
      var c := Join(d, leaf);
      ChildOf(files.Keys, d, leaf);
      EntryKind(files, d, leaf);
      var more: Files;
      if !es[i].info.isDir {
        var file := mem.Open(c);
        OpensAsFileIff(files, c, file);
        if !file.File? {
          ChildLost(files, d, leaf, map[c := files[c]]);
          return None;
        }
        more := map[c := file.data];
      } else {
        ShorterChild(files.Keys, c, bound);
        var below := WalkDir(mem, c, bound);
        if below.None? {
          ChildLost(files, d, leaf, WalkedBelow(files, c));
          return None;
        }
        more := below.value;
      }
      ThroughOneMore(files, d, NamesUpTo(es, i), leaf, more);
      assert rows.Keys !! more.Keys;
      BothUtf8(rows, more);
      rows := rows + more;
    }
    return Some(rows);
  }

  lemma NothingLost(rows: Files)
    requires rows == map[]
    ensures AllUtf8(rows.Keys)
  {
  }

  lemma BothUtf8(a: Files, b: Files)
    requires AllUtf8(a.Keys) && AllUtf8(b.Keys)
    ensures AllUtf8((a + b).Keys)
  {
    hide ValidUtf8;
    assert (a + b).Keys == a.Keys + b.Keys;
  }

  lemma OpensAsDirIff(files: Files, d: string, n: Node)
    requires AllValid(files.Keys) && "." !in files && Enterable(files.Keys, d)
    requires if ValidPath(d) then ShowsFileFirst(n, files, d) else n.Missing?
    ensures n.Dir? ==> ListingOf(n.entries, FileFirstTable(SizesOf(files), d)) &&
                       FileFirstTable(SizesOf(files), d).Keys == Children(files.Keys, d)
    ensures !n.Dir? ==> !AllUtf8(WalkedBelow(files, d).Keys)
  {
    hide ListingOf, ValidUtf8, AllUtf8, WalkedBelow;
    if ValidUtf8(d) {
      assert ValidPath(d);
      DirOpens(files, d, n);
    } else {
      RootIsFree(files);
      UnreadableDir(files, d);
    }
  }

  lemma OpensAsFileIff(files: Files, c: string, n: Node)
    requires c in files && ValidRel(c)
    requires if ValidPath(c) then ShowsFileFirst(n, files, c) else n.Missing?
    ensures n == if ValidUtf8(c) then File(files[c]) else Missing
    ensures AllUtf8(map[c := files[c]].Keys) <==> ValidUtf8(c)
  {
    hide ValidUtf8, ValidRel;
    assert map[c := files[c]].Keys == {c};
  }

  lemma EntryKind(files: Files, d: string, leaf: string)
    requires leaf in FileFirstTable(SizesOf(files), d)
    ensures FileFirstTable(SizesOf(files), d)[leaf].isDir <==> Join(d, leaf) !in files
  {
  }

  lemma ShorterChild(paths: set<string>, c: string, bound: nat)
    requires Bounded(paths, bound) && Enterable(paths, c) && c != "."
    ensures |c| < bound
  {
    hide ValidRel;
    DirIsShorter(paths, c, bound);
  }

  lemma BoundExists(paths: set<string>) returns (bound: nat)
    ensures Bounded(paths, bound)
    decreases |paths|
  {
    if paths == {} {
      bound := 0;
    } else {
      var p :| p in paths;
      var b := BoundExists(paths - {p});
      bound := if |p| > b then |p| else b;
      assert forall q :: q in paths ==> q == p || q in paths - {p};
    }
  }

  // ---------------------------------------------------------------- the store

  /** The (path, length) rows of one entry, in whatever order the table yields them. */
  method RowsOf(files: Files) returns (rows: seq<Row>)
    ensures DistinctPaths(rows) && RowMap(rows) == SizesOf(files)
  {
    hide RowMap;
    rows := [];
    NoRows(files);
    var rest := files.Keys;
    while rest != {}
      invariant rest <= files.Keys
      invariant RowMap(rows) == map p | p in files && p !in rest :: |files[p]|
      invariant DistinctPaths(rows) && forall i :: 0 <= i < |rows| ==> rows[i].0 in files && rows[i].0 !in rest
      decreases |rest|
    {
      var p :| p in rest;
      OneMoreRow(rows, p, |files[p]|);
      rows := rows + [(p, |files[p]|)];
      rest := rest - {p};
    }
  }

  lemma NoRows(files: Files)
    ensures RowMap([]) == map[]
  {
  }

  lemma OneMoreRow(rows: seq<Row>, p: string, size: nat)
    ensures RowMap(rows + [(p, size)]) == RowMap(rows)[p := size]
  {
    assert (rows + [(p, size)])[..|rows|] == rows;
  }

  method WalkAll(mem: MemFs) returns (r: Option<Files>)
    requires AllValid(mem.files.Keys)
    ensures r == if AllUtf8(Walked(mem.files).Keys) then Some(Walked(mem.files)) else None
    ensures AllValid(Walked(mem.files).Keys)
  {
    hide AllUtf8, Enterable, ValidUtf8, WalkedBelow, ValidRel, WalkedThrough, Reached;
    RootIsFree(mem.files);
    ThroughAll(mem.files, ".");
    ghost var bound := BoundExists(mem.files.Keys);
    r := WalkDir(mem, ".", bound);
  }

  class Store {
    var tables: map<(string, string), Files>

    /** Every stored path is a name the filesystem interfaces accept. */
    ghost predicate Valid()
      reads this
    {
      forall k :: k in tables ==> AllValid(tables[k].Keys)
    }

    constructor ()
      ensures Valid() && tables == map[]
    {
      tables := map[];
    }

    /** Replaces the entry's rows by what the walk finds, in one transaction; `semver` says whether
        the version parses. */
    method Put(name: string, version: string, semver: bool, particle: MemFs?) returns (ok: bool)
      requires Valid() && (particle != null ==> AllValid(particle.files.Keys))
      modifies this
      ensures Valid()
      ensures ok <==> name != "" && version != "" && semver && particle != null && AllUtf8(Walked(particle.files).Keys)
      ensures tables == if ok then old(tables)[(name, version) := Walked(particle.files)] else old(tables)
    {
      hide AllUtf8, Walked;
      if name == "" || version == "" || !semver || particle == null {
        return false;
      }
      var before := tables;
      tables := tables[(name, version) := map[]];
      var rows := WalkAll(particle);
      if rows.None? {
        tables := before;
        return false;
      }
      tables := tables[(name, version) := rows.value];
      return true;
    }

    /** The entry as a filesystem over its snapshot. */
    method Get(name: string, version: string) returns (db: DbFs?)
      requires Valid()
      ensures db == null <==> (name, version) !in tables
      ensures db != null ==> db.Valid() && db.blobs == tables[(name, version)]
    {
      if (name, version) !in tables {
        return null;
      }
      var files := tables[(name, version)];
      var rows := RowsOf(files);
      db := new DbFs(rows, files);
    }
  }

  // ---------------------------------------------------------------- what comes back

  /** The store keeps everything exactly when no path is an ancestor of another, and what it
      keeps always is of that kind. */
  lemma WalkedIsAllIff(files: Files)
    ensures Walked(files) == files <==> PrefixFree(files.Keys)
    ensures PrefixFree(Walked(files).Keys)
  {
    hide Under;
    if Walked(files) == files {
      forall p, q | p in files && q in files
        ensures !Under(p, q)
      {
        assert q in Walked(files);
      }
    }
  }

  /** Whatever the stored entry shows under a name, the particle's own filesystem shows too. */
  ghost predicate ComesBack(files: Files) {
    forall name, a, b :: ShowsDirFirst(a, Walked(files), name) && ShowsFileFirst(b, files, name) ==> a == b
  }

  /** A path the walk does not come to can be opened before the Put but not after it. */
  lemma LostPath(files: Files, p: string, q: string)
    requires AllValid(files.Keys) && AllUtf8(files.Keys) && p in files && q in files && Under(p, q)
    ensures !ComesBack(files)
  {
    hide ListingOf, ValidUtf8;
    var kept := Walked(files);
    assert q !in kept;
    ListingOfExists(DirFirstTable(SizesOf(kept), q));
    var es :| ListingOf(es, DirFirstTable(SizesOf(kept), q));
    var a := if IsDir(kept.Keys, q) then Dir(es) else Missing;
    assert ShowsDirFirst(a, kept, q) && ShowsFileFirst(File(files[q]), files, q);
  }

  /** Putting a particle and getting it back shows the same tree under every name if and only
      if no path of it is an ancestor of another. */
  lemma ComesBackIff(files: Files)
    requires AllValid(files.Keys) && AllUtf8(files.Keys)
    ensures ComesBack(files) <==> PrefixFree(files.Keys)
  {
    hide ShowsDirFirst, ShowsFileFirst;
    WalkedIsAllIff(files);
    if PrefixFree(files.Keys) {
      forall name, a, b | ShowsDirFirst(a, Walked(files), name) && ShowsFileFirst(b, files, name)
        ensures a == b
      {
        PrefixFreeAgree(files, name, a, b);
      }
    } else {
      var p, q :| p in files.Keys && q in files.Keys && Under(p, q);
      LostPath(files, p, q);
    }
  }

  /** Put, then Get, then Open: over a particle no path of which is an ancestor of another, the
      answer is the particle's own. */
  method PutThenOpen(store: Store, name: string, version: string, particle: MemFs, path: string) returns (a: Node, b: Node)
    requires store.Valid() && name != "" && version != "" && ValidPath(path)
    requires AllValid(particle.files.Keys) && AllUtf8(particle.files.Keys) && PrefixFree(particle.files.Keys)
    modifies store
    ensures a == b && ShowsFileFirst(b, particle.files, path)
  {
    WalkedIsAllIff(particle.files);
    var ok := store.Put(name, version, true, particle);
    var db := store.Get(name, version);
    a, b := OpenBoth(db, particle, path);
  }
}
