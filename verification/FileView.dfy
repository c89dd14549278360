/** What a set of stored files looks like through io/fs: files, synthesized directories, nothing. */
module FileView {
  import opened Text
  import opened Utf8
  import opened FsPaths

  datatype Info = Info(isDir: bool, size: nat)
  datatype DirEntry = DirEntry(name: string, info: Info)
  datatype Node = File(data: string) | Dir(entries: seq<DirEntry>) | Missing | Invalid

  type Files = map<string, string>
  type Sizes = map<string, nat>

  ghost predicate AllUtf8(paths: set<string>) {
    forall p :: p in paths ==> ValidUtf8(p)
  }

  predicate AllValid(paths: set<string>) {
    forall p :: p in paths ==> ValidRel(p)
  }

  function SizesOf(files: Files): Sizes {
    map p | p in files :: |files[p]|
  }

  function Names(es: seq<DirEntry>): seq<string> {
    seq(|es|, i requires 0 <= i < |es| => es[i].name)
  }

  /** `es` is the sorted listing of `table`, each name with its own info. */
  ghost predicate ListingOf(es: seq<DirEntry>, table: map<string, Info>) {
    Lists(Names(es), table.Keys) &&
    forall i :: 0 <= i < |es| ==> es[i].name in table && es[i].info == table[es[i].name]
  }

  lemma ListingOfUnique(a: seq<DirEntry>, b: seq<DirEntry>, table: map<string, Info>)
    requires ListingOf(a, table) && ListingOf(b, table)
    ensures a == b
  {
    ListingUnique(Names(a), Names(b), table.Keys);
    forall i | 0 <= i < |a|
      ensures a[i] == b[i]
    {
      assert Names(a)[i] == Names(b)[i];
    }
  }

  lemma ListingOfRecovers(es: seq<DirEntry>, a: map<string, Info>, b: map<string, Info>)
    requires ListingOf(es, a) && ListingOf(es, b)
    ensures a == b
  {
    forall n | n in a
      ensures n in b && a[n] == b[n]
    {
      var i :| 0 <= i < |Names(es)| && Names(es)[i] == n;
      assert es[i].name == n;
    }
    forall n | n in b
      ensures n in a
    {
      assert n in Names(es);
    }
  }

  lemma ListingOfExists(table: map<string, Info>)
    ensures exists es :: ListingOf(es, table)
  {
    SortedListing(table.Keys);
    var xs :| Lists(xs, table.Keys);
    var es := Entries(xs, table);
    assert Names(es) == xs;
    assert ListingOf(es, table);
  }

  function Entries(xs: seq<string>, table: map<string, Info>): seq<DirEntry>
    requires forall x :: x in xs ==> x in table
  {
    seq(|xs|, i requires 0 <= i < |xs| => DirEntry(xs[i], table[xs[i]]))
  }

  method SortEntries(table: map<string, Info>) returns (es: seq<DirEntry>)
    ensures ListingOf(es, table)
  {
    var xs := SortNames(table.Keys);
    es := Entries(xs, table);
    assert Names(es) == xs;
  }

  /** The first steps from `d` towards the files below it. */
  function Children(paths: set<string>, d: string): set<string> {
    set p | p in paths && Below(d, p) :: Step(d, p)
  }

  ghost predicate IsDir(paths: set<string>, d: string) {
    d == "." || exists p :: p in paths && Under(d, p)
  }

  // ---------------------------------------------------------------- two readings of a child that is both file and directory

  /** The plain map: a stored file is listed as a file. */
  function FileFirst(sizes: Sizes, d: string, leaf: string): Info {
    if Join(d, leaf) in sizes then Info(false, sizes[Join(d, leaf)]) else Info(true, 0)
  }

  /** The index: anything with a file below it is listed as a directory. */
  ghost function DirFirst(sizes: Sizes, d: string, leaf: string): Info {
    if exists p :: p in sizes && Under(Join(d, leaf), p) then Info(true, 0)
    else if Join(d, leaf) in sizes then Info(false, sizes[Join(d, leaf)]) else Info(true, 0)
  }

  function FileFirstTable(sizes: Sizes, d: string): map<string, Info> {
    map leaf | leaf in Children(sizes.Keys, d) :: FileFirst(sizes, d, leaf)
  }

  ghost function DirFirstTable(sizes: Sizes, d: string): map<string, Info> {
    map leaf | leaf in Children(sizes.Keys, d) :: DirFirst(sizes, d, leaf)
  }

  /** What opening `name` shows, its listing taken from `table`. */
  ghost predicate Shows(n: Node, files: Files, name: string, table: map<string, Info>) {
    if !ValidPath(name) then n.Invalid?
    else if name in files then n == File(files[name])
    else if IsDir(files.Keys, name) then n.Dir? && ListingOf(n.entries, table)
    else n.Missing?
  }

  /** A listing names exactly the children under which some stored path lies or which it equals. */
  lemma ChildIff(paths: set<string>, d: string, leaf: string)
    requires AllValid(paths)
    ensures leaf in Children(paths, d) <==>
            leaf != "" && '/' !in leaf && d != "" && exists p :: p in paths && OnPath(Join(d, leaf), p)
  {
    if leaf in Children(paths, d) {
      var p :| p in paths && Below(d, p) && Step(d, p) == leaf;
      StepIsOnPath(d, p);
      RestOfValid(d, p);
      ValidRelShape(Rest(d, p));
      assert OnPath(Join(d, leaf), p);
    }
    if leaf != "" && '/' !in leaf && d != "" && exists p :: p in paths && OnPath(Join(d, leaf), p) {
      var p :| p in paths && OnPath(Join(d, leaf), p);
      ParentOfJoin(d, leaf);
      OnPathIsStep(Join(d, leaf), p);
    }
  }

  lemma ChildrenEmptyIff(paths: set<string>, d: string)
    ensures Children(paths, d) == {} <==> forall p :: p in paths ==> !Below(d, p)
  {
    forall p | p in paths && Below(d, p)
      ensures Step(d, p) in Children(paths, d)
    {
    }
  }

  /** No stored path is an ancestor directory of another. */
  ghost predicate PrefixFree(paths: set<string>) {
    forall p, q :: p in paths && q in paths ==> !Under(p, q)
  }

  lemma PrefixFreeTables(sizes: Sizes, d: string)
    requires PrefixFree(sizes.Keys)
    ensures DirFirstTable(sizes, d) == FileFirstTable(sizes, d)
  {
  }

  /** Some conflicting path is listed by a directory that can really be opened. */
  ghost predicate TopOf(paths: set<string>, c: string, q: string) {
    c in paths && Under(c, q) && Parent(c) !in paths
  }

  lemma {:induction false} TopConflict(paths: set<string>, p: string, q: string)
    requires AllValid(paths) && p in paths && q in paths && Under(p, q)
    ensures exists c :: TopOf(paths, c, q)
    decreases |p|
  {
    ParentOfValid(p);
    if Parent(p) in paths {
      assert ValidRel(Parent(p));
      ValidRelShape(Parent(p));
      UnderTransitive(Parent(p), p, q);
      TopConflict(paths, Parent(p), q);
    } else {
      assert TopOf(paths, p, q);
    }
  }

  /** Whatever the index shows under a name, the plain map shows too. */
  ghost predicate ViewsAgree(files: Files) {
    forall name, a, b :: ShowsDirFirst(a, files, name) && ShowsFileFirst(b, files, name) ==> a == b
  }

  ghost predicate ShowsDirFirst(n: Node, files: Files, name: string) {
    Shows(n, files, name, DirFirstTable(SizesOf(files), name))
  }

  ghost predicate ShowsFileFirst(n: Node, files: Files, name: string) {
    Shows(n, files, name, FileFirstTable(SizesOf(files), name))
  }

  lemma PrefixFreeAgree(files: Files, name: string, a: Node, b: Node)
    requires PrefixFree(files.Keys) && ShowsDirFirst(a, files, name) && ShowsFileFirst(b, files, name)
    ensures a == b
  {
    PrefixFreeTables(SizesOf(files), name);
    if a.Dir? {
      ListingOfUnique(a.entries, b.entries, FileFirstTable(SizesOf(files), name));
    }
  }

  lemma ConflictTables(sizes: Sizes, c: string, q: string)
    requires AllValid(sizes.Keys) && AllUtf8(sizes.Keys) && c in sizes && q in sizes && Under(c, q)
    ensures DirFirstTable(sizes, Parent(c)) != FileFirstTable(sizes, Parent(c))
    ensures IsDir(sizes.Keys, Parent(c)) && ValidPath(Parent(c))
  {
    hide ValidUtf8, ValidRel;
    OnPathIsStep(c, q);
    ParentOfValid(c);
    ParentUtf8(c);
    var d, leaf := Parent(c), Base(c);
    assert leaf in Children(sizes.Keys, d);
    assert DirFirst(sizes, d, leaf) == Info(true, 0);
    assert FileFirst(sizes, d, leaf) == Info(false, sizes[c]);
    assert DirFirstTable(sizes, d)[leaf] != FileFirstTable(sizes, d)[leaf];
  }

  lemma ConflictDisagrees(files: Files, p: string, q: string)
    requires AllValid(files.Keys) && AllUtf8(files.Keys) && p in files && q in files && Under(p, q)
    ensures !ViewsAgree(files)
  {
    var sizes := SizesOf(files);
    TopConflict(files.Keys, p, q);
    var c :| TopOf(files.Keys, c, q);
    ConflictTables(sizes, c, q);
    var d := Parent(c);
    ListingOfExists(DirFirstTable(sizes, d));
    ListingOfExists(FileFirstTable(sizes, d));
    var es :| ListingOf(es, DirFirstTable(sizes, d));
    var fs :| ListingOf(fs, FileFirstTable(sizes, d));
    assert ShowsDirFirst(Dir(es), files, d) && ShowsFileFirst(Dir(fs), files, d);
    if es == fs {
      ListingOfRecovers(es, DirFirstTable(sizes, d), FileFirstTable(sizes, d));
    }
  }

  /** The index and the plain map show the same thing under every name if and only if no
      stored path is an ancestor of another. */
  lemma ViewsAgreeIff(files: Files)
    requires AllValid(files.Keys) && AllUtf8(files.Keys)
    ensures ViewsAgree(files) <==> PrefixFree(files.Keys)
  {
    if PrefixFree(files.Keys) {
      forall name, a, b | ShowsDirFirst(a, files, name) && ShowsFileFirst(b, files, name)
        ensures a == b
      {
        PrefixFreeAgree(files, name, a, b);
      }
    } else {
      var p, q :| p in files && q in files && Under(p, q);
      ConflictDisagrees(files, p, q);
    }
  }

  /** A directory's listing: exactly its children, each once and in byte order; one with a stored
      path below it as a directory, a stored file with its length. */
  lemma ListingSays(files: Files, name: string, n: Node, e: DirEntry)
    requires AllValid(files.Keys) && ShowsDirFirst(n, files, name) && n.Dir?
    ensures var c := Join(name, e.name);
            e in n.entries <==>
            e.name != "" && '/' !in e.name && (exists p :: p in files && OnPath(c, p)) &&
            e.info == if exists p :: p in files && Under(c, p) then Info(true, 0)
                      else Info(false, if c in files then |files[c]| else 0)
    ensures forall i, j :: 0 <= i < j < |n.entries| ==> Less(n.entries[i].name, n.entries[j].name)
  {
    hide ValidUtf8, ValidRel, Under;
    var sizes := SizesOf(files);
    assert sizes.Keys == files.Keys;
    ChildIff(files.Keys, name, e.name);
    PathNotEmpty(name);
    EntryIff(n.entries, DirFirstTable(sizes, name), e);
    assert forall i :: 0 <= i < |n.entries| ==> Names(n.entries)[i] == n.entries[i].name;
  }

  lemma PathNotEmpty(name: string)
    requires ValidPath(name)
    ensures name != ""
  {
    if name != "." { ValidRelShape(name); }
  }

  lemma EntryIff(es: seq<DirEntry>, table: map<string, Info>, e: DirEntry)
    requires ListingOf(es, table)
    ensures e in es <==> e.name in table && e.info == table[e.name]
  {
    if e.name in table && e.info == table[e.name] {
      assert e.name in Names(es);
      var i :| 0 <= i < |Names(es)| && Names(es)[i] == e.name;
      assert es[i] == e;
    }
  }

  /** A file `a` beside a file `a/b` is such a pair. */
  lemma FileAndDirectoryPart(x: string, y: string)
    ensures !ViewsAgree(map["a" := x, "a/b" := y])
  {
    hide ValidUtf8, ViewsAgree;
    var files := map["a" := x, "a/b" := y];
    assert "a/b"[1] == '/' && "a/b"[..1] == "a" && "a/b"[2..] == "b";
    assert IndexOf("a/b", '/') == 1 && ValidRel("b") && ValidRel("a");
    assert ValidRel("a/b");
    AsciiIsValid("a");
    AsciiIsValid("a/b");
    UnderAt("a", "a/b");
    ConflictDisagrees(files, "a", "a/b");
  }
}
