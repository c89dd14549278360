/** The registry's lazy filesystem over its index, and the in-memory filesystem it must agree with. */
module RegistryFs {
  import opened Text
  import opened FsPaths
  import opened FileView
  import opened Registry

  datatype StatResult = Is(info: Info) | NoSuchName | BadName
  datatype ReadResult = Data(bytes: string) | NoFile | BadFileName
  datatype ListResult = Listing(entries: seq<DirEntry>) | NotADirectory | NothingThere | BadPath

  function StatOf(n: Node): StatResult {
    match n
    case File(data) => Is(Info(false, |data|))
    case Dir(_) => Is(Info(true, 0))
    case Missing => NoSuchName
    case Invalid => BadName
  }

  /** The index and the rows it was built from. */
  class DbFs {
    const blobs: Files
    const files: Sizes
    const dirEntries: map<string, seq<DirEntry>>

    ghost predicate Valid()
    {
      files == SizesOf(blobs) && AllValid(files.Keys) && IsIndex(dirEntries, files)
    }

    constructor (rows: seq<Row>, blobs: Files)
      requires DistinctPaths(rows) && RowMap(rows) == SizesOf(blobs) && AllValid(blobs.Keys)
      ensures Valid() && this.blobs == blobs
    {
      var sizes, dirs := LoadSnapshot(rows);
      this.blobs, this.files, this.dirEntries := blobs, sizes, dirs;
    }

    method Open(name: string) returns (n: Node)
      requires Valid()
      ensures ShowsDirFirst(n, blobs, name)
      ensures n.Invalid? <==> !ValidPath(name)
      ensures n.File? <==> ValidPath(name) && name in blobs
      ensures n.File? ==> n.data == blobs[name]
      ensures n.Dir? <==> ValidPath(name) && name !in blobs && (name == "." || exists p :: p in blobs && name + "/" <= p)
    {
      assert files.Keys == blobs.Keys;
      if !ValidPath(name) {
        return Invalid;
      }
      if name in files {
        return File(blobs[name]);
      }
      if name in dirEntries {
        return Dir(dirEntries[name]);
      }
      return Missing;
    }

    /** Stat answers from the index what Open would show. */
    method Stat(name: string) returns (s: StatResult)
      requires Valid()
      ensures forall n :: ShowsDirFirst(n, blobs, name) ==> s == StatOf(n)
      ensures s == if !ValidPath(name) then BadName
                   else if name in blobs then Is(Info(false, |blobs[name]|))
                   else if IsDir(blobs.Keys, name) then Is(Info(true, 0)) else NoSuchName
    {
      assert files.Keys == blobs.Keys;
      if !ValidPath(name) {
        return BadName;
      }
      if name in files {
        return Is(Info(false, files[name]));
      }
      if name in dirEntries {
        return Is(Info(true, 0));
      }
      return NoSuchName;
    }

    method ReadFile(name: string) returns (r: ReadResult)
      requires Valid()
      ensures r.BadFileName? <==> !ValidPath(name)
      ensures r.Data? <==> ValidPath(name) && name in blobs
      ensures r.Data? ==> r.bytes == blobs[name]
      ensures forall n :: ShowsDirFirst(n, blobs, name) && n.File? ==> r == Data(n.data)
    {
      assert files.Keys == blobs.Keys;
      if !ValidPath(name) {
        return BadFileName;
      }
      if name !in files {
        return NoFile;
      }
      return Data(blobs[name]);
    }

    method ReadDir(name: string) returns (r: ListResult)
      requires Valid()
      ensures r.Listing? <==> ValidPath(name) && IsDir(blobs.Keys, name)
      ensures r.Listing? ==> ListingOf(r.entries, DirFirstTable(SizesOf(blobs), name))
      ensures r.NotADirectory? <==> ValidPath(name) && name in blobs && !IsDir(blobs.Keys, name)
      ensures r.BadPath? <==> !ValidPath(name)
    {
      assert files.Keys == blobs.Keys;
      if !ValidPath(name) {
        return BadPath;
      }
      if name !in dirEntries {
        return if name in files then NotADirectory else NothingThere;
      }
      return Listing(dirEntries[name]);
    }
  }

  /** The paths below `name` that are its own files, as leaves. */
  function OwnLeaves(paths: set<string>, name: string): set<string> {
    set p | p in paths && Below(name, p) && '/' !in Rest(name, p) :: Rest(name, p)
  }

  /** The first steps towards the deeper ones. */
  function DeeperSteps(paths: set<string>, name: string): set<string> {
    set p | p in paths && Below(name, p) && '/' in Rest(name, p) :: Step(name, p)
  }

  class MemFs {
    const files: Files

    constructor (files: Files)
      ensures this.files == files
    {
      this.files := files;
    }

    /** One pass over the map: leaves directly inside `name`, and first steps to deeper files. */
    method Scan(name: string) returns (list: map<string, Info>, need: set<string>)
      requires AllValid(files.Keys)
      ensures list.Keys == OwnLeaves(files.Keys, name) && need == DeeperSteps(files.Keys, name)
      ensures forall leaf :: leaf in list ==> Join(name, leaf) in files && list[leaf] == Info(false, |files[Join(name, leaf)]|)
    {
      hide ValidRel, Below, Rest, First, Step, Join, OwnLeaves, DeeperSteps;
      list, need := map[], {};
      var rest := files.Keys;
      assert files.Keys - rest == {};
      NothingSeen(name);
      while rest != {}
        invariant rest <= files.Keys
        invariant list.Keys == OwnLeaves(files.Keys - rest, name)
        invariant need == DeeperSteps(files.Keys - rest, name)
        invariant forall leaf :: leaf in list ==> Join(name, leaf) in files && list[leaf] == Info(false, |files[Join(name, leaf)]|)
        decreases |rest|
      {
        var fname :| fname in rest;
        ghost var seen := files.Keys - rest;
        rest := rest - {fname};
        assert files.Keys - rest == seen + {fname};
        SeenOneMore(seen, fname, name);
        if Below(name, fname) {
          var felem := Rest(name, fname);
          var i := IndexOf(felem, '/');
          RestOfValid(name, fname);
          if i < 0 {
            list := list[felem := Info(false, |files[fname]|)];
          } else {
            need := need + {felem[..i]};
          }
        }
      }
      assert files.Keys - rest == files.Keys;
    }

    /** Serves a stored file, or synthesizes the directory the stored paths imply. */
    method Open(name: string) returns (n: Node)
      requires AllValid(files.Keys)
      ensures ValidPath(name) ==> ShowsFileFirst(n, files, name)
      ensures !ValidPath(name) ==> n.Missing?
    {
      hide ValidRel, OwnLeaves, DeeperSteps, Children, FileFirstTable, Lists;
      if !ValidPath(name) {
        return Missing;
      }
      if name in files {
        return File(files[name]);
      }
      var list, need := Scan(name);
      ChildrenSplit(files.Keys, name);
      if name != "." && list == map[] && need == {} {
        NothingBelow(files.Keys, name);
        return Missing;
      }
      need := need - list.Keys;
      var table := list + map leaf | leaf in need :: Info(true, 0);
      var entries := SortEntries(table);
      ListedTable(files, name, list, table);
      OpenIsDir(files.Keys, name);
      return Dir(entries);
    }
  }

  lemma ChildrenSplit(paths: set<string>, name: string)
    ensures Children(paths, name) == OwnLeaves(paths, name) + DeeperSteps(paths, name)
  {
    forall p | p in paths && Below(name, p)
      ensures Step(name, p) in OwnLeaves(paths, name) + DeeperSteps(paths, name)
      ensures '/' !in Rest(name, p) ==> Step(name, p) == Rest(name, p)
    {
    }
  }

  lemma OpenIsDir(paths: set<string>, name: string)
    requires name == "." || Children(paths, name) != {}
    ensures IsDir(paths, name)
  {
  }

  lemma NothingBelow(paths: set<string>, name: string)
    requires Children(paths, name) == {} && name != "."
    ensures !IsDir(paths, name)
  {
    ChildrenEmptyIff(paths, name);
  }

  lemma NothingSeen(name: string)
    ensures OwnLeaves({}, name) == {} && DeeperSteps({}, name) == {}
  {
  }

  lemma SeenOneMore(seen: set<string>, fname: string, name: string)
    ensures Below(name, fname) && '/' !in Rest(name, fname) ==>
              OwnLeaves(seen + {fname}, name) == OwnLeaves(seen, name) + {Rest(name, fname)} &&
              DeeperSteps(seen + {fname}, name) == DeeperSteps(seen, name)
    ensures Below(name, fname) && '/' in Rest(name, fname) ==>
              OwnLeaves(seen + {fname}, name) == OwnLeaves(seen, name) &&
              DeeperSteps(seen + {fname}, name) == DeeperSteps(seen, name) + {Rest(name, fname)[..IndexOf(Rest(name, fname), '/')]}
    ensures !Below(name, fname) ==>
              OwnLeaves(seen + {fname}, name) == OwnLeaves(seen, name) &&
              DeeperSteps(seen + {fname}, name) == DeeperSteps(seen, name)
  {
    hide Below, Rest;
  }

  /** A stored path directly inside the directory is one of its own leaves. */
  lemma StoredLeaf(paths: set<string>, name: string, leaf: string)
    requires Join(name, leaf) in paths && '/' !in leaf
    ensures leaf in OwnLeaves(paths, name)
  {
    JoinRest(name, leaf);
  }

  lemma ListedTable(files: Files, name: string, list: map<string, Info>, table: map<string, Info>)
    requires list.Keys == OwnLeaves(files.Keys, name)
    requires forall leaf :: leaf in list ==> Join(name, leaf) in files && list[leaf] == Info(false, |files[Join(name, leaf)]|)
    requires table == list + map leaf | leaf in DeeperSteps(files.Keys, name) - list.Keys :: Info(true, 0)
    ensures table == FileFirstTable(SizesOf(files), name)
  {
    hide OwnLeaves, DeeperSteps, Children, Join;
    var sizes := SizesOf(files);
    assert sizes.Keys == files.Keys;
    ChildrenSplit(files.Keys, name);
    forall leaf | leaf in DeeperSteps(files.Keys, name) && Join(name, leaf) in files
      ensures leaf in list
    {
      StepHasNoSlash(files.Keys, name, leaf);
      StoredLeaf(files.Keys, name, leaf);
    }
  }

  lemma StepHasNoSlash(paths: set<string>, name: string, leaf: string)
    requires leaf in DeeperSteps(paths, name)
    ensures '/' !in leaf
  {
  }

  lemma JoinRest(d: string, leaf: string)
    ensures Below(d, Join(d, leaf)) && Rest(d, Join(d, leaf)) == leaf
  {
  }

  /** Over the same files, none an ancestor of another, the indexed and the scanning
      filesystem show the same thing under every valid name. */
  method OpenBoth(db: DbFs, mem: MemFs, name: string) returns (a: Node, b: Node)
    requires db.Valid() && mem.files == db.blobs && PrefixFree(mem.files.Keys) && ValidPath(name)
    ensures a == b && ShowsDirFirst(a, mem.files, name)
  {
    assert db.files.Keys == mem.files.Keys;
    a := db.Open(name);
    b := mem.Open(name);
    PrefixFreeAgree(mem.files, name, a, b);
  }

  // ---------------------------------------------------------------- reading a directory handle in pages

  /** One ReadDir(n): a page and the new offset; None stands for io.EOF. */
  function Page(entries: seq<DirEntry>, offset: nat, n: int): (r: (Option<seq<DirEntry>>, nat))
    requires offset <= |entries|
    ensures r.1 <= |entries|
  {
    var left := |entries| - offset;
    if n > 0 && left == 0 then (None, offset)
    else
      var k := if n <= 0 || n > left then left else n;
      (Some(entries[offset..offset + k]), offset + k)
  }

  class DbDirHandle {
    const entries: seq<DirEntry>
    var offset: nat

    constructor (entries: seq<DirEntry>)
      ensures this.entries == entries && offset == 0
    {
      this.entries, offset := entries, 0;
    }

    method ReadDir(n: int) returns (page: Option<seq<DirEntry>>)
      requires offset <= |entries|
      modifies this
      ensures offset <= |entries| && (page, offset) == Page(entries, old(offset), n)
      ensures var left := |entries| - old(offset);
              if n <= 0 then page == Some(entries[old(offset)..]) && offset == |entries|
              else if left == 0 then page == None && offset == old(offset)
              else page == Some(entries[old(offset)..offset]) && offset == old(offset) + if n < left then n else left
    {
      var remaining := entries[offset..];
      if n > 0 && |remaining| == 0 {
        return None;
      }
      var k := n;
      if n <= 0 || n > |remaining| {
        k := |remaining|;
      }
      assert remaining[..k] == entries[offset..offset + k];
      assert entries[offset..] == entries[offset..|entries|];
      page := Some(remaining[..k]);
      offset := offset + k;
    }
  }

  class MemOpenDir {
    const entries: seq<DirEntry>
    var offset: nat

    constructor (entries: seq<DirEntry>)
      ensures this.entries == entries && offset == 0
    {
      this.entries, offset := entries, 0;
    }

    method ReadDir(count: int) returns (page: Option<seq<DirEntry>>)
      requires offset <= |entries|
      modifies this
      ensures offset <= |entries| && (page, offset) == Page(entries, old(offset), count)
      ensures var left := |entries| - old(offset);
              if count <= 0 then page == Some(entries[old(offset)..]) && offset == |entries|
              else if left == 0 then page == None && offset == old(offset)
              else page == Some(entries[old(offset)..offset]) && offset == old(offset) + if count < left then count else left
    {
      var n := |entries| - offset;
      if n == 0 && count > 0 {
        return None;
      }
      if count > 0 && n > count {
        n := count;
      }
      assert entries[offset..] == entries[offset..|entries|];
      page := Some(entries[offset..offset + n]);
      offset := offset + n;
    }
  }

  function Pages(entries: seq<DirEntry>, offset: nat, counts: seq<int>): (r: (seq<DirEntry>, nat))
    requires offset <= |entries|
    ensures r.1 <= |entries|
    decreases |counts|
  {
    if counts == [] then ([], offset) else
      var (page, next) := Page(entries, offset, counts[0]);
      var (more, end) := Pages(entries, next, counts[1..]);
      ((if page.Some? then page.value else []) + more, end)
  }

  /** Whatever page sizes are asked for, the pages are the listing in order, nothing
      twice and nothing skipped, and EOF comes only when all of it was delivered. */
  lemma {:induction false} PagesAreTheListing(entries: seq<DirEntry>, offset: nat, counts: seq<int>)
    requires offset <= |entries|
    ensures var (got, end) := Pages(entries, offset, counts);
            offset <= end && got == entries[offset..end] &&
            forall n :: Page(entries, end, n).0.None? <==> n > 0 && end == |entries|
    decreases |counts|
  {
    if counts != [] {
      PagesAreTheListing(entries, Page(entries, offset, counts[0]).1, counts[1..]);
    }
  }
}
