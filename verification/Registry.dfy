/** The SQLite registry's file index: built once from the path rows, then only looked up. */
module Registry {
  import opened Text
  import opened FsPaths
  import opened FileView

  type Row = (string, nat)
  type Buckets = map<string, map<string, Info>>

  /** The (path, size) rows as a map; the primary key makes paths distinct. */
  function RowMap(rows: seq<Row>): (m: Sizes)
    ensures forall p :: p in m <==> exists i :: 0 <= i < |rows| && rows[i].0 == p
  {
    if rows == [] then map[] else
      var n := |rows| - 1;
      assert forall i :: 0 <= i < n ==> rows[..n][i] == rows[i];
      RowMap(rows[..n])[rows[n].0 := rows[n].1]
  }

  ghost predicate DistinctPaths(rows: seq<Row>) {
    forall i, j :: 0 <= i < j < |rows| ==> rows[i].0 != rows[j].0
  }

  /** Directories are exactly the root and the proper ancestors of stored paths, each with
      its sorted listing; a child with a path below it is a directory. */
  ghost predicate IsIndex(dirs: map<string, seq<DirEntry>>, sizes: Sizes) {
    (forall d :: d in dirs <==> IsDir(sizes.Keys, d)) &&
    forall d :: d in dirs ==> ListingOf(dirs[d], DirFirstTable(sizes, d))
  }

  /** The same paths give the same index, whatever order their rows came in. */
  lemma IndexUnique(a: map<string, seq<DirEntry>>, b: map<string, seq<DirEntry>>, sizes: Sizes)
    requires IsIndex(a, sizes) && IsIndex(b, sizes)
    ensures a == b
  {
    forall d | d in a
      ensures d in b && a[d] == b[d]
    {
      ListingOfUnique(a[d], b[d], DirFirstTable(sizes, d));
    }
  }

  lemma RowMapCovers(rows: seq<Row>, others: seq<Row>, p: string)
    requires DistinctPaths(rows) && DistinctPaths(others) && multiset(rows) == multiset(others)
    requires p in RowMap(rows)
    ensures p in RowMap(others) && RowMap(others)[p] == RowMap(rows)[p]
  {
    var i :| 0 <= i < |rows| && rows[i].0 == p;
    assert rows[i] in multiset(rows);
    var j :| 0 <= j < |others| && others[j] == rows[i];
    RowMapAt(rows, i);
    RowMapAt(others, j);
  }

  lemma RowOrderDoesNotMatter(rows: seq<Row>, others: seq<Row>)
    requires DistinctPaths(rows) && DistinctPaths(others) && multiset(rows) == multiset(others)
    ensures RowMap(rows) == RowMap(others)
  {
    forall p | p in RowMap(rows)
      ensures p in RowMap(others) && RowMap(others)[p] == RowMap(rows)[p]
    {
      RowMapCovers(rows, others, p);
    }
    forall p | p in RowMap(others)
      ensures p in RowMap(rows)
    {
      RowMapCovers(others, rows, p);
    }
  }

  lemma {:induction false} RowMapAt(rows: seq<Row>, i: nat)
    requires DistinctPaths(rows) && i < |rows|
    ensures rows[i].0 in RowMap(rows) && RowMap(rows)[rows[i].0] == rows[i].1
    decreases |rows|
  {
    var n := |rows| - 1;
    if i < n {
      assert rows[..n][i] == rows[i];
      RowMapAt(rows[..n], i);
    }
  }

  // ---------------------------------------------------------------- the nodes of the tree, by full path

  type Nodes = map<string, Info>

  /** Insert a node, or promote a file to a directory. */
  function Put(t: Nodes, c: string, isDir: bool, size: nat): Nodes {
    if c !in t then t[c := Info(isDir, size)]
    else if isDir && !t[c].isDir then t[c := Info(true, 0)]
    else t
  }

  /** A row's own node, then each ancestor as a directory. */
  function PutChain(t: Nodes, cur: string, isDir: bool, size: nat): Nodes
    decreases |cur|
  {
    var t' := Put(t, cur, isDir, size);
    if Parent(cur) == "." then t' else PutChain(t', Parent(cur), true, 0)
  }

  ghost function NodeInfo(sizes: Sizes, c: string): Info {
    if exists p :: p in sizes && Under(c, p) then Info(true, 0)
    else Info(false, if c in sizes then sizes[c] else 0)
  }

  ghost predicate IsNodeTable(t: Nodes, sizes: Sizes) {
    (forall c :: c in t <==> exists p :: p in sizes && OnPath(c, p)) &&
    forall c :: c in t ==> t[c] == NodeInfo(sizes, c)
  }

  function Promoted(t: Nodes, c: string): Info {
    if c in t && t[c].isDir then t[c] else Info(true, 0)
  }

  lemma {:induction false} PutChainAt(t: Nodes, cur: string, isDir: bool, size: nat, c: string)
    requires ValidRel(cur)
    ensures var t' := PutChain(t, cur, isDir, size);
            (c in t' <==> c in t || OnPath(c, cur)) &&
            (c in t' ==> t'[c] == if c == cur then Put(t, cur, isDir, size)[c]
                                  else if Under(c, cur) then Promoted(t, c) else t[c])
    decreases |cur|
  {
    hide ValidRel, LastSlash, Under;
    UnderParent(c, cur);
    ParentOfValid(cur);
    if Parent(cur) != "." {
      PutChainAt(Put(t, cur, isDir, size), Parent(cur), true, 0, c);
    }
    if Under(c, cur) { UnderAt(c, cur); }
    if Parent(cur) != "." && Under(cur, Parent(cur)) { UnderAt(cur, Parent(cur)); }
  }

  lemma NodeInfoGrows(sizes: Sizes, p: string, size: nat, c: string)
    requires p !in sizes
    ensures NodeInfo(sizes[p := size], c) ==
            if Under(c, p) then Info(true, 0)
            else if c == p && !NodeInfo(sizes, c).isDir then Info(false, size)
            else NodeInfo(sizes, c)
  {
    var more := sizes[p := size];
    if Under(c, p) {
      assert p in more;
    }
    if exists q :: q in sizes && Under(c, q) {
      var q :| q in sizes && Under(c, q);
      assert q in more;
    }
  }

  /** Filing one more row keeps the node table right. */
  lemma PutChainTable(t: Nodes, sizes: Sizes, p: string, size: nat)
    requires IsNodeTable(t, sizes) && p !in sizes && ValidRel(p)
    ensures IsNodeTable(PutChain(t, p, false, size), sizes[p := size])
  {
    hide ValidRel, PutChain;
    var t', more := PutChain(t, p, false, size), sizes[p := size];
    forall c
      ensures c in t' <==> exists q :: q in more && OnPath(c, q)
      ensures c in t' ==> t'[c] == NodeInfo(more, c)
    {
      PutChainAt(t, p, false, size, c);
      NodeInfoGrows(sizes, p, size, c);
      if c in t {
        var q :| q in sizes && OnPath(c, q);
        assert q in more;
      }
      if OnPath(c, p) {
        assert p in more;
      }
      if Under(c, p) {
        UnderAt(c, p);
      }
    }
  }

  // ---------------------------------------------------------------- the same nodes, by directory and leaf

  function AddChild(children: Buckets, d: string, leaf: string, isDir: bool, size: nat): Buckets {
    var bucket := if d in children then children[d] else map[];
    children[d := Put(bucket, leaf, isDir, size)]
  }

  /** `children` files each node of `t` under its directory and leaf, and nothing else. */
  ghost predicate Mirrors(children: Buckets, t: Nodes) {
    (forall c :: c in t ==> Filed(children, c, t[c])) &&
    (forall d :: d in children ==> children[d] != map[]) &&
    forall d, leaf :: d in children && leaf in children[d] ==> Splits(t, d, leaf)
  }

  ghost predicate Filed(children: Buckets, c: string, info: Info) {
    ValidRel(c) && Parent(c) in children && Base(c) in children[Parent(c)] && children[Parent(c)][Base(c)] == info
  }

  ghost predicate Splits(t: Nodes, d: string, leaf: string) {
    Join(d, leaf) in t && Parent(Join(d, leaf)) == d && Base(Join(d, leaf)) == leaf
  }

  lemma AddChildFiled(children: Buckets, t: Nodes, c: string, isDir: bool, size: nat, e: string)
    requires ValidRel(c) && (c in t ==> Filed(children, c, t[c]))
    requires Parent(c) in children && Base(c) in children[Parent(c)] ==> Splits(t, Parent(c), Base(c))
    requires e in Put(t, c, isDir, size) && (e != c ==> Filed(children, e, t[e]))
    ensures Filed(AddChild(children, Parent(c), Base(c), isDir, size), e, Put(t, c, isDir, size)[e])
  {
    hide ValidRel, LastSlash, Under, Join, Parent, Base;
    ParentOfValid(c);
    if e != c { ParentOfValid(e); }
  }

  lemma AddChildSplits(children: Buckets, t: Nodes, c: string, isDir: bool, size: nat, d: string, leaf: string)
    requires ValidRel(c)
    requires d in children && leaf in children[d] ==> Splits(t, d, leaf)
    requires var children' := AddChild(children, Parent(c), Base(c), isDir, size); d in children' && leaf in children'[d]
    ensures Splits(Put(t, c, isDir, size), d, leaf)
  {
    hide ValidRel, LastSlash, Under, Join, Parent, Base;
    ParentOfValid(c);
  }

  lemma AddChildMirrors(children: Buckets, t: Nodes, c: string, isDir: bool, size: nat)
    requires Mirrors(children, t) && ValidRel(c)
    ensures Mirrors(AddChild(children, Parent(c), Base(c), isDir, size), Put(t, c, isDir, size))
  {
    hide Filed, Splits, ValidRel, LastSlash, Parent, Base;
    var children', t' := AddChild(children, Parent(c), Base(c), isDir, size), Put(t, c, isDir, size);
    forall e | e in t'
      ensures Filed(children', e, t'[e])
    {
      AddChildFiled(children, t, c, isDir, size, e);
    }
    forall d, leaf | d in children' && leaf in children'[d]
      ensures Splits(t', d, leaf)
    {
      AddChildSplits(children, t, c, isDir, size, d, leaf);
    }
  }

  lemma BucketMember(children: Buckets, t: Nodes, sizes: Sizes, d: string, leaf: string)
    requires Mirrors(children, t) && IsNodeTable(t, sizes) && AllValid(sizes.Keys) && d in children
    ensures leaf in children[d] <==> leaf in Children(sizes.Keys, d)
    ensures leaf in children[d] ==> children[d][leaf] == DirFirst(sizes, d, leaf) && IsDir(sizes.Keys, d)
  {
    hide ValidRel, LastSlash, Under, Join, Parent, Base, First, Rest;
    var c := Join(d, leaf);
    if leaf in children[d] {
      assert Splits(t, d, leaf);
      var p :| p in sizes && OnPath(c, p);
      OnPathIsStep(c, p);
      assert Below(d, p) && Step(d, p) == leaf;
      assert Filed(children, c, t[c]);
      assert t[c] == NodeInfo(sizes, c);
    }
    if leaf in Children(sizes.Keys, d) {
      var p :| p in sizes && Below(d, p) && Step(d, p) == leaf;
      StepIsOnPath(d, p);
      assert Filed(children, c, t[c]);
    }
  }

  lemma MirrorsTable(children: Buckets, t: Nodes, sizes: Sizes, d: string)
    requires Mirrors(children, t) && IsNodeTable(t, sizes) && AllValid(sizes.Keys) && d in children
    ensures children[d] == DirFirstTable(sizes, d)
    ensures IsDir(sizes.Keys, d)
  {
    hide Children, DirFirst, IsDir, IsNodeTable, AllValid, Filed, Splits;
    var bucket := children[d];
    assert bucket != map[];
    hide Mirrors;
    forall leaf
      ensures leaf in bucket <==> leaf in Children(sizes.Keys, d)
      ensures leaf in bucket ==> bucket[leaf] == DirFirst(sizes, d, leaf)
    {
      BucketMember(children, t, sizes, d, leaf);
    }
    var leaf :| leaf in bucket;
    BucketMember(children, t, sizes, d, leaf);
  }

  lemma DirHasBucket(children: Buckets, t: Nodes, sizes: Sizes, d: string, p: string)
    requires Mirrors(children, t) && IsNodeTable(t, sizes) && AllValid(sizes.Keys)
    requires p in sizes && Under(d, p)
    ensures d in children
  {
    StepIsOnPath(d, p);
    var c := Join(d, Step(d, p));
    assert Filed(children, c, t[c]);
  }

  // ---------------------------------------------------------------- the loader

  /** The walk of one row from its leaf to the root. */
  method FileRow(children0: Buckets, p: string, size: nat, ghost t0: Nodes) returns (children: Buckets, ghost t: Nodes)
    ensures t == PutChain(t0, p, false, size)
    ensures ValidRel(p) && Mirrors(children0, t0) ==> Mirrors(children, t)
  {
    hide ValidRel, LastSlash, Mirrors, Put, AddChild;
    children, t := children0, t0;
    var cur, curIsDir, curSize := p, false, size;
    var atRoot := false;
    while !atRoot
      invariant ValidRel(p) && Mirrors(children0, t0) ==> Mirrors(children, t) && (!atRoot ==> ValidRel(cur))
      invariant (if atRoot then t else PutChain(t, cur, curIsDir, curSize)) == PutChain(t0, p, false, size)
      decreases if atRoot then 0 else |cur| + 1
    {
      var parent, leaf := Parent(cur), Base(cur);
      if ValidRel(p) && Mirrors(children0, t0) {
        AddChildMirrors(children, t, cur, curIsDir, curSize);
        ParentOfValid(cur);
        assert parent != "." ==> ValidRel(parent);
      }
      children := AddChild(children, parent, leaf, curIsDir, curSize);
      t := Put(t, cur, curIsDir, curSize);
      if parent == "." {
        atRoot := true;
      } else {
        cur, curIsDir, curSize := parent, true, 0;
      }
    }
  }

  method SortBuckets(children: Buckets) returns (dirs: map<string, seq<DirEntry>>)
    ensures dirs.Keys == children.Keys
    ensures forall d :: d in children ==> ListingOf(dirs[d], children[d])
  {
    dirs := map[];
    var rest := children.Keys;
    while rest != {}
      invariant rest <= children.Keys && dirs.Keys == children.Keys - rest
      invariant forall d :: d in dirs ==> ListingOf(dirs[d], children[d])
      decreases |rest|
    {
      var d :| d in rest;
      var entries := SortEntries(children[d]);
      dirs := dirs[d := entries];
      rest := rest - {d};
    }
  }

  lemma RowMapGrows(rows: seq<Row>, i: nat)
    requires DistinctPaths(rows) && i < |rows|
    ensures rows[i].0 !in RowMap(rows[..i])
    ensures RowMap(rows[..i + 1]) == RowMap(rows[..i])[rows[i].0 := rows[i].1]
  {
    assert rows[..i + 1][..i] == rows[..i];
  }

  /** The index is right for the rows filed so far. */
  ghost predicate FiledSoFar(children: Buckets, t: Nodes, sizes: Sizes) {
    AllValid(sizes.Keys) ==> IsNodeTable(t, sizes) && Mirrors(children, t)
  }

  lemma FiledOneMore(children: Buckets, t: Nodes, sizes: Sizes, children': Buckets, p: string, size: nat)
    requires FiledSoFar(children, t, sizes) && p !in sizes
    requires ValidRel(p) && Mirrors(children, t) ==> Mirrors(children', PutChain(t, p, false, size))
    ensures FiledSoFar(children', PutChain(t, p, false, size), sizes[p := size])
  {
    hide ValidRel, IsNodeTable, Mirrors, PutChain;
    var more := sizes[p := size];
    if AllValid(more.Keys) {
      assert p in more && forall q :: q in sizes ==> q in more;
      PutChainTable(t, sizes, p, size);
    }
  }

  /** Terminates on any rows; on valid path names it builds exactly the index. */
  method LoadSnapshot(rows: seq<Row>) returns (files: Sizes, dirs: map<string, seq<DirEntry>>)
    requires DistinctPaths(rows)
    ensures files == RowMap(rows)
    ensures AllValid(files.Keys) ==> IsIndex(dirs, files)
  {
    hide RowMap, IsIndex, IsNodeTable, Mirrors, PutChain, ListingOf;
    files := map[];
    var children: Buckets := map[];
    ghost var t: Nodes := map[];
    NothingFiled();
    var i := 0;
    while i < |rows|
      invariant 0 <= i <= |rows| && files == RowMap(rows[..i])
      invariant FiledSoFar(children, t, files)
    {
      var (p, size) := rows[i];
      RowMapGrows(rows, i);
      ghost var before, sizes, t0 := children, files, t;
      files := files[p := size];
      children, t := FileRow(children, p, size, t);
      FiledOneMore(before, t0, sizes, children, p, size);
      i := i + 1;
    }
    assert rows[..i] == rows;
    dirs := SortBuckets(children);
    if "." !in dirs {
      dirs := dirs["." := []];
    }
    if AllValid(files.Keys) {
      SnapshotIsIndex(children, t, files, dirs);
    }
  }

  lemma NothingFiled()
    ensures FiledSoFar(map[], map[], map[]) && RowMap([]) == map[]
  {
  }

  lemma SnapshotIsIndex(children: Buckets, t: Nodes, sizes: Sizes, dirs: map<string, seq<DirEntry>>)
    requires Mirrors(children, t) && IsNodeTable(t, sizes) && AllValid(sizes.Keys)
    requires dirs.Keys == children.Keys + {"."}
    requires forall d :: d in children ==> ListingOf(dirs[d], children[d])
    requires "." !in children ==> dirs["."] == []
    ensures IsIndex(dirs, sizes)
  {
    hide ValidRel, LastSlash, Under, First, Rest, Join, Mirrors, IsNodeTable, DirFirst;
    forall d
      ensures d in dirs <==> IsDir(sizes.Keys, d)
      ensures d in dirs ==> ListingOf(dirs[d], DirFirstTable(sizes, d))
    {
      if d in children {
        MirrorsTable(children, t, sizes, d);
      } else if d != "." && IsDir(sizes.Keys, d) {
        var p :| p in sizes && Under(d, p);
        DirHasBucket(children, t, sizes, d, p);
      } else if d == "." {
        RootBucket(children, t, sizes);
      }
    }
  }

  lemma FiledHasBucket(children: Buckets, t: Nodes, c: string)
    requires Mirrors(children, t) && c in t
    ensures Parent(c) in children
  {
    assert Filed(children, c, t[c]);
  }

  lemma RootBucket(children: Buckets, t: Nodes, sizes: Sizes)
    requires Mirrors(children, t) && IsNodeTable(t, sizes) && AllValid(sizes.Keys) && "." !in children
    ensures Children(sizes.Keys, ".") == {}
  {
    forall p | p in sizes
      ensures false
    {
      StepIsOnPath(".", p);
      var c := Join(".", Step(".", p));
      FiledHasBucket(children, t, c);
    }
  }
}
