/**
 Slash-separated path names as io/fs and package path treat them: valid names,
 parents, and which path lies below which.
 */
module FsPaths {
  import opened Text
  import opened Utf8

  predicate ValidElem(e: string) {
    e != "" && e != "." && e != ".." && '/' !in e
  }

  /** A path of proper elements. */
  predicate ValidRel(p: string)
    decreases |p|
  {
    var i := IndexOf(p, '/');
    if i < 0 then ValidElem(p) else ValidElem(p[..i]) && ValidRel(p[i + 1..])
  }

  /** A path of proper elements, or the root. */
  predicate ProperPath(p: string) {
    p == "." || ValidRel(p)
  }

  /** io/fs.ValidPath. */
  predicate ValidPath(p: string) {
    ValidUtf8(p) && ProperPath(p)
  }

  /** The position of the last slash, or -1. */
  function LastSlash(p: string): (j: int)
    ensures -1 <= j < |p|
    ensures j >= 0 ==> p[j] == '/'
    ensures forall i :: j < i < |p| ==> p[i] != '/'
  {
    if p == [] then -1
    else if p[|p| - 1] == '/' then |p| - 1
    else LastSlash(p[..|p| - 1])
  }

  /** path.Split's directory, its trailing slash trimmed, "." when empty. */
  function Parent(p: string): (d: string)
    ensures d != "." ==> |d| < |p|
  {
    var j := LastSlash(p);
    if j <= 0 then "." else p[..j]
  }

  function Base(p: string): string {
    p[LastSlash(p) + 1..]
  }

  function Join(d: string, leaf: string): string {
    if d == "." then leaf else d + "/" + leaf
  }

  /** `p` lies strictly below the directory path `c`. */
  predicate Under(c: string, p: string) {
    c + "/" <= p
  }

  predicate Below(d: string, p: string) {
    d == "." || Under(d, p)
  }

  /** The part of `p` after the directory `d`. */
  function Rest(d: string, p: string): string
    requires Below(d, p)
  {
    if d == "." then p else p[|d| + 1..]
  }

  function First(r: string): (e: string)
    ensures '/' !in e && e <= r
    ensures e == r || Under(e, r)
  {
    var i := IndexOf(r, '/');
    if i < 0 then r else r[..i]
  }

  lemma UnderAt(c: string, p: string)
    ensures Under(c, p) <==> |c| < |p| && p[|c|] == '/' && p[..|c|] == c
  {
    if |c| < |p| && p[|c|] == '/' && p[..|c|] == c {
      assert p[..|c| + 1] == c + "/";
    }
    if Under(c, p) {
      assert (c + "/")[|c|] == '/';
    }
  }

  lemma UnderTransitive(a: string, b: string, c: string)
    requires Under(a, b) && (b == c || Under(b, c))
    ensures Under(a, c)
  {
  }

  lemma ValidCut(p: string, k: nat)
    requires k == IndexOf(p, '/')
    ensures ValidRel(p) <==> ValidElem(p[..k]) && ValidRel(p[k + 1..])
  {
    hide IndexOf, ValidElem;
  }

  lemma ValidFlat(p: string)
    requires IndexOf(p, '/') == -1
    ensures ValidRel(p) <==> ValidElem(p)
  {
    hide IndexOf, ValidElem;
  }

  lemma {:induction false} ValidRelShape(p: string)
    requires ValidRel(p)
    ensures p != "" && p[0] != '/' && p != "." && p != ".." && p[|p| - 1] != '/'
    ensures ValidElem(First(p))
    decreases |p|
  {
    hide IndexOf, ValidRel;
    var i := IndexOf(p, '/');
    if i >= 0 {
      ValidCut(p, i);
      ValidRelShape(p[i + 1..]);
      assert p[..i] != "" && p[i] == '/';
    } else {
      ValidFlat(p);
      assert p[0] in p && p[|p| - 1] in p;
    }
  }

  /** Splitting and joining undo each other. */
  lemma ParentOfJoin(d: string, leaf: string)
    requires leaf != "" && '/' !in leaf && d != ""
    ensures Parent(Join(d, leaf)) == d && Base(Join(d, leaf)) == leaf
  {
    var p := Join(d, leaf);
    var j := LastSlash(p);
    if d != "." {
      assert p[|d|] == '/';
      assert forall i :: |d| < i < |p| ==> p[i] == leaf[i - |d| - 1];
      assert p[..|d|] == d && p[|d| + 1..] == leaf;
    }
  }

  lemma IndexOfPrefix(p: string, i: nat, c: char)
    requires i <= |p|
    ensures IndexOf(p[..i], c) == if IndexOf(p, c) < i then IndexOf(p, c) else -1
  {
    assert forall j :: 0 <= j < i ==> p[..i][j] == p[j];
  }

  lemma SliceTwice(p: string, k: nat, i: nat)
    requires k < i <= |p|
    ensures p[..i][..k] == p[..k] && p[..i][k + 1..] == p[k + 1..][..i - k - 1]
  {
  }

  lemma {:induction false} TakeValid(p: string, i: nat)
    requires ValidRel(p) && i < |p| && p[i] == '/'
    ensures ValidRel(p[..i])
    decreases |p|
  {
    hide IndexOf, ValidElem, ValidRel;
    var k := IndexOf(p, '/');
    IndexOfPrefix(p, i, '/');
    ValidCut(p, k);
    if k < i {
      TakeValid(p[k + 1..], i - k - 1);
      SliceTwice(p, k, i);
      ValidCut(p[..i], k);
    } else {
      ValidFlat(p[..i]);
    }
  }

  lemma {:induction false} DropValid(p: string, i: nat)
    requires ValidRel(p) && i < |p| && p[i] == '/'
    ensures ValidRel(p[i + 1..])
    decreases |p|
  {
    var k := IndexOf(p, '/');
    if k < i {
      DropValid(p[k + 1..], i - k - 1);
      assert p[k + 1..][i - k..] == p[i + 1..];
    }
  }

  lemma CutAtSlash(p: string, j: nat)
    requires j < |p| && p[j] == '/' && forall i :: j < i < |p| ==> p[i] != '/'
    ensures p == p[..j] + "/" + p[j + 1..] && Under(p[..j], p) && '/' !in p[j + 1..]
  {
    UnderAt(p[..j], p);
    var leaf := p[j + 1..];
    forall i | 0 <= i < |leaf|
      ensures leaf[i] != '/'
    {
      assert leaf[i] == p[j + 1 + i];
    }
  }

  lemma SplitAtSlash(p: string, j: nat)
    requires ValidRel(p) && j < |p| && p[j] == '/' && '/' !in p[j + 1..]
    ensures ValidRel(p[..j]) && p[..j] != "." && j > 0 && ValidElem(p[j + 1..])
  {
    TakeValid(p, j);
    DropValid(p, j);
    ValidRelShape(p[..j]);
    var leaf := p[j + 1..];
    assert IndexOf(leaf, '/') == -1;
  }

  /** The parent of a valid path is valid, or the root. */
  lemma ParentOfValid(p: string)
    requires ValidRel(p)
    ensures ValidElem(Base(p)) && ProperPath(Parent(p))
    ensures Join(Parent(p), Base(p)) == p
    ensures Parent(p) != "." ==> Under(Parent(p), p)
  {
    var j := LastSlash(p);
    if j >= 0 {
      CutAtSlash(p, j);
      SplitAtSlash(p, j);
    } else {
      assert '/' !in p;
      assert p[0..] == p;
    }
  }

  /** Cutting a path at a slash cuts no character. */
  lemma CutUtf8(p: string, j: nat)
    requires j < |p| && p[j] == '/'
    ensures ValidUtf8(p) <==> ValidUtf8(p[..j]) && ValidUtf8(p[j + 1..])
  {
    hide ValidUtf8;
    assert p == p[..j] + ['/'] + p[j + 1..];
    ValidAround(p[..j], '/', p[j + 1..]);
  }

  lemma ParentUtf8(p: string)
    requires ValidUtf8(p)
    ensures ValidUtf8(Parent(p))
  {
    hide ValidUtf8;
    if LastSlash(p) > 0 {
      CutUtf8(p, LastSlash(p));
    } else {
      RootUtf8();
    }
  }

  lemma RootUtf8()
    ensures ValidUtf8(".")
  {
    AsciiIsValid(".");
  }

  lemma JoinUtf8(d: string, leaf: string)
    requires ValidUtf8(d)
    ensures ValidUtf8(Join(d, leaf)) <==> ValidUtf8(leaf)
  {
    hide ValidUtf8;
    if d != "." {
      var p := Join(d, leaf);
      assert p[|d|] == '/' && p[..|d|] == d && p[|d| + 1..] == leaf;
      CutUtf8(p, |d|);
    }
  }

  lemma AncestorOfValid(c: string, p: string)
    requires ValidRel(p) && Under(c, p)
    ensures ValidRel(c)
  {
    UnderAt(c, p);
    TakeValid(p, |c|);
  }

  /** The strict ancestors of a path are its parent and that parent's ancestors. */
  lemma UnderParent(c: string, p: string)
    requires ValidRel(p)
    ensures Under(c, p) <==> Parent(p) != "." && (c == Parent(p) || Under(c, Parent(p)))
  {
    hide ValidRel;
    ParentOfValid(p);
    UnderAt(c, p);
    UnderAt(c, Parent(p));
    if Parent(p) != "." && Under(c, p) && |c| < LastSlash(p) {
      assert Parent(p)[|c|] == p[|c|];
    }
    if Under(c, p) {
      ValidRelShape(p);
    }
  }

  /** `c` is a stored path's own node or one of its ancestor directories. */
  predicate OnPath(c: string, p: string) {
    c == p || Under(c, p)
  }

  /** The first step from a directory towards a path below it. */
  function Step(d: string, p: string): string
    requires Below(d, p)
  {
    First(Rest(d, p))
  }

  lemma RestOfValid(d: string, p: string)
    requires ValidRel(p) && Below(d, p)
    ensures ValidRel(Rest(d, p)) && d != "" && p == Join(d, Rest(d, p))
  {
    hide ValidRel;
    if d != "." {
      UnderAt(d, p);
      DropValid(p, |d|);
      AncestorOfValid(d, p);
      ValidRelShape(d);
    }
  }

  /** A common directory in front changes nothing about which path lies below which. */
  lemma UnderInDirectory(d: string, e: string, r: string)
    ensures Under(d + "/" + e, d + "/" + r) <==> Under(e, r)
    ensures d + "/" + e == d + "/" + r <==> e == r
  {
    var c, p, n := d + "/" + e, d + "/" + r, |d| + 1;
    assert c[n..] == e && p[n..] == r;
    UnderAt(c, p);
    UnderAt(e, r);
    if |e| < |r| {
      assert p[|c|] == r[|e|];
      assert p[..|c|] == d + "/" + r[..|e|];
      assert p[..|c|][n..] == r[..|e|];
    }
  }

  lemma JoinOnPath(d: string, e: string, r: string)
    ensures OnPath(Join(d, e), Join(d, r)) <==> OnPath(e, r)
  {
    hide Under;
    UnderInDirectory(d, e, r);
  }

  lemma FirstIs(e: string, r: string)
    requires '/' !in e && OnPath(e, r)
    ensures First(r) == e
  {
    UnderAt(e, r);
    assert forall i :: 0 <= i < |e| ==> r[i] == e[i] && e[i] in e;
  }

  /** That first step is a node on the way, directly inside the directory. */
  lemma StepIsOnPath(d: string, p: string)
    requires ValidRel(p) && Below(d, p)
    ensures var c := Join(d, Step(d, p)); OnPath(c, p) && Parent(c) == d && Base(c) == Step(d, p)
  {
    hide ValidRel;
    RestOfValid(d, p);
    ValidRelShape(Rest(d, p));
    JoinOnPath(d, Step(d, p), Rest(d, p));
    ParentOfJoin(d, Step(d, p));
  }

  /** Conversely, a node on the way to `p` is the step its own parent takes. */
  lemma OnPathIsStep(c: string, p: string)
    requires ValidRel(p) && OnPath(c, p)
    ensures ValidRel(c) && Join(Parent(c), Base(c)) == c
    ensures Below(Parent(c), p) && Step(Parent(c), p) == Base(c)
  {
    hide ValidRel, LastSlash;
    if c != p { AncestorOfValid(c, p); }
    ParentOfValid(c);
    if Parent(c) != "." { UnderTransitive(Parent(c), c, p); }
    RestOfValid(Parent(c), p);
    JoinOnPath(Parent(c), Base(c), Rest(Parent(c), p));
    FirstIs(Base(c), Rest(Parent(c), p));
  }
}
