/**
 Package path's Clean, on the elements between slashes: an absolute path is clean
 exactly when its elements are proper names.
 */
module PathClean {
  import opened Text
  import opened FsPaths

  function Elems(p: string): (es: seq<string>)
    ensures es != [] && forall i :: 0 <= i < |es| ==> '/' !in es[i]
    decreases |p|
  {
    var i := IndexOf(p, '/');
    if i < 0 then [p] else [Head(p, i)] + Elems(p[i + 1..])
  }

  function Head(p: string, i: int): (e: string)
    requires 0 <= i == IndexOf(p, '/')
    ensures '/' !in e && e == p[..i]
  {
    assert forall j :: 0 <= j < i ==> p[..i][j] == p[j];
    p[..i]
  }

  function JoinElems(es: seq<string>): string {
    if es == [] then "" else if |es| == 1 then es[0] else es[0] + "/" + JoinElems(es[1..])
  }

  /** Elements resolved in turn: empty and "." dropped, ".." undoing the one before it. */
  function Resolve(es: seq<string>, out: seq<string>, rooted: bool): seq<string>
    decreases |es|
  {
    if es == [] then out
    else if es[0] == "" || es[0] == "." then Resolve(es[1..], out, rooted)
    else if es[0] == ".." then
      if out != [] && out[|out| - 1] != ".." then Resolve(es[1..], out[..|out| - 1], rooted)
      else if rooted then Resolve(es[1..], out, rooted)
      else Resolve(es[1..], out + [".."], rooted)
    else Resolve(es[1..], out + [es[0]], rooted)
  }

  function Clean(p: string): string {
    var rooted := p != "" && p[0] == '/';
    var out := Resolve(Elems(p), [], rooted);
    if rooted then "/" + JoinElems(out) else if out == [] then "." else JoinElems(out)
  }

  ghost predicate AllElems(es: seq<string>) {
    forall i :: 0 <= i < |es| ==> ValidElem(es[i])
  }

  lemma JoinCons(e: string, es: seq<string>)
    requires es != []
    ensures JoinElems([e] + es) == e + "/" + JoinElems(es)
  {
    assert ([e] + es)[1..] == es;
  }

  lemma CutOut(p: string, i: nat)
    requires i < |p| && p[i] == '/'
    ensures p == p[..i] + "/" + p[i + 1..]
  {
  }

  lemma {:induction false} JoinOfElems(p: string)
    ensures JoinElems(Elems(p)) == p
    decreases |p|
  {
    hide JoinElems;
    var i := IndexOf(p, '/');
    if i >= 0 {
      JoinOfElems(p[i + 1..]);
      JoinCons(p[..i], Elems(p[i + 1..]));
      CutOut(p, i);
    } else {
      JoinOne(p);
    }
  }

  lemma JoinOne(p: string)
    ensures JoinElems([p]) == p
  {
  }

  lemma ElemsCons(e: string, rest: string)
    requires '/' !in e
    ensures Elems(e + "/" + rest) == [e] + Elems(rest)
  {
    var p := e + "/" + rest;
    assert p[|e|] == '/' && p[..|e|] == e && p[|e| + 1..] == rest;
    assert forall i :: 0 <= i < |e| ==> p[i] == e[i] && e[i] in e;
    assert IndexOf(p, '/') == |e|;
  }

  lemma {:induction false} ElemsAppend(a: string, r: string)
    ensures Elems(a + "/" + r) == Elems(a) + Elems(r)
    decreases |a|
  {
    hide Elems;
    var i := IndexOf(a, '/');
    if i < 0 {
      NoSlash(a);
      ElemsCons(a, r);
    } else {
      var e, t := a[..i], a[i + 1..];
      CutOut(a, i);
      ElemsAppend(t, r);
      assert '/' !in e by { assert forall j :: 0 <= j < i ==> a[..i][j] == a[j]; }
      ElemsCons(e, t);
      ElemsCons(e, t + "/" + r);
      Regroup(e, t, r);
      assert [e] + (Elems(t) + Elems(r)) == ([e] + Elems(t)) + Elems(r);
    }
  }

  lemma Regroup(e: string, t: string, r: string)
    ensures (e + "/" + t) + "/" + r == e + "/" + (t + "/" + r)
  {
  }

  lemma NoSlash(a: string)
    requires '/' !in a
    ensures Elems(a) == [a]
  {
  }

  lemma {:induction false} ElemsOfJoin(es: seq<string>)
    requires es != [] && forall i :: 0 <= i < |es| ==> '/' !in es[i]
    ensures Elems(JoinElems(es)) == es
    decreases |es|
  {
    assert es == [es[0]] + es[1..];
    if |es| == 1 {
      assert IndexOf(es[0], '/') == -1;
    } else {
      ElemsOfJoin(es[1..]);
      ElemsCons(es[0], JoinElems(es[1..]));
    }
  }

  lemma {:induction false} JoinAppend(xs: seq<string>, ys: seq<string>)
    requires xs != [] && ys != []
    ensures JoinElems(xs + ys) == JoinElems(xs) + "/" + JoinElems(ys)
    decreases |xs|
  {
    hide JoinElems;
    var e, tail := xs[0], xs[1..];
    assert xs == [e] + tail;
    if tail == [] {
      assert xs == [e];
      JoinOne(e);
      JoinCons(e, ys);
    } else {
      JoinAppend(tail, ys);
      JoinCons(e, tail);
      JoinCons(e, tail + ys);
      assert xs + ys == [e] + (tail + ys);
      Regroup(e, JoinElems(tail), JoinElems(ys));
    }
  }

  /** Lying strictly below is having a longer element list that starts the same. */
  lemma UnderIffElems(a: string, b: string)
    ensures Under(a, b) <==> Elems(a) < Elems(b)
  {
    hide Elems, JoinElems;
    if Under(a, b) {
      UnderAt(a, b);
      CutOut(b, |a|);
      ElemsAppend(a, b[|a| + 1..]);
      assert Elems(b) == Elems(a) + Elems(b[|a| + 1..]);
    }
    if Elems(a) < Elems(b) {
      var rest := Elems(b)[|Elems(a)|..];
      assert Elems(b) == Elems(a) + rest;
      JoinAppend(Elems(a), rest);
      JoinOfElems(a);
      JoinOfElems(b);
      assert b == a + "/" + JoinElems(rest);
    }
  }

  lemma AllElemsCons(e: string, es: seq<string>)
    ensures AllElems([e] + es) <==> ValidElem(e) && AllElems(es)
  {
    hide ValidElem;
    assert forall j :: 0 <= j < |es| ==> ([e] + es)[j + 1] == es[j];
    assert ([e] + es)[0] == e;
  }

  lemma OneElem(p: string)
    ensures AllElems([p]) <==> ValidElem(p)
  {
    hide ValidElem;
    assert [p][0] == p;
  }

  lemma {:induction false} ValidRelIsAllElems(p: string)
    ensures ValidRel(p) <==> AllElems(Elems(p))
    decreases |p|
  {
    hide ValidElem, AllElems;
    OneElem(p);
    var i := IndexOf(p, '/');
    if i >= 0 {
      ValidRelIsAllElems(p[i + 1..]);
      AllElemsCons(p[..i], Elems(p[i + 1..]));
    }
  }

  lemma {:induction false} ResolveKeepsValid(es: seq<string>, out: seq<string>, rooted: bool)
    requires AllElems(es)
    ensures Resolve(es, out, rooted) == out + es
    decreases |es|
  {
    if es != [] {
      ResolveKeepsValid(es[1..], out + [es[0]], rooted);
      assert out + [es[0]] + es[1..] == out + es;
    }
  }

  lemma {:induction false} RootedResolveIsValid(es: seq<string>, out: seq<string>)
    requires AllElems(out) && forall i :: 0 <= i < |es| ==> '/' !in es[i]
    ensures AllElems(Resolve(es, out, true))
    decreases |es|
  {
    if es != [] {
      if es[0] == "" || es[0] == "." {
        RootedResolveIsValid(es[1..], out);
      } else if es[0] == ".." {
        if out != [] && out[|out| - 1] != ".." {
          RootedResolveIsValid(es[1..], out[..|out| - 1]);
        } else {
          RootedResolveIsValid(es[1..], out);
        }
      } else {
        RootedResolveIsValid(es[1..], out + [es[0]]);
      }
    }
  }

  lemma SlashFirst(q: string)
    ensures Elems("/" + q) == [""] + Elems(q)
  {
    ElemsCons("", q);
    assert "" + "/" + q == "/" + q;
  }

  lemma CleanOfValidAbsolute(q: string)
    requires ValidRel(q)
    ensures Clean("/" + q) == "/" + q
  {
    var es := Elems(q);
    SlashFirst(q);
    ValidRelIsAllElems(q);
    assert ([""] + es)[1..] == es;
    ResolveKeepsValid(es, [], true);
    assert [] + es == es;
    JoinOfElems(q);
  }

  lemma CleanIsValidAbsolute(p: string)
    requires p != "" && p[0] == '/' && Clean(p) == p && p != "/"
    ensures ValidRel(p[1..])
  {
    var out := Resolve(Elems(p), [], true);
    RootedResolveIsValid(Elems(p), []);
    assert p[1..] == JoinElems(out) && p == "/" + p[1..];
    if out != [] {
      ElemsOfJoin(out);
      ValidRelIsAllElems(p[1..]);
    }
  }

  /** An absolute path is its own Clean exactly when it is "/" or all its elements are
      proper names. */
  lemma CleanAbsoluteIff(p: string)
    requires p != "" && p[0] == '/'
    ensures Clean(p) == p <==> p == "/" || ValidRel(p[1..])
  {
    assert p == "/" + p[1..];
    if p == "/" {
      SlashFirst("");
      assert Elems("") == [""];
      assert ["", ""][1..] == [""] && [""][1..] == [];
      assert Resolve([""], [], true) == Resolve([], [], true);
      assert Resolve(["", ""], [], true) == Resolve([""], [], true);
    } else if ValidRel(p[1..]) {
      CleanOfValidAbsolute(p[1..]);
    } else if Clean(p) == p {
      CleanIsValidAbsolute(p);
    }
  }

  lemma {:induction false} ResolveConcat(a: seq<string>, b: seq<string>, out: seq<string>, rooted: bool)
    ensures Resolve(a + b, out, rooted) == Resolve(b, Resolve(a, out, rooted), rooted)
    decreases |a|
  {
    if a == [] {
      assert a + b == b;
    } else {
      assert (a + b)[1..] == a[1..] + b;
      if a[0] == "" || a[0] == "." {
        ResolveConcat(a[1..], b, out, rooted);
      } else if a[0] == ".." {
        if out != [] && out[|out| - 1] != ".." {
          ResolveConcat(a[1..], b, out[..|out| - 1], rooted);
        } else {
          ResolveConcat(a[1..], b, if rooted then out else out + [".."], rooted);
        }
      } else {
        ResolveConcat(a[1..], b, out + [a[0]], rooted);
      }
    }
  }

  /** Elements in the middle that resolve to nothing may as well not be there. */
  lemma MiddleDropped(a: string, mid: string, b: string)
    requires a != "" && forall out, rooted :: Resolve(Elems(mid), out, rooted) == out
    ensures Clean(a + "/" + (mid + "/" + b)) == Clean(a + "/" + b)
  {
    hide Elems, Resolve, JoinElems;
    var long, short := a + "/" + (mid + "/" + b), a + "/" + b;
    var rooted := a[0] == '/';
    assert long[0] == short[0] == a[0];
    ElemsAppend(a, mid + "/" + b);
    ElemsAppend(mid, b);
    ElemsAppend(a, b);
    var out := Resolve(Elems(a), [], rooted);
    ResolveConcat(Elems(a), Elems(mid) + Elems(b), [], rooted);
    ResolveConcat(Elems(mid), Elems(b), out, rooted);
    ResolveConcat(Elems(a), Elems(b), [], rooted);
    assert Resolve(Elems(mid), out, rooted) == out;
  }

  /** The rules of path.Clean: repeated slashes, "." and a name followed by ".." disappear, and
      ".." at the root goes nowhere. */
  lemma CleanRules(a: string, e: string, b: string)
    requires a != "" && ValidElem(e)
    ensures Clean(a + "/" + ("" + "/" + b)) == Clean(a + "/" + b)
    ensures Clean(a + "/" + ("." + "/" + b)) == Clean(a + "/" + b)
    ensures Clean(a + "/" + (e + "/" + ".." + "/" + b)) == Clean(a + "/" + b)
    ensures Clean("/" + (".." + "/" + b)) == Clean("/" + b)
  {
    hide Elems, JoinElems, Clean;
    NoSlash("");
    NoSlash(".");
    NoSlash("..");
    NoSlash(e);
    assert [""][1..] == [] && ["."][1..] == [] && [".."][1..] == [];
    MiddleDropped(a, "", b);
    MiddleDropped(a, ".", b);
    ElemsAppend(e, "..");
    forall out: seq<string>, rooted: bool
      ensures Resolve(Elems(e + "/" + ".."), out, rooted) == out
    {
      NameAndBack(e, out, rooted);
    }
    MiddleDropped(a, e + "/" + "..", b);
    RootStays(b);
  }

  lemma NameAndBack(e: string, out: seq<string>, rooted: bool)
    requires ValidElem(e)
    ensures Resolve([e] + [".."], out, rooted) == out
  {
    var es := [e] + [".."];
    assert es[1..] == [".."] && [".."][1..] == [];
    assert (out + [e])[..|out|] == out;
    assert Resolve([".."], out + [e], rooted) == Resolve([], out, rooted);
  }

  lemma RootStays(b: string)
    ensures Clean("/" + (".." + "/" + b)) == Clean("/" + b)
  {
    hide Elems, JoinElems;
    SlashFirst(".." + "/" + b);
    SlashFirst(b);
    ElemsAppend("..", b);
    NoSlash("..");
    assert ".." + "/" + b == ".." + ("/" + b);
    UpAtRoot(Elems(b));
  }

  lemma UpAtRoot(es: seq<string>)
    ensures Resolve([""] + ([".."] + es), [], true) == Resolve(es, [], true) == Resolve([""] + es, [], true)
  {
    assert ([""] + es)[1..] == es && ([""] + ([".."] + es))[1..] == [".."] + es && ([".."] + es)[1..] == es;
    assert Resolve([".."] + es, [], true) == Resolve(es, [], true);
  }

  /** A name fs.ValidPath accepts is already clean. */
  lemma ValidPathIsClean(name: string)
    requires ProperPath(name)
    ensures Clean(name) == name
  {
    if name == "." {
      assert IndexOf(".", '/') == -1 && Elems(".") == ["."];
      assert ["."][1..] == [];
      assert Resolve(["."], [], false) == Resolve([], [], false);
    } else {
      ValidRelShape(name);
      ValidRelIsAllElems(name);
      ResolveKeepsValid(Elems(name), [], false);
      assert [] + Elems(name) == Elems(name);
      JoinOfElems(name);
    }
  }
}
