/**
 Go strings and the string helpers several components share. A Go string is a
 sequence of bytes; a `char` here stands for one byte.
 */
module Text {

  datatype Option<+T> = None | Some(value: T)

  /** strings.IndexByte: the first position of `c`, or -1. */
  function IndexOf(s: string, c: char): (r: int)
    ensures -1 <= r < |s|
    ensures r == -1 <==> c !in s
    ensures r >= 0 ==> s[r] == c && forall i :: 0 <= i < r ==> s[i] != c
  {
    if s == [] then -1
    else if s[0] == c then 0
    else
      var r := IndexOf(s[1..], c);
      assert forall i :: 0 < i < |s| ==> s[i] == s[1..][i - 1];
      if r == -1 then -1 else r + 1
  }

  // ---------------------------------------------------------------- byte-wise order and sorted listings

  /** strings.Compare(a, b) < 0. */
  predicate Less(a: string, b: string) {
    b != [] && (a == [] || a[0] < b[0] || (a[0] == b[0] && Less(a[1..], b[1..])))
  }

  lemma {:induction false} LessTransitive(a: string, b: string, c: string)
    requires Less(a, b) && Less(b, c)
    ensures Less(a, c)
  {
    if a != [] && a[0] == b[0] && b[0] == c[0] {
      LessTransitive(a[1..], b[1..], c[1..]);
    }
  }

  lemma {:induction false} LessTotal(a: string, b: string)
    ensures !(Less(a, b) && Less(b, a))
    ensures a != b ==> Less(a, b) || Less(b, a)
    ensures !Less(a, a)
  {
    if a != [] && b != [] {
      LessTotal(a[1..], b[1..]);
      LessTotal(a[1..], a[1..]);
      if a[1..] == b[1..] && a[0] == b[0] {
        assert a == [a[0]] + a[1..] && b == [b[0]] + b[1..];
      }
    } else if a != [] {
      LessTotal(a[1..], a[1..]);
    }
  }

  /** Byte-wise order: at the first place where they differ the smaller byte comes first, and a
      proper prefix before what it begins. */
  lemma {:induction false} LessIff(a: string, b: string)
    ensures Less(a, b) <==>
            exists k :: 0 <= k <= |a| && k < |b| && a[..k] == b[..k] && (k == |a| || a[k] < b[k])
    decreases |a|
  {
    if a == [] {
      assert b != [] ==> a[..0] == b[..0];
    } else if b != [] {
      LessIff(a[1..], b[1..]);
      if a[0] == b[0] && Less(a[1..], b[1..]) {
        var k :| 0 <= k <= |a[1..]| && k < |b[1..]| && a[1..][..k] == b[1..][..k] && (k == |a[1..]| || a[1..][k] < b[1..][k]);
        assert a[..k + 1] == [a[0]] + a[1..][..k] && b[..k + 1] == [b[0]] + b[1..][..k];
      }
      if a[0] < b[0] { assert a[..0] == b[..0]; }
      if k :| 0 <= k <= |a| && k < |b| && a[..k] == b[..k] && (k == |a| || a[k] < b[k]) {
        if k > 0 {
          assert a[0] == a[..k][0] == b[..k][0] == b[0];
          assert a[1..][..k - 1] == a[..k][1..] == b[..k][1..] == b[1..][..k - 1];
        }
      }
    }
  }

  predicate StrictlySorted(xs: seq<string>) {
    forall i, j :: 0 <= i < j < |xs| ==> Less(xs[i], xs[j])
  }

  /** `xs` is the sorted listing of `names`, each once. */
  predicate Lists(xs: seq<string>, names: set<string>) {
    StrictlySorted(xs) && (forall x :: x in xs ==> x in names) && forall n :: n in names ==> n in xs
  }

  /** A set of names has only one sorted listing. */
  lemma {:induction false} ListingUnique(xs: seq<string>, ys: seq<string>, names: set<string>)
    requires Lists(xs, names) && Lists(ys, names)
    ensures xs == ys
    decreases |xs|
  {
    assert ys != [] ==> ys[0] in names;
    assert xs != [] ==> xs[0] in names;
    if xs != [] && ys != [] {
      assert xs[0] in ys && ys[0] in xs;
      LessTotal(xs[0], ys[0]);
      assert xs[0] == ys[0];
      ListsTail(xs, names);
      ListsTail(ys, names);
      ListingUnique(xs[1..], ys[1..], names - {xs[0]});
      assert xs == [xs[0]] + xs[1..] && ys == [ys[0]] + ys[1..];
    }
  }

  lemma ListsTail(xs: seq<string>, names: set<string>)
    requires Lists(xs, names) && xs != []
    ensures Lists(xs[1..], names - {xs[0]})
  {
    LessTotal(xs[0], xs[0]);
    forall x | x in xs[1..]
      ensures x in names - {xs[0]}
    {
      var i :| 0 <= i < |xs[1..]| && xs[1..][i] == x;
      assert Less(xs[0], xs[i + 1]);
    }
  }

  function Insert(xs: seq<string>, n: string): seq<string> {
    if xs == [] || !Less(xs[0], n) then [n] + xs else [xs[0]] + Insert(xs[1..], n)
  }

  lemma {:induction false} InsertLists(xs: seq<string>, n: string, names: set<string>)
    requires Lists(xs, names) && n !in names
    ensures Lists(Insert(xs, n), names + {n})
    decreases |xs|
  {
    if xs != [] {
      assert xs[0] in names;
      assert xs == [xs[0]] + xs[1..];
      LessTotal(n, xs[0]);
      if Less(xs[0], n) {
        ListsTail(xs, names);
        InsertLists(xs[1..], n, names - {xs[0]});
        var tail := Insert(xs[1..], n);
        forall x | x in tail
          ensures Less(xs[0], x)
        {
          if x != n {
            assert x in xs[1..];
          }
        }
        assert forall y :: y in Insert(xs, n) <==> y == xs[0] || y in tail;
      } else {
        forall k | 0 <= k < |xs|
          ensures Less(n, xs[k])
        {
          if k > 0 { LessTransitive(n, xs[0], xs[k]); }
        }
      }
    }
  }

  /** Every finite set of names has a sorted listing. */
  lemma {:induction false} SortedListing(names: set<string>)
    ensures exists xs :: Lists(xs, names)
    decreases |names|
  {
    if names == {} {
      assert Lists([], names);
    } else {
      var n :| n in names;
      SortedListing(names - {n});
      var xs :| Lists(xs, names - {n});
      InsertLists(xs, n, names - {n});
      assert names - {n} + {n} == names;
    }
  }

  /** The library sort of distinct names, as an insertion of each in turn. */
  method SortNames(names: set<string>) returns (out: seq<string>)
    ensures Lists(out, names)
  {
    out := [];
    var rest := names;
    while rest != {}
      invariant rest <= names && Lists(out, names - rest)
      decreases |rest|
    {
      var n :| n in rest;
      InsertLists(out, n, names - rest);
      assert names - rest + {n} == names - (rest - {n});
      out := Insert(out, n);
      rest := rest - {n};
    }
  }
}
