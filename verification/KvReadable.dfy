/**
 Prefix listing over well-formed text, where LIKE works byte by byte after all; and
 inputs for which it does not.
 */
module KvReadable {
  import opened Text
  import opened Utf8
  import opened SqlText
  import opened KvList

  /** U+FFFE and U+FFFF, the two well-formed characters SQLite reads as another one. */
  predicate Repaired(s: string) {
    |s| >= 3 && s[0] as int == 0xEF && s[1] as int == 0xBF && 0xBE <= s[2] as int <= 0xBF
  }

  /** Well-formed UTF-8 without those two. */
  predicate Readable(s: string)
    decreases |s|
  {
    s == [] || (Width(s) > 0 && !Repaired(s) && Readable(s[Width(s)..]))
  }

  function FoldByte(c: char): nat {
    Fold(c as nat)
  }

  predicate SameBytes(p: string, s: string) {
    |p| <= |s| && forall i :: 0 <= i < |p| ==> FoldByte(p[i]) == FoldByte(s[i])
  }

  lemma ReadableStartsClean(s: string)
    requires Readable(s)
    ensures StartsClean(s)
  {
  }

  lemma ContinuationIs(s: string, n: nat)
    requires n <= |s| && (forall i :: 0 <= i < n ==> IsCont(s[i])) && StartsClean(s[n..])
    ensures Continuation(s) == n
  {
    assert n < |s| ==> s[n..][0] == s[n];
  }

  /** SQLite reads a well-formed text's first character for what it is. */
  lemma ReadsCodePoint(s: string)
    requires s != [] && Readable(s)
    ensures CharWidth(s) == Width(s) && ReadChar(s) == CodePoint(s)
  {
    hide Readable, Accumulate, Continuation, StartsClean;
    var n := Width(s);
    assert n > 0 && !Repaired(s) && Readable(s[n..]) by { ReadableParts(s); }
    if n > 1 {
      ReadableStartsClean(s[n..]);
      assert s[1..][n - 1..] == s[n..];
      assert forall i :: 0 <= i < n - 1 ==> s[1..][i] == s[i + 1];
      ContinuationIs(s[1..], n - 1);
      AccumulateOnly(Lead(s[0]), s[1..], n - 1);
      AccumulateSteps(s, n);
    }
  }

  lemma ReadableParts(s: string)
    requires s != [] && Readable(s)
    ensures Width(s) > 0 && !Repaired(s) && Readable(s[Width(s)..])
  {
  }

  lemma AccumulateOnly(v: nat, s: string, n: nat)
    requires n <= |s| && StartsClean(s[n..])
    ensures Accumulate(v, s) == Accumulate(v, s[..n])
  {
    assert s == s[..n] + s[n..];
    ReadStops(v, s[..n], s[n..]);
  }

  lemma OneStep(v: nat, c: char, rest: string)
    requires IsCont(c) && v < 0x100000
    ensures Accumulate(v, [c] + rest) == Accumulate(v * 64 + (c as nat - 0x80), rest)
  {
    assert ([c] + rest)[1..] == rest;
  }

  lemma NoStep(v: nat)
    ensures Accumulate(v, "") == v
  {
  }

  lemma AccumulateSteps(s: string, n: nat)
    requires s != [] && n == Width(s) > 1
    ensures Accumulate(Lead(s[0]), s[1..][..n - 1]) == CodePoint(s)
  {
    hide Accumulate;
    var v := Lead(s[0]);
    NoStep(CodePoint(s));
    if n == 2 {
      assert s[1..][..1] == [s[1]] + "";
      OneStep(v, s[1], "");
    } else if n == 3 {
      assert s[1..][..2] == [s[1]] + ([s[2]] + "");
      OneStep(v, s[1], [s[2]] + "");
      OneStep(v * 64 + (s[1] as nat - 0x80), s[2], "");
    } else {
      assert s[1..][..3] == [s[1]] + ([s[2]] + ([s[3]] + ""));
      OneStep(v, s[1], [s[2]] + ([s[3]] + ""));
      OneStep(v * 64 + (s[1] as nat - 0x80), s[2], [s[3]] + "");
      OneStep((v * 64 + (s[1] as nat - 0x80)) * 64 + (s[2] as nat - 0x80), s[3], "");
    }
  }

  lemma Digit(a: int, x: int, b: int, y: int)
    requires 0 <= x < 64 && 0 <= y < 64
    ensures a * 64 + x == b * 64 + y <==> a == b && x == y
  {
  }

  lemma SlicesEqual(p: string, s: string, n: nat)
    requires n <= |p| && n <= |s|
    ensures p[..n] == s[..n] <==> forall i :: 0 <= i < n ==> p[i] == s[i]
  {
    assert forall i :: 0 <= i < n ==> p[..n][i] == p[i] && s[..n][i] == s[i];
  }

  lemma SameWide(p: string, s: string)
    requires p != [] && s != [] && Width(p) == Width(s) > 0
    ensures CodePoint(p) == CodePoint(s) <==> forall i :: 0 <= i < Width(p) ==> p[i] == s[i]
  {
    if Width(p) > 1 {
      WideConts(p);
      WideConts(s);
      hide Width;
      var a, b := p[1] as int - 0x80, s[1] as int - 0x80;
      if Width(p) == 2 {
        Digit(p[0] as int - 0xC0, a, s[0] as int - 0xC0, b);
      } else {
        var base := if Width(p) == 3 then 0xE0 else 0xF0;
        var h, k := p[0] as int - base, s[0] as int - base;
        Digit(h, a, k, b);
        Digit(h * 64 + a, p[2] as int - 0x80, k * 64 + b, s[2] as int - 0x80);
        if Width(p) == 4 {
          Digit((h * 64 + a) * 64 + (p[2] as int - 0x80), p[3] as int - 0x80,
                (k * 64 + b) * 64 + (s[2] as int - 0x80), s[3] as int - 0x80);
        }
      }
    }
  }

  /** Equal code points are written with equal bytes. */
  lemma SameCodePoint(p: string, s: string)
    requires p != [] && s != [] && Width(p) > 0 && Width(s) > 0
    ensures CodePoint(p) == CodePoint(s) <==> Width(p) == Width(s) && p[..Width(p)] == s[..Width(s)]
  {
    hide CodePoint, Width;
    CodePointRange(p);
    CodePointRange(s);
    if Width(p) == Width(s) {
      SameWide(p, s);
      SlicesEqual(p, s, Width(p));
    }
  }

  /** A lead byte fixes how many bytes follow it. */
  lemma WidthByLead(p: string, s: string)
    requires p != [] && s != [] && Width(p) > 0 && Width(s) > 0 && FoldByte(p[0]) == FoldByte(s[0])
    ensures Width(p) == Width(s)
  {
  }

  lemma SameBytesWide(p: string, s: string, n: nat)
    requires n <= |p| && n <= |s| && forall i :: 0 <= i < n ==> p[i] as int >= 0x80
    ensures SameBytes(p[..n], s[..n]) <==> p[..n] == s[..n]
  {
    assert forall i :: 0 <= i < n ==> p[..n][i] == p[i] && s[..n][i] == s[i];
    assert forall i :: 0 <= i < n ==> (FoldByte(p[i]) == FoldByte(s[i]) <==> p[i] == s[i]);
    if SameBytes(p[..n], s[..n]) {
      assert forall i :: 0 <= i < n ==> FoldByte(p[..n][i]) == FoldByte(s[..n][i]);
    }
  }

  lemma WideBytes(s: string)
    requires s != [] && Width(s) > 1
    ensures forall i :: 0 <= i < Width(s) ==> s[i] as int >= 0x80
  {
  }

  /** First characters agree up to case exactly when their bytes do. */
  lemma HeadsAgree(p: string, s: string)
    requires p != [] && s != [] && Width(p) > 0 && Width(s) > 0
    ensures Fold(CodePoint(p)) == Fold(CodePoint(s)) <==> Width(p) == Width(s) && SameBytes(p[..Width(p)], s[..Width(p)])
  {
    hide Width, CodePoint;
    CodePointRange(p);
    CodePointRange(s);
    if Width(p) > 1 && Width(p) == Width(s) {
      WideBytes(p);
      SameBytesWide(p, s, Width(p));
      SameCodePoint(p, s);
    } else if Width(p) == 1 && Width(s) == 1 {
      OneByte(p);
      OneByte(s);
      OneSameByte(p, s);
    }
  }

  lemma OneSameByte(p: string, s: string)
    requires p != [] && s != []
    ensures SameBytes(p[..1], s[..1]) <==> FoldByte(p[0]) == FoldByte(s[0])
  {
    assert p[..1] == [p[0]] && s[..1] == [s[0]];
    if SameBytes(p[..1], s[..1]) { assert FoldByte(p[..1][0]) == FoldByte(s[..1][0]); }
  }

  lemma OneByte(s: string)
    requires s != [] && Width(s) == 1
    ensures CodePoint(s) == s[0] as nat
  {
  }

  lemma SameBytesSplit(p: string, s: string, n: nat)
    requires 0 < n <= |p| && p != [] && s != []
    ensures SameBytes(p, s) <==> n <= |s| && SameBytes(p[..n], s[..n]) && SameBytes(p[n..], s[n..])
    ensures SameBytes(p, s) ==> FoldByte(p[0]) == FoldByte(s[0])
  {
    if n <= |s| {
      assert forall i :: 0 <= i < n ==> p[..n][i] == p[i] && s[..n][i] == s[i];
      assert forall i :: 0 <= i < |p| - n ==> p[n..][i] == p[n + i];
      assert forall i :: 0 <= i < |s| - n ==> s[n..][i] == s[n + i];
      if SameBytes(p[..n], s[..n]) && SameBytes(p[n..], s[n..]) {
        forall i | 0 <= i < |p|
          ensures FoldByte(p[i]) == FoldByte(s[i])
        {
          if i < n {
            assert FoldByte(p[..n][i]) == FoldByte(s[..n][i]);
          } else {
            assert FoldByte(p[n..][i - n]) == FoldByte(s[n..][i - n]);
          }
        }
      }
    }
  }

  /** On readable texts, extending character by character is extending byte by byte. */
  lemma {:induction false} ReadableExtends(p: string, s: string)
    requires Readable(p) && Readable(s)
    ensures FoldPrefix(Chars(p), Chars(s)) <==> SameBytes(p, s)
    ensures SameBytes(p, s) ==> (|Chars(p)| == |Chars(s)| <==> |p| == |s|)
    decreases |p|
  {
    hide Width, CodePoint, Readable, ReadChar, CharWidth, Fold, SameBytes;
    if p == [] {
      EmptyExtends(s);
    } else if s == [] {
      CharsCons(p);
      assert !SameBytes(p, s) by { NothingExtends(p); }
      assert Chars(s) == [] by { NothingReads(); }
    } else {
      var n, m := Width(p), Width(s);
      ReadableParts(p);
      ReadableParts(s);
      ReadsCodePoint(p);
      ReadsCodePoint(s);
      CharsCons(p);
      CharsCons(s);
      FoldPrefixStep(Chars(p), Chars(s));
      SameBytesSplit(p, s, n);
      HeadsAgree(p, s);
      if SameBytes(p, s) { WidthByLead(p, s); }
      if n == m {
        ReadableExtends(p[n..], s[n..]);
      }
    }
  }

  lemma EmptyExtends(s: string)
    ensures SameBytes([], s) && FoldPrefix(Chars([]), Chars(s))
    ensures |Chars([])| == |Chars(s)| <==> |s| == 0
  {
  }

  lemma NothingExtends(p: string)
    requires p != []
    ensures !SameBytes(p, [])
  {
  }

  lemma {:induction false} ReadablePart(a: string, b: string)
    requires Readable(a + b) && (b == [] || b[0] as int < 0x80)
    ensures Readable(a)
    decreases |a|
  {
    hide Width;
    if a != [] {
      WidthOfConcat(a, b);
      var n := Width(a);
      assert (a + b)[n..] == a[n..] + b;
      ReadablePart(a[n..], b);
      assert forall i :: 0 <= i < |a| ==> (a + b)[i] == a[i];
    }
  }

  lemma ReadableCString(s: string)
    requires Readable(s)
    ensures Readable(CString(s))
  {
    hide Readable, CString;
    var q := CString(s);
    assert s == q + s[|q|..];
    ReadablePart(q, s[|q|..]);
  }

  /** The selection by bytes alone. */
  predicate SelectedBytes(prefix: string, key: string) {
    SameBytes(CString(prefix), CString(key)) && ('\0' in prefix ==> |CString(prefix)| == |CString(key)|)
  }

  lemma ReadableSelected(prefix: string, key: string)
    requires Readable(prefix) && Readable(key)
    ensures Selected(prefix, key) <==> SelectedBytes(prefix, key)
    ensures prefix <= key ==> Selected(prefix, key)
  {
    hide Readable, CString, Chars, SameBytes, FoldPrefix;
    ReadableCString(prefix);
    ReadableCString(key);
    ReadableExtends(CString(prefix), CString(key));
    if prefix <= key {
      CStringOfExtension(prefix, key);
      PrefixSameBytes(CString(prefix), CString(key));
    }
  }

  lemma PrefixSameBytes(p: string, s: string)
    requires p <= s
    ensures SameBytes(p, s)
  {
    assert forall i :: 0 <= i < |p| ==> p[i] == s[i];
  }

  /** On well-formed text the SQLite listing always holds the memory listing, and they are
      the same exactly when no key has the prefix only up to ASCII case or a NUL. */
  lemma ReadableListings(b: map<string, string>, prefix: string, sql: seq<string>, mem: seq<string>)
    requires Lists(sql, SqlKeys(b, prefix)) && Lists(mem, MemKeys(b, prefix))
    requires Readable(prefix) && forall k :: k in b ==> Readable(k)
    ensures forall k :: k in mem ==> k in sql
    ensures sql == mem <==> forall k :: k in b && SelectedBytes(prefix, k) ==> prefix <= k
  {
    hide Selected, SelectedBytes, CutsNothing, SqlLike, StrictlySorted;
    forall k | k in b
      ensures Selected(prefix, k) <==> SelectedBytes(prefix, k)
      ensures prefix <= k ==> CutsNothing(prefix, k)
    {
      ReadableSelected(prefix, k);
      ListedIff(b, prefix, sql, mem, k);
    }
    ListingsAgreeIff(b, prefix, sql, mem);
  }

  // ---------------------------------------------------------------- where they part

  lemma CaseSelected()
    ensures Selected("key", "Key")
  {
    assert "key"[0] == 'k' && "Key"[0] == 'K';
    assert CString("key") == "key" && CString("Key") == "Key";
    assert SameBytes("key", "Key");
    assert Readable("key") by { assert Readable("y") && Readable("ey"); }
    assert Readable("Key") by { assert Readable("y") && Readable("ey"); }
    ReadableSelected("key", "Key");
  }

  /** With only "Key" stored, listing "key" finds it in SQLite alone. */
  lemma CaseFoldingParts(v: string)
    ensures SqlKeys(map["Key" := v], "key") == {"Key"} && MemKeys(map["Key" := v], "key") == {}
  {
    hide Selected, SqlLike;
    LikeSelects("key", "Key");
    CaseSelected();
    assert "key"[0] != "Key"[0];
  }

  const LEAD := [0xC3 as char]

  lemma CutReads()
    ensures Chars(LEAD) == [REPLACEMENT] && Chars(E_ACUTE) == [0xE9]
  {
    assert LEAD[1..] == "" && E_ACUTE[1..] == [0xA9 as char] && [0xA9 as char][1..] == "";
    assert Continuation("") == 0 && Continuation(E_ACUTE[1..]) == 1;
    assert Accumulate(3, "") == 3 && Accumulate(0xE9, "") == 0xE9;
    assert Accumulate(3, [0xA9 as char]) == Accumulate(0xE9, "");
    assert LEAD[1..] == "" && E_ACUTE[2..] == "" && Chars("") == [];
  }

  /** A prefix cut inside a character is read as U+FFFD, and the key that has it is listed by
      memory alone. */
  lemma CutCharacterParts(v: string)
    ensures SqlKeys(map[E_ACUTE := v], LEAD) == {} && MemKeys(map[E_ACUTE := v], LEAD) == {E_ACUTE}
  {
    hide Chars, SqlLike;
    LikeSelects(LEAD, E_ACUTE);
    CutReads();
    assert CString(LEAD) == LEAD && CString(E_ACUTE) == E_ACUTE;
    assert Chars(LEAD)[0] != Chars(E_ACUTE)[0];
    assert E_ACUTE[..1] == LEAD;
  }

  const U_FFFD := [0xEF as char, 0xBF as char, 0xBD as char]
  const U_FFFE := [0xEF as char, 0xBF as char, 0xBE as char]

  lemma ThreeBytes(s: string)
    requires |s| == 3 && 0xE0 <= s[0] as int < 0xF0 && IsCont(s[1]) && IsCont(s[2])
    ensures Chars(s) == [Repair(((s[0] as nat - 0xE0) * 64 + (s[1] as nat - 0x80)) * 64 + (s[2] as nat - 0x80))]
  {
    hide Repair;
    var v := s[0] as nat - 0xE0;
    assert s[1..] == [s[1]] + ([s[2]] + "");
    OneStep(v, s[1], [s[2]] + "");
    OneStep(v * 64 + (s[1] as nat - 0x80), s[2], "");
    ContinuationIs(s[1..], 2);
    assert s[3..] == "" && Chars("") == [];
  }

  /** Well-formed characters part them too: U+FFFE reads as U+FFFD, so SQLite alone lists it
      under that prefix. */
  lemma NoncharacterParts(v: string)
    ensures SqlKeys(map[U_FFFE := v], U_FFFD) == {U_FFFE} && MemKeys(map[U_FFFE := v], U_FFFD) == {}
  {
    hide Chars, SqlLike;
    LikeSelects(U_FFFD, U_FFFE);
    ThreeBytes(U_FFFD);
    ThreeBytes(U_FFFE);
    assert CString(U_FFFD) == U_FFFD && CString(U_FFFE) == U_FFFE;
    assert U_FFFD[2] != U_FFFE[2];
  }
}
