/** Prefix listing: SQLite's LIKE with an escape character against a plain prefix test. */
module KvList {
  import opened Text
  import opened SqlText

  predicate Special(c: char) {
    c == '\\' || c == '%' || c == '_'
  }

  function EscapedChar(c: char): string {
    if Special(c) then ['\\', c] else [c]
  }

  function Escaped(s: string): (r: string) {
    if s == [] then [] else EscapedChar(s[0]) + Escaped(s[1..])
  }

  lemma EscapedCons(c: char, s: string)
    ensures Escaped([c] + s) == EscapedChar(c) + Escaped(s)
  {
    hide EscapedChar;
    assert ([c] + s)[1..] == s;
  }

  lemma Regroup<T>(a: seq<T>, b: seq<T>, c: seq<T>)
    ensures (a + b) + c == a + (b + c)
  {
  }

  lemma NothingEscaped(s: string)
    ensures Escaped(s[|s|..]) == ""
  {
  }

  method LikeEscape(s: string) returns (out: string)
    ensures out == Escaped(s)
  {
    hide Escaped;
    out := [];
    var i := 0;
    assert s[0..] == s;
    while i < |s|
      invariant 0 <= i <= |s|
      invariant out + Escaped(s[i..]) == Escaped(s)
    {
      ghost var before := out;
      var c := s[i];
      if c == '\\' || c == '%' || c == '_' {
        out := out + ['\\'];
      }
      out := out + [c];
      assert out == before + EscapedChar(c);
      assert s[i..] == [c] + s[i + 1..];
      EscapedCons(c, s[i + 1..]);
      Regroup(before, EscapedChar(c), Escaped(s[i + 1..]));
      i := i + 1;
    }
    assert Escaped(s[i..]) == "" by { NothingEscaped(s); }
  }

  // ---------------------------------------------------------------- LIKE over characters

  const PERCENT := 0x25
  const UNDERSCORE := 0x5F
  const BACKSLASH := 0x5C

  /** LIKE folds the case of ASCII letters only. */
  function Fold(c: nat): nat {
    if 0x41 <= c <= 0x5A then c + 32 else c
  }

  /** SQLite's LIKE with ESCAPE '\\': `%` any characters, `_` one character, the escape
      character makes the next one literal. */
  predicate Like(pat: seq<nat>, s: seq<nat>)
    decreases |pat| + |s|
  {
    if pat == [] then s == []
    else if pat[0] == PERCENT then Like(pat[1..], s) || (s != [] && Like(pat, s[1..]))
    else if pat[0] == UNDERSCORE then s != [] && Like(pat[1..], s[1..])
    else if pat[0] == BACKSLASH then |pat| > 1 && s != [] && Fold(pat[1]) == Fold(s[0]) && Like(pat[2..], s[1..])
    else s != [] && Fold(pat[0]) == Fold(s[0]) && Like(pat[1..], s[1..])
  }

  /** Both operands are read as C strings, character by character. */
  predicate SqlLike(pat: string, s: string) {
    Like(Chars(CString(pat)), Chars(CString(s)))
  }

  predicate FoldPrefix(p: seq<nat>, s: seq<nat>) {
    |p| <= |s| && forall i :: 0 <= i < |p| ==> Fold(p[i]) == Fold(s[i])
  }

  /** What the listing query really selects. */
  predicate Selected(prefix: string, key: string) {
    var p, s := Chars(CString(prefix)), Chars(CString(key));
    FoldPrefix(p, s) && ('\0' in prefix ==> |p| == |s|)
  }

  function EscapedCode(c: nat): seq<nat> {
    if c == BACKSLASH || c == PERCENT || c == UNDERSCORE then [BACKSLASH, c] else [c]
  }

  function EscapedCodes(cs: seq<nat>): seq<nat> {
    if cs == [] then [] else EscapedCode(cs[0]) + EscapedCodes(cs[1..])
  }

  lemma {:induction false} PercentMatchesAll(s: seq<nat>)
    ensures Like([PERCENT], s)
    decreases |s|
  {
    if s == [] {
      assert [PERCENT][1..] == [];
    } else {
      PercentMatchesAll(s[1..]);
    }
  }

  lemma FoldPrefixStep(q: seq<nat>, s: seq<nat>)
    requires q != [] && s != []
    ensures FoldPrefix(q, s) <==> Fold(q[0]) == Fold(s[0]) && FoldPrefix(q[1..], s[1..])
  {
    hide Fold;
    if FoldPrefix(q, s) {
      assert forall i :: 0 <= i < |q| - 1 ==> q[1..][i] == q[i + 1] && s[1..][i] == s[i + 1];
    }
    if Fold(q[0]) == Fold(s[0]) && FoldPrefix(q[1..], s[1..]) {
      forall i | 0 <= i < |q|
        ensures Fold(q[i]) == Fold(s[i])
      {
        if i > 0 { assert Fold(q[1..][i - 1]) == Fold(s[1..][i - 1]); }
      }
    }
  }

  /** An escaped character matches one character, itself up to case. */
  lemma EscapedCodeMatches(c: nat, rest: seq<nat>, s: seq<nat>)
    ensures Like(EscapedCode(c) + rest, s) <==> s != [] && Fold(c) == Fold(s[0]) && Like(rest, s[1..])
  {
    hide Fold;
    var pat := EscapedCode(c) + rest;
    assert pat[|EscapedCode(c)|..] == rest;
  }

  /** Escaped characters match themselves up to case, and the rest of the pattern takes over after them. */
  lemma {:induction false} EscapedMatches(q: seq<nat>, tail: seq<nat>, s: seq<nat>)
    ensures Like(EscapedCodes(q) + tail, s) <==> FoldPrefix(q, s) && Like(tail, s[if |q| <= |s| then |q| else |s|..])
    decreases |q|
  {
    hide Like, EscapedCode, Fold;
    if q == [] {
      assert EscapedCodes(q) + tail == tail && s[0..] == s;
    } else {
      Regroup(EscapedCode(q[0]), EscapedCodes(q[1..]), tail);
      EscapedCodeMatches(q[0], EscapedCodes(q[1..]) + tail, s);
      if s != [] {
        EscapedMatches(q[1..], tail, s[1..]);
        FoldPrefixStep(q, s);
        assert |q| <= |s| ==> s[1..][|q| - 1..] == s[|q|..];
      }
    }
  }

  // ---------------------------------------------------------------- escaping bytes escapes characters

  lemma {:induction false} EscapedConcat(a: string, b: string)
    ensures Escaped(a + b) == Escaped(a) + Escaped(b)
  {
    hide EscapedChar, Escaped;
    if a == [] {
      assert a + b == b;
      NothingEscaped(a);
      assert a[|a|..] == a;
    } else {
      EscapedConcat(a[1..], b);
      assert a + b == [a[0]] + (a[1..] + b) && a == [a[0]] + a[1..];
      EscapedCons(a[0], a[1..] + b);
      EscapedCons(a[0], a[1..]);
      Regroup(EscapedChar(a[0]), Escaped(a[1..]), Escaped(b));
    }
  }

  lemma {:induction false} EscapingAddsNoNul(s: string)
    ensures '\0' in Escaped(s) <==> '\0' in s
  {
    if s != [] {
      EscapingAddsNoNul(s[1..]);
      assert s == [s[0]] + s[1..];
    }
  }

  lemma EscapedKeepsStart(s: string)
    ensures StartsClean(s) <==> StartsClean(Escaped(s))
  {
  }

  lemma {:induction false} NothingToEscape(s: string)
    requires forall i :: 0 <= i < |s| ==> !Special(s[i])
    ensures Escaped(s) == s
  {
    if s != [] {
      NothingToEscape(s[1..]);
    }
  }

  lemma EscapedSingle(c: char, s: string)
    requires c as int < 0xC0
    ensures Chars(EscapedChar(c) + s) == EscapedCode(c as nat) + Chars(s)
  {
    hide Chars;
    SingleByte(c, s);
    if Special(c) {
      SingleByte('\\', [c] + s);
      assert EscapedChar(c) + s == ['\\'] + ([c] + s);
    }
  }

  /** The escapes go in front of whole characters, never inside one. */
  lemma {:induction false} EscapedReads(q: string)
    ensures Chars(Escaped(q)) == EscapedCodes(Chars(q))
    decreases |q|
  {
    hide Chars, ReadChar, CharWidth, EscapedChar, EscapedCode, Escaped, EscapedCodes;
    if q == [] {
      NothingReads();
    } else {
      var n := CharWidth(q);
      EscapedReads(q[n..]);
      CharsCons(q);
      EscapedCodesCons(ReadChar(q), Chars(q[n..]));
      if q[0] as int < 0xC0 {
        EscapedOneByte(q);
      } else {
        EscapedWide(q);
      }
    }
  }

  lemma NothingReads()
    ensures Escaped([]) == [] && Chars([]) == [] && EscapedCodes([]) == []
  {
  }

  lemma EscapedCodesCons(c: nat, cs: seq<nat>)
    ensures EscapedCodes([c] + cs) == EscapedCode(c) + EscapedCodes(cs)
  {
    assert ([c] + cs)[1..] == cs;
  }

  lemma EscapedOneByte(q: string)
    requires q != [] && q[0] as int < 0xC0
    ensures Chars(Escaped(q)) == EscapedCode(ReadChar(q)) + Chars(Escaped(q[CharWidth(q)..]))
  {
    hide Chars, EscapedChar, EscapedCode, Escaped;
    assert q == [q[0]] + q[1..];
    EscapedCons(q[0], q[1..]);
    EscapedSingle(q[0], Escaped(q[1..]));
  }

  lemma EscapedWide(q: string)
    requires q != [] && q[0] as int >= 0xC0
    ensures Chars(Escaped(q)) == EscapedCode(ReadChar(q)) + Chars(Escaped(q[CharWidth(q)..]))
  {
    hide Chars, CharWidth, ReadChar, StartsClean, Escaped;
    var n := CharWidth(q);
    var head, rest := q[..n], q[n..];
    AfterWide(q);
    EscapedKeepsStart(rest);
    EscapedConcat(head, rest);
    assert q == head + rest;
    NothingToEscape(head);
    CharsConcat(head, Escaped(rest));
    CharsCons(head);
    assert head[n..] == [];
    NothingReads();
    WideIsPlain(q);
  }

  lemma WideIsPlain(q: string)
    requires q != [] && q[0] as int >= 0xC0
    ensures EscapedCode(ReadChar(q)) == [ReadChar(q)]
  {
    hide Accumulate;
  }

  lemma {:induction false} CStringIs(r: string, rest: string)
    requires '\0' !in r && (rest == [] || rest[0] == '\0')
    ensures CString(r + rest) == r
  {
    if r == [] {
      assert r + rest == rest;
    } else {
      CStringIs(r[1..], rest);
      assert (r + rest)[1..] == r[1..] + rest;
    }
  }

  lemma NulEndsPattern(q: string, rest: string)
    requires '\0' !in q && rest != [] && rest[0] == '\0'
    ensures CString(Escaped(q + rest) + "%") == Escaped(q)
  {
    EscapingAddsNoNul(q);
    EscapedConcat(q, rest);
    var e := Escaped(rest);
    assert e[0] == '\0';
    CStringIs(Escaped(q), e + "%");
    assert Escaped(q + rest) + "%" == Escaped(q) + (e + "%");
  }

  lemma WholePatternWithoutNul(q: string)
    requires '\0' !in q
    ensures CString(Escaped(q) + "%") == Escaped(q) + "%"
  {
    EscapingAddsNoNul(q);
    var pat := Escaped(q) + "%";
    CStringIs(pat, "");
    assert pat + "" == pat;
  }

  lemma PatternReads(q: string)
    ensures Chars(Escaped(q) + "%") == EscapedCodes(Chars(q)) + [PERCENT]
  {
    hide ReadChar, CharWidth;
    CharsConcat(Escaped(q), "%");
    EscapedReads(q);
    SingleByte('%', "");
    assert ['%'] + "" == "%";
  }

  /** For every prefix and key, malformed ones and NULs included: the query selects exactly
      the keys whose characters extend the prefix's up to ASCII case (and, if the prefix
      holds a NUL, exactly the keys equal to it up to there). */
  lemma LikeSelects(prefix: string, key: string)
    ensures SqlLike(Escaped(prefix) + "%", key) <==> Selected(prefix, key)
  {
    hide Chars, CString, Escaped, EscapedCodes;
    var q := CString(prefix);
    var p, s := Chars(q), Chars(CString(key));
    if '\0' in prefix {
      assert prefix == q + prefix[|q|..];
      NulEndsPattern(q, prefix[|q|..]);
      EscapedReads(q);
      EscapedMatches(p, [], s);
      assert EscapedCodes(p) + [] == EscapedCodes(p);
    } else {
      WholePatternWithoutNul(prefix);
      PatternReads(q);
      EscapedMatches(p, [PERCENT], s);
      if |p| <= |s| { PercentMatchesAll(s[|p|..]); }
    }
  }

  // ---------------------------------------------------------------- against the plain prefix test

  lemma CStringOfExtension(prefix: string, key: string)
    requires prefix <= key
    ensures '\0' in prefix ==> CString(key) == CString(prefix)
    ensures '\0' !in prefix ==> prefix <= CString(key)
  {
    hide CString;
    var q, s := CString(prefix), CString(key);
    assert forall i :: 0 <= i < |prefix| ==> prefix[i] == key[i];
    if '\0' in prefix {
      assert key[|q|] == '\0';
      assert key == q + key[|q|..];
      CStringIs(q, key[|q|..]);
    } else {
      assert forall i :: 0 <= i < |prefix| ==> key[i] == prefix[i] && prefix[i] in prefix;
      assert forall i :: 0 <= i < |prefix| ==> key[i] != '\0';
    }
  }

  lemma FoldLast(c: nat, d: nat)
    requires c == d || (c >= 0x80 && d >= 0x80)
    ensures Fold(c) == Fold(d) <==> c == d
  {
  }

  lemma WideReads(c: string, t: string)
    requires c != []
    ensures ReadChar(c) == ReadChar(c + t) || (ReadChar(c) >= 0x80 && ReadChar(c + t) >= 0x80)
  {
    hide Accumulate;
  }

  lemma FoldPrefixAtLast(a: seq<nat>, b: seq<nat>)
    requires 0 < |a| <= |b| && a[..|a| - 1] == b[..|a| - 1]
    ensures FoldPrefix(a, b) <==> Fold(a[|a| - 1]) == Fold(b[|a| - 1])
  {
    hide Fold;
    assert forall i :: 0 <= i < |a| - 1 ==> a[i] == a[..|a| - 1][i] == b[..|a| - 1][i] == b[i];
  }

  lemma ExtensionSelected(p: string, s: string)
    requires p <= s
    ensures FoldPrefix(Chars(p), Chars(s)) <==> EndsWhole(p, s[|p|..])
  {
    hide Chars, ReadChar, Fold, LastChar, FoldPrefix;
    if p == [] {
      NothingReads();
      FoldPrefixNone(Chars(s));
    } else {
      var t := s[|p|..];
      assert s == p + t;
      ExtendedChars(p, t);
      WideReads(LastChar(p), t);
      FoldLast(ReadChar(LastChar(p)), ReadChar(LastChar(p) + t));
      FoldPrefixAtLast(Chars(p), Chars(s));
    }
  }

  /** Not every key that has the prefix is selected: exactly those where what follows leaves
      the prefix's last character reading the same. */
  lemma PrefixIsSelectedIff(prefix: string, key: string)
    requires prefix <= key
    ensures Selected(prefix, key) <==> '\0' in prefix || EndsWhole(prefix, CString(key)[|prefix|..])
  {
    hide Chars, CString, FoldPrefix, EndsWhole;
    CStringOfExtension(prefix, key);
    var q, s := CString(prefix), CString(key);
    if '\0' in prefix {
      assert FoldPrefix(Chars(q), Chars(s)) by { FoldPrefixSelf(Chars(q)); }
    } else {
      ExtensionSelected(prefix, s);
    }
  }

  lemma FoldPrefixNone(cs: seq<nat>)
    ensures FoldPrefix([], cs)
  {
  }

  lemma FoldPrefixSelf(cs: seq<nat>)
    ensures FoldPrefix(cs, cs)
  {
  }

  function SqlKeys(b: map<string, string>, prefix: string): set<string> {
    set k | k in b && SqlLike(Escaped(prefix) + "%", k)
  }

  function MemKeys(b: map<string, string>, prefix: string): set<string> {
    set k | k in b && prefix <= k
  }

  /** The prefix is not cut inside a character of the key. */
  predicate CutsNothing(prefix: string, key: string)
    requires prefix <= key
  {
    '\0' in prefix || (|prefix| <= |CString(key)| && EndsWhole(prefix, CString(key)[|prefix|..]))
  }

  lemma ListedIff(b: map<string, string>, prefix: string, sql: seq<string>, mem: seq<string>, k: string)
    requires Lists(sql, SqlKeys(b, prefix)) && Lists(mem, MemKeys(b, prefix)) && k in b
    ensures k in sql <==> Selected(prefix, k)
    ensures k in mem <==> prefix <= k
    ensures prefix <= k ==> (Selected(prefix, k) <==> CutsNothing(prefix, k))
  {
    hide StrictlySorted, Selected, SqlLike, EndsWhole, CString;
    LikeSelects(prefix, k);
    if prefix <= k {
      CStringOfExtension(prefix, k);
      PrefixIsSelectedIff(prefix, k);
    }
    assert k in SqlKeys(b, prefix) <==> k in sql;
    assert k in MemKeys(b, prefix) <==> k in mem;
  }

  /** For all strings: the SQLite listing holds everything the memory listing holds if and
      only if the prefix cuts no character of a key that has it; and the two listings are the
      same sequence if and only if, besides, no key without the prefix is selected by case
      folding, a NUL or a repaired character. */
  lemma ListingsAgreeIff(b: map<string, string>, prefix: string, sql: seq<string>, mem: seq<string>)
    requires Lists(sql, SqlKeys(b, prefix)) && Lists(mem, MemKeys(b, prefix))
    ensures (forall k :: k in mem ==> k in sql) <==> forall k :: k in b && prefix <= k ==> CutsNothing(prefix, k)
    ensures sql == mem <==>
            (forall k :: k in b && prefix <= k ==> CutsNothing(prefix, k)) &&
            (forall k :: k in b && Selected(prefix, k) ==> prefix <= k)
  {
    hide Selected, CutsNothing, SqlLike, StrictlySorted;
    forall k | k in b
      ensures k in sql <==> Selected(prefix, k)
      ensures k in mem <==> prefix <= k
      ensures prefix <= k ==> (Selected(prefix, k) <==> CutsNothing(prefix, k))
    {
      ListedIff(b, prefix, sql, mem, k);
    }
    forall k
      ensures k in sql ==> k in b
      ensures k in mem ==> k in b
    {
      assert k in SqlKeys(b, prefix) <==> k in sql;
      assert k in MemKeys(b, prefix) <==> k in mem;
    }
    if (forall k :: k in b && prefix <= k ==> CutsNothing(prefix, k)) && forall k :: k in b && Selected(prefix, k) ==> prefix <= k {
      assert forall k :: k in SqlKeys(b, prefix) <==> k in MemKeys(b, prefix);
      assert SqlKeys(b, prefix) == MemKeys(b, prefix);
      ListingUnique(sql, mem, SqlKeys(b, prefix));
    }
  }
}
