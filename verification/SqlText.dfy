/**
 How SQLite reads a text value: its characters, its LENGTH, and where a character
 ends. A `char` is a byte.
 */
module SqlText {
  predicate IsCont(c: char) {
    0x80 <= c as int < 0xC0
  }

  /** How many continuation bytes `s` begins with. */
  function Continuation(s: string): (n: nat)
    ensures n <= |s| && (n < |s| ==> !IsCont(s[n]))
    ensures forall i :: 0 <= i < n ==> IsCont(s[i])
  {
    if s != [] && IsCont(s[0]) then
      var n := Continuation(s[1..]);
      assert forall i :: 0 < i <= n ==> s[i] == s[1..][i - 1];
      1 + n
    else 0
  }

  /** How many bytes SQLite steps over for one character: a byte from 0xC0 upwards
      takes the continuation bytes after it along. */
  function CharWidth(s: string): (n: nat)
    requires s != []
    ensures 1 <= n <= |s|
  {
    if s[0] as int >= 0xC0 then 1 + Continuation(s[1..]) else 1
  }

  /** A C string ends at the first NUL. */
  function CString(s: string): (r: string)
    ensures r <= s && '\0' !in r
    ensures '\0' !in s ==> r == s
    ensures '\0' in s ==> |r| < |s| && s[|r|] == '\0'
  {
    if s == [] || s[0] == '\0' then [] else [s[0]] + CString(s[1..])
  }

  // ---------------------------------------------------------------- decoding

  const WORD32 := 0x1_0000_0000

  /** One character of two bytes. */
  const E_ACUTE := [0xC3 as char, 0xA9 as char]

  const REPLACEMENT := 0xFFFD

  /** The value bits of a lead byte. */
  function Lead(c: char): nat {
    var b := c as int;
    if 0xC0 <= b < 0xE0 then b - 0xC0
    else if 0xE0 <= b < 0xF0 then b - 0xE0
    else if 0xF0 <= b < 0xF8 then b - 0xF0
    else if 0xF8 <= b < 0xFC then b - 0xF8
    else if 0xFC <= b < 0xFE then b - 0xFC
    else 0
  }

  /** Six more bits for each continuation byte, in a 32-bit word. */
  function Accumulate(v: nat, s: string): nat
    decreases |s|
  {
    if s != [] && IsCont(s[0]) then Accumulate((v * 64 + (s[0] as int - 0x80)) % WORD32, s[1..]) else v
  }

  /** Overlong forms, surrogates, U+FFFE and U+FFFF read as U+FFFD. */
  function Repair(c: nat): nat {
    if c < 0x80 || 0xD800 <= c <= 0xDFFF || c == 0xFFFE || c == 0xFFFF then REPLACEMENT else c
  }

  /** The character `s` starts with. */
  function ReadChar(s: string): nat
    requires s != []
  {
    if s[0] as int < 0xC0 then s[0] as int else Repair(Accumulate(Lead(s[0]), s[1..]))
  }

  function Chars(s: string): seq<nat>
    decreases |s|
  {
    if s == [] then [] else [ReadChar(s)] + Chars(s[CharWidth(s)..])
  }

  /** No character of a text can go on into `s`. */
  predicate StartsClean(s: string) {
    s == [] || !IsCont(s[0])
  }

  lemma {:induction false} ReadStops(v: nat, a: string, b: string)
    requires StartsClean(b)
    ensures Accumulate(v, a + b) == Accumulate(v, a) && Continuation(a + b) == Continuation(a)
    decreases |a|
  {
    if a == [] {
      assert a + b == b;
    } else if IsCont(a[0]) {
      assert (a + b)[1..] == a[1..] + b;
      ReadStops((v * 64 + (a[0] as int - 0x80)) % WORD32, a[1..], b);
    }
  }

  lemma ReadCharStops(a: string, b: string)
    requires a != [] && StartsClean(b)
    ensures ReadChar(a + b) == ReadChar(a) && CharWidth(a + b) == CharWidth(a)
  {
    assert (a + b)[1..] == a[1..] + b;
    ReadStops(Lead(a[0]), a[1..], b);
  }

  /** Texts cut between characters are read one after the other. */
  lemma {:induction false} CharsConcat(a: string, b: string)
    requires StartsClean(b)
    ensures Chars(a + b) == Chars(a) + Chars(b)
    decreases |a|
  {
    hide ReadChar, CharWidth, StartsClean;
    if a == [] {
      assert a + b == b;
    } else {
      var n := CharWidth(a);
      ReadCharStops(a, b);
      assert (a + b)[n..] == a[n..] + b;
      CharsConcat(a[n..], b);
    }
  }

  lemma CharsCons(s: string)
    requires s != []
    ensures Chars(s) == [ReadChar(s)] + Chars(s[CharWidth(s)..])
  {
  }

  lemma SingleByte(c: char, s: string)
    requires c as int < 0xC0
    ensures Chars([c] + s) == [c as nat] + Chars(s)
  {
    assert ([c] + s)[1..] == s;
  }

  /** What follows a whole character cannot belong to it. */
  lemma AfterWide(s: string)
    requires s != [] && s[0] as int >= 0xC0
    ensures StartsClean(s[CharWidth(s)..]) && CharWidth(s[..CharWidth(s)]) == CharWidth(s)
    ensures ReadChar(s[..CharWidth(s)]) == ReadChar(s)
    ensures forall i :: 1 <= i < CharWidth(s) ==> IsCont(s[i])
  {
    var n := CharWidth(s);
    assert s[1..][n - 1..] == s[n..];
    assert forall i :: 1 <= i < n ==> s[i] == s[1..][i - 1];
    assert s == s[..n] + s[n..];
    assert StartsClean(s[n..]) by { assert n < |s| ==> s[n] == s[1..][n - 1]; }
    ReadCharStops(s[..n], s[n..]);
  }

  // ---------------------------------------------------------------- a text and what extends it

  /** The last character of a text, as bytes. */
  function LastChar(s: string): (c: string)
    requires s != []
    ensures c != [] && |c| <= |s| && c == s[|s| - |c|..]
    decreases |s|
  {
    if CharWidth(s) == |s| then s else
      var c := LastChar(s[CharWidth(s)..]);
      assert s[CharWidth(s)..][|s| - CharWidth(s) - |c|..] == s[|s| - |c|..];
      c
  }

  /** What comes behind `p` leaves the last character of `p` reading the same. */
  predicate EndsWhole(p: string, t: string) {
    p == [] || ReadChar(LastChar(p) + t) == ReadChar(LastChar(p))
  }

  lemma FirstOfExtended(p: string, t: string)
    requires p != [] && CharWidth(p) < |p|
    ensures ReadChar(p + t) == ReadChar(p) && CharWidth(p + t) == CharWidth(p)
    ensures (p + t)[CharWidth(p)..] == p[CharWidth(p)..] + t
  {
    var n := CharWidth(p);
    assert (p + t)[n..] == p[n..] + t;
    if p[0] as int >= 0xC0 {
      AfterWide(p);
      assert p == p[..n] + p[n..] && p + t == p[..n] + (p[n..] + t);
      assert StartsClean(p[n..] + t);
      ReadCharStops(p[..n], p[n..] + t);
    }
  }

  /** Extending a text can only change how its last character reads. */
  lemma {:induction false} ExtendedChars(p: string, t: string)
    requires p != []
    ensures var a, b := Chars(p), Chars(p + t);
            0 < |a| <= |b| && a[..|a| - 1] == b[..|a| - 1] &&
            a[|a| - 1] == ReadChar(LastChar(p)) && b[|a| - 1] == ReadChar(LastChar(p) + t)
    decreases |p|
  {
    hide ReadChar, CharWidth;
    var n := CharWidth(p);
    CharsCons(p);
    CharsCons(p + t);
    if n == |p| {
      assert p[n..] == [] && Chars(p) == [ReadChar(p)];
    } else {
      var q := p[n..];
      FirstOfExtended(p, t);
      ExtendedChars(q, t);
      var a, b := Chars(q), Chars(q + t);
      var h := [ReadChar(p)];
      assert Chars(p) == h + a && Chars(p + t) == h + b;
      assert (h + a)[..|a|] == h + a[..|a| - 1] && (h + b)[..|a|] == h + b[..|a| - 1];
    }
  }
}
