/**
 UTF-8, section 4 of RFC 3629: what is well formed, and the characters it stands
 for. A `char` is a byte, save on the side of the characters.
 */
module Utf8 {
  predicate In(s: string, i: nat, lo: int, hi: int) {
    i < |s| && lo <= s[i] as int <= hi
  }

  predicate Cont(s: string, i: nat) {
    In(s, i, 0x80, 0xBF)
  }

  /** The bytes of the character `s` starts with, or 0 when it starts with none. */
  function Width(s: string): (n: nat)
    requires s != []
    ensures n <= |s| && n <= 4
  {
    var a := s[0] as int;
    if a < 0x80 then 1
    else if 0xC2 <= a <= 0xDF then (if Cont(s, 1) then 2 else 0)
    else if 0xE0 <= a <= 0xEF then
      var lo, hi := if a == 0xE0 then 0xA0 else 0x80, if a == 0xED then 0x9F else 0xBF;
      if In(s, 1, lo, hi) && Cont(s, 2) then 3 else 0
    else if 0xF0 <= a <= 0xF4 then
      var lo, hi := if a == 0xF0 then 0x90 else 0x80, if a == 0xF4 then 0x8F else 0xBF;
      if In(s, 1, lo, hi) && Cont(s, 2) && Cont(s, 3) then 4 else 0
    else 0
  }

  predicate ValidUtf8(s: string)
    decreases |s|
  {
    s == [] || (Width(s) > 0 && ValidUtf8(s[Width(s)..]))
  }

  lemma WidthOfConcat(a: string, b: string)
    requires a != [] && (b == [] || b[0] as int < 0x80)
    ensures Width(a + b) == Width(a)
  {
    assert forall i :: 0 <= i < |a| ==> (a + b)[i] == a[i];
    assert b != [] ==> (a + b)[|a|] == b[0];
  }

  /** Cutting in front of an ASCII byte cuts no character. */
  lemma {:induction false} ValidConcat(a: string, b: string)
    requires b == [] || b[0] as int < 0x80
    ensures ValidUtf8(a + b) <==> ValidUtf8(a) && ValidUtf8(b)
    decreases |a|
  {
    hide Width;
    if a == [] {
      assert a + b == b;
    } else {
      WidthOfConcat(a, b);
      var n := Width(a);
      assert (a + b)[n..] == a[n..] + b;
      if n > 0 { ValidConcat(a[n..], b); }
    }
  }

  lemma AsciiFirst(c: char, s: string)
    requires c as int < 0x80
    ensures ValidUtf8([c] + s) <==> ValidUtf8(s)
  {
    assert ([c] + s)[1..] == s;
  }

  /** Around an ASCII byte the two sides are well formed on their own. */
  lemma ValidAround(a: string, c: char, b: string)
    requires c as int < 0x80
    ensures ValidUtf8(a + [c] + b) <==> ValidUtf8(a) && ValidUtf8(b)
  {
    hide ValidUtf8;
    assert a + [c] + b == a + ([c] + b);
    ValidConcat(a, [c] + b);
    AsciiFirst(c, b);
  }

  lemma {:induction false} AsciiIsValid(s: string)
    requires forall i :: 0 <= i < |s| ==> s[i] as int < 0x80
    ensures ValidUtf8(s)
  {
    if s != [] {
      AsciiIsValid(s[1..]);
    }
  }

  // ---------------------------------------------------------------- characters

  /** The code point a well-formed text starts with. */
  function CodePoint(s: string): nat
    requires s != [] && Width(s) > 0
  {
    var a := s[0] as nat;
    match Width(s)
    case 1 => a
    case 2 => (a - 0xC0) * 64 + (s[1] as nat - 0x80)
    case 3 => ((a - 0xE0) * 64 + (s[1] as nat - 0x80)) * 64 + (s[2] as nat - 0x80)
    case _ => (((a - 0xF0) * 64 + (s[1] as nat - 0x80)) * 64 + (s[2] as nat - 0x80)) * 64 + (s[3] as nat - 0x80)
  }

  lemma CodePointRange(s: string)
    requires s != [] && Width(s) > 0
    ensures var c := CodePoint(s);
            match Width(s)
            case 1 => c < 0x80
            case 2 => 0x80 <= c < 0x800
            case 3 => 0x800 <= c < 0x10000 && !(0xD800 <= c <= 0xDFFF)
            case _ => 0x10000 <= c < 0x110000
  {
  }

  lemma WideConts(s: string)
    requires s != [] && Width(s) > 1
    ensures forall i :: 1 <= i < Width(s) ==> 0x80 <= s[i] as int < 0xC0
  {
  }

  /** The characters of a well-formed text; here a `char` is a whole one. */
  function Decode(s: string): string
    requires ValidUtf8(s)
    decreases |s|
  {
    if s == [] then [] else
      CodePointRange(s);
      [CodePoint(s) as char] + Decode(s[Width(s)..])
  }

  function EncodeChar(c: char): string {
    var u := c as int;
    if u < 0x80 then [c]
    else if u < 0x800 then [(0xC0 + u / 64) as char, (0x80 + u % 64) as char]
    else if u < 0x10000 then [(0xE0 + u / 64 / 64) as char, (0x80 + u / 64 % 64) as char, (0x80 + u % 64) as char]
    else [(0xF0 + u / 64 / 64 / 64) as char, (0x80 + u / 64 / 64 % 64) as char,
          (0x80 + u / 64 % 64) as char, (0x80 + u % 64) as char]
  }

  function Encode(t: string): string {
    if t == [] then [] else EncodeChar(t[0]) + Encode(t[1..])
  }

  lemma SixBits(v: nat, c: nat)
    requires c < 64
    ensures (v * 64 + c) / 64 == v && (v * 64 + c) % 64 == c
  {
  }

  lemma EncodesBack(s: string)
    requires s != [] && Width(s) > 0
    ensures var c := CodePoint(s); c < 0x110000 && !(0xD800 <= c <= 0xDFFF) && EncodeChar(c as char) == s[..Width(s)]
  {
    CodePointRange(s);
    var n := Width(s);
    if n > 1 {
      WideConts(s);
      var v := s[0] as nat - (if n == 2 then 0xC0 else if n == 3 then 0xE0 else 0xF0);
      SixBits(v, s[1] as nat - 0x80);
      if n > 2 {
        SixBits(v * 64 + (s[1] as nat - 0x80), s[2] as nat - 0x80);
        if n > 3 {
          SixBits((v * 64 + (s[1] as nat - 0x80)) * 64 + (s[2] as nat - 0x80), s[3] as nat - 0x80);
        }
      }
    }
  }

  lemma {:induction false} DecodedEncodes(s: string)
    requires ValidUtf8(s)
    ensures Encode(Decode(s)) == s
    decreases |s|
  {
    hide EncodeChar, CodePoint, Width;
    if s != [] {
      var n := Width(s);
      EncodesBack(s);
      DecodedEncodes(s[n..]);
      assert Decode(s)[1..] == Decode(s[n..]);
      assert s == s[..n] + s[n..];
    }
  }

  lemma SixBitsOf(u: nat) returns (q: nat, r: nat)
    ensures q == u / 64 && r == u % 64 && u == q * 64 + r && r < 64
  {
    q, r := u / 64, u % 64;
  }

  lemma ReadsTwo(c: char, rest: string)
    requires 0x80 <= c as nat < 0x800
    ensures var s := EncodeChar(c) + rest; Width(s) == 2 && CodePoint(s) == c as nat
  {
    var q, r := SixBitsOf(c as nat);
    var s := EncodeChar(c) + rest;
    assert s[0] as nat == 0xC0 + q && s[1] as nat == 0x80 + r;
  }

  lemma ReadsThree(c: char, rest: string)
    requires 0x800 <= c as nat < 0x10000
    ensures var s := EncodeChar(c) + rest; Width(s) == 3 && CodePoint(s) == c as nat
  {
    var q, r := SixBitsOf(c as nat);
    var q2, r2 := SixBitsOf(q);
    var s := EncodeChar(c) + rest;
    assert s[0] as nat == 0xE0 + q2 && s[1] as nat == 0x80 + r2 && s[2] as nat == 0x80 + r;
  }

  lemma ReadsFour(c: char, rest: string)
    requires 0x10000 <= c as nat
    ensures var s := EncodeChar(c) + rest; Width(s) == 4 && CodePoint(s) == c as nat
  {
    var q, r := SixBitsOf(c as nat);
    var q2, r2 := SixBitsOf(q);
    var q3, r3 := SixBitsOf(q2);
    var s := EncodeChar(c) + rest;
    assert s[0] as nat == 0xF0 + q3 && s[1] as nat == 0x80 + r3 && s[2] as nat == 0x80 + r2 && s[3] as nat == 0x80 + r;
  }

  /** One character, written and then read. */
  lemma ReadsEncoded(c: char, rest: string)
    ensures var e := EncodeChar(c);
            e != "" && Width(e + rest) == |e| && CodePoint(e + rest) == c as nat && (e + rest)[|e|..] == rest
  {
    var u := c as nat;
    if u >= 0x80 {
      if u < 0x800 { ReadsTwo(c, rest); } else if u < 0x10000 { ReadsThree(c, rest); } else { ReadsFour(c, rest); }
      hide Width, CodePoint;
    }
    assert (EncodeChar(c) + rest)[|EncodeChar(c)|..] == rest;
  }

  lemma {:induction false} EncodedDecodes(t: string)
    ensures ValidUtf8(Encode(t)) && Decode(Encode(t)) == t
    decreases |t|
  {
    hide EncodeChar, CodePoint, Width;
    if t != [] {
      ReadsEncoded(t[0], Encode(t[1..]));
      EncodedDecodes(t[1..]);
      assert t == [t[0]] + t[1..];
    }
  }

  /** Well-formed texts are exactly those that write characters. */
  lemma ValidIff(s: string)
    ensures ValidUtf8(s) <==> exists t :: s == Encode(t)
  {
    hide ValidUtf8, Encode, Decode;
    if ValidUtf8(s) {
      DecodedEncodes(s);
      assert s == Encode(Decode(s));
    }
    if t :| s == Encode(t) { EncodedDecodes(t); }
  }

  /** An ASCII character stands where its byte stands. */
  lemma {:induction false} AsciiKept(s: string, c: char)
    requires ValidUtf8(s) && c as int < 0x80
    ensures Decode(s) == [] <==> s == []
    ensures c in Decode(s) <==> c in s
    ensures s != [] ==> (Decode(s)[|Decode(s)| - 1] == c <==> s[|s| - 1] == c)
    decreases |s|
  {
    hide CodePoint, Width, ValidUtf8;
    if s != [] {
      var n, rest := CharStep(s, c);
      AsciiKept(rest, c);
      assert s == s[..n] + rest;
      assert c in s <==> c in s[..n] || c in rest;
      if rest == [] {
        assert s == s[..n];
      } else {
        assert s[|s| - 1] == rest[|rest| - 1];
      }
    }
  }

  lemma CharStep(s: string, c: char) returns (n: nat, rest: string)
    requires s != [] && ValidUtf8(s) && c as int < 0x80
    ensures 0 < n <= |s| && rest == s[n..] && ValidUtf8(rest)
    ensures exists d: char :: Decode(s) == [d] + Decode(rest) && (d == c <==> c in s[..n]) && (d == c <==> s[n - 1] == c)
  {
    hide CodePoint;
    n := Width(s);
    rest := s[n..];
    CodePointRange(s);
    if n == 1 {
      FirstIsAscii(s);
      assert s[..1] == [s[0]];
    } else {
      WideConts(s);
      assert forall i :: 0 <= i < n ==> s[..n][i] == s[i] && s[i] as int >= 0x80;
    }
    assert Decode(s) == [CodePoint(s) as char] + Decode(rest);
  }

  lemma FirstIsAscii(s: string)
    requires s != [] && Width(s) == 1
    ensures CodePoint(s) == s[0] as nat
  {
  }
}
