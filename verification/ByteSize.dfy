/**
 Sizes as the manifest writes them: a number and a unit, with white space around,
 and the bytes they stand for.
 */
module ByteSize {
  import opened Text

  /** One `char` is one code point of the decoded JSON string here, not a byte. */
  type SizeText = string

  const MAX_INT64 := 0x7FFF_FFFF_FFFF_FFFF

  /** unicode.IsSpace. */
  predicate IsSpace(c: char) {
    var u := c as int;
    0x09 <= u <= 0x0D || u == 0x20 || u == 0x85 || u == 0xA0 || u == 0x1680 || 0x2000 <= u <= 0x200A
    || u == 0x2028 || u == 0x2029 || u == 0x202F || u == 0x205F || u == 0x3000
  }

  predicate AllSpace(s: string) {
    forall i :: 0 <= i < |s| ==> IsSpace(s[i])
  }

  predicate IsDigit(c: char) {
    '0' <= c <= '9'
  }

  predicate AllDigits(s: string) {
    forall i :: 0 <= i < |s| ==> IsDigit(s[i])
  }

  /** Begins and ends without white space. */
  predicate Tight(t: string) {
    t == [] || (!IsSpace(t[0]) && !IsSpace(t[|t| - 1]))
  }

  function TrimLeft(s: string): string {
    if s != [] && IsSpace(s[0]) then TrimLeft(s[1..]) else s
  }

  function TrimRight(s: string): string {
    if s != [] && IsSpace(s[|s| - 1]) then TrimRight(s[..|s| - 1]) else s
  }

  function TrimSpace(s: string): string {
    TrimRight(TrimLeft(s))
  }

  function Value(digits: string): nat
    requires AllDigits(digits)
  {
    if digits == [] then 0 else
      var n := |digits| - 1;
      Value(digits[..n]) * 10 + (digits[n] as nat - '0' as nat)
  }

  /** strconv.ParseInt(s, 10, 64). */
  function ParseInt64(s: string): Option<int> {
    if s == "" then None else
      var signed := s[0] == '+' || s[0] == '-';
      var digits := if signed then s[1..] else s;
      if digits == "" || !AllDigits(digits) then None else
        var v: int := Value(digits);
        if s[0] == '-' then (if v <= MAX_INT64 + 1 then Some(-v) else None)
        else if v <= MAX_INT64 then Some(v) else None
  }

  /** strings.ToUpper, as far as the units go: no other letter has B, K, M or G for its upper case. */
  function Upper(c: char): char {
    if 'a' <= c <= 'z' then (c as int - 32) as char else c
  }

  function ToUpper(s: string): string {
    seq(|s|, i requires 0 <= i < |s| => Upper(s[i]))
  }

  /** What a unit multiplies by; None for an unknown one. */
  function Multiplier(unit: string): (m: Option<nat>)
    ensures m.Some? ==> m.value > 0
  {
    var u := ToUpper(unit);
    if u == "" || u == "B" then Some(1)
    else if u == "KB" then Some(1024)
    else if u == "MB" then Some(1024 * 1024)
    else if u == "GB" then Some(1024 * 1024 * 1024)
    else None
  }

  /** Behind the last digit. */
  function CutOf(s: string): (n: nat)
    ensures n <= |s| && (n > 0 ==> IsDigit(s[n - 1])) && forall i :: n <= i < |s| ==> !IsDigit(s[i])
  {
    if s == [] then 0 else if IsDigit(s[|s| - 1]) then |s| else CutOf(s[..|s| - 1])
  }

  function ParseSize(s: SizeText): Option<nat> {
    var str := TrimSpace(s);
    if str == "" then None else
      var cut := CutOf(str);
      var num, unit := TrimSpace(str[..cut]), TrimSpace(str[cut..]);
      if num == "" || ParseInt64(num).None? || Multiplier(unit).None? then None else
        var n, mult := ParseInt64(num).value, Multiplier(unit).value;
        if n <= 0 || n > MAX_INT64 / mult then None else Some(n * mult)
  }

  lemma {:induction false} CutIs(s: string, n: nat)
    requires n <= |s| && (n > 0 ==> IsDigit(s[n - 1])) && forall i :: n <= i < |s| ==> !IsDigit(s[i])
    ensures CutOf(s) == n
  {
    if n < |s| { CutIs(s[..|s| - 1], n); }
  }

  method ParseByteSize(s: SizeText) returns (r: Option<nat>)
    ensures r == ParseSize(s)
  {
    var str := TrimSpace(s);
    if str == "" {
      return None;
    }
    var cut := |str|;
    while cut > 0 && (str[cut - 1] < '0' || str[cut - 1] > '9')
      invariant 0 <= cut <= |str| && forall i :: cut <= i < |str| ==> !IsDigit(str[i])
    {
      cut := cut - 1;
    }
    CutIs(str, cut);
    var numPart, unitPart := TrimSpace(str[..cut]), TrimSpace(str[cut..]);
    if numPart == "" {
      return None;
    }
    var n := ParseInt64(numPart);
    if n.None? {
      return None;
    }
    var mult := Multiplier(unitPart);
    if mult.None? || n.value <= 0 || n.value > MAX_INT64 / mult.value {
      return None;
    }
    return Some(n.value * mult.value);
  }

  // ---------------------------------------------------------------- what is accepted

  /** A size written out: white space, an optional plus, digits, white space, a unit, white space. */
  datatype Written = Written(left: string, sign: string, digits: string, gap: string, unit: string, right: string)

  function Shown(w: Written): string {
    w.left + (w.sign + w.digits + w.gap + w.unit) + w.right
  }

  predicate WellFormed(w: Written) {
    AllSpace(w.left) && (w.sign == "" || w.sign == "+") && w.digits != "" && AllDigits(w.digits)
    && AllSpace(w.gap) && Multiplier(w.unit).Some? && AllSpace(w.right)
  }

  /** Its number of bytes. */
  function Bytes(w: Written): nat
    requires WellFormed(w)
  {
    Value(w.digits) * Multiplier(w.unit).value
  }

  ghost predicate WrittenAs(s: string, w: Written) {
    WellFormed(w) && s == Shown(w)
  }

  lemma {:induction false} TrimLeftOf(a: string, t: string)
    requires AllSpace(a) && (t == [] || !IsSpace(t[0]))
    ensures TrimLeft(a + t) == t
    decreases |a|
  {
    if a == [] {
      assert a + t == t;
    } else {
      assert (a + t)[1..] == a[1..] + t;
      TrimLeftOf(a[1..], t);
    }
  }

  lemma {:induction false} TrimRightOf(t: string, c: string)
    requires AllSpace(c) && (t == [] || !IsSpace(t[|t| - 1]))
    ensures TrimRight(t + c) == t
    decreases |c|
  {
    if c == [] {
      assert t + c == t;
    } else {
      assert (t + c)[..|t + c| - 1] == t + c[..|c| - 1];
      TrimRightOf(t, c[..|c| - 1]);
    }
  }

  lemma {:induction false} AllTrimmed(a: string)
    requires AllSpace(a)
    ensures TrimLeft(a) == ""
  {
    if a != [] { AllTrimmed(a[1..]); }
  }

  lemma TrimIs(a: string, t: string, c: string)
    requires AllSpace(a) && AllSpace(c) && Tight(t)
    ensures TrimSpace(a + t + c) == t
  {
    if t == [] {
      assert a + t + c == a + c;
      AllTrimmed(a + c);
    } else {
      assert a + t + c == a + (t + c);
      TrimLeftOf(a, t + c);
      TrimRightOf(t, c);
    }
  }

  lemma {:induction false} LeftTaken(s: string) returns (a: string)
    ensures AllSpace(a) && s == a + TrimLeft(s) && (TrimLeft(s) == [] || !IsSpace(TrimLeft(s)[0]))
    decreases |s|
  {
    if s != [] && IsSpace(s[0]) {
      var b := LeftTaken(s[1..]);
      a := [s[0]] + b;
      assert s == [s[0]] + s[1..];
    } else {
      a := "";
    }
  }

  lemma {:induction false} RightTaken(s: string) returns (c: string)
    ensures AllSpace(c) && s == TrimRight(s) + c && (TrimRight(s) == [] || !IsSpace(TrimRight(s)[|TrimRight(s)| - 1]))
    decreases |s|
  {
    if s != [] && IsSpace(s[|s| - 1]) {
      var b := RightTaken(s[..|s| - 1]);
      c := b + [s[|s| - 1]];
      assert s == s[..|s| - 1] + [s[|s| - 1]];
    } else {
      c := "";
    }
  }

  lemma TrimTaken(s: string) returns (a: string, c: string)
    ensures AllSpace(a) && AllSpace(c) && s == a + TrimSpace(s) + c && Tight(TrimSpace(s))
  {
    hide TrimLeft, TrimRight;
    a := LeftTaken(s);
    var t := TrimLeft(s);
    c := RightTaken(t);
    assert s == a + (TrimRight(t) + c);
    assert TrimRight(t) != [] ==> t[0] == TrimRight(t)[0];
  }

  /** A unit holds no digit and no white space. */
  lemma UnitIsPlain(unit: string)
    requires Multiplier(unit).Some?
    ensures forall i :: 0 <= i < |unit| ==> !IsDigit(unit[i]) && !IsSpace(unit[i])
  {
    var u := ToUpper(unit);
    forall i | 0 <= i < |unit|
      ensures !IsDigit(unit[i]) && !IsSpace(unit[i])
    {
      assert u[i] == Upper(unit[i]);
      assert u[i] == 'B' || u[i] == 'K' || u[i] == 'M' || u[i] == 'G';
    }
  }

  lemma NumberReads(sign: string, digits: string)
    requires (sign == "" || sign == "+") && digits != "" && AllDigits(digits)
    ensures ParseInt64(sign + digits) == if Value(digits) <= MAX_INT64 then Some(Value(digits)) else None
  {
    hide Value;
    if sign == "" {
      assert sign + digits == digits;
      assert IsDigit(digits[0]);
    } else {
      assert (sign + digits)[1..] == digits;
    }
  }

  lemma NumberIs(num: string) returns (sign: string, digits: string)
    requires ParseInt64(num).Some? && ParseInt64(num).value > 0
    ensures (sign == "" || sign == "+") && digits != "" && AllDigits(digits) && num == sign + digits
    ensures ParseInt64(num) == Some(Value(digits))
  {
    hide Value;
    if num[0] == '+' {
      sign, digits := "+", num[1..];
    } else {
      sign, digits := "", num;
    }
  }

  lemma MulMono(a: nat, b: nat, m: nat)
    requires a <= b
    ensures a * m <= b * m
  {
  }

  lemma DivFits(n: nat, m: nat, top: nat)
    requires m > 0
    ensures n <= top / m <==> n * m <= top
  {
    var q := top / m;
    assert top == q * m + top % m;
    if n <= q {
      MulMono(n, q, m);
    } else {
      MulMono(q + 1, n, m);
      assert (q + 1) * m == q * m + m;
    }
  }

  /** The overflow test by division is the overflow test by multiplication. */
  lemma FitsIff(n: nat, m: nat)
    requires m > 0
    ensures 0 < n <= MAX_INT64 && n <= MAX_INT64 / m <==> 0 < n * m <= MAX_INT64
  {
    DivFits(n, m, MAX_INT64);
    MulMono(1, m, n);
    if n > 0 { MulMono(1, n, m); }
  }

  lemma NumberIsTight(w: Written)
    requires WellFormed(w)
    ensures var num := w.sign + w.digits;
            num != "" && Tight(num) && IsDigit(num[|num| - 1]) && TrimSpace(num) == num && TrimSpace("") == ""
  {
    hide TrimSpace, Multiplier;
    var num := w.sign + w.digits;
    assert IsDigit(w.digits[0]) && IsDigit(w.digits[|w.digits| - 1]);
    TrimIs("", num, "");
    assert "" + num + "" == num;
    TrimIs("", "", "");
    assert "" + "" + "" == "";
  }

  lemma BareCuts(w: Written)
    requires WellFormed(w) && w.unit == ""
    ensures TrimSpace(Shown(w)) == w.sign + w.digits && CutOf(w.sign + w.digits) == |w.sign + w.digits|
  {
    hide TrimSpace, Multiplier;
    var num, right := w.sign + w.digits, w.gap + w.right;
    NumberIsTight(w);
    assert Shown(w) == w.left + num + right;
    TrimIs(w.left, num, right);
    CutIs(num, |num|);
  }

  /** A number in front of a unit without digits is cut off from it. */
  lemma UnitCutOff(left: string, num: string, gap: string, unit: string, right: string)
    requires AllSpace(left) && AllSpace(gap) && AllSpace(right)
    requires num != "" && Tight(num) && IsDigit(num[|num| - 1])
    requires unit != "" && Tight(unit) && forall i :: 0 <= i < |unit| ==> !IsDigit(unit[i])
    ensures TrimSpace(left + (num + (gap + unit)) + right) == num + (gap + unit)
    ensures CutOf(num + (gap + unit)) == |num| && TrimSpace(gap + unit) == unit && TrimSpace(num) == num
  {
    hide TrimSpace;
    var tail := gap + unit;
    var core := num + tail;
    assert core[0] == num[0] && core[|core| - 1] == unit[|unit| - 1];
    TrimIs(left, core, right);
    assert forall i :: |num| <= i < |core| ==> core[i] == tail[i - |num|];
    CutIs(core, |num|);
    TrimIs(gap, unit, "");
    assert gap + unit + "" == tail;
    TrimIs("", num, "");
    assert "" + num + "" == num;
  }

  lemma UnitCuts(w: Written)
    requires WellFormed(w) && w.unit != ""
    ensures TrimSpace(Shown(w)) == w.sign + w.digits + (w.gap + w.unit)
    ensures CutOf(w.sign + w.digits + (w.gap + w.unit)) == |w.sign + w.digits| && TrimSpace(w.gap + w.unit) == w.unit
  {
    hide TrimSpace, CutOf, Multiplier;
    NumberIsTight(w);
    UnitIsPlain(w.unit);
    UnitCutOff(w.left, w.sign + w.digits, w.gap, w.unit, w.right);
    assert Shown(w) == w.left + (w.sign + w.digits + (w.gap + w.unit)) + w.right;
  }

  /** Written out, a size is trimmed and cut into its number and its unit. */
  lemma WrittenCuts(w: Written)
    requires WellFormed(w)
    ensures var str := TrimSpace(Shown(w)); var n := |w.sign + w.digits|;
            str != "" && CutOf(str) == n && TrimSpace(str[..n]) == w.sign + w.digits && TrimSpace(str[n..]) == w.unit
  {
    hide TrimSpace, WellFormed, Tight, CutOf, Shown;
    var num := w.sign + w.digits;
    NumberIsTight(w);
    if w.unit == "" {
      BareCuts(w);
      assert num[..|num|] == num && num[|num|..] == "";
    } else {
      UnitCuts(w);
      var core := num + (w.gap + w.unit);
      assert core[..|num|] == num && core[|num|..] == w.gap + w.unit;
    }
  }

  lemma WrittenParses(w: Written)
    requires WellFormed(w)
    ensures ParseSize(Shown(w)) == if 0 < Bytes(w) <= MAX_INT64 then Some(Bytes(w)) else None
  {
    hide TrimSpace, ParseInt64, Multiplier, Value, CutOf, Shown;
    WrittenCuts(w);
    NumberReads(w.sign, w.digits);
    FitsIff(Value(w.digits), Multiplier(w.unit).value);
  }

  lemma ParsedIsWritten(s: string) returns (w: Written)
    requires ParseSize(s).Some?
    ensures WrittenAs(s, w)
  {
    hide TrimLeft, TrimRight, ParseInt64, Multiplier, Value;
    var left, right := TrimTaken(s);
    var str := TrimSpace(s);
    var cut := CutOf(str);
    var num, unit := TrimSpace(str[..cut]), TrimSpace(str[cut..]);
    var sign, digits := NumberIs(num);
    var a, b := TrimTaken(str[..cut]);
    var gap, c := TrimTaken(str[cut..]);
    w := Written(left + a, sign, digits, b + gap, unit, c + right);
    assert str == str[..cut] + str[cut..];
    Reassembled(left, a, num, b, gap, unit, c, right);
    assert w.sign + w.digits + w.gap + w.unit == num + (b + gap) + unit;
  }

  lemma Reassembled(left: string, a: string, num: string, b: string, gap: string, unit: string, c: string, right: string)
    ensures left + ((a + num + b) + (gap + unit + c)) + right == (left + a) + (num + (b + gap) + unit) + (c + right)
  {
  }

  /** A size is accepted, with a certain number of bytes, if and only if it is written as an
      optional plus, digits and a unit, with white space around, and its digits times its unit
      are that number, positive and below 2^63. */
  lemma AcceptedIff(s: string, v: nat)
    ensures ParseSize(s) == Some(v) <==>
            0 < v <= MAX_INT64 && exists w :: WrittenAs(s, w) && Bytes(w) == v
  {
    hide ParseSize, WellFormed, Bytes, Shown;
    if ParseSize(s) == Some(v) {
      var w := ParsedIsWritten(s);
      WrittenParses(w);
    }
    if w :| 0 < v <= MAX_INT64 && WrittenAs(s, w) && Bytes(w) == v {
      WrittenParses(w);
    }
  }
}
