/** What the sizes of a manifest are worth, digit by digit and unit by unit. */
module SizeUnits {
  import opened Text
  import opened ByteSize

  /** Unicode's white space. */
  const WHITE_SPACE := {0x09, 0x0A, 0x0B, 0x0C, 0x0D, 0x20, 0x85, 0xA0, 0x1680,
                        0x2000, 0x2001, 0x2002, 0x2003, 0x2004, 0x2005, 0x2006, 0x2007, 0x2008, 0x2009, 0x200A,
                        0x2028, 0x2029, 0x202F, 0x205F, 0x3000}

  ghost predicate Blanks(s: SizeText) {
    forall c :: c in s ==> c as int in WHITE_SPACE
  }

  ghost predicate Digits(s: SizeText) {
    s != "" && forall c :: c in s ==> c in "0123456789"
  }

  function PowerOfTen(n: nat): nat {
    if n == 0 then 1 else 10 * PowerOfTen(n - 1)
  }

  /** The number a run of digits writes: each digit times ten to the digits after it. */
  function PlaceValue(digits: SizeText): nat
    requires forall c :: c in digits ==> c in "0123456789"
  {
    if digits == "" then 0
    else
      var d := digits[0] as int - '0' as int;
      DigitRange(digits[0]);
      d * PowerOfTen(|digits| - 1) + PlaceValue(digits[1..])
  }

  lemma DigitRange(c: char)
    requires c in "0123456789"
    ensures '0' <= c <= '9'
  {
  }

  lemma BlankIff(c: char)
    ensures IsSpace(c) <==> c as int in WHITE_SPACE
  {
  }

  lemma BlanksAre(s: SizeText)
    requires Blanks(s)
    ensures AllSpace(s)
  {
    hide IsSpace;
    forall i | 0 <= i < |s|
      ensures IsSpace(s[i])
    {
      assert s[i] in s;
      BlankIff(s[i]);
    }
  }

  lemma DigitsAre(s: SizeText)
    requires forall c :: c in s ==> c in "0123456789"
    ensures AllDigits(s)
  {
    forall i | 0 <= i < |s|
      ensures IsDigit(s[i])
    {
      DigitRange(s[i]);
    }
  }

  lemma TenTimes(d: nat, n: nat, rest: nat, last: nat)
    ensures d * PowerOfTen(n + 1) + (rest * 10 + last) == (d * PowerOfTen(n) + rest) * 10 + last
  {
    var p := PowerOfTen(n);
    assert PowerOfTen(n + 1) == 10 * p;
    assert d * (10 * p) == (d * p) * 10;
  }

  /** The digits' value is the number they write. */
  lemma {:induction false} ValueIsPlaceValue(digits: SizeText)
    requires forall c :: c in digits ==> c in "0123456789"
    ensures AllDigits(digits) && Value(digits) == PlaceValue(digits)
    decreases |digits|
  {
    DigitsAre(digits);
    if |digits| == 1 {
      assert digits[..0] == "" && digits[1..] == "";
    } else if digits != "" {
      var n := |digits| - 1;
      var init, tail := digits[..n], digits[1..];
      ValueIsPlaceValue(init);
      ValueIsPlaceValue(tail);
      assert tail[..n - 1] == init[1..] == digits[1..n];
      ValueIsPlaceValue(digits[1..n]);
      DigitRange(digits[0]);
      DigitRange(digits[n]);
      assert tail[n - 1] == digits[n];
      TenTimes(digits[0] as int - '0' as int, n - 1, PlaceValue(digits[1..n]), digits[n] as int - '0' as int);
    }
  }

  function Size(left: SizeText, sign: SizeText, digits: SizeText, gap: SizeText, unit: SizeText, right: SizeText): SizeText {
    left + (sign + digits + gap + unit) + right
  }

  /** Positive and below 2^63, or refused. */
  function Fitting(n: nat): Option<nat> {
    if 0 < n < 9223372036854775808 then Some(n) else None
  }

  lemma UpperIs(unit: SizeText, k: char)
    requires 'A' <= k <= 'Z'
    ensures ToUpper(unit) == [k] <==> unit == [k] || unit == [(k as int + 32) as char]
    ensures ToUpper(unit) == [k, 'B'] <==>
            |unit| == 2 && (unit[0] == k || unit[0] == (k as int + 32) as char) && (unit[1] == 'B' || unit[1] == 'b')
    ensures ToUpper(unit) == "" <==> unit == ""
  {
    var u := ToUpper(unit);
    if |unit| == 1 { assert u == [Upper(unit[0])]; }
    if |unit| == 2 { assert u == [Upper(unit[0]), Upper(unit[1])]; }
  }

  lemma TwoLetters(unit: SizeText, a: char, b: char)
    ensures unit == [a, b] <==> |unit| == 2 && unit[0] == a && unit[1] == b
  {
  }

  lemma Spellings(unit: SizeText, k: char)
    requires 'A' <= k <= 'Z'
    ensures ToUpper(unit) == [k, 'B'] <==>
            unit == [k, 'B'] || unit == [k, 'b'] || unit == [(k as int + 32) as char, 'B'] || unit == [(k as int + 32) as char, 'b']
  {
    hide ToUpper;
    var l := (k as int + 32) as char;
    UpperIs(unit, k);
    TwoLetters(unit, k, 'B');
    TwoLetters(unit, k, 'b');
    TwoLetters(unit, l, 'B');
    TwoLetters(unit, l, 'b');
  }

  /** Which spelling is worth what. */
  lemma UnitFactor(unit: SizeText)
    ensures unit in {"", "B", "b"} ==> Multiplier(unit) == Some(1)
    ensures unit in {"KB", "Kb", "kB", "kb"} ==> Multiplier(unit) == Some(1024)
    ensures unit in {"MB", "Mb", "mB", "mb"} ==> Multiplier(unit) == Some(1048576)
    ensures unit in {"GB", "Gb", "gB", "gb"} ==> Multiplier(unit) == Some(1073741824)
    ensures unit !in {"", "B", "b", "KB", "Kb", "kB", "kb", "MB", "Mb", "mB", "mb", "GB", "Gb", "gB", "gb"} ==> Multiplier(unit) == None
  {
    UpperIs(unit, 'B');
    Spellings(unit, 'K');
    Spellings(unit, 'M');
    Spellings(unit, 'G');
    hide ToUpper;
  }

  lemma SizeParses(left: SizeText, sign: SizeText, digits: SizeText, gap: SizeText, unit: SizeText, right: SizeText, m: nat)
    requires Blanks(left) && Blanks(gap) && Blanks(right) && (sign == "" || sign == "+") && Digits(digits)
    requires Multiplier(unit) == Some(m)
    ensures ParseSize(Size(left, sign, digits, gap, unit, right)) == Fitting(PlaceValue(digits) * m)
  {
    hide Multiplier, IsSpace, ParseSize, Value;
    BlanksAre(left);
    BlanksAre(gap);
    BlanksAre(right);
    ValueIsPlaceValue(digits);
    WrittenParses(Written(left, sign, digits, gap, unit, right));
  }

  /** A size is worth its digits' number times 1, 2^10, 2^20 or 2^30, in any letter case. */
  lemma UnitSizes(left: SizeText, sign: SizeText, digits: SizeText, gap: SizeText, unit: SizeText, right: SizeText)
    requires Blanks(left) && Blanks(gap) && Blanks(right) && (sign == "" || sign == "+") && Digits(digits)
    ensures var size := ParseSize(Size(left, sign, digits, gap, unit, right)); var n := PlaceValue(digits);
            && (unit in {"", "B", "b"} ==> size == Fitting(n))
            && (unit in {"KB", "Kb", "kB", "kb"} ==> size == Fitting(n * 1024))
            && (unit in {"MB", "Mb", "mB", "mb"} ==> size == Fitting(n * 1048576))
            && (unit in {"GB", "Gb", "gB", "gb"} ==> size == Fitting(n * 1073741824))
  {
    UnitFactor(unit);
    hide Multiplier, ParseSize, Fitting, PlaceValue, Size;
    if Multiplier(unit).Some? {
      SizeParses(left, sign, digits, gap, unit, right, Multiplier(unit).value);
    }
  }

  lemma NumberStarts(sign: SizeText, digits: SizeText)
    requires (sign == "" || sign == "+" || sign == "-") && Digits(digits)
    ensures var num := sign + digits; num != "" && Tight(num) && IsDigit(num[|num| - 1])
  {
    DigitsAre(digits);
    var num := sign + digits;
    assert num[|num| - 1] == digits[|digits| - 1];
  }

  /** Any other unit is refused. */
  lemma OtherUnitRefused(left: SizeText, sign: SizeText, digits: SizeText, gap: SizeText, unit: SizeText, right: SizeText)
    requires Blanks(left) && Blanks(gap) && Blanks(right) && (sign == "" || sign == "+") && Digits(digits)
    requires unit !in {"", "B", "b", "KB", "Kb", "kB", "kb", "MB", "Mb", "mB", "mb", "GB", "Gb", "gB", "gb"}
    requires forall c :: c in unit ==> c !in "0123456789"
    requires unit[0] as int !in WHITE_SPACE && unit[|unit| - 1] as int !in WHITE_SPACE
    ensures ParseSize(Size(left, sign, digits, gap, unit, right)) == None
  {
    UnitFactor(unit);
    hide Multiplier, TrimSpace, CutOf, ParseInt64;
    BlanksAre(left);
    BlanksAre(gap);
    BlanksAre(right);
    NumberStarts(sign, digits);
    BlankIff(unit[0]);
    BlankIff(unit[|unit| - 1]);
    NoDigits(unit);
    var num := sign + digits;
    UnitCutOff(left, num, gap, unit, right);
    CutAt(num, gap + unit);
    assert left + (num + (gap + unit)) + right == Size(left, sign, digits, gap, unit, right) by { assert sign + digits + gap + unit == num + (gap + unit); }
  }

  lemma NoDigits(unit: SizeText)
    requires forall c :: c in unit ==> c !in "0123456789"
    ensures forall i :: 0 <= i < |unit| ==> !IsDigit(unit[i])
  {
    forall i | 0 <= i < |unit|
      ensures !IsDigit(unit[i])
    {
      assert unit[i] in unit;
    }
  }

  lemma CutAt(a: SizeText, b: SizeText)
    ensures (a + b)[..|a|] == a && (a + b)[|a|..] == b
  {
  }

  /** So is a number with a minus sign, and a size without any digit. */
  lemma NegativeRefused(left: SizeText, digits: SizeText, gap: SizeText, unit: SizeText, right: SizeText)
    requires Blanks(left) && Blanks(gap) && Blanks(right) && Digits(digits)
    requires unit in {"B", "b", "KB", "Kb", "kB", "kb", "MB", "Mb", "mB", "mb", "GB", "Gb", "gB", "gb"}
    ensures ParseSize(Size(left, "-", digits, gap, unit, right)) == None
  {
    hide TrimSpace, CutOf, Multiplier;
    BlanksAre(left);
    BlanksAre(gap);
    BlanksAre(right);
    NumberStarts("-", digits);
    KnownUnit(unit);
    UnitIsPlain(unit);
    var num := "-" + digits;
    UnitCutOff(left, num, gap, unit, right);
    CutAt(num, gap + unit);
    MinusReads(digits);
    assert left + (num + (gap + unit)) + right == Size(left, "-", digits, gap, unit, right) by { assert "-" + digits + gap + unit == num + (gap + unit); }
  }

  lemma KnownUnit(unit: SizeText)
    requires unit in {"B", "b", "KB", "Kb", "kB", "kb", "MB", "Mb", "mB", "mb", "GB", "Gb", "gB", "gb"}
    ensures Multiplier(unit).Some?
  {
    UnitFactor(unit);
  }

  lemma MinusReads(digits: SizeText)
    requires Digits(digits)
    ensures ParseInt64("-" + digits).Some? ==> ParseInt64("-" + digits).value <= 0
  {
    DigitsAre(digits);
    assert ("-" + digits)[1..] == digits;
  }

  lemma DigitlessRefused(s: SizeText)
    requires forall c :: c in s ==> c !in "0123456789"
    ensures ParseSize(s) == None
  {
    hide TrimSpace, ParseInt64, Multiplier, IsSpace;
    var str := TrimSpace(s);
    var a, c := TrimTaken(s);
    forall i | 0 <= i < |str|
      ensures !IsDigit(str[i])
    {
      NoDigits(s);
      assert str[i] == s[|a| + i];
    }
    CutIs(str, 0);
    assert str[..0] == "";
    TrimIs("", "", "");
    assert "" + "" + "" == "";
  }
}
