/**
 * JavaScript's global `parseInt(string)` with no radix argument, as the log
 * query uses it on the `limit` parameter and the exercise handler on
 * `duration`. It follows the algorithm of section 19.2.5 of ECMA-262:
 * skip leading white space, read an optional sign, switch to radix 16 on a
 * `0x`/`0X` prefix (radix 10 otherwise), and read the longest run of digits
 * of that radix. No digit at all yields NaN.
 */
module JsNumbers {

  /** A JavaScript number as `parseInt` can produce it: an integer or NaN. */
  datatype IntOrNaN = Int(value: int) | NaN

  /** StrWhiteSpaceChar of ECMA-262: WhiteSpace (including every Zs space
      separator) and LineTerminator. */
  predicate IsStrWhiteSpace(c: char) {
    || c == '\t' || c == '\n' || c == '\U{B}' || c == '\U{C}' || c == '\r'
    || c == ' ' || c == '\U{A0}' || c == '\U{1680}'
    || ('\U{2000}' <= c <= '\U{200A}')
    || c == '\U{2028}' || c == '\U{2029}' || c == '\U{202F}' || c == '\U{205F}'
    || c == '\U{3000}' || c == '\U{FEFF}'
  }

  predicate IsAsciiAlnum(c: char) {
    ('0' <= c <= '9') || ('a' <= c <= 'z') || ('A' <= c <= 'Z')
  }

  /** The value of a character as a digit of radix 36, or 36 for a
      character that is a digit in no radix. */
  function DigitValue(c: char): (v: nat)
    ensures v <= 36
    ensures v < 36 <==> IsAsciiAlnum(c)
    ensures v < 10 <==> IsDecimalDigit(c)
  {
    if '0' <= c <= '9' then c as int - '0' as int
    else if 'a' <= c <= 'z' then c as int - 'a' as int + 10
    else if 'A' <= c <= 'Z' then c as int - 'A' as int + 10
    else 36
  }

  predicate IsRadixDigit(c: char, radix: nat) {
    DigitValue(c) < radix
  }

  predicate IsDecimalDigit(c: char) {
    '0' <= c <= '9'
  }

  /** Drops the leading white space of `s`. */
  function TrimStart(s: string): (r: string)
    ensures |r| <= |s|
    ensures |r| > 0 ==> !IsStrWhiteSpace(r[0])
  {
    if |s| > 0 && IsStrWhiteSpace(s[0]) then TrimStart(s[1..]) else s
  }

  /** What `TrimStart` removes is white space, and what it keeps is the rest of the text. */
  lemma {:induction false} TrimStartDropsWhiteSpace(s: string)
    ensures TrimStart(s) == s[|s| - |TrimStart(s)|..]
    ensures forall i :: 0 <= i < |s| - |TrimStart(s)| ==> IsStrWhiteSpace(s[i])
  {
    if |s| > 0 && IsStrWhiteSpace(s[0]) {
      TrimStartDropsWhiteSpace(s[1..]);
    }
  }

  /** The length of the longest prefix of `s` made of radix-`radix` digits. */
  function DigitRunLength(s: string, radix: nat): (n: nat)
    ensures n <= |s|
    ensures n < |s| ==> !IsRadixDigit(s[n], radix)
  {
    if |s| > 0 && IsRadixDigit(s[0], radix) then 1 + DigitRunLength(s[1..], radix) else 0
  }

  /** Every character of the run `DigitRunLength` measures is a digit. */
  lemma {:induction false} DigitRunIsDigits(s: string, radix: nat)
    ensures forall i :: 0 <= i < DigitRunLength(s, radix) ==> IsRadixDigit(s[i], radix)
  {
    if |s| > 0 && IsRadixDigit(s[0], radix) {
      DigitRunIsDigits(s[1..], radix);
    }
  }

  /** The number a run of digits denotes in positional notation. Applied to
      digits of `radix` only. */
  function DigitsValue(ds: string, radix: nat): nat
  {
    if |ds| == 0 then 0
    else DigitsValue(ds[..|ds| - 1], radix) * radix + DigitValue(ds[|ds| - 1])
  }

  /** True when `s` starts with the hexadecimal prefix `0x` or `0X`. */
  predicate HasHexPrefix(s: string) {
    |s| >= 2 && s[0] == '0' && (s[1] == 'x' || s[1] == 'X')
  }

  /** The first character after the leading white space is a minus sign. */
  predicate HasMinusSign(s: string) {
    |TrimStart(s)| > 0 && TrimStart(s)[0] == '-'
  }

  /** `parseInt(s)` with the radix left undefined. The result is exact: the
      rounding of integers above 2^53 to the nearest double is not modelled. */
  function ParseInt(s: string): (r: IntOrNaN)
    ensures r.Int? && HasMinusSign(s) ==> r.value <= 0
    ensures r.Int? && !HasMinusSign(s) ==> r.value >= 0
  {
    var t := TrimStart(s);
    if |t| > 0 && t[0] == '-' then Negate(ParseMagnitude(t[1..]))
    else if |t| > 0 && t[0] == '+' then ParseMagnitude(t[1..])
    else ParseMagnitude(t)
  }

  /** The unsigned part of `parseInt`: an optional hexadecimal prefix and
      the longest run of digits of the chosen radix. */
  function ParseMagnitude(u: string): (r: IntOrNaN)
    ensures r.Int? ==> r.value >= 0
  {
    var radix := RadixOf(u);
    var body := DigitsOf(u);
    var n := DigitRunLength(body, radix);
    if n == 0 then NaN else Int(DigitsValue(body[..n], radix))
  }

  /** The radix `parseInt` chooses: 16 after a `0x` prefix, 10 otherwise. */
  function RadixOf(u: string): nat {
    if HasHexPrefix(u) then 16 else 10
  }

  /** The text the digit run is read from: after the `0x` prefix, if any. */
  function DigitsOf(u: string): string {
    if HasHexPrefix(u) then u[2..] else u
  }

  /** The text `parseInt` reads digits from: what follows the leading white
      space and at most one sign. */
  function Unsigned(s: string): (u: string)
    ensures |u| <= |s|
  {
    var t := TrimStart(s);
    if |t| > 0 && (t[0] == '-' || t[0] == '+') then t[1..] else t
  }

  /** No digit of the chosen radix follows the white space, the sign and the
      hexadecimal prefix: "", "abc", "x5", "-", ".5" and "0x" are such texts. */
  predicate ReadsNoDigits(s: string) {
    var u := Unsigned(s);
    if HasHexPrefix(u) then |u| == 2 || !IsRadixDigit(u[2], 16)
    else |u| == 0 || !IsDecimalDigit(u[0])
  }

  /** The digit run `parseInt` reads, decimal or after a `0x` prefix, is
      made of zeros only: "0", "00", "-0", " +000abc", "0x0" and " -0x00"
      are such texts. */
  predicate ReadsZero(s: string) {
    var u := Unsigned(s);
    var n := DigitRunLength(DigitsOf(u), RadixOf(u));
    && n > 0
    && forall i :: 0 <= i < n ==> DigitsOf(u)[i] == '0'
  }

  /** Applies the sign: NaN stays NaN. */
  function Negate(x: IntOrNaN): IntOrNaN {
    match x
    case Int(v) => Int(-v)
    case NaN => NaN
  }

  /** The decimal numeral of `n`, without sign or leading zeros. */
  function ShowNat(n: nat): (s: string)
    ensures |s| > 0
    ensures forall i :: 0 <= i < |s| ==> IsDecimalDigit(s[i])
  {
    if n < 10 then ['0' + n as char]
    else ShowNat(n / 10) + ['0' + (n % 10) as char]
  }

  /** Reading back the numeral of `n` gives `n`. */
  lemma {:induction false} ShowNatValue(n: nat)
    ensures DigitsValue(ShowNat(n), 10) == n
  {
    var s := ShowNat(n);
    if n >= 10 {
      ShowNatValue(n / 10);
      assert s[..|s| - 1] == ShowNat(n / 10);
    }
  }

  /** The numeral of a positive number does not start with `0`. */
  lemma {:induction false} ShowNatLeadingDigit(n: nat)
    requires n > 0
    ensures ShowNat(n)[0] != '0'
  {
    if n >= 10 {
      ShowNatLeadingDigit(n / 10);
      assert ShowNat(n)[0] == ShowNat(n / 10)[0];
    }
  }

  /** The digit run of a numeral followed by a non-digit is the numeral. */
  lemma DigitRunOfNumeral(n: nat, rest: string)
    requires |rest| == 0 || !IsDecimalDigit(rest[0])
    ensures DigitRunLength(ShowNat(n) + rest, 10) == |ShowNat(n)|
    ensures (ShowNat(n) + rest)[..|ShowNat(n)|] == ShowNat(n)
  {
    var s := ShowNat(n) + rest;
    var k := DigitRunLength(s, 10);
    DigitRunIsDigits(s, 10);
    assert forall i :: 0 <= i < |ShowNat(n)| ==> s[i] == ShowNat(n)[i];
    assert |ShowNat(n)| < |s| ==> s[|ShowNat(n)|] == rest[0];
  }

  /** A positive numeral followed by a non-digit is read as that number. */
  lemma ParseMagnitudeOfNumeral(n: nat, rest: string)
    requires n > 0
    requires |rest| == 0 || !IsDecimalDigit(rest[0])
    ensures ParseMagnitude(ShowNat(n) + rest) == Int(n)
  {
    var s := ShowNat(n) + rest;
    ShowNatLeadingDigit(n);
    DigitRunOfNumeral(n, rest);
    ShowNatValue(n);
    assert s[0] == ShowNat(n)[0];
    assert !HasHexPrefix(s);
  }

  /** A text that starts with a decimal digit is read by `ParseMagnitude` alone. */
  lemma ParseIntOfDigitFirst(s: string)
    requires |s| > 0 && IsDecimalDigit(s[0])
    ensures ParseInt(s) == ParseMagnitude(s)
  {
    assert !IsStrWhiteSpace(s[0]);
    assert TrimStart(s) == s;
  }

  /** A minus sign followed by a decimal digit negates what follows. */
  lemma ParseIntOfMinusDigit(s: string)
    requires |s| > 0 && IsDecimalDigit(s[0])
    ensures ParseInt("-" + s) == Negate(ParseMagnitude(s))
  {
    var m := "-" + s;
    assert m[0] == '-' && !IsStrWhiteSpace(m[0]);
    assert TrimStart(m) == m;
    assert m[1..] == s;
  }

  /** `parseInt` reads a positive decimal numeral back and ignores whatever
      follows the digits ("2abc" and "2.5" give 2). */
  lemma ParseIntOfNumeral(n: nat, rest: string)
    requires n > 0
    requires |rest| == 0 || !IsDecimalDigit(rest[0])
    ensures ParseInt(ShowNat(n) + rest) == Int(n)
  {
    var s := ShowNat(n) + rest;
    ParseMagnitudeOfNumeral(n, rest);
    assert s[0] == ShowNat(n)[0];
    ParseIntOfDigitFirst(s);
  }

  /** With a minus sign in front, `parseInt` reads the negated number. */
  lemma ParseIntOfNegativeNumeral(n: nat, rest: string)
    requires n > 0
    requires |rest| == 0 || !IsDecimalDigit(rest[0])
    ensures ParseInt("-" + (ShowNat(n) + rest)) == Int(-(n as int))
  {
    var s := ShowNat(n) + rest;
    ParseMagnitudeOfNumeral(n, rest);
    assert s[0] == ShowNat(n)[0];
    ParseIntOfMinusDigit(s);
  }

  /** Leading white space does not change what `parseInt` reads. */
  lemma ParseIntSkipsWhiteSpace(c: char, s: string)
    requires IsStrWhiteSpace(c)
    ensures ParseInt([c] + s) == ParseInt(s)
  {
    assert ([c] + s)[1..] == s;
    assert TrimStart([c] + s) == TrimStart(s);
  }

  /** "abc" has no digit after the white space and sign, so it is NaN. */
  lemma ParseIntOfLetters()
    ensures ParseInt("abc") == NaN
  {
    var s := "abc";
    assert !IsStrWhiteSpace(s[0]) && !IsDecimalDigit(s[0]);
    assert TrimStart(s) == s;
    ParseIntIsNaN(s);
  }

  /** `parseInt` gives NaN exactly when no digit follows the white space,
      the sign and the hexadecimal prefix. */
  lemma ParseIntIsNaN(s: string)
    ensures ParseInt(s) == NaN <==> ReadsNoDigits(s)
  {
    var u := Unsigned(s);
    assert ParseInt(s).NaN? <==> ParseMagnitude(u).NaN?;
    if HasHexPrefix(u) {
      assert u[2..] == [] <==> |u| == 2;
      assert |u| > 2 ==> u[2..][0] == u[2];
    }
  }

  /** Zeros in any number, and nothing else, are zero. */
  lemma {:induction false} ZerosValue(ds: string, radix: nat)
    requires forall i :: 0 <= i < |ds| ==> ds[i] == '0'
    ensures DigitsValue(ds, radix) == 0
  {
    if |ds| > 0 {
      ZerosValue(ds[..|ds| - 1], radix);
    }
  }

  /** A digit run of zeros reads as zero, with either sign. */
  lemma ParseIntOfZeros(s: string)
    requires ReadsZero(s)
    ensures ParseInt(s) == Int(0)
  {
    var u := Unsigned(s);
    var n := DigitRunLength(DigitsOf(u), RadixOf(u));
    ZerosValue(DigitsOf(u)[..n], RadixOf(u));
    assert ParseMagnitude(u) == Int(0);
  }

  /** Removing one leading zero from a run of decimal digits does not
      change its value. */
  lemma {:induction false} LeadingZeroValue(ds: string, radix: nat)
    ensures DigitsValue("0" + ds, radix) == DigitsValue(ds, radix)
  {
    if |ds| == 0 {
      assert ("0" + ds)[..0] == [];
    } else {
      var z := "0" + ds;
      LeadingZeroValue(ds[..|ds| - 1], radix);
      assert z[..|z| - 1] == "0" + ds[..|ds| - 1];
      assert z[|z| - 1] == ds[|ds| - 1];
    }
  }

  /** A `+` sign before a decimal digit changes nothing: "+5" reads as "5". */
  lemma ParseIntOfPlusDigit(s: string)
    requires |s| > 0 && IsDecimalDigit(s[0])
    ensures ParseInt("+" + s) == ParseInt(s)
  {
    var p := "+" + s;
    assert p[0] == '+' && !IsStrWhiteSpace(p[0]);
    assert TrimStart(p) == p;
    assert p[1..] == s;
    ParseIntOfDigitFirst(s);
  }

  /** A leading zero before a decimal digit changes nothing: "05" reads as
      "5". Before "0x5" it does: "00x5" reads as 0, not as hexadecimal. */
  lemma ParseIntOfLeadingZero(s: string)
    requires |s| > 0 && IsDecimalDigit(s[0]) && !HasHexPrefix(s)
    ensures ParseInt("0" + s) == ParseInt(s)
  {
    var z := "0" + s;
    assert z[1..] == s && z[1] == s[0];
    assert !HasHexPrefix(z);
    ParseIntOfDigitFirst(z);
    ParseIntOfDigitFirst(s);
    var n := DigitRunLength(s, 10);
    assert DigitRunLength(z, 10) == n + 1 by {
      assert IsRadixDigit(z[0], 10);
    }
    assert z[..n + 1] == "0" + s[..n];
    LeadingZeroValue(s[..n], 10);
  }

  /** Without a radix argument a `0x` prefix switches to hexadecimal. */
  lemma ParseIntOfHex()
    ensures ParseInt("0x1A") == Int(26)
  {
    var s := "0x1A";
    assert !IsStrWhiteSpace(s[0]);
    assert TrimStart(s) == s;
    assert HasHexPrefix(s);
    var body := s[2..];
    assert body == "1A";
    assert DigitRunLength(body, 16) == 2 by {
      assert IsRadixDigit(body[0], 16) && IsRadixDigit(body[1], 16);
    }
    assert body[..2] == body;
    assert DigitsValue(body[..1], 16) == 1 by {
      assert body[..1][..0] == [];
    }
  }
}
