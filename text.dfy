/** String primitives the JavaScript source relies on: `trim`, `toLowerCase`,
    `parseInt(s, 10)` and the decimal rendering of integers in template strings. */
module Text {

  /** The JavaScript result of `parseInt`: an integer or NaN. */
  datatype Num = Finite(n: int) | NaN

  /** WhiteSpace and LineTerminator code points, as stripped by `trim` and skipped by `parseInt`. */
  predicate IsWhitespace(c: char) {
    var n := c as int;
    n == 0x09 || n == 0x0A || n == 0x0B || n == 0x0C || n == 0x0D || n == 0x20 || n == 0xA0 ||
    n == 0x1680 || (0x2000 <= n <= 0x200A) || n == 0x2028 || n == 0x2029 || n == 0x202F ||
    n == 0x205F || n == 0x3000 || n == 0xFEFF
  }

  predicate IsDigit(c: char) { 0x30 <= c as int <= 0x39 }

  function DigitValue(c: char): (r: nat)
    requires IsDigit(c)
    ensures r < 10
  {
    c as int - 0x30
  }

  function DigitChar(d: nat): (c: char)
    requires d < 10
    ensures IsDigit(c) && DigitValue(c) == d
  {
    (0x30 + d) as char
  }

  /** `s` without its leading whitespace. */
  function TrimStart(s: string): (r: string)
    ensures |r| <= |s| && r == s[|s| - |r|..]
    ensures r == [] || !IsWhitespace(r[0])
    ensures forall i :: 0 <= i < |s| - |r| ==> IsWhitespace(s[i])
  {
    if s != [] && IsWhitespace(s[0]) then TrimStart(s[1..]) else s
  }

  /** `s` without its trailing whitespace. */
  function TrimEnd(s: string): (r: string)
    ensures |r| <= |s| && r == s[..|r|]
    ensures r == [] || !IsWhitespace(r[|r| - 1])
    ensures forall i :: |r| <= i < |s| ==> IsWhitespace(s[i])
  {
    if s != [] && IsWhitespace(s[|s| - 1]) then TrimEnd(s[..|s| - 1]) else s
  }

  /** `String.prototype.trim`. */
  function Trim(s: string): string {
    TrimEnd(TrimStart(s))
  }

  function LowerChar(c: char): (r: char)
    ensures IsWhitespace(r) <==> IsWhitespace(c)
  {
    if 'A' <= c <= 'Z' then (c as int + 32) as char else c
  }

  /** `String.prototype.toLowerCase`, on the ASCII letters. */
  function ToLower(s: string): (r: string)
    ensures |r| == |s|
    ensures forall i :: 0 <= i < |s| ==> r[i] == LowerChar(s[i])
  {
    seq(|s|, i requires 0 <= i < |s| => LowerChar(s[i]))
  }

  /** Trimming twice removes nothing more. */
  lemma TrimIdempotent(s: string)
    ensures Trim(Trim(s)) == Trim(s)
  {
    var t := Trim(s);
    if t != [] {
      assert TrimStart(t) == t;
      assert TrimEnd(t) == t;
    }
  }

  /** A trimmed string has no whitespace at either end. */
  lemma TrimmedHasNoOuterWhitespace(s: string)
    ensures var t := Trim(s); t == [] || (!IsWhitespace(t[0]) && !IsWhitespace(t[|t| - 1]))
  {
    var u := TrimStart(s);
    var t := TrimEnd(u);
    if t != [] {
      assert t[0] == u[0];
    }
  }

  lemma ToLowerIdempotent(s: string)
    ensures ToLower(ToLower(s)) == ToLower(s)
  {
  }

  lemma {:induction false} ToLowerTrimStart(s: string)
    ensures ToLower(TrimStart(s)) == TrimStart(ToLower(s))
    decreases |s|
  {
    if s != [] && IsWhitespace(s[0]) {
      assert ToLower(s)[1..] == ToLower(s[1..]);
      ToLowerTrimStart(s[1..]);
    }
  }

  lemma {:induction false} ToLowerTrimEnd(s: string)
    ensures ToLower(TrimEnd(s)) == TrimEnd(ToLower(s))
    decreases |s|
  {
    if s != [] && IsWhitespace(s[|s| - 1]) {
      assert ToLower(s)[..|s| - 1] == ToLower(s[..|s| - 1]);
      ToLowerTrimEnd(s[..|s| - 1]);
    }
  }

  /** `s.toLowerCase().trim()` is already lower case: lowering it again changes nothing. */
  lemma NormalizedEmailIsLower(s: string)
    ensures ToLower(Trim(ToLower(s))) == Trim(ToLower(s))
  {
    var l := ToLower(s);
    ToLowerTrimStart(l);
    ToLowerTrimEnd(TrimStart(l));
    ToLowerIdempotent(s);
  }

  /** The longest prefix of `s` made of decimal digits. */
  function DigitPrefix(s: string): (r: string)
    ensures |r| <= |s| && r == s[..|r|]
    ensures forall i :: 0 <= i < |r| ==> IsDigit(r[i])
    ensures |r| < |s| ==> !IsDigit(s[|r|])
  {
    if s != [] && IsDigit(s[0]) then [s[0]] + DigitPrefix(s[1..]) else []
  }

  /** The value of a string of decimal digits, most significant first. */
  function DigitsValue(ds: string): nat
    requires forall i :: 0 <= i < |ds| ==> IsDigit(ds[i])
  {
    if ds == [] then 0 else DigitsValue(ds[..|ds| - 1]) * 10 + DigitValue(ds[|ds| - 1])
  }

  /** `parseInt(s, 10)`: skip leading whitespace, read an optional sign and the longest run of digits. */
  function ParseInt(s: string): Num {
    ParseSigned(TrimStart(s))
  }

  /** `parseInt` after the leading whitespace is gone. */
  function ParseSigned(t: string): Num {
    if t != [] && t[0] == '-' then Negate(ParseDigits(t[1..]))
    else if t != [] && t[0] == '+' then ParseDigits(t[1..])
    else ParseDigits(t)
  }

  /** The value of the leading digits of `b`, or NaN when there are none. */
  function ParseDigits(b: string): Num {
    var ds := DigitPrefix(b);
    if ds == [] then NaN else Finite(DigitsValue(ds))
  }

  function Negate(x: Num): Num {
    match x
    case Finite(n) => Finite(-n)
    case NaN => NaN
  }

  /** The decimal rendering of a natural number, as a template string prints it. */
  function NatToString(n: nat): (r: string)
    ensures r != []
    ensures forall i :: 0 <= i < |r| ==> IsDigit(r[i])
  {
    if n < 10 then [DigitChar(n)] else NatToString(n / 10) + [DigitChar(n % 10)]
  }

  /** The decimal rendering of an integer (`String(n)` for a safe integer). */
  function IntToString(i: int): string {
    if i < 0 then "-" + NatToString(-i) else NatToString(i)
  }

  lemma {:induction false} DigitsValueOfNatToString(n: nat)
    ensures DigitsValue(NatToString(n)) == n
  {
    var r := NatToString(n);
    if n >= 10 {
      assert r[..|r| - 1] == NatToString(n / 10);
      DigitsValueOfNatToString(n / 10);
    }
  }

  lemma {:induction false} DigitPrefixOfDigits(s: string)
    requires forall i :: 0 <= i < |s| ==> IsDigit(s[i])
    ensures DigitPrefix(s) == s
  {
    if s != [] {
      DigitPrefixOfDigits(s[1..]);
    }
  }

  lemma DigitIsNotWhitespace(c: char)
    requires IsDigit(c)
    ensures !IsWhitespace(c) && c != '-' && c != '+'
  {
  }

  lemma ParseDigitsOfDigits(ds: string)
    requires ds != [] && forall i :: 0 <= i < |ds| ==> IsDigit(ds[i])
    ensures ParseDigits(ds) == Finite(DigitsValue(ds))
  {
    DigitPrefixOfDigits(ds);
  }

  lemma TrimStartOfMinus(ds: string)
    ensures TrimStart("-" + ds) == "-" + ds
  {
    var m := "-" + ds;
    assert m[0] == '-';
  }

  lemma ParseSignedOfMinus(ds: string)
    ensures ParseSigned("-" + ds) == Negate(ParseDigits(ds))
  {
    var m := "-" + ds;
    assert m[1..] == ds;
  }

  /** `parseInt` of a bare digit string is its value. */
  lemma ParseIntOfDigits(ds: string)
    requires ds != [] && forall i :: 0 <= i < |ds| ==> IsDigit(ds[i])
    ensures ParseInt(ds) == Finite(DigitsValue(ds))
  {
    DigitIsNotWhitespace(ds[0]);
    assert TrimStart(ds) == ds;
    ParseDigitsOfDigits(ds);
  }

  lemma ParseIntOfMinus(ds: string)
    ensures ParseInt("-" + ds) == Negate(ParseDigits(ds))
  {
    TrimStartOfMinus(ds);
    ParseSignedOfMinus(ds);
  }

  /** `parseInt` of a minus sign followed by a rendered number is the negated number. */
  lemma ParseIntOfNegatedNat(n: nat)
    ensures ParseInt("-" + NatToString(n)) == Finite(-(n as int))
  {
    var ds := NatToString(n);
    ParseIntOfMinus(ds);
    ParseDigitsOfDigits(ds);
    DigitsValueOfNatToString(n);
  }

  /** `parseInt` reads back what `String` wrote: the two are inverse on integers. */
  lemma ParseIntOfIntToString(i: int)
    ensures ParseInt(IntToString(i)) == Finite(i)
  {
    if i < 0 {
      ParseIntOfNegatedNat(-i);
    } else {
      DigitsValueOfNatToString(i);
      ParseIntOfDigits(NatToString(i));
    }
  }

  lemma {:induction false} DigitPrefixOfDigitsThen(ds: string, rest: string)
    requires forall i :: 0 <= i < |ds| ==> IsDigit(ds[i])
    requires rest == [] || !IsDigit(rest[0])
    ensures DigitPrefix(ds + rest) == ds
  {
    if ds != [] {
      assert (ds + rest)[1..] == ds[1..] + rest;
      DigitPrefixOfDigitsThen(ds[1..], rest);
    } else {
      assert ds + rest == rest;
    }
  }

  /** `parseInt` of a rendered number followed by text that does not start with a digit
      reads back the number. */
  lemma ParseIntOfLeadingNat(n: nat, rest: string)
    requires rest == [] || !IsDigit(rest[0])
    ensures ParseInt(NatToString(n) + rest) == Finite(n)
  {
    var ds := NatToString(n);
    var s := ds + rest;
    assert s[0] == ds[0];
    DigitIsNotWhitespace(ds[0]);
    assert TrimStart(s) == s;
    DigitPrefixOfDigitsThen(ds, rest);
    DigitsValueOfNatToString(n);
  }
}
