/**
  The JavaScript number operations used by the user query: `parseInt` with
  no radix, `String(n)` for an integer, and the arithmetic on the page
  numbers. A number here is NaN or an integer; parseInt produces nothing else.
 */
module JsNumber {

  /** A number as parseInt produces it. */
  datatype Num = NaN | Int(value: int)

  /** `x * y`; NaN absorbs. */
  function Mul(x: Num, y: Num): (r: Num)
    ensures r.Int? <==> x.Int? && y.Int?
    ensures r.Int? ==> r.value == x.value * y.value
  {
    if x.Int? && y.Int? then Int(x.value * y.value) else NaN
  }

  /** `x + y`; NaN absorbs. */
  function Add(x: Num, y: Num): (r: Num)
    ensures r.Int? <==> x.Int? && y.Int?
    ensures r.Int? ==> r.value == x.value + y.value
  {
    if x.Int? && y.Int? then Int(x.value + y.value) else NaN
  }

  predicate IsDecimalDigit(c: char)
  {
    '0' <= c <= '9'
  }

  /** The value of a digit in a radix up to 36 (letters of either case are 10 to 35); 36 for any other character. */
  function DigitValue(c: char): (d: nat)
    ensures d <= 36
    ensures d < 10 <==> IsDecimalDigit(c)
  {
    if '0' <= c <= '9' then c as int - '0' as int
    else if 'a' <= c <= 'z' then c as int - 'a' as int + 10
    else if 'A' <= c <= 'Z' then c as int - 'A' as int + 10
    else 36
  }

  /** The character of a decimal digit. */
  function DigitChar(d: nat): (c: char)
    requires d < 10
    ensures IsDecimalDigit(c) && DigitValue(c) == d
  {
    (d + '0' as int) as char
  }

  /** `String(n)` for a natural number: its decimal digits, most significant first. */
  function NatToString(n: nat): (r: string)
    ensures r != []
    ensures forall i :: 0 <= i < |r| ==> IsDecimalDigit(r[i])
    ensures r[0] == '0' ==> n == 0 && r == "0"
  {
    if n < 10 then [DigitChar(n)] else NatToString(n / 10) + [DigitChar(n % 10)]
  }

  /** `String(n)` for an integer: a minus sign before the digits of a negative number. */
  function IntToString(n: int): (r: string)
    ensures r != [] && (r[0] == '-' || IsDecimalDigit(r[0]))
    ensures r[0] == '-' <==> n < 0
  {
    if n < 0 then "-" + NatToString(-n) else NatToString(n)
  }

  /** The value of a string of digits of the radix, most significant digit first. */
  function DigitsValue(ds: string, radix: nat): int
    requires forall i :: 0 <= i < |ds| ==> DigitValue(ds[i]) < radix
  {
    if ds == [] then 0 else DigitsValue(ds[..|ds| - 1], radix) * radix + DigitValue(ds[|ds| - 1])
  }

  /** The longest prefix of `s` made of digits of the radix. */
  function DigitPrefix(s: string, radix: nat): string
  {
    if s == [] || DigitValue(s[0]) >= radix then [] else [s[0]] + DigitPrefix(s[1..], radix)
  }

  /** DigitPrefix is a prefix of `s`, made of digits of the radix, and stops only at a non-digit or the end. */
  lemma {:induction false} DigitPrefixLongest(s: string, radix: nat)
    ensures var r := DigitPrefix(s, radix);
      && r <= s
      && (forall i :: 0 <= i < |r| ==> DigitValue(r[i]) < radix)
      && (|r| < |s| ==> DigitValue(s[|r|]) >= radix)
  {
    if s != [] && DigitValue(s[0]) < radix {
      var r, rest := DigitPrefix(s, radix), DigitPrefix(s[1..], radix);
      DigitPrefixLongest(s[1..], radix);
      assert r == [s[0]] + rest;
      assert forall i :: 0 < i < |r| ==> r[i] == rest[i - 1];
      assert s == [s[0]] + s[1..];
    }
  }

  /** The characters JavaScript trims as white space or line terminators. */
  predicate IsWhiteSpace(c: char)
  {
    var u := c as int;
    u == 0x09 || u == 0x0A || u == 0x0B || u == 0x0C || u == 0x0D || u == 0x20 || u == 0xA0
    || u == 0x1680 || (0x2000 <= u <= 0x200A) || u == 0x2028 || u == 0x2029
    || u == 0x202F || u == 0x205F || u == 0x3000 || u == 0xFEFF
  }

  /** The string without its leading white space. */
  function TrimStart(s: string): string
  {
    if s != [] && IsWhiteSpace(s[0]) then TrimStart(s[1..]) else s
  }

  /** TrimStart drops exactly the leading run of white space: what remains is a suffix that starts with no white space. */
  lemma {:induction false} TrimStartDropsSpace(s: string)
    ensures var r := TrimStart(s);
      && (r == [] || !IsWhiteSpace(r[0]))
      && |r| <= |s| && r == s[|s| - |r|..]
      && (forall i :: 0 <= i < |s| - |r| ==> IsWhiteSpace(s[i]))
  {
    if s != [] && IsWhiteSpace(s[0]) {
      var r := TrimStart(s);
      TrimStartDropsSpace(s[1..]);
      assert s[1..][|s| - 1 - |r|..] == s[|s| - |r|..];
      assert forall i :: 0 < i < |s| - |r| ==> s[i] == s[1..][i - 1];
    }
  }

  /**
    The number after the sign: a "0x" or "0X" prefix selects radix 16, and
    the longest run of digits that follows is the value; with no digit the
    result is NaN.
   */
  function ParseUnsigned(u: string): Num
  {
    var hex := |u| >= 2 && u[0] == '0' && (u[1] == 'x' || u[1] == 'X');
    var radix := if hex then 16 else 10;
    var digits := if hex then u[2..] else u;
    var z := DigitPrefix(digits, radix);
    DigitPrefixLongest(digits, radix);
    if z == [] then NaN else Int(DigitsValue(z, radix))
  }

  /**
    `parseInt(s)` with no radix: leading white space is skipped and one sign
    is read before the number.
   */
  function ParseInt(s: string): Num
  {
    var t := TrimStart(s);
    var negative := t != [] && t[0] == '-';
    var u := if t != [] && (t[0] == '-' || t[0] == '+') then t[1..] else t;
    match ParseUnsigned(u)
    case NaN => NaN
    case Int(v) => Int(if negative then -v else v)
  }

  /** Reading back the digits of `String(n)` gives n. */
  lemma {:induction false} NatToStringValue(n: nat)
    ensures DigitsValue(NatToString(n), 10) == n
  {
    if n >= 10 {
      var s := NatToString(n);
      assert s[..|s| - 1] == NatToString(n / 10);
      NatToStringValue(n / 10);
    }
  }

  /** A string of decimal digits is its own longest digit prefix. */
  lemma {:induction false} AllDigitsPrefix(s: string)
    requires forall i :: 0 <= i < |s| ==> IsDecimalDigit(s[i])
    ensures DigitPrefix(s, 10) == s
  {
    if s != [] {
      assert DigitValue(s[0]) < 10;
      assert forall i :: 0 <= i < |s| - 1 ==> s[1..][i] == s[i + 1];
      AllDigitsPrefix(s[1..]);
      assert s == [s[0]] + s[1..];
    }
  }

  /** A string that starts with a sign or a digit has no leading white space to trim. */
  lemma TrimStartNoSpace(s: string)
    requires s != [] && (s[0] == '-' || IsDecimalDigit(s[0]))
    ensures TrimStart(s) == s
  {
    assert !IsWhiteSpace(s[0]);
  }

  /** Without a "0x" prefix, the unsigned number of a string of decimal digits is their value. */
  lemma ParseUnsignedDecimal(digits: string)
    requires digits != [] && forall i :: 0 <= i < |digits| ==> IsDecimalDigit(digits[i])
    requires digits[0] == '0' ==> |digits| == 1
    ensures ParseUnsigned(digits) == Int(DigitsValue(digits, 10))
  {
    AllDigitsPrefix(digits);
  }

  /** parseInt of a string of decimal digits whose leading zero, if any, is the whole number: their value. */
  lemma ParseIntDigits(digits: string)
    requires digits != [] && forall i :: 0 <= i < |digits| ==> IsDecimalDigit(digits[i])
    requires digits[0] == '0' ==> |digits| == 1
    ensures ParseInt(digits) == Int(DigitsValue(digits, 10))
  {
    TrimStartNoSpace(digits);
    ParseUnsignedDecimal(digits);
    assert digits[0] != '-' && digits[0] != '+';
  }

  /** parseInt of a minus sign before such digits: the negated value. */
  lemma ParseIntMinusDigits(s: string)
    requires |s| >= 2 && s[0] == '-'
    requires forall i :: 1 <= i < |s| ==> IsDecimalDigit(s[i])
    requires s[1] == '0' ==> |s| == 2
    ensures ParseInt(s) == Int(-DigitsValue(s[1..], 10))
  {
    TrimStartNoSpace(s);
    ParseUnsignedDecimal(s[1..]);
  }

  /** parseInt undoes String: `parseInt(String(n)) == n` for every integer n. */
  lemma ParseIntOfIntToString(n: int)
    ensures ParseInt(IntToString(n)) == Int(n)
  {
    var m: nat := if n < 0 then -n else n;
    NatToStringValue(m);
    if n < 0 {
      assert IntToString(n)[1..] == NatToString(m);
      ParseIntMinusDigits(IntToString(n));
    } else {
      ParseIntDigits(NatToString(m));
    }
  }

  /** The defaults the query handler parses: "0" and "10". */
  lemma ParseIntDefaults()
    ensures ParseInt("0") == Int(0)
    ensures ParseInt("10") == Int(10)
  {
    ParseIntOfIntToString(0);
    ParseIntOfIntToString(10);
    assert IntToString(0) == "0";
    assert NatToString(1) == "1";
    assert IntToString(10) == "10";
  }
}
