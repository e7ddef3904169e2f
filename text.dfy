/**
 * The string primitives the controller relies on: the whitespace class of
 * ECMAScript regular expressions and String.prototype.trim, decimal
 * rendering with Number.prototype.toString, String.prototype.padStart, and
 * the `parseInt(text) || 0` idiom used to read a countdown slot back.
 */
module Text {

  /** The characters matched by `\s` in an ECMAScript regular expression.
      String.prototype.trim strips exactly the same set. */
  predicate IsWhitespace(c: char) {
    var n := c as int;
    (0x09 <= n <= 0x0D) || n == 0x20 || n == 0xA0 || n == 0x1680
    || (0x2000 <= n <= 0x200A) || n == 0x2028 || n == 0x2029
    || n == 0x202F || n == 0x205F || n == 0x3000 || n == 0xFEFF
  }

  predicate NoWhitespace(s: string) {
    forall i :: 0 <= i < |s| ==> !IsWhitespace(s[i])
  }

  predicate AllWhitespace(s: string) {
    forall i :: 0 <= i < |s| ==> IsWhitespace(s[i])
  }

  // ---------------------------------------------------------------- trim

  /** Drops leading whitespace: the result is a suffix of `s`, what was
      dropped is all whitespace, and what is left does not start with it. */
  function TrimStart(s: string): (t: string)
    ensures |t| <= |s| && t == s[|s| - |t|..]
    ensures AllWhitespace(s[..|s| - |t|])
    ensures t == [] || !IsWhitespace(t[0])
    decreases |s|
  {
    if s != [] && IsWhitespace(s[0]) then
      var t := TrimStart(s[1..]);
      assert s[..|s| - |t|] == [s[0]] + s[1..][..|s| - 1 - |t|];
      t
    else s
  }

  /** Drops trailing whitespace: the result is a prefix of `s`, what was
      dropped is all whitespace, and what is left does not end with it. */
  function TrimEnd(s: string): (t: string)
    ensures |t| <= |s| && t == s[..|t|]
    ensures AllWhitespace(s[|t|..])
    ensures t == [] || !IsWhitespace(t[|t| - 1])
    decreases |s|
  {
    if s != [] && IsWhitespace(s[|s| - 1]) then
      var t := TrimEnd(s[..|s| - 1]);
      assert s[|t|..] == s[..|s| - 1][|t|..] + [s[|s| - 1]];
      t
    else s
  }

  /** String.prototype.trim. */
  function Trim(s: string): (t: string)
    ensures |t| <= |s|
    ensures t == [] || (!IsWhitespace(t[0]) && !IsWhitespace(t[|t| - 1]))
  {
    TrimEnd(TrimStart(s))
  }

  /** Trim keeps a contiguous middle part of `s`, removes only whitespace
      around it, and leaves no whitespace at either end. */
  lemma TrimKeepsMiddle(s: string)
    ensures exists i, j :: 0 <= i <= j <= |s| && Trim(s) == s[i..j]
              && AllWhitespace(s[..i]) && AllWhitespace(s[j..])
    ensures Trim(s) == [] || (!IsWhitespace(Trim(s)[0]) && !IsWhitespace(Trim(s)[|Trim(s)| - 1]))
  {
    var u := TrimStart(s);
    var t := TrimEnd(u);
    var i := |s| - |u|;
    var j := i + |t|;
    assert s[i..j] == u[..|t|];
    assert s[j..] == u[|t|..];
  }

  lemma {:induction false} TrimStartPadded(a: string, e: string)
    requires AllWhitespace(a)
    requires e == [] || !IsWhitespace(e[0])
    ensures TrimStart(a + e) == e
    decreases |a|
  {
    if a != [] {
      assert (a + e)[1..] == a[1..] + e;
      TrimStartPadded(a[1..], e);
    } else {
      assert a + e == e;
    }
  }

  lemma {:induction false} TrimEndPadded(e: string, b: string)
    requires AllWhitespace(b)
    requires e == [] || !IsWhitespace(e[|e| - 1])
    ensures TrimEnd(e + b) == e
    decreases |b|
  {
    if b != [] {
      assert (e + b)[..|e + b| - 1] == e + b[..|b| - 1];
      TrimEndPadded(e, b[..|b| - 1]);
    } else {
      assert e + b == e;
    }
  }

  /** Whitespace around a word whose ends are not whitespace is exactly
      what Trim removes. */
  lemma TrimPadded(a: string, e: string, b: string)
    requires AllWhitespace(a) && AllWhitespace(b)
    requires e != [] && !IsWhitespace(e[0]) && !IsWhitespace(e[|e| - 1])
    ensures Trim(a + e + b) == e
  {
    assert a + e + b == a + (e + b);
    TrimStartPadded(a, e + b);
    TrimEndPadded(e, b);
  }

  /** A string without whitespace is its own trim. */
  lemma TrimNoWhitespace(s: string)
    requires NoWhitespace(s)
    ensures Trim(s) == s
  {
    if s != [] {
      assert [] + s + [] == s;
      TrimPadded([], s, []);
    }
  }

  // ------------------------------------------------------ decimal digits

  predicate IsDigit(c: char) {
    '0' <= c <= '9'
  }

  predicate AllDigits(s: string) {
    forall i :: 0 <= i < |s| ==> IsDigit(s[i])
  }

  function DigitChar(d: nat): (c: char)
    requires d < 10
    ensures IsDigit(c)
  {
    ('0' as int + d) as char
  }

  function DigitValue(c: char): (d: nat)
    requires IsDigit(c)
    ensures d < 10 && DigitChar(d) == c
  {
    c as int - '0' as int
  }

  /** Number.prototype.toString() of a non-negative integer: its decimal
      digits, with no leading zero except for zero itself. */
  function ToDecimal(n: nat): (s: string)
    ensures |s| >= 1 && AllDigits(s)
    ensures |s| == 1 <==> n < 10
    ensures n >= 10 ==> s[0] != '0'
    decreases n
  {
    if n < 10 then [DigitChar(n)] else ToDecimal(n / 10) + [DigitChar(n % 10)]
  }

  /** The value of a string of decimal digits, most significant first. */
  function ParseDigits(s: string): nat
    requires AllDigits(s)
  {
    if s == [] then 0 else ParseDigits(s[..|s| - 1]) * 10 + DigitValue(s[|s| - 1])
  }

  /** Reading back what ToDecimal wrote gives the number. */
  lemma {:induction false} ParseToDecimal(n: nat)
    ensures ParseDigits(ToDecimal(n)) == n
    decreases n
  {
    if n >= 10 {
      var s := ToDecimal(n);
      assert s[..|s| - 1] == ToDecimal(n / 10);
      ParseToDecimal(n / 10);
    }
  }

  /** Leading zeros do not change the value of a digit string. */
  lemma {:induction false} ParseLeadingZero(s: string)
    requires AllDigits(s)
    ensures AllDigits(['0'] + s) && ParseDigits(['0'] + s) == ParseDigits(s)
    decreases |s|
  {
    if s != [] {
      var t := ['0'] + s;
      assert t[..|t| - 1] == ['0'] + s[..|s| - 1];
      ParseLeadingZero(s[..|s| - 1]);
    }
  }

  // ------------------------------------------------------------ padStart

  function Repeat(c: char, k: nat): (s: string)
    ensures |s| == k && forall i :: 0 <= i < k ==> s[i] == c
  {
    if k == 0 then [] else [c] + Repeat(c, k - 1)
  }

  /** String.prototype.padStart with a one-character fill. */
  function PadStart(s: string, width: nat, fill: char): (t: string)
    ensures |t| == if |s| >= width then |s| else width
    ensures t[|t| - |s|..] == s
    ensures forall i :: 0 <= i < |t| - |s| ==> t[i] == fill
  {
    if |s| >= width then s else Repeat(fill, width - |s|) + s
  }

  /** What a countdown slot is set to: `value.toString().padStart(2, '0')`. */
  function Padded(n: nat): (r: string)
    ensures |r| >= 2 && AllDigits(r)
  {
    PadStart(ToDecimal(n), 2, '0')
  }

  /** The slot text is at least two digits, is the plain decimal form from
      10 up, and reads back as the value it was written from. */
  lemma PaddedDigits(n: nat)
    ensures |Padded(n)| >= 2 && AllDigits(Padded(n))
    ensures n >= 10 ==> Padded(n) == ToDecimal(n)
    ensures n < 10 ==> Padded(n) == ['0', DigitChar(n)]
    ensures ParseDigits(Padded(n)) == n
  {
    ParseToDecimal(n);
    if n < 10 {
      assert Padded(n) == ['0'] + ToDecimal(n);
      ParseLeadingZero(ToDecimal(n));
    }
  }

  // ------------------------------------------------------------ parseInt

  /** The longest prefix of `s` made of decimal digits. */
  function LeadingDigits(s: string): (d: string)
    ensures |d| <= |s| && d == s[..|d|] && AllDigits(d)
    ensures |d| < |s| ==> !IsDigit(s[|d|])
  {
    if s != [] && IsDigit(s[0]) then [s[0]] + LeadingDigits(s[1..]) else []
  }

  /** `parseInt(text) || 0` with the default radix: leading whitespace is
      skipped, one sign is read, then the leading decimal digits; no digits
      gives NaN, which `|| 0` turns into 0. */
  function ParseIntOrZero(text: string): (r: int)
    ensures r != 0 ==> TrimStart(text) != [] && (r < 0 <==> TrimStart(text)[0] == '-')
  {
    var t := TrimStart(text);
    var negative := t != [] && t[0] == '-';
    var unsigned := if t != [] && (t[0] == '-' || t[0] == '+') then t[1..] else t;
    var digits := LeadingDigits(unsigned);
    var magnitude: int := ParseDigits(digits);
    if digits == [] then 0 else if negative then -magnitude else magnitude
  }

  lemma LeadingDigitsOfDigits(s: string)
    requires AllDigits(s)
    ensures LeadingDigits(s) == s
  {
  }

  /** parseInt reads a non-empty digit string as its decimal value. */
  lemma ParseIntOfDigits(s: string)
    requires s != [] && AllDigits(s)
    ensures ParseIntOrZero(s) == ParseDigits(s)
  {
    assert !IsWhitespace(s[0]) && s[0] != '-' && s[0] != '+';
    assert TrimStart(s) == s;
    LeadingDigitsOfDigits(s);
  }

  /** A slot written with Padded(n) reads back as n. */
  lemma ParsePadded(n: nat)
    ensures ParseIntOrZero(Padded(n)) == n
  {
    PaddedDigits(n);
    ParseIntOfDigits(Padded(n));
  }
}
