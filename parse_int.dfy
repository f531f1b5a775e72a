/**
 * `parseInt(text, 10)` as ECMAScript defines it: skip leading white space and
 * line terminators, read an optional sign, then read the longest run of
 * decimal digits; with no digit the result is NaN (here `None`).
 */
module JsParseInt {
  import opened Outcomes

  /** The characters ECMAScript's StrWhiteSpaceChar admits: WhiteSpace and LineTerminator. */
  predicate IsStrWhiteSpace(c: char)
  {
    || c == '\t' || c == '\U{B}' || c == '\U{C}' || c == ' ' || c == '\U{A0}' || c == '\U{FEFF}'
    || c == '\U{1680}' || ('\U{2000}' <= c <= '\U{200A}') || c == '\U{202F}' || c == '\U{205F}'
    || c == '\U{3000}'
    || c == '\n' || c == '\r' || c == '\U{2028}' || c == '\U{2029}'
  }

  predicate IsDigit(c: char)
  {
    '0' <= c <= '9'
  }

  predicate AllDigits(s: string)
  {
    forall i :: 0 <= i < |s| ==> IsDigit(s[i])
  }

  /** The text without its leading white space. */
  function TrimStart(s: string): (r: string)
    ensures |r| <= |s| && r == s[|s| - |r|..]
    ensures forall i :: 0 <= i < |s| - |r| ==> IsStrWhiteSpace(s[i])
    ensures |r| == 0 || !IsStrWhiteSpace(r[0])
  {
    if |s| > 0 && IsStrWhiteSpace(s[0]) then TrimStart(s[1..]) else s
  }

  /** The longest prefix made of decimal digits. */
  function DigitPrefix(s: string): (r: string)
    ensures |r| <= |s| && r == s[..|r|]
    ensures AllDigits(r)
    ensures |r| == |s| || !IsDigit(s[|r|])
  {
    if |s| > 0 && IsDigit(s[0]) then [s[0]] + DigitPrefix(s[1..]) else []
  }

  /** The value of a digit string, most significant digit first. */
  function DigitsValue(d: string): nat
    requires AllDigits(d)
  {
    if |d| == 0 then 0 else DigitsValue(d[..|d| - 1]) * 10 + (d[|d| - 1] as int - '0' as int)
  }

  /** `parseInt(s, 10)`; `None` stands for NaN. */
  function ParseInt(s: string): Option<int>
  {
    ParseTrimmed(TrimStart(s))
  }

  /** `parseInt` once the leading white space is gone: an optional sign, then the digit run. */
  function ParseTrimmed(t: string): Option<int>
  {
    var negative := |t| > 0 && t[0] == '-';
    var body := if |t| > 0 && (t[0] == '-' || t[0] == '+') then t[1..] else t;
    var z := DigitPrefix(body);
    if |z| == 0 then None
    else
      var magnitude: int := DigitsValue(z);
      Some(if negative then -magnitude else magnitude)
  }

  /** The decimal numeral of a natural number, without leading zeros. */
  function Digits(n: nat): (r: string)
    ensures |r| > 0 && AllDigits(r)
    ensures DigitsValue(r) == n
    ensures |r| > 1 ==> r[0] != '0'
  {
    var last := ['0' + (n % 10) as char];
    if n < 10 then last
    else
      var r := Digits(n / 10) + last;
      assert r[..|r| - 1] == Digits(n / 10);
      r
  }

  /** The decimal numeral of an integer, as JavaScript's `String(n)` writes it. */
  function Decimal(n: int): string
  {
    if n < 0 then "-" + Digits(-n) else Digits(n)
  }

  /** `parseInt` reads back a numeral and ignores whatever follows its digits ("45s" reads as 45). */
  lemma {:induction false} ParseIntOfDecimal(n: int, rest: string)
    requires |rest| == 0 || !IsDigit(rest[0])
    ensures ParseInt(Decimal(n) + rest) == Some(n)
  {
    var d := Digits(if n < 0 then -n else n);
    var text := Decimal(n) + rest;
    if n < 0 {
      assert Decimal(n) == ['-'] + d;
      assert text == ['-'] + (d + rest);
      ParseIntOfNegative(d, rest);
    } else {
      assert Decimal(n) == d;
      ParseIntOfDigits(d, rest);
    }
  }

  /** A digit run followed by text that is not a digit reads as the run's value. */
  lemma {:induction false} ParseIntOfDigits(d: string, rest: string)
    requires |d| > 0 && AllDigits(d)
    requires |rest| == 0 || !IsDigit(rest[0])
    ensures ParseInt(d + rest) == Some(DigitsValue(d))
  {
    var x := d + rest;
    DigitPrefixOfDigits(d, rest);
    assert x[0] == d[0];
    TrimStartKeeps(x);
    ParseTrimmedUnsigned(x, d);
  }

  /** A minus sign, a digit run, then text that is not a digit reads as the negated value. */
  lemma {:induction false} ParseIntOfNegative(d: string, rest: string)
    requires |d| > 0 && AllDigits(d)
    requires |rest| == 0 || !IsDigit(rest[0])
    ensures ParseInt(['-'] + (d + rest)) == Some(-(DigitsValue(d) as int))
  {
    var x := d + rest;
    DigitPrefixOfDigits(d, rest);
    TrimStartKeeps(['-'] + x);
    ParseTrimmedNegative(x, d);
  }

  lemma {:induction false} TrimStartKeeps(x: string)
    requires |x| > 0 && !IsStrWhiteSpace(x[0])
    ensures TrimStart(x) == x
  {
  }

  lemma {:induction false} ParseTrimmedUnsigned(x: string, d: string)
    requires |d| > 0 && AllDigits(d)
    requires |x| > 0 && x[0] != '-' && x[0] != '+'
    requires DigitPrefix(x) == d
    ensures ParseTrimmed(x) == Some(DigitsValue(d))
  {
  }

  lemma {:induction false} ParseTrimmedNegative(x: string, d: string)
    requires |d| > 0 && AllDigits(d)
    requires DigitPrefix(x) == d
    ensures ParseTrimmed(['-'] + x) == Some(-(DigitsValue(d) as int))
  {
    assert (['-'] + x)[1..] == x;
  }

  /** The digit run at the head of `d + rest` is `d` when `rest` does not start with a digit. */
  lemma {:induction false} DigitPrefixOfDigits(d: string, rest: string)
    requires AllDigits(d)
    requires |rest| == 0 || !IsDigit(rest[0])
    ensures DigitPrefix(d + rest) == d
  {
    if |d| > 0 {
      assert (d + rest)[1..] == d[1..] + rest;
      DigitPrefixOfDigits(d[1..], rest);
    } else {
      assert d + rest == rest;
    }
  }

  /** Leading white space never changes what `parseInt` reads. */
  lemma {:induction false} ParseIntSkipsWhiteSpace(w: string, s: string)
    requires forall i :: 0 <= i < |w| ==> IsStrWhiteSpace(w[i])
    ensures ParseInt(w + s) == ParseInt(s)
  {
    TrimStartSkips(w, s);
  }

  lemma {:induction false} TrimStartSkips(w: string, s: string)
    requires forall i :: 0 <= i < |w| ==> IsStrWhiteSpace(w[i])
    ensures TrimStart(w + s) == TrimStart(s)
  {
    if |w| > 0 {
      assert (w + s)[0] == w[0];
      assert (w + s)[1..] == w[1..] + s;
      TrimStartSkips(w[1..], s);
    } else {
      assert w + s == s;
    }
  }

  /** Text with no digit after its white space and sign is NaN; any digit there makes it a number. */
  lemma {:induction false} ParseIntIsNaN(s: string)
    ensures var t := TrimStart(s);
            var body := if |t| > 0 && (t[0] == '-' || t[0] == '+') then t[1..] else t;
            ParseInt(s).None? <==> (|body| == 0 || !IsDigit(body[0]))
  {
  }
}
