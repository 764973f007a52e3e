/** The JavaScript number behaviour the server relies on: decimal rendering
    of integers (template literals and header values), `padStart(2, '0')`,
    and `parseInt(text, 10)` with its leading-whitespace skip, optional sign,
    longest digit prefix and `NaN` when no digit follows. */
module JsNumbers {

  /** A JavaScript number as far as this program produces them: an integer,
      or `NaN` from a failed `parseInt`. */
  datatype JsNum = NaN | Num(v: int)

  predicate IsDigit(c: char)
  {
    '0' <= c <= '9'
  }

  predicate AllDigits(s: string)
  {
    forall i :: 0 <= i < |s| ==> IsDigit(s[i])
  }

  function DigitChar(d: nat): (c: char)
    requires d < 10
    ensures IsDigit(c)
  {
    "0123456789"[d]
  }

  function DigitValue(c: char): (d: nat)
    requires IsDigit(c)
    ensures d < 10
  {
    (c as int) - ('0' as int)
  }

  /** The value of a string of decimal digits (the empty string reads 0). */
  function DigitsValue(s: string): nat
    requires AllDigits(s)
    decreases |s|
  {
    if |s| == 0 then 0
    else DigitsValue(s[..|s| - 1]) * 10 + DigitValue(s[|s| - 1])
  }

  /** `String(n)` for a non-negative integer: shortest decimal form. */
  function NatToString(n: nat): (s: string)
    decreases n
  {
    if n < 10 then [DigitChar(n)]
    else NatToString(n / 10) + [DigitChar(n % 10)]
  }

  /** `String(i)` for any integer. */
  function IntToString(i: int): string
  {
    if i < 0 then "-" + NatToString(-i) else NatToString(i)
  }

  /** `String(x)` for a JavaScript number of this model. */
  function JsNumToString(x: JsNum): string
  {
    match x
    case NaN => "NaN"
    case Num(v) => IntToString(v)
  }

  /** JavaScript `a - b`; `NaN` is absorbing. */
  function Sub(a: JsNum, b: JsNum): JsNum
  {
    if a.Num? && b.Num? then Num(a.v - b.v) else NaN
  }

  /** JavaScript `a + b` on numbers; `NaN` is absorbing. */
  function Add(a: JsNum, b: JsNum): JsNum
  {
    if a.Num? && b.Num? then Num(a.v + b.v) else NaN
  }

  /** `n.toString().padStart(2, '0')`. */
  function Pad2(n: nat): string
  {
    if n < 10 then "0" + NatToString(n) else NatToString(n)
  }

  /** White space and line terminators as ECMAScript's `StrWhiteSpaceChar`
      and the regular-expression class `\s` define them. */
  predicate IsJsWhitespace(c: char)
  {
    c == '\t' || c == '\n' || c == '\U{000B}' || c == '\U{000C}' || c == '\r' || c == ' '
    || c == '\U{00A0}' || c == '\U{1680}' || ('\U{2000}' <= c <= '\U{200A}')
    || c == '\U{2028}' || c == '\U{2029}' || c == '\U{202F}' || c == '\U{205F}'
    || c == '\U{3000}' || c == '\U{FEFF}'
  }

  function TrimStart(s: string): (t: string)
    ensures |t| <= |s|
    decreases |s|
  {
    if |s| > 0 && IsJsWhitespace(s[0]) then TrimStart(s[1..]) else s
  }

  /** The longest prefix of `s` made of decimal digits. */
  function DigitPrefix(s: string): (d: string)
    ensures AllDigits(d) && |d| <= |s|
    decreases |s|
  {
    if |s| > 0 && IsDigit(s[0]) then [s[0]] + DigitPrefix(s[1..]) else ""
  }

  /** `parseInt(s, 10)`. */
  function ParseInt(s: string): JsNum
  {
    var t := TrimStart(s);
    var negative := |t| > 0 && t[0] == '-';
    var u := if |t| > 0 && (t[0] == '-' || t[0] == '+') then t[1..] else t;
    var d := DigitPrefix(u);
    if |d| == 0 then NaN
    else if negative then Num(-(DigitsValue(d) as int))
    else Num(DigitsValue(d))
  }

  /** `parseInt` never yields a negative number from text without a `-`. */
  lemma ParseIntWithoutMinus(s: string)
    requires '-' !in s
    ensures ParseInt(s).Num? ==> ParseInt(s).v >= 0
  {
    var t := TrimStart(s);
    TrimStartIsSuffix(s);
    if |t| > 0 {
      assert t[0] == s[|s| - |t|];
    }
  }

  lemma {:induction false} TrimStartIsSuffix(s: string)
    ensures TrimStart(s) == s[|s| - |TrimStart(s)|..]
    decreases |s|
  {
    if |s| > 0 && IsJsWhitespace(s[0]) {
      TrimStartIsSuffix(s[1..]);
    }
  }

  /** The decimal form of `n` is a non-empty string of digits with no '-'. */
  lemma {:induction false} NatToStringDigits(n: nat)
    ensures |NatToString(n)| >= 1 && AllDigits(NatToString(n))
    ensures '-' !in NatToString(n)
    decreases n
  {
    if n >= 10 {
      NatToStringDigits(n / 10);
    }
  }

  /** Reading back the decimal form of `n` gives `n`. */
  lemma {:induction false} NatToStringValue(n: nat)
    ensures AllDigits(NatToString(n)) && DigitsValue(NatToString(n)) == n
    decreases n
  {
    NatToStringDigits(n);
    if n >= 10 {
      NatToStringValue(n / 10);
      var s := NatToString(n);
      assert s[..|s| - 1] == NatToString(n / 10);
    }
  }

  lemma {:induction false} DigitPrefixOfDigits(s: string)
    requires AllDigits(s)
    ensures DigitPrefix(s) == s
    decreases |s|
  {
    if |s| > 0 {
      DigitPrefixOfDigits(s[1..]);
      assert [s[0]] + s[1..] == s;
    }
  }

  /** `parseInt` of a non-empty digit string is its value. */
  lemma ParseIntOfDigits(s: string)
    requires |s| >= 1 && AllDigits(s)
    ensures ParseInt(s) == Num(DigitsValue(s))
  {
    assert !IsJsWhitespace(s[0]);
    DigitPrefixOfDigits(s);
  }

  /** Round trip: `parseInt(String(n), 10) === n`. */
  lemma ParseIntOfNatToString(n: nat)
    ensures ParseInt(NatToString(n)) == Num(n)
  {
    NatToStringDigits(n);
    NatToStringValue(n);
    ParseIntOfDigits(NatToString(n));
  }

  /** Round trip through `padStart(2, '0')`: the padding zero is harmless. */
  lemma ParseIntOfPad2(n: nat)
    ensures ParseInt(Pad2(n)) == Num(n)
    ensures |Pad2(n)| >= 2 && AllDigits(Pad2(n)) && '-' !in Pad2(n)
    ensures DigitsValue(Pad2(n)) == n
    ensures n < 100 ==> |Pad2(n)| == 2
  {
    NatToStringDigits(n);
    NatToStringValue(n);
    if n < 10 {
      var s := Pad2(n);
      assert s == ['0', DigitChar(n)];
      assert s[..1] == "0";
      assert DigitsValue(s) == n;
      ParseIntOfDigits(s);
    } else {
      assert NatToString(n) == NatToString(n / 10) + [DigitChar(n % 10)];
      NatToStringDigits(n / 10);
      ParseIntOfDigits(NatToString(n));
    }
  }

  /** Four-digit numbers print as four characters. */
  lemma NatToStringLength4(n: nat)
    requires 1000 <= n <= 9999
    ensures |NatToString(n)| == 4
  {
    var a := n / 10;
    assert 100 <= a <= 999;
    var b := a / 10;
    assert 10 <= b <= 99;
    var c := b / 10;
    assert 1 <= c <= 9;
    assert |NatToString(c)| == 1;
    assert |NatToString(b)| == 2;
    assert |NatToString(a)| == 3;
  }

  function Pow10(n: nat): (p: nat)
    ensures p >= 1
  {
    if n == 0 then 1 else 10 * Pow10(n - 1)
  }

  /** A digit string with a leading zero reads less than `10^(|s|-1)`. */
  lemma {:induction false} LeadingZeroBound(s: string)
    requires |s| >= 1 && AllDigits(s) && s[0] == '0'
    ensures DigitsValue(s) < Pow10(|s| - 1)
    decreases |s|
  {
    var t := s[..|s| - 1];
    if |s| >= 2 {
      assert t[0] == '0';
      LeadingZeroBound(t);
      assert DigitsValue(s) == DigitsValue(t) * 10 + DigitValue(s[|s| - 1]);
    } else {
      assert t == "";
    }
  }

  /** A digit string without a leading zero reads at least `10^(|s|-1)`. */
  lemma {:induction false} LeadingDigitBound(s: string)
    requires |s| >= 1 && AllDigits(s) && s[0] != '0'
    ensures DigitsValue(s) >= Pow10(|s| - 1)
    decreases |s|
  {
    var t := s[..|s| - 1];
    if |s| >= 2 {
      assert t[0] != '0';
      LeadingDigitBound(t);
      assert DigitsValue(s) == DigitsValue(t) * 10 + DigitValue(s[|s| - 1]);
    } else {
      assert t == "";
    }
  }

  lemma DigitCharOfValue(c: char)
    requires IsDigit(c)
    ensures DigitChar(DigitValue(c)) == c
  {
    var e := DigitChar(DigitValue(c));
    assert DigitValue(e) == DigitValue(c);
  }

  /** Round trip the other way: a digit string without a superfluous
      leading zero is the decimal form of its value. */
  lemma {:induction false} NatToStringOfDigits(s: string)
    requires |s| >= 1 && AllDigits(s) && (|s| == 1 || s[0] != '0')
    ensures NatToString(DigitsValue(s)) == s
    decreases |s|
  {
    var t, c := s[..|s| - 1], s[|s| - 1];
    DigitCharOfValue(c);
    if |s| == 1 {
      assert t == "";
      assert s == [c];
    } else {
      assert t[0] != '0';
      NatToStringOfDigits(t);
      LeadingDigitBound(t);
      var n := DigitsValue(s);
      assert n == DigitsValue(t) * 10 + DigitValue(c);
      assert n / 10 == DigitsValue(t) && n % 10 == DigitValue(c);
      assert s == t + [c];
    }
  }

  /** `padStart(2, '0')` of the value of a one- or two-digit field: the
      field itself, padded with a zero when it has one digit. */
  lemma Pad2OfDigits(s: string)
    requires 1 <= |s| <= 2 && AllDigits(s)
    ensures Pad2(DigitsValue(s)) == if |s| == 1 then "0" + s else s
  {
    if |s| == 1 {
      NatToStringOfDigits(s);
      assert s[..0] == "";
    } else if s[0] == '0' {
      LeadingZeroBound(s);
      var u := s[1..];
      assert s[..1] == "0" && s[..1][..0] == "";
      assert DigitsValue(s) == DigitValue(s[1]);
      assert DigitsValue(u) == DigitValue(s[1]) by {
        assert u[..0] == "";
      }
      NatToStringOfDigits(u);
      assert s == "0" + u;
    } else {
      LeadingDigitBound(s);
      NatToStringOfDigits(s);
    }
  }

  /** A four-digit field worth at least 1000 is the decimal form of its value. */
  lemma YearOfDigits(s: string)
    requires |s| == 4 && AllDigits(s) && DigitsValue(s) >= 1000
    ensures NatToString(DigitsValue(s)) == s
  {
    assert Pow10(3) == 1000;
    if s[0] == '0' {
      LeadingZeroBound(s);
      assert false;
    } else {
      NatToStringOfDigits(s);
    }
  }

  /** Different numbers have different decimal forms. */
  lemma NatToStringInjective(a: nat, b: nat)
    requires NatToString(a) == NatToString(b)
    ensures a == b
  {
    ParseIntOfNatToString(a);
    ParseIntOfNatToString(b);
  }
}
