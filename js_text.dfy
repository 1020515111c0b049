/**
 * The parts of JavaScript's string semantics that the page relies on:
 * the white-space set of `trim()` and `parseInt`, trimming a run of
 * characters from both ends, `toLowerCase()`, and the decimal rendering of
 * a non-negative integer in a template string.
 */
module JsText {

  /** ECMAScript WhiteSpace and LineTerminator code points. */
  predicate IsJsSpace(c: char) {
    c == '\t' || c == '\n' || c == '\U{B}' || c == '\U{C}' || c == '\r' || c == ' '
    || c == '\U{A0}' || c == '\U{1680}' || ('\U{2000}' <= c <= '\U{200A}')
    || c == '\U{2028}' || c == '\U{2029}' || c == '\U{202F}' || c == '\U{205F}'
    || c == '\U{3000}' || c == '\U{FEFF}'
  }

  predicate IsDigit(c: char) { '0' <= c <= '9' }

  predicate IsHyphen(c: char) { c == '-' }

  /** Length of the longest prefix of `s` whose characters all satisfy `p`. */
  function Span(s: string, p: char -> bool): (n: nat)
    ensures n <= |s|
    ensures forall i :: 0 <= i < n ==> p(s[i])
    ensures n < |s| ==> !p(s[n])
  {
    if s == [] || !p(s[0]) then 0 else 1 + Span(s[1..], p)
  }

  /** The span stops where the first character failing `p` is. */
  lemma {:induction false} SpanAppend(a: string, b: string, p: char -> bool)
    requires forall i :: 0 <= i < |a| ==> p(a[i])
    requires |b| > 0 && !p(b[0])
    ensures Span(a + b, p) == |a|
  {
    if a == [] {
      assert a + b == b;
    } else {
      assert (a + b)[0] == a[0];
      assert (a + b)[1..] == a[1..] + b;
      SpanAppend(a[1..], b, p);
    }
  }

  /** A span that stops inside `a` stops at the same place in `a + b`. */
  lemma {:induction false} SpanStopsInside(a: string, b: string, p: char -> bool)
    requires Span(a, p) < |a|
    ensures Span(a + b, p) == Span(a, p)
  {
    assert (a + b)[0] == a[0];
    if p(a[0]) {
      assert (a + b)[1..] == a[1..] + b;
      SpanStopsInside(a[1..], b, p);
    }
  }

  /** A text whose characters all satisfy `p` is its own span. */
  lemma SpanOfAll(s: string, p: char -> bool)
    requires forall i :: 0 <= i < |s| ==> p(s[i])
    ensures Span(s, p) == |s|
  {
  }

  /** Length of the longest suffix of `s` whose characters all satisfy `p`. */
  function SpanEnd(s: string, p: char -> bool): (n: nat)
    ensures n <= |s|
    ensures forall i :: |s| - n <= i < |s| ==> p(s[i])
    ensures n < |s| ==> !p(s[|s| - 1 - n])
  {
    if s == [] || !p(s[|s| - 1]) then 0 else 1 + SpanEnd(s[..|s| - 1], p)
  }

  /**
   * `s` with the longest leading and the longest trailing run of characters
   * satisfying `p` removed: `trim()` for white space, `replace(/^-+|-+$/g, "")`
   * for hyphens.
   */
  function Strip(s: string, p: char -> bool): (r: string)
    ensures (|r| == 0) <==> (forall i :: 0 <= i < |s| ==> p(s[i]))
    ensures |r| > 0 ==> !p(r[0]) && !p(r[|r| - 1])
    ensures Span(s, p) + |r| <= |s|
    ensures forall i :: 0 <= i < |r| ==> r[i] == s[Span(s, p) + i]
    ensures forall i :: Span(s, p) + |r| <= i < |s| ==> p(s[i])
  {
    var a := Span(s, p);
    var t := s[a..];
    var b := |t| - SpanEnd(t, p);
    assert b == 0 ==> a == |s|;
    t[..b]
  }

  /** `s` is its stripped part between the leading run and the trailing run. */
  lemma StripSplits(s: string, p: char -> bool)
    ensures Span(s, p) + |Strip(s, p)| <= |s|
    ensures s == s[..Span(s, p)] + Strip(s, p) + s[Span(s, p) + |Strip(s, p)|..]
  {
    var a := Span(s, p);
    var t := s[a..];
    var b := |t| - SpanEnd(t, p);
    assert Strip(s, p) == s[a..a + b] by {
      assert Strip(s, p) == t[..b];
      assert t[..b] == s[a..a + b];
    }
    SplitThree(s, a, a + b);
  }

  lemma SplitThree(s: string, a: nat, e: nat)
    requires a <= e <= |s|
    ensures s == s[..a] + s[a..e] + s[e..]
  {
  }

  lemma Associative(a: string, b: string, c: string)
    ensures a + b + c == a + (b + c)
  {
  }

  /** `s.trim()`. */
  function Trim(s: string): (r: string)
    ensures |r| == 0 <==> forall i :: 0 <= i < |s| ==> IsJsSpace(s[i])
    ensures |r| > 0 ==> !IsJsSpace(r[0]) && !IsJsSpace(r[|r| - 1])
    ensures |r| <= |s|
  {
    Strip(s, IsJsSpace)
  }

  /** `s` with its leading white space removed, as `parseInt` first does. */
  function TrimStart(s: string): (r: string)
    ensures |r| > 0 ==> !IsJsSpace(r[0])
    ensures exists a :: 0 <= a <= |s| && r == s[a..] && forall i :: 0 <= i < a ==> IsJsSpace(s[i])
  {
    s[Span(s, IsJsSpace)..]
  }

  /**
   * Lower case of one character, as far as ASCII letters are concerned:
   * 'A'..'Z' map to 'a'..'z', and the two non-ASCII characters whose lower
   * case contains an ASCII letter (KELVIN SIGN, and LATIN CAPITAL LETTER I
   * WITH DOT ABOVE) map to it. Every other character is kept as it is.
   */
  function LowerChar(c: char): (r: string)
    ensures |r| > 0
    ensures forall i :: 0 <= i < |r| ==> !('A' <= r[i] <= 'Z')
    ensures c != '\U{212A}' && c != '\U{130}' && !('A' <= c <= 'Z') ==> r == [c]
  {
    if 'A' <= c <= 'Z' then [(c as int + 32) as char]
    else if c == '\U{212A}' then "k"
    else if c == '\U{130}' then "i\U{307}"
    else [c]
  }

  /** `s.toLowerCase()`, under the assumptions of LowerChar. */
  function ToLowerCase(s: string): (r: string)
    ensures forall i :: 0 <= i < |r| ==> !('A' <= r[i] <= 'Z')
    ensures |r| >= |s|
  {
    if s == [] then [] else LowerChar(s[0]) + ToLowerCase(s[1..])
  }

  function DigitChar(d: nat): (c: char)
    requires d < 10
    ensures IsDigit(c)
  {
    "0123456789"[d]
  }

  function DigitValue(c: char): (d: nat)
    requires IsDigit(c)
    ensures d < 10 && DigitChar(d) == c
  {
    c as int - '0' as int
  }

  /**
   * The text a template string gives a non-negative integer: its decimal
   * digits, with no leading zero unless the number is 0.
   */
  function Decimal(n: nat): (r: string)
    ensures |r| > 0
    ensures forall i :: 0 <= i < |r| ==> IsDigit(r[i])
    ensures r[0] == '0' ==> n == 0
  {
    if n < 10 then [DigitChar(n)] else Decimal(n / 10) + [DigitChar(n % 10)]
  }

  /** The number a run of decimal digits denotes, most significant first. */
  function DecimalValue(s: string): nat
    requires forall i :: 0 <= i < |s| ==> IsDigit(s[i])
  {
    if s == [] then 0 else DecimalValue(s[..|s| - 1]) * 10 + DigitValue(s[|s| - 1])
  }

  /** Reading back the decimal rendering of `n` gives `n`. */
  lemma {:induction false} DecimalRoundTrip(n: nat)
    ensures DecimalValue(Decimal(n)) == n
  {
    var s := Decimal(n);
    if n >= 10 {
      DecimalRoundTrip(n / 10);
      assert s[..|s| - 1] == Decimal(n / 10);
      assert DigitValue(DigitChar(n % 10)) == n % 10;
    }
  }

  /** `toLowerCase` distributes over concatenation. */
  lemma {:induction false} ToLowerCaseAppend(a: string, b: string)
    ensures ToLowerCase(a + b) == ToLowerCase(a) + ToLowerCase(b)
  {
    if a != [] {
      assert (a + b)[0] == a[0];
      assert (a + b)[1..] == a[1..] + b;
      ToLowerCaseAppend(a[1..], b);
    } else {
      assert a + b == b;
    }
  }

  /**
   * Away from the two special characters, `toLowerCase` keeps the length
   * and maps each of 'A'..'Z' to its lower-case letter, 32 code points on,
   * and every other character to itself.
   */
  lemma {:induction false} ToLowerCaseAscii(s: string)
    requires forall i :: 0 <= i < |s| ==> s[i] != '\U{212A}' && s[i] != '\U{130}'
    ensures |ToLowerCase(s)| == |s|
    ensures forall i :: 0 <= i < |s| ==>
      ToLowerCase(s)[i] == if 'A' <= s[i] <= 'Z' then (s[i] as int + 32) as char else s[i]
  {
    if s != [] {
      ToLowerCaseAscii(s[1..]);
      var r := ToLowerCase(s);
      assert r == LowerChar(s[0]) + ToLowerCase(s[1..]);
      forall i | 0 <= i < |s|
        ensures r[i] == if 'A' <= s[i] <= 'Z' then (s[i] as int + 32) as char else s[i]
      {
        if i > 0 {
          assert r[i] == ToLowerCase(s[1..])[i - 1];
          assert s[i] == s[1..][i - 1];
        }
      }
    }
  }

  /** A string with no ASCII upper-case letter and none of the two special characters is its own lower case. */
  lemma {:induction false} ToLowerCaseFixed(s: string)
    requires forall i :: 0 <= i < |s| ==> !('A' <= s[i] <= 'Z') && s[i] != '\U{212A}' && s[i] != '\U{130}'
    ensures ToLowerCase(s) == s
  {
    if s != [] {
      ToLowerCaseFixed(s[1..]);
      assert s == [s[0]] + s[1..];
    }
  }
}
