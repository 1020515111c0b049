/**
 * The colour helpers of app/src/pages/index.tsx: `hexToRgb`, which reads a
 * `#RRGGBB` colour through `parseInt(…, 16)` and splits the number into its
 * three 8-bit channels with shifts and masks, and `alphaColor`, which
 * writes those channels out as `rgba(r, g, b, alpha)`.
 */
module Colors {
  import opened Options
  import JsText

  predicate IsHexDigit(c: char) {
    '0' <= c <= '9' || 'a' <= c <= 'f' || 'A' <= c <= 'F'
  }

  predicate AllHex(s: string) {
    forall i :: 0 <= i < |s| ==> IsHexDigit(s[i])
  }

  function HexDigitValue(c: char): (v: nat)
    requires IsHexDigit(c)
    ensures v < 16
  {
    if '0' <= c <= '9' then c as int - '0' as int
    else if 'a' <= c <= 'f' then c as int - 'a' as int + 10
    else c as int - 'A' as int + 10
  }

  /** The lower-case hexadecimal digit of `v`. */
  function HexChar(v: nat): (c: char)
    requires v < 16
    ensures IsHexDigit(c) && HexDigitValue(c) == v
    ensures !('A' <= c <= 'F')
  {
    if v < 10 then ('0' as int + v) as char else ('a' as int + v - 10) as char
  }

  function Pow16(n: nat): (p: nat)
    ensures p > 0
  {
    if n == 0 then 1 else 16 * Pow16(n - 1)
  }

  /** The number a run of hexadecimal digits denotes, most significant first. */
  function HexValue(s: string): (v: nat)
    requires AllHex(s)
    ensures v < Pow16(|s|)
  {
    if s == [] then 0
    else
      var init := HexValue(s[..|s| - 1]);
      var d := HexDigitValue(s[|s| - 1]);
      assert init * 16 + d < Pow16(|s|) by {
        assert init + 1 <= Pow16(|s| - 1);
        assert (init + 1) * 16 <= Pow16(|s| - 1) * 16;
      }
      init * 16 + d
  }

  /** Index of the first occurrence of `c` in `s` (`String.prototype.indexOf`). */
  function IndexOf(s: string, c: char): (r: Option<nat>)
    ensures r.None? <==> c !in s
    ensures r.Some? ==> r.value < |s| && s[r.value] == c && c !in s[..r.value]
  {
    if s == [] then None
    else if s[0] == c then Some(0)
    else
      match IndexOf(s[1..], c)
      case None => None
      case Some(i) =>
        assert s[1..][..i] == s[1..i + 1];
        Some(i + 1)
  }

  /** `s.replace(c, "")` for a one-character string pattern: only the first occurrence goes. */
  function RemoveFirst(s: string, c: char): (r: string)
    ensures c !in s ==> r == s
    ensures c in s ==> |r| == |s| - 1
    ensures c in s ==> exists i :: 0 <= i < |s| && s[i] == c && c !in s[..i] && r == s[..i] + s[i + 1..]
  {
    match IndexOf(s, c)
    case None => s
    case Some(i) =>
      assert s[i] == c && c !in s[..i];
      s[..i] + s[i + 1..]
  }

  /** The result of `parseInt`: a number, or NaN when no digit could be read. */
  datatype Parsed = NaN | Value(n: int)

  /**
   * `parseInt(s, 16)`: skip leading white space, take an optional sign and an
   * optional `0x`/`0X`, then read the longest run of hexadecimal digits; no
   * digit at all gives NaN.
   */
  function ParseHexInt(s: string): (r: Parsed)
    ensures s == [] ==> r.NaN?
    ensures r.Value? ==> r.n < Pow16(|s|) && -r.n < Pow16(|s|)
  {
    var t := JsText.TrimStart(s);
    var negative := |t| > 0 && t[0] == '-';
    var u := if |t| > 0 && (t[0] == '-' || t[0] == '+') then t[1..] else t;
    var w := if |u| >= 2 && u[0] == '0' && (u[1] == 'x' || u[1] == 'X') then u[2..] else u;
    var digits := w[..JsText.Span(w, IsHexDigit)];
    if digits == [] then NaN
    else
      var magnitude: int := HexValue(digits);
      assert magnitude < Pow16(|s|) by {
        Pow16Monotonic(|digits|, |s|);
      }
      Value(if negative then -magnitude else magnitude)
  }

  lemma {:induction false} Pow16Monotonic(m: nat, n: nat)
    requires m <= n
    ensures Pow16(m) <= Pow16(n)
    decreases n
  {
    if m < n {
      Pow16Monotonic(m, n - 1);
    }
  }

  /** The number a bitwise operator sees: NaN counts as 0. */
  function AsInteger(p: Parsed): int {
    match p
    case NaN => 0
    case Value(n) => n
  }

  const TwoTo32: int := 0x1_0000_0000

  /** ECMAScript ToInt32 on an integral Number (or NaN): wrap into the signed 32-bit range. */
  function ToInt32(p: Parsed): (x: int)
    ensures -0x8000_0000 <= x < 0x8000_0000
    ensures (x - AsInteger(p)) % TwoTo32 == 0
  {
    var n := AsInteger(p);
    var x := (n + 0x8000_0000) % TwoTo32 - 0x8000_0000;
    assert n + 0x8000_0000 == (n + 0x8000_0000) / TwoTo32 * TwoTo32 + (n + 0x8000_0000) % TwoTo32;
    assert x - n == -((n + 0x8000_0000) / TwoTo32) * TwoTo32;
    x
  }

  datatype Rgb = Rgb(r: nat, g: nat, b: nat)

  predicate IsChannelTriple(c: Rgb) {
    c.r < 256 && c.g < 256 && c.b < 256
  }

  /**
   * `(x >> 16) & 255`, `(x >> 8) & 255` and `x & 255` on a signed 32-bit
   * `x`: `>> k` is floor division by 2^k and `& 255` the non-negative
   * remainder modulo 256, which is what Dafny's `/` and `%` compute for a
   * positive divisor.
   */
  function MaskedShifts(x: int): (c: Rgb)
    ensures IsChannelTriple(c)
    ensures c.r * 65536 + c.g * 256 + c.b == x % 0x100_0000
  {
    ChannelsOfLow24(x);
    Rgb((x / 65536) % 256, (x / 256) % 256, x % 256)
  }

  /** `hexToRgb(hex)`: drop the first `#`, parse the rest in base 16, and take the masked shifts. */
  function HexToRgb(hex: string): (c: Rgb)
    ensures IsChannelTriple(c)
    ensures c.r * 65536 + c.g * 256 + c.b == AsInteger(ParseHexInt(RemoveFirst(hex, '#'))) % 0x100_0000
  {
    var p := ParseHexInt(RemoveFirst(hex, '#'));
    MaskedLow24(p);
    MaskedShifts(ToInt32(p))
  }

  /** The masked shifts of the 32-bit wrap of a parsed number keep its low 24 bits. */
  lemma MaskedLow24(p: Parsed)
    ensures var c := MaskedShifts(ToInt32(p));
      c.r * 65536 + c.g * 256 + c.b == AsInteger(p) % 0x100_0000
  {
    WrapKeepsLow24(ToInt32(p), AsInteger(p));
  }

  /** The template `rgba(${r}, ${g}, ${b}, ${alpha})`, the alpha kept as the text it renders to. */
  function RgbaText(c: Rgb, alpha: string): (r: string)
    ensures |r| >= 6 + |alpha| && r[..5] == "rgba("
    ensures r[|r| - |alpha| - 1..] == alpha + ")"
  {
    "rgba(" + JsText.Decimal(c.r) + ", " + JsText.Decimal(c.g) + ", " + JsText.Decimal(c.b) + ", " + alpha + ")"
  }

  /**
   * `alphaColor(hex, alpha)`. For a `#RRGGBB` colour the text carries the
   * values of the three digit pairs.
   */
  function AlphaColor(hex: string, alpha: string): (r: string)
    ensures IsHexColor(hex) ==> AllHex(hex[1..3]) && AllHex(hex[3..5]) && AllHex(hex[5..7])
    ensures IsHexColor(hex) ==>
      r == RgbaText(Rgb(HexValue(hex[1..3]), HexValue(hex[3..5]), HexValue(hex[5..7])), alpha)
  {
    if IsHexColor(hex) then SixDigitChannels(hex); RgbaText(HexToRgb(hex), alpha)
    else RgbaText(HexToRgb(hex), alpha)
  }

  // ---------------------------------------------------------------------
  // Arithmetic facts behind HexToRgb

  lemma MulAtLeast(d: int, m: int)
    requires d >= 1 && m > 0
    ensures d * m >= m
  {
    var k := d - 1;
    assert d * m == k * m + m;
    assert k * m >= 0;
  }

  lemma DivModUnique(x: int, m: int, q: int, r: int)
    requires m > 0 && 0 <= r < m && x == q * m + r
    ensures x / m == q && x % m == r
  {
    var q0, r0 := x / m, x % m;
    assert x == q0 * m + r0;
    var d := q - q0;
    assert d * m == r0 - r;
    if d > 0 {
      MulAtLeast(d, m);
      assert false;
    } else if d < 0 {
      MulAtLeast(-d, m);
      assert false;
    }
  }

  /** A number below 2^24 has one base-256 representation. */
  lemma Base256Unique(r1: nat, g1: nat, b1: nat, r2: nat, g2: nat, b2: nat)
    requires r1 < 256 && g1 < 256 && b1 < 256 && r2 < 256 && g2 < 256 && b2 < 256
    requires r1 * 65536 + g1 * 256 + b1 == r2 * 65536 + g2 * 256 + b2
    ensures r1 == r2 && g1 == g2 && b1 == b2
  {
    var v := r1 * 65536 + g1 * 256 + b1;
    assert v == (r1 * 256 + g1) * 256 + b1;
    assert v == (r2 * 256 + g2) * 256 + b2;
    DivModUnique(v, 256, r1 * 256 + g1, b1);
    DivModUnique(v, 256, r2 * 256 + g2, b2);
    DivModUnique(r1 * 256 + g1, 256, r1, g1);
    DivModUnique(r2 * 256 + g2, 256, r2, g2);
  }

  /** The three masked shifts of `x` are the base-256 digits of its low 24 bits. */
  lemma ChannelsOfLow24(x: int)
    ensures (x / 65536) % 256 * 65536 + (x / 256) % 256 * 256 + x % 256 == x % 0x100_0000
  {
    var q, b := x / 256, x % 256;
    var q2, g := q / 256, q % 256;
    var q3, r := q2 / 256, q2 % 256;
    assert x == q * 256 + b;
    assert q == q2 * 256 + g;
    assert q2 == q3 * 256 + r;
    assert x == q2 * 65536 + (g * 256 + b);
    DivModUnique(x, 65536, q2, g * 256 + b);
    assert x == q3 * 0x100_0000 + (r * 65536 + g * 256 + b);
    DivModUnique(x, 0x100_0000, q3, r * 65536 + g * 256 + b);
  }

  /** Wrapping modulo 2^32 leaves the low 24 bits alone. */
  lemma WrapKeepsLow24(x: int, n: int)
    requires (x - n) % TwoTo32 == 0
    ensures x % 0x100_0000 == n % 0x100_0000
  {
    var k := (x - n) / TwoTo32;
    assert x - n == k * TwoTo32;
    var q := n / 0x100_0000;
    var r := n % 0x100_0000;
    assert n == q * 0x100_0000 + r;
    assert x == (q + k * 256) * 0x100_0000 + r;
    DivModUnique(x, 0x100_0000, q + k * 256, r);
  }

  // ---------------------------------------------------------------------
  // Six-digit colours

  /** A `#RRGGBB` colour, as every palette accent is written. */
  predicate IsHexColor(hex: string) {
    |hex| == 7 && hex[0] == '#' && AllHex(hex[1..])
  }

  /** HexValue of a concatenation: the first part shifted by the second's digits. */
  lemma {:induction false} HexValueAppend(a: string, b: string)
    requires AllHex(a) && AllHex(b)
    ensures AllHex(a + b)
    ensures HexValue(a + b) == HexValue(a) * Pow16(|b|) + HexValue(b)
  {
    assert AllHex(a + b) by {
      forall i | 0 <= i < |a + b| ensures IsHexDigit((a + b)[i]) {
        if i < |a| { assert (a + b)[i] == a[i]; } else { assert (a + b)[i] == b[i - |a|]; }
      }
    }
    if b == [] {
      assert a + b == a;
    } else {
      var b' := b[..|b| - 1];
      var d := HexDigitValue(b[|b| - 1]);
      assert (a + b)[..|a + b| - 1] == a + b';
      assert (a + b)[|a + b| - 1] == b[|b| - 1];
      HexValueAppend(a, b');
      assert b[..|b| - 1] == b';
      assert Pow16(|b|) == 16 * Pow16(|b'|);
      ShiftDigit(HexValue(a), Pow16(|b'|), HexValue(b'), d);
    }
  }

  lemma ShiftDigit(a: int, p: int, b: int, d: int)
    ensures (a * p + b) * 16 + d == a * (16 * p) + (b * 16 + d)
  {
  }

  lemma HexValuePair(s: string)
    requires |s| == 2 && AllHex(s)
    ensures HexValue(s) == HexDigitValue(s[0]) * 16 + HexDigitValue(s[1])
  {
    assert s[..1][..0] == [];
    assert s[..1] == [s[0]];
  }

  lemma HexDigitNotSpace(c: char)
    requires IsHexDigit(c)
    ensures !JsText.IsJsSpace(c) && c != '-' && c != '+' && c != 'x' && c != 'X'
  {
  }

  /** parseInt reads a plain run of hexadecimal digits as its value. */
  lemma ParseHexDigits(s: string)
    requires |s| > 0 && AllHex(s)
    ensures ParseHexInt(s) == Value(HexValue(s))
  {
    HexDigitNotSpace(s[0]);
    assert JsText.Span(s, JsText.IsJsSpace) == 0;
    assert JsText.TrimStart(s) == s;
    if |s| >= 2 {
      HexDigitNotSpace(s[1]);
    }
    assert JsText.Span(s, IsHexDigit) == |s|;
    assert s[..|s|] == s;
  }

  /**
   * For a `#RRGGBB` colour the channels are the values of the pairs RR, GG
   * and BB, and they recompose to the parsed 24-bit number.
   */
  lemma SixDigitChannels(hex: string)
    requires IsHexColor(hex)
    ensures AllHex(hex[1..3]) && AllHex(hex[3..5]) && AllHex(hex[5..7])
    ensures HexToRgb(hex) == Rgb(HexValue(hex[1..3]), HexValue(hex[3..5]), HexValue(hex[5..7]))
    ensures HexToRgb(hex).r * 65536 + HexToRgb(hex).g * 256 + HexToRgb(hex).b == HexValue(hex[1..])
  {
    ParseSixDigits(hex);
    SixDigitValue(hex);
    var c := HexToRgb(hex);
    Low24Channels(c, HexValue(hex[1..]), AsInteger(ParseHexInt(RemoveFirst(hex, '#'))));
    Base256Unique(c.r, c.g, c.b, HexValue(hex[1..3]), HexValue(hex[3..5]), HexValue(hex[5..7]));
  }

  lemma Low24Channels(c: Rgb, v: int, n: int)
    requires 0 <= v < 0x100_0000 && n == v
    requires c.r * 65536 + c.g * 256 + c.b == n % 0x100_0000
    ensures c.r * 65536 + c.g * 256 + c.b == v
  {
    DivModUnique(v, 0x100_0000, 0, v);
  }

  /** The first `#` of a `#RRGGBB` colour goes, and parseInt reads the six digits. */
  lemma ParseSixDigits(hex: string)
    requires IsHexColor(hex)
    ensures ParseHexInt(RemoveFirst(hex, '#')) == Value(HexValue(hex[1..]))
  {
    assert IndexOf(hex, '#') == Some(0);
    assert RemoveFirst(hex, '#') == hex[1..];
    ParseHexDigits(hex[1..]);
  }

  lemma Pow16Values()
    ensures Pow16(2) == 256 && Pow16(6) == 0x100_0000
  {
    assert Pow16(1) == 16;
    assert Pow16(2) == 256;
    assert Pow16(3) == 4096;
    assert Pow16(4) == 65536;
    assert Pow16(5) == 0x10_0000;
  }

  lemma Expand(r: int, g: int, b: int)
    ensures (r * 256 + g) * 256 + b == r * 65536 + g * 256 + b
  {
  }

  /** The six digits of a `#RRGGBB` colour are three base-256 digits, two hex digits each. */
  lemma SixDigitValue(hex: string)
    requires IsHexColor(hex)
    ensures AllHex(hex[1..3]) && AllHex(hex[3..5]) && AllHex(hex[5..7])
    ensures HexValue(hex[1..]) == HexValue(hex[1..3]) * 65536 + HexValue(hex[3..5]) * 256 + HexValue(hex[5..7])
    ensures HexValue(hex[1..]) < 0x100_0000
    ensures HexValue(hex[1..3]) < 256 && HexValue(hex[3..5]) < 256 && HexValue(hex[5..7]) < 256
  {
    var rr, gg, bb := hex[1..3], hex[3..5], hex[5..7];
    assert hex[1..] == (rr + gg) + bb;
    assert AllHex(rr) && AllHex(gg) && AllHex(bb) by {
      assert forall i :: 0 <= i < 2 ==> rr[i] == hex[i + 1] && gg[i] == hex[i + 3] && bb[i] == hex[i + 5];
    }
    Pow16Values();
    HexValueAppend(rr, gg);
    HexValueAppend(rr + gg, bb);
    Expand(HexValue(rr), HexValue(gg), HexValue(bb));
  }

  // ---------------------------------------------------------------------
  // The inverse direction: channels back to `#rrggbb`

  function HexByte(n: nat): (s: string)
    requires n < 256
    ensures |s| == 2 && AllHex(s)
  {
    [HexChar(n / 16), HexChar(n % 16)]
  }

  /** The lower-case `#rrggbb` text of a channel triple. */
  function ToHex(c: Rgb): (hex: string)
    requires IsChannelTriple(c)
    ensures IsHexColor(hex)
  {
    var s := "#" + HexByte(c.r) + HexByte(c.g) + HexByte(c.b);
    assert s[1..] == HexByte(c.r) + HexByte(c.g) + HexByte(c.b);
    s
  }

  predicate IsLowerHexColor(hex: string) {
    IsHexColor(hex) && forall i :: 1 <= i < 7 ==> !('A' <= hex[i] <= 'F')
  }

  /** Writing a channel triple as `#rrggbb` and reading it back with hexToRgb gives the triple. */
  lemma RgbRoundTrip(c: Rgb)
    requires IsChannelTriple(c)
    ensures HexToRgb(ToHex(c)) == c
  {
    var hex := ToHex(c);
    SixDigitChannels(hex);
    assert hex[1..3] == HexByte(c.r);
    assert hex[3..5] == HexByte(c.g);
    assert hex[5..7] == HexByte(c.b);
    HexValuePair(HexByte(c.r));
    HexValuePair(HexByte(c.g));
    HexValuePair(HexByte(c.b));
  }

  /** Reading a lower-case `#rrggbb` colour and writing it back gives the same text. */
  lemma HexRoundTrip(hex: string)
    requires IsLowerHexColor(hex)
    ensures ToHex(HexToRgb(hex)) == hex
  {
    SixDigitChannels(hex);
    LowerPairs(hex);
    JoinPairs(hex);
  }

  /** Each digit pair of a lower-case `#rrggbb` colour is the HexByte of its value. */
  lemma LowerPairs(hex: string)
    requires IsLowerHexColor(hex)
    ensures AllHex(hex[1..3]) && AllHex(hex[3..5]) && AllHex(hex[5..7])
    ensures HexValue(hex[1..3]) < 256 && HexByte(HexValue(hex[1..3])) == hex[1..3]
    ensures HexValue(hex[3..5]) < 256 && HexByte(HexValue(hex[3..5])) == hex[3..5]
    ensures HexValue(hex[5..7]) < 256 && HexByte(HexValue(hex[5..7])) == hex[5..7]
  {
    PairRoundTrip(hex[1..3]);
    PairRoundTrip(hex[3..5]);
    PairRoundTrip(hex[5..7]);
  }

  lemma JoinPairs(hex: string)
    requires |hex| == 7 && hex[0] == '#'
    ensures hex == "#" + hex[1..3] + hex[3..5] + hex[5..7]
  {
  }

  lemma PairRoundTrip(pair: string)
    requires |pair| == 2 && AllHex(pair) && !('A' <= pair[0] <= 'F') && !('A' <= pair[1] <= 'F')
    ensures HexValue(pair) < 256 && HexByte(HexValue(pair)) == pair
  {
    HexValuePair(pair);
    var hi, lo := HexDigitValue(pair[0]), HexDigitValue(pair[1]);
    DivModUnique(HexValue(pair), 16, hi, lo);
    assert HexChar(hi) == pair[0] && HexChar(lo) == pair[1];
  }

  // ---------------------------------------------------------------------
  // Reading an `rgba(r, g, b, a)` text back

  /** A decimal channel followed by `", "`, and what comes after. */
  function ReadChannel(s: string): Option<(nat, string)> {
    var n := JsText.Span(s, JsText.IsDigit);
    if n == 0 || |s| < n + 2 || s[n..n + 2] != ", " then None
    else Some((JsText.DecimalValue(s[..n]), s[n + 2..]))
  }

  /** The channels and the alpha text of `rgba(r, g, b, a)`, or None when `s` has another shape. */
  function ParseRgba(s: string): Option<(Rgb, string)> {
    if |s| < 6 || s[..5] != "rgba(" || s[|s| - 1] != ')' then None
    else ParseChannels(s[5..|s| - 1])
  }

  /** `r, g, b, a` inside the parentheses. */
  function ParseChannels(body: string): Option<(Rgb, string)> {
    match ReadChannel(body)
    case None => None
    case Some((r, rest)) =>
      match ReadChannel(rest)
      case None => None
      case Some((g, rest')) =>
        match ReadChannel(rest')
        case None => None
        case Some((b, alpha)) => Some((Rgb(r, g, b), alpha))
  }

  lemma ParseWrapped(body: string)
    ensures ParseRgba("rgba(" + body + ")") == ParseChannels(body)
  {
    var s := "rgba(" + body + ")";
    assert s[..5] == "rgba(";
    assert s[5..|s| - 1] == body;
  }

  lemma ReadDecimalChannel(n: nat, rest: string)
    ensures ReadChannel(JsText.Decimal(n) + ", " + rest) == Some((n, rest))
  {
    var d := JsText.Decimal(n);
    var s := d + ", " + rest;
    JsText.SpanAppend(d, ", " + rest, JsText.IsDigit);
    assert s == d + (", " + rest);
    assert s[..|d|] == d;
    assert s[|d|..|d| + 2] == ", ";
    assert s[|d| + 2..] == rest;
    JsText.DecimalRoundTrip(n);
  }

  /** Reading an `rgba(…)` text gives back the channels and the alpha text it was written from. */
  lemma RgbaTextRoundTrip(c: Rgb, alpha: string)
    ensures ParseRgba(RgbaText(c, alpha)) == Some((c, alpha))
  {
    var dr, dg, db := JsText.Decimal(c.r), JsText.Decimal(c.g), JsText.Decimal(c.b);
    var rest2 := db + ", " + alpha;
    var rest1 := dg + ", " + rest2;
    var body := dr + ", " + rest1;
    assert RgbaText(c, alpha) == "rgba(" + body + ")";
    ParseWrapped(body);
    ReadDecimalChannel(c.r, rest1);
    ReadDecimalChannel(c.g, rest2);
    ReadDecimalChannel(c.b, alpha);
  }

  /**
   * `alphaColor(hex, alpha)` is an `rgba(…)` text whose channels are exactly
   * those of `hexToRgb(hex)` and whose alpha is `alpha`, unchanged.
   */
  lemma AlphaColorChannels(hex: string, alpha: string)
    ensures ParseRgba(AlphaColor(hex, alpha)) == Some((HexToRgb(hex), alpha))
  {
    RgbaTextRoundTrip(HexToRgb(hex), alpha);
  }
}
