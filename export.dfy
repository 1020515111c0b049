/**
 * The export action of app/src/pages/index.tsx (`handleDownload`): the
 * per-layout card handles that the preview panels bind, the guard that
 * makes an export of an unmounted card a no-op, and the download name
 * `<slug>-<layout>.png` built from the product name.
 */
module Export {
  import opened Options
  import JsText

  /** `layoutOrder`: the three card layouts, in the order the gallery shows them. */
  datatype LayoutId = Spotlight | Angled | Compact {
    function Name(): string {
      match this
      case Spotlight => "spotlight"
      case Angled => "angled"
      case Compact => "compact"
    }
  }

  const LayoutOrder: seq<LayoutId> := [Spotlight, Angled, Compact]

  /** The gallery lists every layout exactly once, under its own name. */
  lemma LayoutOrderLists()
    ensures forall layout: LayoutId :: layout in LayoutOrder
    ensures forall i, j :: 0 <= i < j < |LayoutOrder| ==> LayoutOrder[i] != LayoutOrder[j]
    ensures forall i :: 0 <= i < |LayoutOrder| ==> LayoutOrder[i].Name() == ["spotlight", "angled", "compact"][i]
  {
    forall layout: LayoutId
      ensures layout in LayoutOrder
    {
      match layout
      case Spotlight => assert LayoutOrder[0] == layout;
      case Angled => assert LayoutOrder[1] == layout;
      case Compact => assert LayoutOrder[2] == layout;
    }
  }

  /** The file stem used when the product name leaves no slug. */
  const FallbackStem: string := "product"

  /** `[a-z0-9]`. */
  predicate IsSlugChar(c: char) {
    'a' <= c <= 'z' || '0' <= c <= '9'
  }

  /** `[^a-z0-9]`. */
  predicate IsSeparator(c: char) {
    !IsSlugChar(c)
  }

  /**
   * `s.replace(/[^a-z0-9]+/g, "-")`: scanning left to right, each maximal
   * run of separators becomes one hyphen.
   */
  function Collapse(s: string): string
    decreases |s|
  {
    if s == [] then []
    else if IsSlugChar(s[0]) then [s[0]] + Collapse(s[1..])
    else
      var n := JsText.Span(s, IsSeparator);
      "-" + Collapse(s[n..])
  }

  /**
   * A collapsed text holds only `[a-z0-9-]` and never `--`; it is empty
   * exactly for an empty text, and starts with a hyphen exactly when the
   * text starts with a separator.
   */
  lemma {:induction false} CollapseShape(s: string)
    ensures forall i :: 0 <= i < |Collapse(s)| ==> IsSlugChar(Collapse(s)[i]) || Collapse(s)[i] == '-'
    ensures forall i :: 0 <= i < |Collapse(s)| - 1 ==> !(Collapse(s)[i] == '-' && Collapse(s)[i + 1] == '-')
    ensures |Collapse(s)| == 0 <==> |s| == 0
    ensures |Collapse(s)| > 0 ==> (Collapse(s)[0] == '-' <==> IsSeparator(s[0]))
    decreases |s|
  {
    if s != [] {
      var rest := if IsSlugChar(s[0]) then s[1..] else s[JsText.Span(s, IsSeparator)..];
      CollapseShape(rest);
      var head := if IsSlugChar(s[0]) then [s[0]] else "-";
      var r, t := Collapse(s), Collapse(rest);
      assert r == head + t;
      forall i | 0 <= i < |r| - 1
        ensures !(r[i] == '-' && r[i + 1] == '-')
      {
        if i > 0 {
          assert r[i] == t[i - 1] && r[i + 1] == t[i];
        } else if |t| > 0 && head == "-" {
          assert IsSlugChar(rest[0]);
        }
      }
      forall i | 0 <= i < |r|
        ensures IsSlugChar(r[i]) || r[i] == '-'
      {
        if i > 0 {
          assert r[i] == t[i - 1];
        }
      }
    }
  }

  /**
   * The file-safe name: `productName.toLowerCase()`, separator runs
   * collapsed to one hyphen, then `.replace(/^-+|-+$/g, "")`.
   */
  function Slug(productName: string): (r: string)
    ensures IsSlug(r)
  {
    var c := Collapse(JsText.ToLowerCase(productName));
    CollapseShape(JsText.ToLowerCase(productName));
    StripKeepsNoDoubleHyphen(c);
    JsText.Strip(c, JsText.IsHyphen)
  }

  /** Stripping hyphens from the ends creates no `--`. */
  lemma StripKeepsNoDoubleHyphen(c: string)
    requires forall i :: 0 <= i < |c| - 1 ==> !(c[i] == '-' && c[i + 1] == '-')
    ensures forall i :: 0 <= i < |JsText.Strip(c, JsText.IsHyphen)| - 1 ==>
      !(JsText.Strip(c, JsText.IsHyphen)[i] == '-' && JsText.Strip(c, JsText.IsHyphen)[i + 1] == '-')
  {
    var r := JsText.Strip(c, JsText.IsHyphen);
    var a := JsText.Span(c, JsText.IsHyphen);
    forall i | 0 <= i < |r| - 1
      ensures !(r[i] == '-' && r[i + 1] == '-')
    {
      assert r[i] == c[a + i] && r[i + 1] == c[a + i + 1];
    }
  }

  /**
   * `fileSafeName || "product"`: never empty and always of slug shape; the
   * slug itself when there is one.
   */
  function FileStem(productName: string): (r: string)
    ensures |r| > 0 && IsSlug(r)
    ensures Slug(productName) == [] ==> r == FallbackStem
    ensures Slug(productName) != [] ==> r == Slug(productName)
  {
    var slug := Slug(productName);
    if slug == "" then FallbackIsSlug(); FallbackStem else slug
  }

  lemma FallbackIsSlug()
    ensures |FallbackStem| > 0 && IsSlug(FallbackStem)
  {
  }

  /** The `-<layout>.png` ending of a download name. */
  function Ending(layout: LayoutId): string {
    "-" + layout.Name() + ".png"
  }

  /**
   * `${fileSafeName || "product"}-${layout}.png`: a name that splits back
   * into the file stem and the layout.
   */
  function DownloadName(productName: string, layout: LayoutId): (r: string)
    ensures SplitDownloadName(r) == Some((FileStem(productName), layout))
  {
    SplitOfEnding(FileStem(productName), layout);
    FileStem(productName) + Ending(layout)
  }

  // ---------------------------------------------------------------------
  // Two download names worked out

  /**
   * "Luminex Glow Serum!!" downloads from the angled card as
   * `luminex-glow-serum-angled.png`; "---" leaves no slug and downloads as
   * `product-angled.png`.
   */
  lemma DownloadNameExamples()
    ensures DownloadName("Luminex Glow Serum!!", Angled) == "luminex-glow-serum-angled.png"
    ensures DownloadName("---", Angled) == "product-angled.png"
  {
    LuminexDownload();
    DashesDownload();
  }

  lemma LuminexDownload()
    ensures DownloadName("Luminex Glow Serum!!", Angled) == "luminex-glow-serum-angled.png"
  {
    LuminexLower();
    LuminexCollapse();
    LuminexStrip();
    LuminexName();
    DownloadNameVia("Luminex Glow Serum!!", "luminex glow serum!!", "luminex-glow-serum-",
      "luminex-glow-serum", Angled, "luminex-glow-serum-angled.png");
  }

  lemma DashesDownload()
    ensures DownloadName("---", Angled) == "product-angled.png"
  {
    DashesSlug();
    FallbackDownload("---", Angled);
    FallbackName();
  }

  lemma FallbackName()
    ensures FallbackStem + Ending(Angled) == "product-angled.png"
  {
    AngledEnding();
  }

  /** A name that leaves no slug downloads under the fallback stem. */
  lemma FallbackDownload(name: string, layout: LayoutId)
    requires Slug(name) == []
    ensures DownloadName(name, layout) == FallbackStem + Ending(layout)
  {
  }

  lemma DashesSlug()
    ensures Slug("---") == []
  {
    DashesLower();
    CollapseSeparators("---");
    StripHyphen();
    SlugVia("---", "---", "-", []);
  }

  lemma DashesLower()
    ensures JsText.ToLowerCase("---") == "---"
  {
    JsText.ToLowerCaseFixed("---");
  }

  lemma StripHyphen()
    ensures JsText.Strip("-", JsText.IsHyphen) == []
  {
  }

  /** A slug assembled from its steps. */
  lemma SlugVia(name: string, lower: string, collapsed: string, slug: string)
    requires JsText.ToLowerCase(name) == lower
    requires Collapse(lower) == collapsed
    requires JsText.Strip(collapsed, JsText.IsHyphen) == slug
    ensures Slug(name) == slug
  {
  }

  /** A download name assembled from its steps. */
  lemma DownloadNameVia(name: string, lower: string, collapsed: string, slug: string,
                        layout: LayoutId, expected: string)
    requires JsText.ToLowerCase(name) == lower
    requires Collapse(lower) == collapsed
    requires JsText.Strip(collapsed, JsText.IsHyphen) == slug
    requires slug != [] && slug + Ending(layout) == expected
    ensures DownloadName(name, layout) == expected
  {
  }

  lemma LuminexLower()
    ensures JsText.ToLowerCase("Luminex Glow Serum!!") == "luminex glow serum!!"
  {
    LowerIs("Luminex Glow Serum!!", "luminex glow serum!!");
  }

  lemma LuminexCollapse()
    ensures Collapse("luminex glow serum!!") == "luminex-glow-serum-"
  {
    LuminexTexts();
    CollapseThree("luminex", " ", "glow", " ", "serum", "!!");
  }

  lemma LuminexStrip()
    ensures JsText.Strip("luminex-glow-serum-", JsText.IsHyphen) == "luminex-glow-serum"
  {
    StripOneTrailing("luminex-glow-serum-", "luminex-glow-serum");
  }

  lemma LuminexName()
    ensures "luminex-glow-serum" + Ending(Angled) == "luminex-glow-serum-angled.png"
  {
    AngledEnding();
  }

  lemma AngledEnding()
    ensures Ending(Angled) == "-angled.png"
  {
  }

  /** The example's texts, cut into words and separator runs. */
  lemma LuminexTexts()
    ensures "luminex" + (" " + ("glow" + (" " + ("serum" + "!!")))) == "luminex glow serum!!"
    ensures "luminex" + ("-" + ("glow" + ("-" + ("serum" + "-")))) == "luminex-glow-serum-"
  {
  }

  /** Lower-casing a text whose characters are mapped one by one. */
  lemma LowerIs(s: string, t: string)
    requires |s| == |t|
    requires forall i :: 0 <= i < |s| ==> s[i] != '\U{212A}' && s[i] != '\U{130}'
    requires forall i :: 0 <= i < |s| ==> t[i] == if 'A' <= s[i] <= 'Z' then (s[i] as int + 32) as char else s[i]
    ensures JsText.ToLowerCase(s) == t
  {
    JsText.ToLowerCaseAscii(s);
  }

  /** Letters and digits only. */
  predicate IsWord(w: string) {
    |w| > 0 && forall i :: 0 <= i < |w| ==> IsSlugChar(w[i])
  }

  /** Separators only. */
  predicate IsRun(sep: string) {
    |sep| > 0 && forall i :: 0 <= i < |sep| ==> IsSeparator(sep[i])
  }

  lemma CollapseWordRest(w: string, rest: string)
    requires IsWord(w)
    ensures Collapse(w + rest) == w + Collapse(rest)
  {
    CollapseOfSlug(w);
    assert IsSlugChar(w[|w| - 1]);
    CollapseAppend(w, rest);
  }

  lemma CollapseSepRest(sep: string, rest: string)
    requires IsRun(sep)
    requires rest == [] || IsSlugChar(rest[0])
    ensures Collapse(sep + rest) == "-" + Collapse(rest)
  {
    CollapseSeparators(sep);
    if rest == [] {
      assert sep + rest == sep;
    } else {
      CollapseAppend(sep, rest);
    }
  }

  lemma CollapseWordSep(w: string, sep: string, rest: string)
    requires IsWord(w) && IsRun(sep)
    requires rest == [] || IsSlugChar(rest[0])
    ensures Collapse(w + (sep + rest)) == w + ("-" + Collapse(rest))
  {
    CollapseWordRest(w, sep + rest);
    CollapseSepRest(sep, rest);
  }

  /** Three words, each followed by a separator run, collapse to three words each followed by one hyphen. */
  lemma CollapseThree(w1: string, s1: string, w2: string, s2: string, w3: string, s3: string)
    requires IsWord(w1) && IsWord(w2) && IsWord(w3)
    requires IsRun(s1) && IsRun(s2) && IsRun(s3)
    ensures Collapse(w1 + (s1 + (w2 + (s2 + (w3 + s3))))) == w1 + ("-" + (w2 + ("-" + (w3 + "-"))))
  {
    CollapseWordRest(w3, s3);
    CollapseSeparators(s3);
    assert (w3 + s3)[0] == w3[0];
    CollapseWordSep(w2, s2, w3 + s3);
    assert (w2 + (s2 + (w3 + s3)))[0] == w2[0];
    CollapseWordSep(w1, s1, w2 + (s2 + (w3 + s3)));
  }

  /** Stripping a slug followed by one hyphen gives the slug back. */
  lemma StripOneTrailing(c: string, slug: string)
    requires c == slug + "-"
    requires |slug| > 0 && slug[0] != '-' && slug[|slug| - 1] != '-'
    ensures JsText.Strip(c, JsText.IsHyphen) == slug
  {
    var r := JsText.Strip(c, JsText.IsHyphen);
    assert c[0] == slug[0];
    assert JsText.Span(c, JsText.IsHyphen) == 0;
    assert !JsText.IsHyphen(c[|slug| - 1]);
    assert |r| > 0;
    assert |r| == |slug|;
    assert r == c[..|slug|] == slug;
  }

  // ---------------------------------------------------------------------
  // The shape of a slug

  /** Lower-case letters, digits and single hyphens, with no hyphen at either end. */
  predicate IsSlug(t: string) {
    (forall i :: 0 <= i < |t| ==> IsSlugChar(t[i]) || t[i] == '-')
    && (forall i :: 0 <= i < |t| - 1 ==> !(t[i] == '-' && t[i + 1] == '-'))
    && (|t| > 0 ==> t[0] != '-' && t[|t| - 1] != '-')
  }

  /** A text of slug shape is its own lower case and its own collapse. */
  lemma {:induction false} CollapseOfSlug(t: string)
    requires forall i :: 0 <= i < |t| ==> IsSlugChar(t[i]) || t[i] == '-'
    requires forall i :: 0 <= i < |t| - 1 ==> !(t[i] == '-' && t[i + 1] == '-')
    ensures Collapse(t) == t
    decreases |t|
  {
    if t != [] {
      CollapseOfSlug(t[1..]);
      if !IsSlugChar(t[0]) {
        assert JsText.Span(t, IsSeparator) == 1 by {
          if |t| > 1 {
            assert t[1] != '-' && IsSlugChar(t[1]);
            assert [t[0]] + t[1..] == t;
            JsText.SpanAppend([t[0]], t[1..], IsSeparator);
          } else {
            assert t == [t[0]] + [];
          }
        }
        assert t == "-" + t[1..];
      } else {
        assert t == [t[0]] + t[1..];
      }
    }
  }

  /** A slug-shaped text is left unchanged by slugging. */
  lemma SlugOfSlug(t: string)
    requires IsSlug(t)
    ensures Slug(t) == t
  {
    JsText.ToLowerCaseFixed(t);
    CollapseOfSlug(t);
    StripUnchanged(t);
    SlugVia(t, t, t, t);
  }

  /** A text with no hyphen at either end is left as it is by stripping hyphens. */
  lemma StripUnchanged(t: string)
    requires |t| > 0 ==> t[0] != '-' && t[|t| - 1] != '-'
    ensures JsText.Strip(t, JsText.IsHyphen) == t
  {
    if |t| > 0 {
      assert JsText.Span(t, JsText.IsHyphen) == 0;
      assert !JsText.IsHyphen(t[|t| - 1]);
    }
  }

  /** Slugging is idempotent. */
  lemma SlugIdempotent(productName: string)
    ensures Slug(Slug(productName)) == Slug(productName)
  {
    SlugOfSlug(Slug(productName));
  }

  /** The slugs are exactly the fixed points of slugging. */
  lemma SlugFixedPoints(t: string)
    ensures Slug(t) == t <==> IsSlug(t)
  {
    if IsSlug(t) {
      SlugOfSlug(t);
    }
  }

  // ---------------------------------------------------------------------
  // Where the hyphens go

  /** A non-empty run of separators collapses to one hyphen. */
  lemma CollapseSeparators(sep: string)
    requires |sep| > 0 && forall i :: 0 <= i < |sep| ==> IsSeparator(sep[i])
    ensures Collapse(sep) == "-"
  {
    JsText.SpanOfAll(sep, IsSeparator);
    assert sep[|sep|..] == [];
  }

  /**
   * Collapsing works piece by piece wherever a letter or digit sits at the
   * seam: no separator run reaches across it.
   */
  lemma {:induction false} CollapseAppend(a: string, b: string)
    requires Seam(a, b)
    ensures Collapse(a + b) == Collapse(a) + Collapse(b)
    decreases |a|, 1
  {
    if a == [] {
      assert a + b == b;
    } else if IsSlugChar(a[0]) {
      CollapseAppendWord(a, b);
    } else {
      CollapseAppendRun(a, b);
    }
  }

  /** A letter or digit sits at the seam of `a + b`. */
  predicate Seam(a: string, b: string) {
    (|a| > 0 && IsSlugChar(a[|a| - 1])) || (|b| > 0 && IsSlugChar(b[0]))
  }

  lemma {:induction false} CollapseAppendWord(a: string, b: string)
    requires Seam(a, b) && |a| > 0 && IsSlugChar(a[0])
    ensures Collapse(a + b) == Collapse(a) + Collapse(b)
    decreases |a|, 0
  {
    var t := a[1..];
    assert Collapse(a + b) == [a[0]] + Collapse(t + b) by {
      assert (a + b)[0] == a[0];
      assert (a + b)[1..] == t + b;
    }
    assert Collapse(a) == [a[0]] + Collapse(t);
    assert Collapse(t + b) == Collapse(t) + Collapse(b) by {
      if t == [] {
        assert t + b == b;
      } else {
        assert Seam(t, b) by {
          assert t[|t| - 1] == a[|a| - 1];
        }
        CollapseAppend(t, b);
      }
    }
    JsText.Associative([a[0]], Collapse(t), Collapse(b));
  }

  lemma {:induction false} CollapseAppendRun(a: string, b: string)
    requires Seam(a, b) && |a| > 0 && IsSeparator(a[0])
    ensures Collapse(a + b) == Collapse(a) + Collapse(b)
    decreases |a|, 0
  {
    var m := JsText.Span(a, IsSeparator);
    if m < |a| {
      assert Collapse(a + b) == "-" + Collapse(a[m..] + b) by {
        assert (a + b)[0] == a[0];
        JsText.SpanStopsInside(a, b, IsSeparator);
        assert (a + b)[m..] == a[m..] + b;
      }
      assert Seam(a[m..], b) by {
        assert a[m..][|a[m..]| - 1] == a[|a| - 1];
      }
      CollapseAppend(a[m..], b);
      JsText.Associative("-", Collapse(a[m..]), Collapse(b));
    } else {
      assert Collapse(a + b) == "-" + Collapse(b) by {
        assert (a + b)[0] == a[0];
        JsText.SpanAppend(a, b, IsSeparator);
        assert (a + b)[|a|..] == b;
      }
      assert Collapse(a) == "-" by {
        assert a[|a|..] == [];
      }
    }
  }

  // ---------------------------------------------------------------------
  // What a slug keeps

  /** The letters and digits of `s`, in order. */
  function SlugChars(s: string): string {
    if s == [] then [] else KeepSlugChar(s[0]) + SlugChars(s[1..])
  }

  /** What SlugChars keeps of one character. */
  function KeepSlugChar(c: char): (r: string)
    ensures r == [c] || r == []
  {
    if IsSlugChar(c) then [c] else []
  }

  lemma {:induction false} SlugCharsAppend(a: string, b: string)
    ensures SlugChars(a + b) == SlugChars(a) + SlugChars(b)
  {
    if a == [] {
      assert a + b == b;
    } else {
      assert (a + b)[0] == a[0];
      assert (a + b)[1..] == a[1..] + b;
      SlugCharsAppend(a[1..], b);
    }
  }

  lemma {:induction false} SlugCharsOfSeparators(s: string)
    requires forall i :: 0 <= i < |s| ==> IsSeparator(s[i])
    ensures SlugChars(s) == []
  {
    if s != [] {
      SlugCharsOfSeparators(s[1..]);
    }
  }

  /** Collapsing separator runs keeps every letter and digit, in order. */
  lemma {:induction false} CollapseKeepsSlugChars(s: string)
    ensures SlugChars(Collapse(s)) == SlugChars(s)
    decreases |s|
  {
    if s != [] {
      if IsSlugChar(s[0]) {
        CollapseKeepsSlugChars(s[1..]);
        SlugCharsAppend([s[0]], Collapse(s[1..]));
        assert [s[0]][1..] == [];
      } else {
        var n := JsText.Span(s, IsSeparator);
        CollapseKeepsSlugChars(s[n..]);
        SlugCharsAppend("-", Collapse(s[n..]));
        assert "-"[1..] == [];
        assert s == s[..n] + s[n..];
        SlugCharsAppend(s[..n], s[n..]);
        SlugCharsOfSeparators(s[..n]);
      }
    }
  }

  /** Stripping hyphens from the ends keeps every letter and digit. */
  lemma StripKeepsSlugChars(s: string)
    ensures SlugChars(JsText.Strip(s, JsText.IsHyphen)) == SlugChars(s)
  {
    var r := JsText.Strip(s, JsText.IsHyphen);
    var a := JsText.Span(s, JsText.IsHyphen);
    var e := a + |r|;
    JsText.StripSplits(s, JsText.IsHyphen);
    var head, tail := s[..a], s[e..];
    forall i | 0 <= i < |head|
      ensures IsSeparator(head[i])
    {
      assert JsText.IsHyphen(s[i]);
    }
    forall i | 0 <= i < |tail|
      ensures IsSeparator(tail[i])
    {
      assert JsText.IsHyphen(s[e + i]);
    }
    SlugCharsBetweenSeparators(head, r, tail);
  }

  /** Separators around a text add no letter or digit to it. */
  lemma SlugCharsBetweenSeparators(head: string, mid: string, tail: string)
    requires forall i :: 0 <= i < |head| ==> IsSeparator(head[i])
    requires forall i :: 0 <= i < |tail| ==> IsSeparator(tail[i])
    ensures SlugChars(head + mid + tail) == SlugChars(mid)
  {
    SlugCharsAppend(head + mid, tail);
    SlugCharsAppend(head, mid);
    SlugCharsOfSeparators(head);
    SlugCharsOfSeparators(tail);
  }

  /**
   * The slug's letters and digits are exactly those of the lower-cased
   * product name, in order; so the slug is empty exactly when the
   * lower-cased name has no ASCII letter or digit.
   */
  lemma SlugKeepsLettersAndDigits(productName: string)
    ensures SlugChars(Slug(productName)) == SlugChars(JsText.ToLowerCase(productName))
    ensures Slug(productName) == [] <==> SlugChars(JsText.ToLowerCase(productName)) == []
  {
    var lower := JsText.ToLowerCase(productName);
    CollapseKeepsSlugChars(lower);
    StripKeepsSlugChars(Collapse(lower));
    var slug := Slug(productName);
    if slug != [] {
      assert IsSlugChar(slug[0]);
      assert SlugChars(slug) == [slug[0]] + SlugChars(slug[1..]);
    }
  }

  // ---------------------------------------------------------------------
  // The download name

  predicate EndsWith(s: string, suffix: string) {
    |suffix| <= |s| && s[|s| - |suffix|..] == suffix
  }

  /** Split a download name back into its stem and layout, trying the layouts in gallery order. */
  function SplitDownloadName(f: string): Option<(string, LayoutId)> {
    if EndsWith(f, Ending(Spotlight)) then Some((f[..|f| - |Ending(Spotlight)|], Spotlight))
    else if EndsWith(f, Ending(Angled)) then Some((f[..|f| - |Ending(Angled)|], Angled))
    else if EndsWith(f, Ending(Compact)) then Some((f[..|f| - |Ending(Compact)|], Compact))
    else None
  }

  /** The three endings differ at the first character of the shorter one, counted from the end. */
  lemma EndingsDistinct(stem: string, layout: LayoutId, other: LayoutId)
    requires other != layout
    ensures !EndsWith(stem + Ending(layout), Ending(other))
  {
    var f := stem + Ending(layout);
    var e, o := Ending(layout), Ending(other);
    var k := if |e| <= |o| then |e| else |o|;
    assert e[|e| - k] != o[|o| - k];
    assert f[|f| - k] == e[|e| - k];
  }

  /** A stem followed by a layout's ending splits back into that stem and layout. */
  lemma SplitOfEnding(stem: string, layout: LayoutId)
    ensures SplitDownloadName(stem + Ending(layout)) == Some((stem, layout))
  {
    var f := stem + Ending(layout);
    assert EndsWith(f, Ending(layout)) && f[..|f| - |Ending(layout)|] == stem by {
      assert f[|f| - |Ending(layout)|..] == Ending(layout);
    }
    if layout != Spotlight {
      EndingsDistinct(stem, layout, Spotlight);
    }
    if layout != Angled {
      EndingsDistinct(stem, layout, Angled);
    }
  }

  // ---------------------------------------------------------------------
  // The card handles and the guard

  /** An opaque reference to a mounted card surface. */
  datatype Handle = Handle(node: nat)

  /** What an export does: nothing, or rasterise the card and download it under a name. */
  datatype ExportStep = NoOp | Rasterize(target: Handle, fileName: string)

  /** `cardRefs.current`: the mounted surface of each layout, if any. */
  class CardRefs {
    var nodes: map<LayoutId, Option<Handle>>

    ghost predicate Valid()
      reads this
    {
      nodes.Keys == set layout | layout in LayoutOrder
    }

    /** `{ spotlight: null, angled: null, compact: null }`. */
    constructor ()
      ensures Valid()
      ensures forall layout: LayoutId :: layout in nodes && nodes[layout] == None
    {
      nodes := map[Spotlight := None, Angled := None, Compact := None];
      new;
      forall layout: LayoutId
        ensures layout in nodes && nodes[layout] == None
      {
        match layout
        case Spotlight =>
        case Angled =>
        case Compact =>
      }
    }

    /** The ref callback `cardRefs.current[layout] = node`, on mount (a handle) and unmount (None). */
    method Bind(layout: LayoutId, node: Option<Handle>)
      requires Valid()
      modifies this
      ensures Valid()
      ensures nodes == old(nodes)[layout := node]
    {
      nodes := nodes[layout := node];
    }

    /**
     * `handleDownload(layout)` up to the rasteriser: no handle, no export;
     * otherwise the bound card is rasterised and saved under the download
     * name of the current product name.
     */
    method PlanExport(layout: LayoutId, productName: string) returns (step: ExportStep)
      requires Valid()
      ensures step.NoOp? <==> nodes[layout].None?
      ensures step.Rasterize? ==> step.target == nodes[layout].value
                                  && SplitDownloadName(step.fileName) == Some((FileStem(productName), layout))
    {
      var node := nodes[layout];
      if node.None? {
        return NoOp;
      }
      step := Rasterize(node.value, DownloadName(productName, layout));
    }
  }
}
