/**
 * The feature strings of app/src/pages/index.tsx: replacing one input
 * (`handleFeatureChange`), the list the cards show (`featureList`: the
 * inputs that are not blank after `trim()`, at most three, in order), and
 * the compact card's footer, which shows the first of them or a fixed
 * sentence.
 *
 * The filter is defined for any test `keep`, and its laws are proved for
 * any test, so that the proofs never look inside `trim()`; the page's
 * filter is the instance `keep == IsFilled`.
 */
module Features {
  import JsText

  /** Most features a card shows: `.slice(0, 3)`. */
  const MaxShown: nat := 3

  /** The compact footer's text when no feature is shown. */
  const FooterFallback: string := "Uncompromised quality in every drop."

  /** `item.trim().length > 0`. */
  predicate IsFilled(item: string) {
    |JsText.Trim(item)| > 0
  }

  /** An input is filled exactly when it holds a character that is not white space. */
  lemma FilledIffVisibleChar(item: string)
    ensures IsFilled(item) <==> exists i :: 0 <= i < |item| && !JsText.IsJsSpace(item[i])
  {
  }

  /** `updated = [...prev]; updated[index] = value`, for an index the page's inputs can produce. */
  function ReplaceAt(items: seq<string>, index: nat, value: string): (r: seq<string>)
    requires index < |items|
    ensures |r| == |items| && r[index] == value
    ensures forall j :: 0 <= j < |r| && j != index ==> r[j] == items[j]
  {
    items[index := value]
  }

  /** `items.filter(keep)`. */
  function Filter(items: seq<string>, keep: string -> bool): (r: seq<string>)
    ensures |r| <= |items|
    ensures forall i :: 0 <= i < |r| ==> keep(r[i])
  {
    if items == [] then []
    else (if keep(items[0]) then [items[0]] else []) + Filter(items[1..], keep)
  }

  /** `items.filter((item) => item.trim().length > 0)`. */
  function Filled(items: seq<string>): seq<string> {
    Filter(items, IsFilled)
  }

  /** `s.slice(0, n)`. */
  function SliceTo(s: seq<string>, n: nat): (r: seq<string>)
    ensures |r| == if |s| <= n then |s| else n
    ensures r <= s
  {
    if |s| <= n then s else s[..n]
  }

  /** `featureList`: the filled inputs, at most three. */
  function FeatureList(items: seq<string>): (r: seq<string>)
    ensures |r| <= MaxShown
    ensures forall i :: 0 <= i < |r| ==> IsFilled(r[i])
  {
    SliceTo(Filled(items), MaxShown)
  }

  /** `featureList[0] ?? "Uncompromised quality in every drop."`. */
  function FooterText(featureList: seq<string>): (r: string)
    ensures r in featureList || r == FooterFallback
    ensures (forall i :: 0 <= i < |featureList| ==> IsFilled(featureList[i])) ==> IsFilled(r)
  {
    if |featureList| > 0 then featureList[0] else FallbackIsFilled(); FooterFallback
  }

  // ---------------------------------------------------------------------
  // Reference definitions

  /** Number of inputs passing `keep`, counted from the end. */
  function Count(items: seq<string>, keep: string -> bool): nat {
    if items == [] then 0
    else Count(items[..|items| - 1], keep) + (if keep(items[|items| - 1]) then 1 else 0)
  }

  /** Number of filled inputs. */
  function CountFilled(items: seq<string>): nat {
    Count(items, IsFilled)
  }

  /** `a` is `b` with some elements left out, order kept. */
  ghost predicate IsSubsequence(a: seq<string>, b: seq<string>) {
    if a == [] then true
    else if b == [] then false
    else if a[0] == b[0] then IsSubsequence(a[1..], b[1..])
    else IsSubsequence(a, b[1..])
  }

  // ---------------------------------------------------------------------
  // Laws of the filter, for any test

  /** One step of the filter. */
  lemma FilterCons(x: string, rest: seq<string>, keep: string -> bool)
    ensures Filter([x] + rest, keep) == (if keep(x) then [x] else []) + Filter(rest, keep)
  {
    assert ([x] + rest)[1..] == rest;
  }

  lemma {:induction false} FilterAppend(a: seq<string>, b: seq<string>, keep: string -> bool)
    ensures Filter(a + b, keep) == Filter(a, keep) + Filter(b, keep)
  {
    if a == [] {
      assert a + b == b;
    } else {
      assert (a + b)[0] == a[0];
      assert (a + b)[1..] == a[1..] + b;
      FilterAppend(a[1..], b, keep);
    }
  }

  /** The filter keeps exactly as many inputs as pass the test. */
  lemma {:induction false} FilterCount(items: seq<string>, keep: string -> bool)
    ensures |Filter(items, keep)| == Count(items, keep)
  {
    if items != [] {
      var init, last := items[..|items| - 1], items[|items| - 1];
      assert items == init + [last];
      FilterAppend(init, [last], keep);
      FilterCons(last, [], keep);
      FilterCount(init, keep);
    }
  }

  /** The filter keeps the inputs in their order. */
  lemma {:induction false} FilterIsSubsequence(items: seq<string>, keep: string -> bool)
    ensures IsSubsequence(Filter(items, keep), items)
  {
    if items != [] {
      FilterIsSubsequence(items[1..], keep);
      var f := Filter(items, keep);
      if keep(items[0]) {
        assert f == [items[0]] + Filter(items[1..], keep);
        assert f[1..] == Filter(items[1..], keep);
      } else {
        assert f == Filter(items[1..], keep);
        SkipHead(f, items);
      }
    }
  }

  /** A subsequence of the tail is a subsequence of the whole. */
  lemma {:induction false} SkipHead(a: seq<string>, b: seq<string>)
    requires |b| > 0 && IsSubsequence(a, b[1..])
    ensures IsSubsequence(a, b)
    decreases |a| + |b|
  {
    if a != [] && a[0] == b[0] {
      DropHead(a, b[1..]);
    }
  }

  /** Dropping the first element of a subsequence leaves a subsequence. */
  lemma {:induction false} DropHead(a: seq<string>, b: seq<string>)
    requires |a| > 0 && IsSubsequence(a, b)
    ensures IsSubsequence(a[1..], b)
    decreases |a| + |b|
  {
    assert |b| > 0;
    if a[0] == b[0] {
      SkipHead(a[1..], b);
    } else {
      DropHead(a, b[1..]);
      SkipHead(a[1..], b);
    }
  }

  /** A prefix of a subsequence is a subsequence. */
  lemma {:induction false} PrefixIsSubsequence(a: seq<string>, b: seq<string>, n: nat)
    requires n <= |a| && IsSubsequence(a, b)
    ensures IsSubsequence(a[..n], b)
  {
    if n > 0 {
      assert |b| > 0;
      if a[0] == b[0] {
        PrefixIsSubsequence(a[1..], b[1..], n - 1);
        assert a[..n][0] == a[0] && a[..n][1..] == a[1..][..n - 1];
      } else {
        PrefixIsSubsequence(a, b[1..], n);
        SkipHead(a[..n], b);
      }
    }
  }

  /** An input that passes lands in the filtered list at its rank among those that pass. */
  lemma FilterAt(items: seq<string>, i: nat, keep: string -> bool)
    requires i < |items| && keep(items[i])
    ensures Count(items[..i], keep) < |Filter(items, keep)|
    ensures Filter(items, keep)[Count(items[..i], keep)] == items[i]
  {
    var before, after := items[..i], items[i + 1..];
    assert items == before + ([items[i]] + after);
    FilterAppend(before, [items[i]] + after, keep);
    FilterCons(items[i], after, keep);
    FilterCount(before, keep);
  }

  /** When every input passes, the filter keeps them all. */
  lemma {:induction false} FilterAll(items: seq<string>, keep: string -> bool)
    requires forall i :: 0 <= i < |items| ==> keep(items[i])
    ensures Filter(items, keep) == items
  {
    if items != [] {
      FilterAll(items[1..], keep);
      assert items == [items[0]] + items[1..];
    }
  }

  /** Two rejected inputs between three kept ones leave exactly the kept ones. */
  lemma FilterSkipsTwo(a: string, x: string, b: string, y: string, c: string, keep: string -> bool)
    requires keep(a) && keep(b) && keep(c) && !keep(x) && !keep(y)
    ensures Filter([a, x, b, y, c], keep) == [a, b, c]
  {
    var r1: seq<string> := [c] + [];
    var r2 := [y] + r1;
    var r3 := [b] + r2;
    var r4 := [x] + r3;
    FilterCons(c, [], keep);
    FilterCons(y, r1, keep);
    FilterCons(b, r2, keep);
    FilterCons(x, r3, keep);
    FilterCons(a, r4, keep);
    assert [a] + r4 == [a, x, b, y, c];
  }

  // ---------------------------------------------------------------------
  // The page's feature list

  /**
   * `featureList` is the first min(3, n) of the n filled inputs, in their
   * order: its length is that minimum, it is a subsequence of the inputs,
   * and each filled input whose rank among the filled ones is below 3
   * appears at that rank.
   */
  lemma FeatureListSpec(items: seq<string>)
    ensures |FeatureList(items)| == if CountFilled(items) <= MaxShown then CountFilled(items) else MaxShown
    ensures IsSubsequence(FeatureList(items), items)
    ensures forall i :: 0 <= i < |items| && IsFilled(items[i]) && CountFilled(items[..i]) < MaxShown
              ==> CountFilled(items[..i]) < |FeatureList(items)| && FeatureList(items)[CountFilled(items[..i])] == items[i]
  {
    FilterCount(items, IsFilled);
    FilterIsSubsequence(items, IsFilled);
    var f := Filled(items);
    PrefixIsSubsequence(f, items, |FeatureList(items)|);
    assert f[..|FeatureList(items)|] == FeatureList(items);
    forall i | 0 <= i < |items| && IsFilled(items[i]) && CountFilled(items[..i]) < MaxShown
      ensures CountFilled(items[..i]) < |FeatureList(items)| && FeatureList(items)[CountFilled(items[..i])] == items[i]
    {
      FilterAt(items, i, IsFilled);
    }
  }

  /** With at most three inputs, as the page always has, the slice never cuts anything. */
  lemma SliceKeepsAllOfThree(items: seq<string>)
    requires |items| <= MaxShown
    ensures FeatureList(items) == Filled(items)
  {
  }

  /**
   * Replacing one input changes the filtered list only at that input's
   * place: the new value appears there exactly when it is filled.
   */
  lemma FilledAfterReplace(items: seq<string>, index: nat, value: string)
    requires index < |items|
    ensures Filled(ReplaceAt(items, index, value))
            == Filled(items[..index]) + (if IsFilled(value) then [value] else []) + Filled(items[index + 1..])
  {
    FilterAfterReplace(items, index, value, IsFilled);
  }

  /** Replacing one input changes the filtered list only at that input's place. */
  lemma FilterAfterReplace(items: seq<string>, index: nat, value: string, keep: string -> bool)
    requires index < |items|
    ensures Filter(items[index := value], keep)
            == Filter(items[..index], keep) + (if keep(value) then [value] else []) + Filter(items[index + 1..], keep)
  {
    var rest := items[index + 1..];
    assert items[index := value] == items[..index] + ([value] + rest);
    FilterAppend(items[..index], [value] + rest, keep);
    FilterCons(value, rest, keep);
  }

  /** A text with a visible first character is filled. */
  lemma FilledByFirst(item: string)
    requires |item| > 0 && !JsText.IsJsSpace(item[0])
    ensures IsFilled(item)
  {
  }

  /** Blank inputs drop out, the order stays, at most three remain. */
  lemma FeatureListExample()
    ensures FeatureList(["Glow", "  ", "Hydrate", "", "Extra"]) == ["Glow", "Hydrate", "Extra"]
  {
    ExampleFilled();
    FilterSkipsTwo("Glow", "  ", "Hydrate", "", "Extra", IsFilled);
  }

  /** Which of the example's inputs are filled. */
  lemma ExampleFilled()
    ensures IsFilled("Glow") && IsFilled("Hydrate") && IsFilled("Extra")
    ensures !IsFilled("  ") && !IsFilled("")
  {
    FilledByFirst("Glow");
    FilledByFirst("Hydrate");
    FilledByFirst("Extra");
    assert !IsFilled("  ") by {
      assert JsText.IsJsSpace("  "[0]) && JsText.IsJsSpace("  "[1]);
    }
  }

  /**
   * The compact footer always shows a filled text: the first filled input
   * when there is one, the fallback sentence when there is none.
   */
  lemma FooterTextSpec(items: seq<string>)
    ensures IsFilled(FooterText(FeatureList(items)))
    ensures CountFilled(items) == 0 ==> FooterText(FeatureList(items)) == FooterFallback
    ensures forall i :: 0 <= i < |items| && IsFilled(items[i]) && CountFilled(items[..i]) == 0
              ==> FooterText(FeatureList(items)) == items[i]
  {
    var list := FeatureList(items);
    assert |list| == 0 <==> CountFilled(items) == 0 by {
      FeatureListSpec(items);
    }
    assert IsFilled(FooterText(list)) by {
      FallbackIsFilled();
    }
    forall i | 0 <= i < |items| && IsFilled(items[i]) && CountFilled(items[..i]) == 0
      ensures FooterText(list) == items[i]
    {
      FeatureListSpec(items);
      assert list[0] == items[i];
    }
  }

  lemma FallbackIsFilled()
    ensures IsFilled(FooterFallback)
  {
    FilledByFirst(FooterFallback);
  }
}
