/**
 * The palette table of app/src/pages/index.tsx and its lookup
 * `palettes.find((p) => p.id === paletteId) ?? palettes[0]`. The colour
 * fields are CSS texts that the page only passes on, except `accent`,
 * which goes through `alphaColor`.
 */
module Palettes {
  import opened Options
  import Colors
  import JsText

  datatype Palette = Palette(
    id: string,
    name: string,
    gradient: string,
    accent: string,
    subtleAccent: string,
    text: string,
    secondaryText: string,
    sparkle: string)

  const Table: seq<Palette> := [
    Palette(
      "aurora", "Aurora Bloom",
      "linear-gradient(135deg, rgba(255, 175, 189, 0.85) 0%, rgba(100, 216, 255, 0.95) 45%, rgba(132, 225, 188, 0.88) 100%)",
      "#0f172a", "rgba(15, 23, 42, 0.75)", "#06101d", "rgba(6, 16, 29, 0.78)",
      "radial-gradient(circle at 30% 20%, rgba(255,255,255,0.55) 0, rgba(255,255,255,0) 50%)"),
    Palette(
      "nebula", "Future Nebula",
      "linear-gradient(135deg, rgba(255, 120, 200, 0.85) 10%, rgba(96, 97, 255, 0.92) 55%, rgba(56, 189, 248, 0.85) 95%)",
      "#0b1120", "rgba(11, 17, 32, 0.78)", "#f8fafc", "rgba(241, 245, 249, 0.78)",
      "radial-gradient(circle at 70% 30%, rgba(255,255,255,0.6) 0, rgba(255,255,255,0) 45%)"),
    Palette(
      "sunset", "Sunset Aura",
      "linear-gradient(130deg, rgba(255, 170, 51, 0.94) 5%, rgba(255, 88, 93, 0.9) 50%, rgba(98, 48, 255, 0.88) 95%)",
      "#23142a", "rgba(35, 20, 42, 0.8)", "#1b1025", "rgba(27, 16, 37, 0.72)",
      "radial-gradient(circle at 20% 80%, rgba(255,255,255,0.5) 0, rgba(255,255,255,0) 55%)"),
    Palette(
      "zen", "Tranquil Wave",
      "linear-gradient(140deg, rgba(56, 189, 248, 0.9) 5%, rgba(56, 249, 206, 0.9) 50%, rgba(99, 102, 241, 0.88) 95%)",
      "#042f2e", "rgba(4, 47, 46, 0.75)", "#031312", "rgba(3, 19, 18, 0.75)",
      "radial-gradient(circle at 70% 75%, rgba(255,255,255,0.55) 0, rgba(255,255,255,0) 55%)")
  ]

  /** `ps.find((p) => p.id === id)`: the first palette with that id, if any. */
  function Find(ps: seq<Palette>, id: string): (r: Option<Palette>)
    ensures r.None? <==> forall i :: 0 <= i < |ps| ==> ps[i].id != id
    ensures r.Some? ==> exists k :: 0 <= k < |ps| && ps[k] == r.value && r.value.id == id
                                    && forall i :: 0 <= i < k ==> ps[i].id != id
  {
    if ps == [] then None
    else if ps[0].id == id then Some(ps[0])
    else
      var r := Find(ps[1..], id);
      if r.Some? then
        var k :| 0 <= k < |ps[1..]| && ps[1..][k] == r.value && r.value.id == id
                 && forall i :: 0 <= i < k ==> ps[1..][i].id != id;
        assert ps[k + 1] == r.value;
        assert forall i :: 0 <= i < k + 1 ==> ps[i].id != id by {
          forall i | 0 <= i < k + 1 ensures ps[i].id != id {
            if i > 0 { assert ps[i] == ps[1..][i - 1]; }
          }
        }
        r
      else
        assert forall i :: 0 <= i < |ps| ==> ps[i].id != id by {
          forall i | 0 <= i < |ps| ensures ps[i].id != id {
            if i > 0 { assert ps[i] == ps[1..][i - 1]; }
          }
        }
        r
  }

  /** The palette the page uses for the selected id: the table entry, or the first one on a miss. */
  function Resolve(id: string): (p: Palette)
    ensures p in Table
    ensures p.id == id || (p == Table[0] && forall i :: 0 <= i < |Table| ==> Table[i].id != id)
  {
    Find(Table, id).GetOr(Table[0])
  }

  /** No two palettes of the table share an id. */
  lemma IdsDistinct()
    ensures forall i, j :: 0 <= i < j < |Table| ==> Table[i].id != Table[j].id
  {
  }

  /** Selecting the id of any palette of the table gives that palette. */
  lemma ResolveKnown(k: nat)
    requires k < |Table|
    ensures Resolve(Table[k].id) == Table[k]
  {
    IdsDistinct();
    var r := Find(Table, Table[k].id);
    assert r.Some?;
    var j :| 0 <= j < |Table| && Table[j] == r.value && r.value.id == Table[k].id
             && forall i :: 0 <= i < j ==> Table[i].id != Table[k].id;
    assert j == k;
  }

  /** An id that no palette has falls back to the first palette, "aurora". */
  lemma ResolveUnknown(id: string)
    requires forall i :: 0 <= i < |Table| ==> Table[i].id != id
    ensures Resolve(id) == Table[0] && Resolve(id).id == "aurora"
  {
  }

  /**
   * Text colour of the angled card's button: dark for "nebula", whose
   * `text` colour is light, white otherwise. The page tests the selected
   * id, not the resolved palette; the two tests agree for every id.
   */
  function CtaTextColor(paletteId: string): (c: string)
    ensures c == "#0f172a" || c == "#ffffff"
    ensures c == "#0f172a" <==> Resolve(paletteId).id == "nebula"
  {
    if paletteId == "nebula" then
      assert Table[1].id == "nebula";
      "#0f172a"
    else
      "#ffffff"
  }

  /** Every accent is a lower-case `#rrggbb` colour, which hexToRgb reads exactly. */
  lemma AccentsAreHexColors()
    ensures forall k :: 0 <= k < |Table| ==> Colors.IsLowerHexColor(Table[k].accent)
  {
  }

  /**
   * Each palette's `subtleAccent` is its `accent` at reduced opacity: the
   * text `alphaColor(accent, a)` gives for the palette's alpha `a`. This is
   * a fact about the table's data: the page never reads `subtleAccent`.
   */
  lemma SubtleAccentIsAlphaOfAccent()
    ensures Table[0].subtleAccent == Colors.AlphaColor(Table[0].accent, "0.75")
    ensures Table[1].subtleAccent == Colors.AlphaColor(Table[1].accent, "0.78")
    ensures Table[2].subtleAccent == Colors.AlphaColor(Table[2].accent, "0.8")
    ensures Table[3].subtleAccent == Colors.AlphaColor(Table[3].accent, "0.75")
  {
    SubtleAccentAurora();
    SubtleAccentNebula();
    SubtleAccentSunset();
    SubtleAccentZen();
  }

  lemma SubtleAccentAurora()
    ensures Table[0].subtleAccent == Colors.AlphaColor(Table[0].accent, "0.75")
  {
    var c := Colors.Rgb(15, 23, 42);
    assert Colors.HexToRgb(Table[0].accent) == c by {
      AccentChannels(Table[0].accent, 15, 23, 42);
    }
    assert Colors.RgbaText(c, "0.75") == Table[0].subtleAccent by {
      RgbaTextAurora();
    }
  }


  lemma SubtleAccentNebula()
    ensures Table[1].subtleAccent == Colors.AlphaColor(Table[1].accent, "0.78")
  {
    var c := Colors.Rgb(11, 17, 32);
    assert Colors.HexToRgb(Table[1].accent) == c by {
      AccentChannels(Table[1].accent, 11, 17, 32);
    }
    assert Colors.RgbaText(c, "0.78") == Table[1].subtleAccent by {
      RgbaTextNebula();
    }
  }


  lemma SubtleAccentSunset()
    ensures Table[2].subtleAccent == Colors.AlphaColor(Table[2].accent, "0.8")
  {
    var c := Colors.Rgb(35, 20, 42);
    assert Colors.HexToRgb(Table[2].accent) == c by {
      AccentChannels(Table[2].accent, 35, 20, 42);
    }
    assert Colors.RgbaText(c, "0.8") == Table[2].subtleAccent by {
      RgbaTextSunset();
    }
  }


  lemma SubtleAccentZen()
    ensures Table[3].subtleAccent == Colors.AlphaColor(Table[3].accent, "0.75")
  {
    var c := Colors.Rgb(4, 47, 46);
    assert Colors.HexToRgb(Table[3].accent) == c by {
      AccentChannels(Table[3].accent, 4, 47, 46);
    }
    assert Colors.RgbaText(c, "0.75") == Table[3].subtleAccent by {
      RgbaTextZen();
    }
  }


  lemma RgbaTextAurora()
    ensures Colors.RgbaText(Colors.Rgb(15, 23, 42), "0.75") == "rgba(15, 23, 42, 0.75)"
  {
    assert JsText.Decimal(15) == "15" && JsText.Decimal(23) == "23" && JsText.Decimal(42) == "42" by {
      assert JsText.Decimal(1) == "1";
      assert JsText.Decimal(2) == "2";
      assert JsText.Decimal(4) == "4";
    }
  }

  lemma RgbaTextNebula()
    ensures Colors.RgbaText(Colors.Rgb(11, 17, 32), "0.78") == "rgba(11, 17, 32, 0.78)"
  {
    assert JsText.Decimal(11) == "11" && JsText.Decimal(17) == "17" && JsText.Decimal(32) == "32" by {
      assert JsText.Decimal(1) == "1";
      assert JsText.Decimal(3) == "3";
    }
  }

  lemma RgbaTextSunset()
    ensures Colors.RgbaText(Colors.Rgb(35, 20, 42), "0.8") == "rgba(35, 20, 42, 0.8)"
  {
    assert JsText.Decimal(35) == "35" && JsText.Decimal(20) == "20" && JsText.Decimal(42) == "42" by {
      assert JsText.Decimal(3) == "3";
      assert JsText.Decimal(2) == "2";
      assert JsText.Decimal(4) == "4";
    }
  }

  lemma RgbaTextZen()
    ensures Colors.RgbaText(Colors.Rgb(4, 47, 46), "0.75") == "rgba(4, 47, 46, 0.75)"
  {
    assert JsText.Decimal(4) == "4" && JsText.Decimal(47) == "47" && JsText.Decimal(46) == "46" by {
      assert JsText.Decimal(0) == "0";
      assert JsText.Decimal(4) == "4";
    }
  }

  /** The channels of a `#rrggbb` accent, from the values of its three digit pairs. */
  lemma AccentChannels(hex: string, r: nat, g: nat, b: nat)
    requires Colors.IsHexColor(hex)
    requires Colors.HexDigitValue(hex[1]) * 16 + Colors.HexDigitValue(hex[2]) == r
    requires Colors.HexDigitValue(hex[3]) * 16 + Colors.HexDigitValue(hex[4]) == g
    requires Colors.HexDigitValue(hex[5]) * 16 + Colors.HexDigitValue(hex[6]) == b
    ensures Colors.HexToRgb(hex) == Colors.Rgb(r, g, b)
  {
    assert Colors.AllHex(hex[1..3]) && Colors.HexValue(hex[1..3]) == r by {
      Colors.SixDigitValue(hex);
      Colors.HexValuePair(hex[1..3]);
    }
    assert Colors.AllHex(hex[3..5]) && Colors.HexValue(hex[3..5]) == g by {
      Colors.SixDigitValue(hex);
      Colors.HexValuePair(hex[3..5]);
    }
    assert Colors.AllHex(hex[5..7]) && Colors.HexValue(hex[5..7]) == b by {
      Colors.SixDigitValue(hex);
      Colors.HexValuePair(hex[5..7]);
    }
    Colors.SixDigitChannels(hex);
  }
}
