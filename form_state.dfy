/**
 * The editor state of the `Home` page of app/src/pages/index.tsx: the
 * product texts, the three feature inputs and the selected palette id,
 * each replaced by its change handler, and the values the cards derive
 * from them (the palette in use and the list of shown features).
 */
module FormState {
  import Features
  import Palettes

  /** `defaultFeatures`. */
  const DefaultFeatures: seq<string> := [
    "Premium ingredients for everyday luxury",
    "Sleek design that deserves the spotlight",
    "Sustainably crafted with conscious care"
  ]

  /** Number of feature inputs the page renders. */
  const FeatureSlots: nat := 3

  /** The `useState` cells of `Home`. */
  class Editor {
    var productName: string
    var tagline: string
    var description: string
    var cta: string
    var featureInputs: seq<string>
    var paletteId: string

    /** The page starts with three feature inputs and no handler adds or removes one. */
    ghost predicate Valid()
      reads this
    {
      |featureInputs| == FeatureSlots
    }

    /** The initial values of the `useState` calls. */
    constructor ()
      ensures Valid()
      ensures productName == "Luminex Glow Serum" && tagline == "Radiant skin in 24 hours."
      ensures description == "Powered by bio-active botanicals and adaptive hydration to give you your best glow yet."
      ensures cta == "Shop the collection"
      ensures featureInputs == DefaultFeatures && paletteId == "aurora"
    {
      productName := "Luminex Glow Serum";
      tagline := "Radiant skin in 24 hours.";
      description := "Powered by bio-active botanicals and adaptive hydration to give you your best glow yet.";
      cta := "Shop the collection";
      featureInputs := DefaultFeatures;
      paletteId := "aurora";
    }

    /** `palette`: the palette the cards are drawn with. */
    function CurrentPalette(): (p: Palettes.Palette)
      reads this
      ensures p in Palettes.Table
      ensures p.id == paletteId || (p == Palettes.Table[0] && forall i :: 0 <= i < |Palettes.Table| ==> Palettes.Table[i].id != paletteId)
    {
      Palettes.Resolve(paletteId)
    }

    /** `featureList`: the features the cards show; with the page's three inputs, every filled one. */
    function ShownFeatures(): (r: seq<string>)
      reads this
      ensures |r| <= Features.MaxShown
      ensures Valid() ==> r == Features.Filled(featureInputs)
    {
      if |featureInputs| <= Features.MaxShown then Features.SliceKeepsAllOfThree(featureInputs); Features.FeatureList(featureInputs)
      else Features.FeatureList(featureInputs)
    }

    /**
     * `handleFeatureChange(index, value)`: the input at `index` takes the
     * new value and the others keep theirs. The shown list changes only at
     * that input's place.
     */
    method SetFeature(index: nat, value: string)
      requires Valid() && index < |featureInputs|
      modifies this
      ensures Valid()
      ensures featureInputs == Features.ReplaceAt(old(featureInputs), index, value)
      ensures Features.Filled(featureInputs) == Features.Filled(old(featureInputs)[..index])
                + (if Features.IsFilled(value) then [value] else []) + Features.Filled(old(featureInputs)[index + 1..])
      ensures productName == old(productName) && tagline == old(tagline) && description == old(description)
      ensures cta == old(cta) && paletteId == old(paletteId)
    {
      Features.FilledAfterReplace(featureInputs, index, value);
      featureInputs := Features.ReplaceAt(featureInputs, index, value);
    }

    /** `setProductName(event.target.value)`. */
    method SetProductName(value: string)
      requires Valid()
      modifies this
      ensures Valid() && productName == value
      ensures tagline == old(tagline) && description == old(description) && cta == old(cta)
      ensures featureInputs == old(featureInputs) && paletteId == old(paletteId)
    {
      productName := value;
    }

    /** `setTagline(event.target.value)`. */
    method SetTagline(value: string)
      requires Valid()
      modifies this
      ensures Valid() && tagline == value
      ensures productName == old(productName) && description == old(description) && cta == old(cta)
      ensures featureInputs == old(featureInputs) && paletteId == old(paletteId)
    {
      tagline := value;
    }

    /** `setDescription(event.target.value)`. */
    method SetDescription(value: string)
      requires Valid()
      modifies this
      ensures Valid() && description == value
      ensures productName == old(productName) && tagline == old(tagline) && cta == old(cta)
      ensures featureInputs == old(featureInputs) && paletteId == old(paletteId)
    {
      description := value;
    }

    /** `setCta(event.target.value)`. */
    method SetCta(value: string)
      requires Valid()
      modifies this
      ensures Valid() && cta == value
      ensures productName == old(productName) && tagline == old(tagline) && description == old(description)
      ensures featureInputs == old(featureInputs) && paletteId == old(paletteId)
    {
      cta := value;
    }

    /**
     * `handlePaletteChange`: the radio buttons carry the ids of the table,
     * so the selected palette becomes the one whose radio was picked.
     */
    method SelectPalette(k: nat)
      requires Valid() && k < |Palettes.Table|
      modifies this
      ensures Valid() && paletteId == Palettes.Table[k].id
      ensures CurrentPalette() == Palettes.Table[k]
      ensures productName == old(productName) && tagline == old(tagline) && description == old(description)
      ensures cta == old(cta) && featureInputs == old(featureInputs)
    {
      Palettes.ResolveKnown(k);
      paletteId := Palettes.Table[k].id;
    }
  }

  /** The page opens with the aurora palette. */
  lemma InitialPalette()
    ensures Palettes.Resolve("aurora") == Palettes.Table[0]
  {
    Palettes.ResolveKnown(0);
  }

  /** The page opens with all three default features shown. */
  lemma InitialFeatures()
    ensures Features.FeatureList(DefaultFeatures) == DefaultFeatures
  {
    forall i | 0 <= i < |DefaultFeatures|
      ensures Features.IsFilled(DefaultFeatures[i])
    {
      DefaultFeatureFilled(i);
    }
    Features.FilterAll(DefaultFeatures, Features.IsFilled);
  }

  lemma DefaultFeatureFilled(i: nat)
    requires i < |DefaultFeatures|
    ensures Features.IsFilled(DefaultFeatures[i])
  {
    var item := DefaultFeatures[i];
    assert item[0] == 'P' || item[0] == 'S';
    Features.FilledByFirst(item);
  }
}
