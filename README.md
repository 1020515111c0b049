# Marketing card generator — a Dafny model of its page logic

The page `app/src/pages/index.tsx` is a product-card designer. A form holds a
product name, tagline, story, call to action, three feature inputs and a
palette choice, and three card layouts (spotlight, angled, compact) preview
the result and can each be exported as a PNG. This project models the logic
under that page and proves what it promises:

- **Colours** (`colors.dfy`, module `Colors`): `hexToRgb` as the page
  computes it. That means `replace("#", "")`, which drops only the first
  `#`, then `parseInt(…, 16)` with JavaScript's rules: leading white space,
  sign, optional `0x`, longest hexadecimal prefix, and NaN when there is no
  digit. Then ToInt32, `>>` and `& 255`. It also models `alphaColor`, which
  renders `rgba(r, g, b, alpha)`. For `#rrggbb` input the channels are the
  three digit pairs, and reading and writing back round-trips. The `rgba`
  text parses back to the channels and the alpha it was built from.
- **Palettes** (`palettes.dfy`, module `Palettes`): the four-entry palette
  table, verbatim. Also the lookup `find(id) ?? palettes[0]` and the
  angled card's button text colour. Each palette's `subtleAccent` is exactly
  `alphaColor(accent, a)` for that palette's alpha; this is a fact about the
  table's data, since the page never reads `subtleAccent`.
- **Features** (`features.dfy`, module `Features`): `handleFeatureChange` as
  a pure update, and `featureList`, which keeps inputs that are not blank
  after `trim()`, in order, at most three. Also the compact card's footer:
  the first listed feature, or a fixed sentence.
- **Export** (`export.dfy`, module `Export`): the file-safe slug of the
  product name, the download name `<slug or "product">-<layout>.png`, the
  per-layout card references that the ref callbacks bind, and the guard that
  makes exporting an unmounted card do nothing.
- **Form state** (`form_state.dfy`, module `FormState`): the `useState`
  cells as a class whose change handlers update one field each. This class
  also derives the palette in use and the shown features.
- **JavaScript text semantics** (`js_text.dfy`, module `JsText`): these are
  the building blocks the rest relies on:
  - the ECMAScript white-space set;
  - trimming a run of characters from both ends;
  - `toLowerCase` as far as ASCII letters are concerned;
  - the decimal rendering of a non-negative integer.

`options.dfy` holds the `Option` type.

## Model

All source paths below are in `app/src/pages/index.tsx`.

| member | source | states |
|---|---|---|
| JsText.Strip | app/src/pages/index.tsx:159 | `trim()`, and the removal of leading and trailing hyphens: the result is empty exactly when every character is stripped. Otherwise its first and last characters are kept ones. It is the contiguous middle of the input, and everything after it is stripped. |
| JsText.TrimStart | app/src/pages/index.tsx:93 | The white space `parseInt` skips: the result is a suffix, everything before it is white space, and it does not start with white space. |
| JsText.Trim | app/src/pages/index.tsx:159 | `trim()` gives an empty text exactly when the input is all white space. Otherwise the result starts and ends with a character that is not white space. It is never longer than the input. |
| JsText.ToLowerCase | app/src/pages/index.tsx:146 | No ASCII upper-case letter survives lower-casing. |
| JsText.ToLowerCaseAscii | app/src/pages/index.tsx:146 | Away from the two special characters, lower-casing keeps the length, maps each of `A`–`Z` to the letter 32 code points on, and keeps every other character. |
| JsText.ToLowerCaseFixed | app/src/pages/index.tsx:146 | A text without upper-case letters (and without the two special characters) is its own lower case. |
| JsText.Decimal | app/src/pages/index.tsx:102 | A template-string number is a non-empty run of digits with no leading zero unless it is 0. |
| JsText.DecimalRoundTrip | app/src/pages/index.tsx:102 | Reading the decimal rendering of n back gives n. |
| Colors.IndexOf | app/src/pages/index.tsx:92 | The first occurrence of the character, and None exactly when it does not occur. |
| Colors.RemoveFirst | app/src/pages/index.tsx:92 | `replace("#", "")` leaves a text without `#` unchanged. Otherwise it removes the first `#`, the one with no `#` before it, and keeps everything else in order. |
| Colors.HexValue | app/src/pages/index.tsx:93 | The value of n hexadecimal digits is below 16^n. |
| Colors.ParseHexInt | app/src/pages/index.tsx:93 | `parseInt(s, 16)` of the empty text is NaN, and a parsed number of a text of n characters is below 16^n in absolute value. |
| Colors.ParseHexDigits | app/src/pages/index.tsx:93 | `parseInt(s, 16)` of a non-empty run of hexadecimal digits is the number they denote. |
| Colors.ToInt32 | app/src/pages/index.tsx:94-96 | The operand of `>>` and `&` is in the signed 32-bit range and congruent modulo 2^32 to the parsed number, with NaN read as 0. |
| Colors.MaskedShifts | app/src/pages/index.tsx:94-97 | `(x >> 16) & 255`, `(x >> 8) & 255` and `x & 255` are three values below 256 whose base-256 value is x mod 2^24. |
| Colors.HexToRgb | app/src/pages/index.tsx:91-98 | For any input, the channels are below 256, and their base-256 value is the parsed number of the text (first `#` removed) mod 2^24. |
| Colors.SixDigitChannels | app/src/pages/index.tsx:91-98 | For a `#RRGGBB` colour the channels are the values of the three digit pairs, and together they are the value of the six digits. |
| Colors.RgbRoundTrip | app/src/pages/index.tsx:91-98 | Writing any channel triple as `#rrggbb` and reading it with hexToRgb gives the triple back. |
| Colors.HexRoundTrip | app/src/pages/index.tsx:91-98 | Reading a lower-case `#rrggbb` colour and writing it back gives the same text. |
| Colors.RgbaText | app/src/pages/index.tsx:102 | The template text starts with `rgba(` and ends with the alpha text and `)`. |
| Colors.AlphaColor | app/src/pages/index.tsx:100-103 | For a `#RRGGBB` colour, `alphaColor` writes the values of the three digit pairs as the channels, followed by the alpha. |
| Colors.RgbaTextRoundTrip | app/src/pages/index.tsx:102 | The text `rgba(r, g, b, alpha)` parses back to exactly those channels and that alpha. |
| Colors.AlphaColorChannels | app/src/pages/index.tsx:100-103 | `alphaColor(hex, alpha)` is an `rgba(…)` text carrying hexToRgb's channels of `hex` and the alpha. |
| Palettes.Find | app/src/pages/index.tsx:116 | `find` returns the first palette with the id, and returns nothing exactly when no palette has it. |
| Palettes.IdsDistinct | app/src/pages/index.tsx:28-77 | No two palettes of the table share an id. |
| Palettes.ResolveKnown | app/src/pages/index.tsx:115-118 | Selecting the id of any palette of the table gives that palette. |
| Palettes.ResolveUnknown | app/src/pages/index.tsx:116 | An id no palette has falls back to the first palette, "aurora". |
| Palettes.Resolve | app/src/pages/index.tsx:116 | The palette in use is always one of the table. It has the selected id, or no palette has that id and it is the first palette. |
| Palettes.CtaTextColor | app/src/pages/index.tsx:302 | The angled card's button text is dark (`#0f172a`) exactly when the palette actually shown is "nebula", and white otherwise, although the page tests the raw selected id. |
| Palettes.AccentsAreHexColors | app/src/pages/index.tsx:28-77 | Every accent is a lower-case `#rrggbb` colour. |
| Palettes.SubtleAccentIsAlphaOfAccent | app/src/pages/index.tsx:28-77 | Each palette's `subtleAccent` equals `alphaColor(accent, a)` for its alpha (0.75, 0.78, 0.8, 0.75). This is a fact about the table's data; the page never reads `subtleAccent`. |
| Features.ReplaceAt | app/src/pages/index.tsx:126-132 | The updated inputs have the same length, the new value at the index, and every other input unchanged. |
| Features.Filter | app/src/pages/index.tsx:159 | The filter is no longer than its input, and everything it keeps passes the test. |
| Features.FilterCount | app/src/pages/index.tsx:159 | The filter keeps exactly as many inputs as pass the test. |
| Features.FilterIsSubsequence | app/src/pages/index.tsx:159 | The filter keeps the inputs in their order. |
| Features.FilterAt | app/src/pages/index.tsx:159 | An input that passes appears in the filtered list at its rank among those that pass. |
| Features.FilterAfterReplace | app/src/pages/index.tsx:126-132 | Replacing one input changes the filtered list only at that input's place. |
| Features.FilledAfterReplace | app/src/pages/index.tsx:126-132 | Replacing one input changes the filtered list only at that input's place. The new value appears there exactly when it is not blank. |
| Features.FilledIffVisibleChar | app/src/pages/index.tsx:159 | An input counts as filled exactly when it has a character that is not white space. |
| Features.SliceTo | app/src/pages/index.tsx:159 | `slice(0, n)` is a prefix of the list, of length n or the whole list when it is shorter. |
| Features.FeatureList | app/src/pages/index.tsx:158-161 | At most three features are shown, and none of them is blank. |
| Features.FeatureListSpec | app/src/pages/index.tsx:158-161 | The shown list has min(3, number of filled inputs) entries. It is a subsequence of the inputs, and each filled input ranked below 3 among the filled ones sits at its rank. |
| Features.SliceKeepsAllOfThree | app/src/pages/index.tsx:159 | With at most three inputs, as the page has, `slice(0, 3)` drops nothing. |
| Features.FeatureListExample | app/src/pages/index.tsx:158-161 | `["Glow", "  ", "Hydrate", "", "Extra"]` shows `["Glow", "Hydrate", "Extra"]`. |
| Features.FooterText | app/src/pages/index.tsx:368 | The footer is a listed feature or the fallback sentence, and it is not blank when no listed feature is blank. |
| Features.FooterTextSpec | app/src/pages/index.tsx:368 | The compact footer is never blank. It shows the fallback sentence when no input is filled, and otherwise the first filled input. |
| Export.CollapseShape | app/src/pages/index.tsx:147 | `replace(/[^a-z0-9]+/g, "-")` leaves only `[a-z0-9-]` and never `--`. It is empty exactly for empty input, and starts with `-` exactly when the input starts with a separator. |
| Export.CollapseSeparators | app/src/pages/index.tsx:147 | A non-empty run of characters outside `[a-z0-9]` becomes exactly one `-`. |
| Export.CollapseAppend | app/src/pages/index.tsx:147 | Where a letter or digit sits at the seam, collapsing the joined text is collapsing each part and joining the results. With the previous row, this places exactly one hyphen for each separator run. |
| Export.Slug | app/src/pages/index.tsx:145-148 | Every file-safe name holds only `[a-z0-9-]`, has no `--` and has no hyphen at either end. |
| Export.SlugIdempotent | app/src/pages/index.tsx:145-148 | Making a file-safe name file-safe again changes nothing. |
| Export.SlugFixedPoints | app/src/pages/index.tsx:145-148 | The texts that slugging leaves unchanged are exactly the texts of slug shape. |
| Export.SlugKeepsLettersAndDigits | app/src/pages/index.tsx:145-148 | The file-safe name keeps every ASCII letter and digit of the lower-cased name, in order. It is empty exactly when there is none. |
| Export.FileStem | app/src/pages/index.tsx:149 | The file stem is never empty and has slug shape. It is "product" when the slug is empty, and the slug otherwise. |
| Export.DownloadName | app/src/pages/index.tsx:149 | The download name splits back into the file stem and the layout it was built from. |
| Export.DownloadNameExamples | app/src/pages/index.tsx:145-149 | `"Luminex Glow Serum!!"` with the angled layout downloads as `luminex-glow-serum-angled.png`, and `"---"` as `product-angled.png`. |
| Export.LayoutOrderLists | app/src/pages/index.tsx:79-81 | `layoutOrder` lists every layout exactly once, as "spotlight", "angled", "compact"; the card handles are kept for exactly these layouts. |
| Export.CardRefs.constructor | app/src/pages/index.tsx:120-124 | Every layout starts with no mounted card. |
| Export.CardRefs.Bind | app/src/pages/index.tsx:550-552 | The ref callback sets the one layout's entry and leaves the others unchanged. |
| Export.CardRefs.PlanExport | app/src/pages/index.tsx:134-149 | Export does nothing exactly when the layout has no mounted card. Otherwise it rasterises that card under a name that splits into the file stem of the product name and the layout. |
| FormState.Editor.constructor | app/src/pages/index.tsx:106-113 | The initial texts, the three default features and "aurora". |
| FormState.Editor.CurrentPalette | app/src/pages/index.tsx:115-118 | The palette in use is in the table, and it has the selected id or is the first palette when no palette has that id. |
| FormState.Editor.ShownFeatures | app/src/pages/index.tsx:158-161 | With the page's three inputs, the cards show every filled input. |
| FormState.Editor.SetFeature | app/src/pages/index.tsx:126-132 | `handleFeatureChange` replaces exactly one input, keeps three inputs and every other field unchanged, and changes the shown list only at that place. |
| FormState.Editor.SetProductName | app/src/pages/index.tsx:418 | Only the product name changes. |
| FormState.Editor.SetTagline | app/src/pages/index.tsx:432 | Only the tagline changes. |
| FormState.Editor.SetDescription | app/src/pages/index.tsx:446 | Only the story changes. |
| FormState.Editor.SetCta | app/src/pages/index.tsx:460 | Only the call to action changes. |
| FormState.Editor.SelectPalette | app/src/pages/index.tsx:154-156 | Picking a palette's radio selects its id, and that palette is then the one in use. No other field changes. |
| FormState.InitialPalette | app/src/pages/index.tsx:113-118 | The page opens with the aurora palette. |
| FormState.InitialFeatures | app/src/pages/index.tsx:85-89 | The page opens showing all three default features. |

## Left out

- Rasterising a card (`toPng`), creating the link element and clicking it: DOM and browser I/O. `PlanExport` returns the step to perform, with the card handle and the file name, instead of performing it.
- `async` ordering and a rejected `toPng` promise: concurrency and failure of foreign code.
- React rendering (`useMemo`, `useRef`, JSX markup, class names, inline styles other than the button colour and the footer text), fonts and the `Head` element: presentation only.
- Colors.AlphaColor: the `alpha` number is taken as the text it renders to. Number-to-string formatting of a floating-point value is not modelled.
- Colors.HexToRgb: the model reads the parsed number exactly. JavaScript rounds hexadecimal numbers beyond 2^53 to the nearest double before ToInt32, and that rounding is not modelled. The page only passes six-digit colours.
- JsText.ToLowerCase: only ASCII letters and the two non-ASCII characters whose lower case contains an ASCII letter (KELVIN SIGN and LATIN CAPITAL LETTER I WITH DOT ABOVE) are lowered. Every other character is kept. Their real lower-case forms are never `[a-z0-9]` either, so the file-safe name is the same.
- Features.ReplaceAt: an index at or beyond the length, which in JavaScript would extend the array, is excluded. The inputs are rendered from the array itself, so every index the page passes is in range.
- FormState.Editor.SelectPalette: the radio value is typed as a palette id and always comes from a table entry, so the method takes the entry's position. Arbitrary ids are covered by `CurrentPalette` and `Palettes.ResolveUnknown`.
- The palette fields other than `accent` and `subtleAccent` (gradients, text colours, sparkle) are kept as opaque CSS texts. The model does not check that `secondaryText` derives from `text`, and for "nebula" it does not: the nebula text is `#f8fafc` while its secondary text uses 241, 245, 249.
