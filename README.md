# tailwind-grid-inner, modelled in Dafny

`tailwind-grid-inner` is a Tailwind CSS plugin. It draws borders *between* the items of a CSS
grid, never around its outside. The class `grid-inner-3` turns an element into a three-column grid
and gives each item half a border on every inner side. Items of the first and last columns get
no border on the outer side and a margin there that cancels the wrapper's negative side margin.
Items of the first and last rows only lose the border on the outer side. Two `::after` pseudo-elements double the half-border wherever an
item has no neighbour to supply the other half: right of the last item, and under items of the
second-to-last row that have nothing below them.

The plugin knows only the column count, never the number of items. So every edge case is
expressed with `:nth-child`, `:nth-last-child`, `:last-child`, `:not()` and `~ *`. All item rules
are then given one specificity, so that within one ruleset, and across responsive variants such
as `md:grid-inner-4` emitted after it, rule order alone decides. Modern mode wraps each selector
in `:where()`. Legacy mode appends copies of `:nth-child(n)`.

The model follows `src/index.ts` module by module:

- `Text`: the part of JavaScript that the callback uses:
  - `String(n)` for integers;
  - `parseInt` as an optional sign followed by the longest run of digits;
  - `split(',')`;
  - `repeat`.
- `Grid`: the row and column of a 1-based position, the start of the last row, and the arithmetic
  facts about them.
- `Selectors`: the selector fragment the plugin writes, as a datatype. It comes with:
  - the text the plugin concatenates (`Render`);
  - a matching semantics over (position, number of siblings), with `an+b` as in CSS Syntax
    Level 3, section 6 (the An+B microsyntax);
  - the pseudo-class component of specificity, as in section 17 of CSS Selectors Level 4.
- `Structural`: `allItems` and the nine structural selectors, with what each matches in grid terms.
- `Equalize`: `useWhereOrIncreaseSpecificity`.
- `Keys`: the nine item rules' selectors and padding counts, and the proof that their object keys
  are distinct.
- `Styles`: the `grid-inner` callback as written (`GridInner`), from a value string to the
  CSS-in-JS object, and beside it the same callback with the `none` rule's padding corrected
  (`GridInnerCorrected`, see "## Findings"):
  - parsing of the value;
  - the border-width override;
  - the wrapper declarations and the item rules, in their emitted order;
  - the `none` branch;
  - the default `values` table;
  - distinct keys.
- `Cascade`: how a browser resolves the emitted rules for one item and property:
  - a declaration list gives a property the value of the last declaration that sets it, where
    `margin` and `border-*` shorthands set their four longhands;
  - across rules, the highest specificity wins, and a later rule wins a tie.

  From this, the module proves what the plugin is for, for every column count of at least 1 and
  every number of items:
  - each item's four border widths and four margins, and its `position`;
  - its `::after` element's `display`, left and top border widths, and left and right offsets.

  The `::after` element's `top`, `bottom`, `content` and `position` are emitted but not resolved
  by any lemma. The module also proves that a later `grid-inner` object overrides an earlier one
  under the same `target`. As written, this fails for a later `none` in legacy mode, whose rule is one
  specificity short. With the corrected `none` rule it holds for every value.

The plugin option `target` is a parameter (`Modern | Legacy`). Any option value other than
`'legacy'` behaves as `'modern'`. CSS values are opaque strings.

## Model

| member | source | states |
|---|---|---|
| Text.NatToString | src/index.ts:106 | The decimal numeral of a natural number is non-empty, all digits, and has two or more digits exactly when the number is at least 10. |
| Text.IntToString | src/index.ts:106 | `String(n)` is non-empty, made of digits and at most a minus sign, and starts with `-` exactly when `n` is negative. |
| Text.LeadingNumber | src/index.ts:105 | There is no number at the start of a string exactly when the string does not start with a digit. |
| Text.ParseInt | src/index.ts:103-105 | `parseInt` gives NaN (`None`) exactly when no digit follows the optional sign. |
| Text.ParseIntOfIntToString | src/index.ts:105-106 | `parseInt(String(n) + rest)` is `n` whenever `rest` does not start with a digit. |
| Text.IntToStringInjective | src/index.ts:106 | Different integers have different numerals. |
| Text.Split | src/index.ts:100 | `split` always yields at least one piece. |
| Text.SplitJoin | src/index.ts:100 | Joining the pieces of a split with the separator gives back the original string. |
| Text.SplitPiecesWithoutSeparator | src/index.ts:100 | No piece of a split contains the separator. |
| Text.SplitWithoutSeparator | src/index.ts:100 | A string without the separator splits into itself alone. |
| Text.SplitAtFirst | src/index.ts:100 | The first piece ends at the first separator; the rest is the split of what follows. |
| Text.Repeat | src/index.ts:60 | `s.repeat(count)` has length `count` times that of `s`. |
| Grid.PlaceOf | src/index.ts:113-126 | A position is determined by its row and column, and determines them. |
| Grid.LastRowStartIsLastFirstColumnCell | src/index.ts:113-130 | The last row's start is the last first-column position up to `total`, in the same row as `total`, and fewer than `cols` places before its end. |
| Grid.InLastRowIff | src/index.ts:128-130 | A position is in the last row exactly when it is at or after the last row's start. |
| Grid.OverhangIff | src/index.ts:135-136 | The positions between `total - cols` and the last row's start are exactly the second-to-last row's positions with no position `cols` further on. |
| Selectors.Render | src/index.ts:113-140 | The text each selector fragment is written as. Its lengths are stated by `Keys.RawLengths`, and the texts that must differ are shown to by `Keys.FirstRowTextDiffers` and `Keys.FirstColTextDiffers`. |
| Selectors.AnPlusBMeaning | src/index.ts:113-126 | The decision procedure for `an+b` accepts `p` exactly when `p = a*n + b` for some `n >= 0`. |
| Selectors.AnPlusBWitness | src/index.ts:113-126 | Each position the procedure accepts is `a*n + b` for some `n >= 0`. |
| Selectors.AnPlusBOfTerm | src/index.ts:113-126 | Each `a*n + b` with `n >= 0` is accepted. |
| Structural.AllItems | src/index.ts:19-24 | `:nth-child(n)` has specificity 1, is one compound selector, and matches every position. |
| Structural.LastXInGrid | src/index.ts:108-113 | `:nth-last-child(-n + cols)` has specificity 1. |
| Structural.FirstCol | src/index.ts:115-116 | `firstCol` has specificity 1. |
| Structural.LastCol | src/index.ts:117-124 | `lastCol` has specificity 1. |
| Structural.FirstRow | src/index.ts:125-126 | `firstRow` has specificity 1. |
| Structural.FirstInLastRow | src/index.ts:127-128 | `firstInLastRow` has specificity 2 and is a compound selector. |
| Structural.OthersInLastRow | src/index.ts:129-130 | `othersInLastRow` has specificity 2. |
| Structural.LastIfNotLastCol | src/index.ts:132-133 | `lastIfNotLastCol` has specificity 2. |
| Structural.PenultimateRowOverhangs | src/index.ts:134-136 | `penultimateRowOverhangs` has specificity 5. |
| Structural.PenultimateRowOverhangLastCol | src/index.ts:138-140 | `penultimateRowOverhangLastCol` has specificity 6. |
| Structural.FirstColMembership | src/index.ts:116 | `firstCol` matches `i` exactly when `(i-1) mod cols = 0`. |
| Structural.LastColMembership | src/index.ts:124 | `lastCol` matches `i` exactly when `i mod cols = 0`, that is, in the last column. |
| Structural.FirstRowMembership | src/index.ts:126 | `firstRow` matches `i` exactly when `i <= cols`, that is, in row 0. |
| Structural.LastXMembership | src/index.ts:113 | `lastXInGrid` matches exactly the last `cols` positions. |
| Structural.FirstInLastRowMembership | src/index.ts:128 | `firstInLastRow` matches the last row's start and nothing else. |
| Structural.OthersInLastRowMembership | src/index.ts:130 | `othersInLastRow` matches exactly the positions after the last row's start. |
| Structural.LastIfNotLastColMembership | src/index.ts:133 | `lastIfNotLastCol` matches `i` exactly when `i = total` and `total mod cols != 0`. |
| Structural.PenultimateRowOverhangsMembership | src/index.ts:135-136 | `penultimateRowOverhangs` matches exactly the positions between `total - cols` and the last row's start, which are the second-to-last row's positions with nothing below (lines 214-216). |
| Structural.NoOverhangsWhenLastRowFull | src/index.ts:135-140 | When `total` is a multiple of `cols`, neither overhang selector matches anything. |
| Structural.PenultimateRowOverhangLastColMembership | src/index.ts:139-140 | `penultimateRowOverhangLastCol` matches exactly the overhanging positions with `i mod cols = 0`. |
| Structural.FirstAndLastColumnDifferOnlyInText | src/index.ts:117-124 | `firstCol` and `lastCol` always have different texts, although with one column they match the same positions. |
| Equalize.Pad | src/index.ts:58-61 | Appending `count` copies of `:nth-child(n)` gives the text followed by `":nth-child(n)".repeat(count)` and raises specificity by exactly `count`. |
| Equalize.UseWhereOrIncreaseSpecificity | src/index.ts:58-61 | Modern mode gives `:where(s)`, of specificity 0. Legacy mode gives `s` followed by `count` copies of `:nth-child(n)`, of specificity `spec(s) + count`. |
| Equalize.PadKeepsMatches | src/index.ts:58-61 | Padding never changes which positions a selector matches. |
| Equalize.EqualizedKeepsMatches | src/index.ts:58-61 | Neither strategy changes which positions a selector matches. |
| Keys.RawSelector | src/index.ts:158-248 | Each of the nine rule selectors, in emitted order, is well formed. |
| Keys.Padding | src/index.ts:158-244 | Each rule's padding count plus its selector's specificity is 6: 1+5, 1+5, 2+4, 2+4, 1+5, 1+5, 2+4, 5+1, 6+0. |
| Keys.ItemSelector | src/index.ts:158-244 | The `j`-th rule's selector is the `j`-th structural selector equalized with its call-site count. `Cascade.ItemRulesTie` gives its specificity and `Cascade.ItemRuleMatches` its region. |
| Keys.Key | src/index.ts:158-244 | The object key `& > <selector>` of an item rule. `Keys.KeyLengths` gives its length and `Keys.ItemKeysDistinct` shows that no two rules share one. |
| Keys.RawLengths | src/index.ts:113-140 | The length of each selector's text, as a function of the numeral's length. |
| Keys.KeyLengths | src/index.ts:158-244 | The length of each item rule's key under either strategy. |
| Keys.SameKeySameText | src/index.ts:58-61 | Equal keys of equally long selectors under equal padding come from equal selector texts. |
| Keys.FirstRowTextDiffers | src/index.ts:116-126 | The `firstRow` text differs from the `firstCol` and `lastCol` texts. |
| Keys.FirstColTextDiffers | src/index.ts:117-124 | The `firstCol` text differs from the `lastCol` text (` + ` against `+`). |
| Keys.EdgeKeysDiffer | src/index.ts:170-193 | The `firstRow`, `firstCol` and `lastCol` rules have pairwise different keys, for any column count and strategy. |
| Keys.ItemKeysDiffer | src/index.ts:158-248 | Any two different item rules have different keys. |
| Keys.ItemKeysDistinct | src/index.ts:117-124 | No two of the nine item rules share a key, for any column count, one included, and either strategy. |
| Styles.ColumnCount | src/index.ts:105 | `parseInt(rawCols) \|\| 1` is never 0; it is the parsed number when that is a non-zero number, and 1 otherwise. Negative counts pass through. |
| Styles.CustomBorderWidth | src/index.ts:102-103 | The override is present exactly when the second piece exists and parses to a non-zero number, and is then that number. |
| Styles.RoundHalf | src/index.ts:146 | `Math.round(w / 2)` is the integer within one half of `w / 2`, with halves rounded up. |
| Styles.BorderPx | src/index.ts:145-147 | `abs(2 * round(w / 2))` is even and non-negative: `abs(w)` for even `w`, `abs(w + 1)` for odd `w`. |
| Styles.ParseValue | src/index.ts:82-106 | The value is the reset exactly when it is the string `none`. Otherwise the column count is never 0 and a width, when present, is never 0. |
| Styles.WrapperDecls | src/index.ts:142-155 | The wrapper declarations in emitted order. `Styles.WrapperPropsInOrder`, `Styles.WrapperLayout` and `Styles.WrapperCustomVar` state what they declare. |
| Styles.AllItemsBody | src/index.ts:157-167 | The all-items body. `Cascade.TopWidthTable` to `Cascade.AfterRightTable` read off what it sets for each slot. |
| Styles.FirstRowBody | src/index.ts:169-172 | The first-row body; `Cascade.TopWidthTable` shows it zeroes the top border width. |
| Styles.LastRowBody | src/index.ts:174-181 | The body shared by both last-row rules; `Cascade.BottomWidthTable` shows it zeroes the bottom border width. |
| Styles.FirstColBody | src/index.ts:183-187 | The first-column body; `Cascade.LeftWidthTable` and `Cascade.MarginLeftTable` read off its left border width and margin. |
| Styles.LastColBody | src/index.ts:189-193 | The last-column body; `Cascade.RightWidthTable` and `Cascade.MarginRightTable` read off its right border width and margin. |
| Styles.LastIfNotLastColBody | src/index.ts:195-212 | The body doubling the last item's right border. `Cascade.PositionTable`, `Cascade.AfterDisplayTable`, `Cascade.AfterLeftWidthTable` and `Cascade.AfterLeftTable` read it off. |
| Styles.OverhangBody | src/index.ts:214-235 | The body doubling the bottom border of items with nothing below. `Cascade.AfterTopWidthTable`, `Cascade.AfterLeftTable` and `Cascade.AfterRightTable` read it off. |
| Styles.OverhangLastColBody | src/index.ts:237-248 | The body correcting the last column's `::after` right offset; `Cascade.AfterRightTable` reads it off. |
| Styles.ItemBody | src/index.ts:157-248 | The nine bodies in rule order, which the layout lemmas `Cascade.TopBorder` to `Cascade.AfterRightOffset` resolve. |
| Styles.ItemRules | src/index.ts:158-248 | The callback writes exactly nine item rules. |
| Styles.ColumnStyles | src/index.ts:142-248 | The object for a column-count value: the wrapper, then the nine item rules. `Styles.ColumnsLayout` and `Styles.ColumnKeysDistinct` state its properties. |
| Styles.ResetBody | src/index.ts:88-96 | The `none` rule's body; `Cascade.ResetBodyDeclares` reads it off. |
| Styles.ResetStylesAsWritten | src/index.ts:82-97 | The `none` object as written: one item rule, of specificity 5 in legacy mode (one short of the other rules' 6) and 0 in modern mode. |
| Styles.ResetStyles | src/index.ts:82-97 | The corrected `none` object: one item rule, of specificity 6 in legacy mode and 0 in modern mode, tying with every other item rule. |
| Styles.GridInner | src/index.ts:66-249 | The callback as written gives one item rule for `none` and nine for any other value. |
| Styles.GridInnerCorrected | src/index.ts:82-249 | The callback with the corrected `none` rule gives one item rule for `none` and nine for any other value. |
| Styles.CorrectionOnlyForLegacyNone | src/index.ts:82-97 | The corrected callback gives the same object as the written one exactly when the value is not `none` or the target is modern. |
| Styles.NumeralIsNotNone | src/index.ts:82-100 | A numeral is never `none` and contains no comma. |
| Styles.ParseColumnsValue | src/index.ts:100-106 | The value `String(n)` selects `n` columns, or 1 when `n` is 0, with no override. |
| Styles.ParseColumnsAndWidthValue | src/index.ts:100-106 | `"<n>,<w>"` selects `n` columns (1 for 0), and the width `w` when it is non-zero. |
| Styles.UnparseableColumns | src/index.ts:105 | A value whose column piece does not parse gives one column. |
| Styles.BorderWidthExamples | src/index.ts:143-150 | Widths 3, 4 and -4 all emit `4px`; -3 gives 2. |
| Styles.WrapperCustomVar | src/index.ts:143-149 | The wrapper declares the override variable exactly when a width is given, and then first, as `<abs(2*round(w/2))>px`. |
| Styles.CustomWidthEmitted | src/index.ts:100-103 | For the value `"<n>,<w>"`, the override is emitted exactly when `w != 0`, with value `<abs(2*round(w/2))>px`. |
| Styles.WrapperLayout | src/index.ts:150-153 | The wrapper declares the border variable with its `2px` fallback and a grid template of `cols` columns. |
| Styles.ColumnsLayout | src/index.ts:100-106 | For every value other than `none`, the grid template's column count is the one the nine item selectors are built for, and the border variable falls back to `2px` (lines 150-153). |
| Styles.NoneKeepsWrapperLayout | src/index.ts:77-97 | `none` only zeroes the wrapper's side margins. It leaves `display` and the grid template alone and writes one item rule. |
| Styles.DefaultValues | src/index.ts:254-257 | The default values table; `Styles.DefaultValuesTable` and `Styles.DefaultNamesDistinct` state its contents. |
| Styles.DefaultValuesTable | src/index.ts:254-257 | The default table has 13 entries: `1` to `12` map to themselves and parse to that many columns, and then `none` maps to the reset. |
| Styles.DefaultNamesDistinct | src/index.ts:254-257 | No two default entries share a name. |
| Styles.PropNameIsNotNested | src/index.ts:142-155 | A wrapper property key never starts with `&`, unlike item keys. |
| Styles.WrapperNamesDiffer | src/index.ts:142-155 | The wrapper's property names are pairwise different. |
| Styles.ResetKeysDistinct | src/index.ts:82-97 | The `none` object, as written and corrected, has no repeated key. |
| Styles.ColumnKeysDistinct | src/index.ts:142-248 | A column object has no repeated key. |
| Styles.ObjectKeysDistinct | src/index.ts:82-248 | For every value, no key of the object the callback returns repeats, as written and corrected, so no declaration or rule is lost when the object literal is built. |
| Cascade.Lookup | src/index.ts:158-167 | A declaration list gives a property no value exactly when no declaration of it, or of a shorthand that includes it, is present. |
| Cascade.LastCoveringWins | src/index.ts:158-167 | The last declaration that sets a property, directly or through a shorthand, gives its value. |
| Cascade.Resolve | src/index.ts:54-56 | There is no winner exactly when no rule takes part; a winner is a rule that takes part, with its specificity and value. |
| Cascade.WinnerIsLastOfHighest | src/index.ts:54-56 | The winner has the highest specificity among the rules taking part, and every later rule taking part has a strictly lower one. |
| Cascade.LastOfHighestWins | src/index.ts:54-56 | Among rules of at most one specificity, the last rule taking part at that specificity wins. |
| Cascade.LastApplyingWins | src/index.ts:54-56 | When all rules share one specificity, the last rule taking part wins. |
| Cascade.LaterBidsOverride | src/index.ts:46-56 | Rules written after others, at the highest specificity among them, decide the slot whenever one of them takes part. |
| Cascade.LaterRulesetOverrides | src/index.ts:46-56 | A ruleset written after another, at the highest specificity among them, decides every slot it sets for the item. |
| Cascade.LowerBidsLose | src/index.ts:46-56 | Rules written after the winner, all with a strictly lower specificity, leave the winner in place. |
| Cascade.LowerRulesetLoses | src/index.ts:46-56 | A ruleset of strictly lower specificity written later changes nothing an earlier ruleset at one specificity sets. |
| Cascade.ItemRulesTie | src/index.ts:54-56 | All nine item rules have one specificity: 6 in legacy mode and 0 in modern mode. |
| Cascade.ObjectRulesTie | src/index.ts:54-56 | Every item rule of the object the callback returns reaches at most that specificity, and exactly it except for `none` in legacy mode. |
| Cascade.CorrectedRulesTie | src/index.ts:82-97 | With the corrected `none` rule, every item rule of every object, `none` included, has that specificity. |
| Cascade.FirstRuleCoversAll | src/index.ts:158 | Every object's first item rule matches every item, as written and corrected. |
| Cascade.RawSelectorRegion | src/index.ts:113-140 | Each of the nine selectors matches exactly the items of its region, in grid terms. |
| Cascade.ItemRuleMatches | src/index.ts:158-248 | Each item rule, after equalization, matches exactly the items of its region. |
| Cascade.ItemBid | src/index.ts:158-248 | The `j`-th item rule takes part for a slot exactly when the item is in its region and its body sets the slot, at the equalized specificity. |
| Cascade.LastRegionWins | src/index.ts:54-56 | Among the nine item rules, the last one whose region holds the item and whose body sets the slot gives the value. |
| Cascade.NoRegionDeclares | src/index.ts:158-248 | A slot that no rule of the item's regions sets has no value. |
| Cascade.TopBorder | src/index.ts:169-172 | Every item has a half top border, except in the first row, where it has none. |
| Cascade.BottomBorder | src/index.ts:174-181 | Every item has a half bottom border, except in the last row, where it has none. |
| Cascade.LeftBorder | src/index.ts:183-187 | Every item has a half left border, except in the first column, where it has none. |
| Cascade.LeftMargin | src/index.ts:183-187 | Items of the first column get a left margin of half a border, to cancel the wrapper's negative margin; all other items get `0px`. |
| Cascade.RightBorder | src/index.ts:189-193 | Every item has a half right border, except in the last column, where it has none. |
| Cascade.RightMargin | src/index.ts:189-193 | Items of the last column get a right margin of half a border; all other items get `0px`. |
| Cascade.TopMargin | src/index.ts:157-159 | No item has a top margin. |
| Cascade.BottomMargin | src/index.ts:157-159 | No item has a bottom margin. |
| Cascade.PositionedWhereDoubled | src/index.ts:199-222 | An item is positioned `relative` exactly when it is the last item short of its row's end, or has nothing below it. |
| Cascade.AfterShownWhereDoubled | src/index.ts:164-229 | The `::after` element is `block` for exactly those items and `none` for all others. |
| Cascade.AfterVerticalBorder | src/index.ts:195-203 | Only the last item, when it does not end its row, gets a `::after` left half-border. |
| Cascade.AfterHorizontalBorder | src/index.ts:214-226 | Only items with nothing below get a `::after` top half-border. |
| Cascade.AfterLeftOffset | src/index.ts:199-231 | The `::after` element starts half a border past the right edge of a short last item. Under an item with nothing below, it starts half a border before the left edge. |
| Cascade.AfterRightOffset | src/index.ts:232-248 | Under an item with nothing below, the `::after` element reaches half a border past the right edge, except in the last column, where its right offset is `0`. |
| Cascade.BreakpointOverride | src/index.ts:36-56 | A `grid-inner` object emitted after another under the same `target` decides every slot one of its rules sets for the item, whatever edge case the item was before, unless it is `none` in legacy mode. |
| Cascade.BreakpointOverrideCorrected | src/index.ts:36-56 | With the corrected `none` rule, a later object decides every slot it sets, for every value, `none` included. |
| Cascade.ResetBodyDeclares | src/index.ts:87-96 | The `none` item rule zeroes each side's margin and border width and hides `::after`. |
| Cascade.ResetValues | src/index.ts:82-97 | On its own, the `none` object, as written (padding 4) and corrected (padding 5), gives every item zero margins and border widths and a hidden `::after`, under either target. |
| Cascade.ResetRuleValues | src/index.ts:87-96 | A lone rule with the `none` body that matches the item sets, and gives it, zero margins and border widths and a hidden `::after`. |
| Cascade.NoneClearsGrid | src/index.ts:67-97 | With the corrected `none` rule, `grid-inner-none` after any `grid-inner` object takes every item's margins and border widths to `0px` and hides its `::after`, under either target. |
| Cascade.NoneClearsGridModern | src/index.ts:67-97 | As written, in modern mode, `grid-inner-none` after any `grid-inner` object takes every item's margins and border widths to `0px` and hides its `::after`. |
| Cascade.AsWrittenAgreesInModern | src/index.ts:58-61 | In modern mode the padding count of the `none` rule is irrelevant. |
| Cascade.ResetAsWrittenAlone | src/index.ts:87 | The `none` rule as written has specificity 5 in legacy mode. On its own it sets a lone item's right border to `0px`. |
| Cascade.NumeralItemRules | src/index.ts:100-106 | The value `String(cols)` yields the item rules for `cols` columns. |
| Cascade.LoneItemRightBorder | src/index.ts:158-193 | With two or more columns, a lone item keeps a half right border. |
| Cascade.ResetAsWrittenNeverOverrides | src/index.ts:87 | In legacy mode, the `none` rule as written never overrides a value that an earlier ruleset at the equalized specificity sets. |
| Cascade.ResetAsWrittenLoses | src/index.ts:87 | In legacy mode, the callback's `none` object, emitted after its `<cols>` object with `cols >= 2`, leaves a lone item's half right border in place. |

## Left out

- Plugin plumbing is not modelled: `plugin.withOptions` and the `matchUtilities` registration (src/index.ts:1, 26, 63-64). Tailwind's serialisation of the object to CSS is left out too. `target` is a parameter instead.
- CSS values stay opaque strings. `calc()` and `var()` are not evaluated, and neither are layout, colors and styles. The layout lemmas state which value each item receives, not the pixels drawn.
- JavaScript's `parseInt` is modelled as an optional sign and the longest run of decimal digits. Leading whitespace, radix prefixes and the numeric limits of doubles are not modelled. `Math.round` and `Math.abs` are modelled on integers, which is exact for the integers `parseInt` returns.
- An object key's uniqueness is what JavaScript's object literal needs. The model proves that no key repeats; it does not model how a repeated key would overwrite an earlier one.
- Specificity is the pseudo-class count alone. No emitted selector has an id or type component. Every rule is prefixed by its object's wrapper class, which adds exactly one class to its specificity. Across the two objects `Cascade.BreakpointOverride` compares, the classes differ (`.grid-inner-3` against `.md\:grid-inner-4`), but each adds the same single class. Variants that add pseudo-classes of their own, such as `hover:` or `focus:`, are not modelled.
- The cascade model covers one item and one property at a time. Rules from other stylesheets, `!important`, inheritance and the `inherit` keyword's effect are not modelled.
- Cascade.LastRegionWins: this lemma and the layout lemmas built on it (`Cascade.TopBorder` to `Cascade.AfterRightOffset`) assume `cols >= 1`. `parseInt(rawCols) || 1` lets a negative count through, which `Styles.ColumnCount` models, but the selectors a negative count produces are not analysed. A negative count also makes the grid template itself invalid CSS.
- Cascade.BreakpointOverride: excludes a later `none` in legacy mode, because for the code as written the override does not hold there (see "## Findings"). `Cascade.BreakpointOverrideCorrected` states it for every value with the corrected `none` rule.
- Cascade.NoneClearsGrid: is stated for the corrected callback. For the code as written it holds in modern mode (`Cascade.NoneClearsGridModern`) and fails in legacy mode (`Cascade.ResetAsWrittenLoses`). It covers margins, border widths and `::after`. The `none` rule's `borderColor`, `borderStyle` and `gridColumn` are emitted (`Styles.ResetBody`), but no lemma is stated about the values they resolve to.

Where a reader might expect otherwise, the model follows the code:

- Legacy padding is appended (src/index.ts:60), not prepended, and each call site passes its own count instead of computing one from a maximum.
- The `none` branch does not reset `position`.
- The all-items rule does not set `position`.

## Findings

| source | as written | input that shows it | evidently intended | confidence | as-written member | corrected member |
|---|---|---|---|---|---|---|
| src/index.ts:87 | The `none` item rule is `useWhereOrIncreaseSpecificity(allItems, 4)`: specificity 1+4 = 5 in legacy mode, while every other item rule has 6 (lines 158-244). | `target: 'legacy'`, classes `grid-inner-3 md:grid-inner-none`, one item. At `md` the item keeps `borderRightWidth: calc(var(--tw-grid-inner-border) / 2)` from the base rule, because the `none` rule's `0px` loses on specificity. | Padding 5, so that `none` ties with the other rules and, coming later, overrides them (lines 36-56, 67-75). | not executed | Styles.GridInner with Styles.ResetStylesAsWritten; Cascade.ResetAsWrittenLoses (via Cascade.ResetAsWrittenNeverOverrides) | Styles.GridInnerCorrected with Styles.ResetStyles; Cascade.NoneClearsGrid and Cascade.BreakpointOverrideCorrected |
