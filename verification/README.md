# Photo gallery lightbox, modelled in Dafny

The project models the behaviour of the gallery page script `script.js`:

- how the catalog of viewable items is built from the gallery's cards;
- how each card reserves its aspect ratio before and after its image loads,
  including the `parseDims` dimension-string parser and its regular expression;
- the portrait/landscape tag;
- the lightbox state machine: `open`, `close`, `next` and `prev`, with
  JavaScript's truncating `%`;
- how keys, clicks and swipes are routed to lightbox operations;
- the "open original" address choice;
- the rows of the details panel.

Each piece is pure: a handler becomes a function from a state and an event to a
new state, plus the address a new window would be opened with.

Modules, one per file:

| file | module | contents |
|---|---|---|
| options.dfy | Options | `Option` |
| seqs.dfy | Seqs | order-preserving filtering (`FilterMap`) and the indices it keeps |
| catalog.dfy | Catalog | image nodes, cards, items, `Build` |
| dimensions.dfy | Dimensions | the separator substitution, a greedy matcher for `(\d{2,})\s*x\s*(\d{2,})`, leftmost search, `ParseDims` |
| aspect.dfy | Aspect | the reservation priority chain, the after-load correction, the portrait tag |
| arith.dfy | Arith | JavaScript's remainder against Dafny's Euclidean one |
| lightbox.dfy | Lightbox | lightbox state, `Open`, `Close`, `Next`, `Prev`, and the invariant `Valid` |
| routing.dfy | Routing | key, overlay-click, panel-click and swipe routing |
| details.dfy | Details | the details table |
| viewer.dfy | Viewer | the whole page as one event-driven state machine, and its invariant |

Three behaviours of the code are easy to misread, and the model keeps them:

- `open(i)` computes `(i + n) % n` with JavaScript's truncating remainder, so
  only indices from `-n` upwards wrap into `[0, n)`. For `i < -n` the result
  is negative unless `n` divides `i`. `current` is then set to that negative
  value, and reading the missing item throws before anything else changes.
  `Lightbox.Open` models exactly that, and `Lightbox.OpenFarBelowRange`
  exhibits it. The page itself only ever calls `open` with `i >= -1`
  (`Lightbox.OpenKeepsValid`, `Viewer.StepKeepsValid`).
- As written, the separator class of `parseDims` does not hold the
  multiplication sign, so a "1200×800" dimensions string is not read (see
  Findings). `Aspect.Reserve` uses the class as written; `Aspect.ReserveIntended`
  is the same chain with the corrected class.
- When the dimensions string gives no pair, data-w/data-h are consulted before
  the 3 / 2 fallback. A string that parses with a zero in it still counts as
  found and hides them (`Aspect.ZeroDimensionsHideDataAttributes`).

The overlay's click and touch listeners are attached to the overlay and the
panel's click listener to the panel, so a hidden overlay or panel hears
nothing; only key events reach the window in every state.
`Viewer.Receivable` states which events a page can be handed.

## Model

| member | source | states |
|---|---|---|
| Catalog.Build | script.js:51-57 | the catalog is never longer than the card list, and is as long exactly when every card holds an image |
| Catalog.BuildKeepsImageCardsInOrder | script.js:51-57 | the catalog has one item per card that holds an image, in document order, and no others; item k carries the element, the source and the alt text (empty when missing) of the k-th such card's image |
| Dimensions.NormalizeReplacesSubstitutes | script.js:27 | the replacement keeps the length; a position reads 'x' exactly when it held 'x' or a substitute, and every other character is kept |
| Dimensions.Run | script.js:27 | a greedy `\d*` or `\s*` consumes a run of class characters that ends at the string's end or before a character outside the class |
| Dimensions.ValueBounds | script.js:28 | a captured group of k digits denotes a number below 10^k, and a group of zeros denotes 0 |
| Dimensions.MatchAt | script.js:27 | a greedy match at p starts at p, both groups have at least two digits, and the second group follows the first inside the string |
| Dimensions.MatchAtSound | script.js:27 | a greedy match at a position is an instance of the pattern, and its second digit group is maximal |
| Dimensions.MatchAtComplete | script.js:27 | any way the pattern matches at a position is found by the greedy match there, with the same first group |
| Dimensions.MatchAtIsPatternMatch | script.js:27 | the greedy match at a position succeeds exactly when the pattern matches there for some counts |
| Dimensions.Scan | script.js:27 | a reported match's groups lie inside the string |
| Dimensions.ScanIsLeftmost | script.js:27 | `match` reports the match at the first position where one exists, and none when there is none |
| Dimensions.ScanFindsLeftmostPattern | script.js:27 | a reported match is a pattern instance, and the pattern matches nowhere earlier |
| Dimensions.ScanFailsOnlyWithoutPattern | script.js:27 | no match is reported only when the pattern matches nowhere |
| Dimensions.ParseDimsAsWritten | script.js:25-29 | parseDims as the file spells it: a pair exactly when the string, with Ã, the em dash and 'X' replaced by 'x', contains the pattern |
| Dimensions.ParseDims | script.js:25-29 | parseDims with the corrected class (× and 'X'); it agrees with the parser as written on every string free of Ã, the em dash and × |
| Dimensions.ParseDimsSomeIffPattern | script.js:25-29 | for either class, parseDims returns a pair exactly when the normalised string contains the pattern |
| Dimensions.FirstDimsIsLeftmostMatch | script.js:27-28 | the pair is the decimal values of the leftmost match's first group and its maximal second group |
| Dimensions.NoSeparatorNoDims | script.js:26-28 | with no 'x' and no substitute in the string there is no pair |
| Dimensions.DecimalValues | script.js:28 | the groups "1200" and "800" convert to 1200 and 800 |
| Dimensions.Parse1200x800 | script.js:27-28 | a string normalising to "1200x800" gives 1200 by 800 |
| Dimensions.ZerosParseAsZero | script.js:27-28 | a string normalising to "00x00" gives a pair, with width 0 |
| Dimensions.WrittenExamples | script.js:27-28 | as written, "1200x800", "1200X800" and "1200—800" all give 1200 by 800 |
| Dimensions.IntendedExamples | script.js:27-28 | with the intended class, "1200x800", "1200X800" and "1200×800" all give 1200 by 800 |
| Dimensions.WrittenClassMissesMultiplicationSign | script.js:27 | with the class as written, "1200×800" gives no pair, where the intended class gives 1200 by 800 |
| Aspect.ReserveWith | script.js:30-39 | the reserved ratio has no zero part; truthy width and height attributes win; otherwise a pair parsed from the dimensions string is used when both its parts are non-zero and 3 / 2 when not, and only without such a pair do truthy data-w/data-h give the ratio, with 3 / 2 as the last resort |
| Aspect.DimensionsStringReserves | script.js:34-39 | a card whose size comes only from the dimensions string "1200x800" reserves 1200 / 800 |
| Aspect.MultiplicationSignFallsThrough | script.js:27-39 | with "1200×800" and data-w/data-h of 4 and 3, the script reserves 4 / 3 where the intended class reserves 1200 / 800 |
| Aspect.ZeroDimensionsHideDataAttributes | script.js:34-39 | a dimensions string normalising to "00x00" still counts as found, so data-w/data-h are skipped and 3 / 2 is reserved |
| Aspect.CorrectTwiceIsCorrectOnce | script.js:45 | running the correction again, as an already loaded image does, changes nothing |
| Aspect.LoadedRatio | script.js:39-46 | after load the ratio is non-zero and equals the intrinsic size whenever the image reports one |
| Aspect.Tag | script.js:63-68 | without an intrinsic size the classes are untouched; otherwise exactly one of portrait (h > 1.1 w) and landscape is set, and no other class changes |
| Aspect.TagTwiceIsTagOnce | script.js:69 | running the tag handler twice equals running it once |
| Arith.JsRem | script.js:77 | the remainder lies strictly between -n and n, takes the dividend's sign, and matches the Euclidean remainder up to sign |
| Arith.JsRemAgreesWithEuclidean | script.js:77 | the truncating and Euclidean remainders agree exactly for non-negative dividends and multiples of n; otherwise the truncating one is negative |
| Lightbox.Open | script.js:75-86 | an empty catalog changes nothing; for i >= -n the index becomes i mod n, that item is shown with its 1-based position, and the overlay is visible with scrolling locked |
| Lightbox.OpenFarBelowRange | script.js:76-78 | open(-n-1) with n >= 2 sets the index to -1 and shows nothing new |
| Lightbox.OpenKeepsValid | script.js:75-86 | open keeps the lightbox invariant for every index not below -n |
| Lightbox.OpenTwiceIsOpenOnce | script.js:75-86 | opening an index twice equals opening it once |
| Lightbox.Close | script.js:87-90 | the overlay is hidden and scrolling unlocked; the index and the shown item are kept |
| Lightbox.Next | script.js:91 | the invariant is kept; the index advances by one and wraps from the last item to the first; the overlay ends up visible |
| Lightbox.Prev | script.js:92 | the invariant is kept; the index steps back by one and wraps from the first item to the last; the overlay ends up visible |
| Lightbox.InitialIsValid | script.js:73 | the page-load state satisfies the invariant |
| Lightbox.ThreeItemWalk | script.js:75-92 | with three items: open(2), next, prev, close visit C, A, C, and close hides C |
| Routing.RouteKey | script.js:125-134 | keys are ignored while both overlay and panel are hidden; Escape hides the panel if it is open and otherwise closes the overlay; the arrows navigate only while the overlay is visible |
| Routing.RouteBoxClick | script.js:109-122 | the backdrop and the close control close; next, prev, open-original and details run their operations; anything else does nothing |
| Routing.RoutePanelClick | script.js:159-161 | a click on the panel's backdrop or close control hides the panel, and nothing else does |
| Routing.RouteSwipe | script.js:136-139 | travel over 40 leftwards is next, over 40 rightwards is previous, anything else is a tap |
| Routing.SwipeBoundaries | script.js:138 | exactly 40 is a tap and 41 is a swipe in either direction |
| Viewer.PerformFrames | script.js:108-122 | only open-original hands out an address, only the details action rewrites the table, only the details actions toggle the panel, the lightbox moves only for navigation and close, and no action touches the touch start |
| Viewer.StepFrames | script.js:94-139 | only the open-original control opens a new window, only the details control rewrites the table, and a touch start only records its position |
| Viewer.StartIsValid | script.js:73 | the page-load state satisfies the page invariant |
| Viewer.PerformKeepsLightboxValid | script.js:108-122 | every routed action keeps the lightbox invariant |
| Viewer.StepKeepsLightboxValid | script.js:94-139 | every receivable event keeps the lightbox invariant |
| Viewer.PerformWritesCurrentRows | script.js:121 | after an action a visible panel shows the rows it already showed, or the details action wrote the current item's table |
| Viewer.StepWritesCurrentRows | script.js:94-139 | after an event a visible panel shows the rows it already showed, or the current item's table |
| Viewer.PerformKeepsValid | script.js:108-122 | every routed action keeps the page invariant |
| Viewer.StepKeepsValid | script.js:94-139 | every event the page can receive keeps the page invariant, so the index stays in range |
| Viewer.HiddenPageIgnoresKeys | script.js:125-128 | with overlay and panel hidden, a key changes nothing |
| Viewer.HiddenOverlayIgnoresArrows | script.js:125-133 | while the overlay is hidden the arrow keys change nothing, even with the panel showing |
| Viewer.EscapePrefersDetails | script.js:129 | Escape hides an open panel and leaves the lightbox alone; otherwise it closes the overlay |
| Viewer.ImageClickOpensOnce | script.js:101-105 | a click on a card's image runs two listeners but has the effect of one card click |
| Viewer.CardKeyOpens | script.js:102-104 | Enter or Space on a card opens it, like a click |
| Viewer.CardKeyOtherwiseBubbles | script.js:102-104 | any other key pressed on a card has only the window handler's effect |
| Viewer.SwipeNavigation | script.js:135-139 | a touch travelling 40 does nothing; 41 to the left goes to the next item and 41 to the right to the previous one |
| Viewer.NavigationKeepsDetailsRows | script.js:142-157 | navigating while the panel is open does not rewrite its rows |
| Viewer.OpenOriginalUsesOriginalOrSource | script.js:116-120 | open original hands the current item's data-original, or its source, to the new window and changes no state |
| Viewer.DetailsShowCurrentItem | script.js:121 | the details control shows the current item's table and leaves the lightbox alone |
| Details.LabelsDistinct | script.js:145-150 | the nine labels differ from one another and from the placeholder's |
| Details.TableShape | script.js:142-155 | the table is never empty, holds at most one row per field unless it is the placeholder, and shows no empty value |
| Details.RowsShape | script.js:142-155 | an item's panel has between one and nine rows, none with an empty value |
| Details.TableIsThePresentFields | script.js:145-155 | for any field list, the table is exactly the non-empty fields in list order with their values, or the single placeholder row when there are none |
| Details.RowsAreThePresentFields | script.js:145-155 | the panel shows exactly the item's non-empty fields in the fixed order Camera … Format, or the placeholder row |
| Details.TableRowIff | script.js:151 | a field's row is in the table exactly when the field is non-empty |
| Details.RowPresentIff | script.js:145-151 | each of the nine rows appears exactly when the item gives that field a value |
| Details.NoFieldsGivesPlaceholder | script.js:153-155 | an item with no details shows only "Info: No details provided." |
| Details.ThreeFieldsGiveThreeRows | script.js:145-155 | an item with only camera, ISO and format shows exactly those three rows, in that order |

## Left out

- The theme toggle and the footer year: they are outside the gallery core.
- DOM plumbing: element lookup, the tabindex, role and aria-label attributes,
  `preventDefault`, the caption re-parenting and the `innerHTML` markup. The
  model keeps only what the markup says: the rows, as (label, value) pairs.
- Timing: `queueMicrotask` and the one-time load listeners. Their effect is
  modelled by running the correction and the tag with the intrinsic size, and
  by proving that a second run changes nothing.
- `window.open`: modelled as the address it would be handed (`Outcome.popup`).
- Missing elements: the optional elements (title, caption, counters, panel)
  are assumed present, and the script's early return when the gallery or
  lightbox is missing is not modelled.
- Aspect.Tag: compares `10 * h > 11 * w` on integers where the script
  multiplies by the float 1.1. The two can differ where `w * 1.1` rounds,
  because floating point is not modelled.
- Aspect.ReserveWith: the numeric attributes arrive already converted, with `None`
  for absent, empty or non-numeric text. `parseInt`'s prefix parsing, fractional
  `+data-w` values and number precision for very long digit groups are not
  modelled.
- Catalog.ItemOf: the `src` attribute is taken to be present; a missing one
  would make the item's source `null`.
- Routing.RouteSwipe: touch coordinates are integers, while `clientX` can be
  fractional. A travel strictly between 40 and 41 cannot be expressed, so the
  model does not show where such a travel falls.
- Events that a hidden overlay or panel cannot receive are not modelled
  (`Viewer.Receivable`); `Lightbox.Next` and `Lightbox.Prev` still state what
  they would do on a hidden overlay.
- The panel's rows are not refreshed when the item changes while it is open.
  This is the script's behaviour, and it is stated by
  `Viewer.NavigationKeepsDetailsRows`.

## Findings

| source | as written | input that shows it | evidently intended | confidence | as-written member | corrected member |
|---|---|---|---|---|---|---|
| script.js:27 | the separator class holds U+00C3, U+2014 and 'X': the UTF-8 bytes of the multiplication sign decoded as Windows-1252 | "1200×800" yields no pair, so the card falls through to data-w/data-h or 3 / 2 (with data-w 4 and data-h 3 it reserves 4 / 3: `Aspect.MultiplicationSignFallsThrough`) | the class holds the multiplication sign U+00D7 and 'X', so "1200×800" reads as 1200 by 800 | high (byte-level reading of the file; not executed) | Dimensions.WrittenClassMissesMultiplicationSign | Dimensions.IntendedExamples |
