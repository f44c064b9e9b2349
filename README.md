# Page colour inversion, chat cache and chat API helpers: a Dafny model

This project models the client-side composables of a Vue personal site with an AI tutor chat:

- **`useInvertTheme`**: a dark mode built by inverting colours in place.
  - It keeps a table of style entries: per element, the original inline value and the inverted value of every colour property.
  - It applies the table to the whole page and restores it.
  - It follows DOM mutations with an observer.
  - It persists the on/off flag.
- **`useAutoInvertTheme`**: the older engine. It inverts only neutral (low-saturation) colours. It keeps a first-write-wins record of the overwritten inline values, which restoring deletes.
- **`useChatLocalCache`**: the normalisation of chat messages and chats as they are written to and read from the local cache.
- **`useDashScopeAPI` and `useChatProxyAPI`**:
  - the conversion of chat messages into the two upstream message formats;
  - the request-body mapping;
  - the checks and error-message decisions around the requests.
- **`useTypingEffect`**: a typewriter that reveals a text one character per timer tick.

## How the model is built

- **Colour text** (`Colors`, `ColorTokens`).
  - `parseRgb` is a scanner over the whitespace-free text. It is proved to accept exactly the well-formed `rgb(`/`rgba(` texts.
  - `rgbaToString` is proved to round-trip through it.
  - `replaceRgbInString` is a leftmost-first split of the text into tokens and kept characters, mirroring a global regular-expression scan.
- **Floating-point colour maths.** `rgbToHsl`, `hslToRgb`, relative luminance and number formatting are fields of a `Numerics` record of function values. Only the clamps the source applies are assumed of them.
- **Elements and the page.**
  - An element is a `Node`; a CSS property is a `Prop`.
  - The inline styles of the page are a map from elements to property maps, held by a `Document` object that the engines change in place.
  - What the browser answers is a `Browser` of function values: the root, the descendants, the ancestors, whether an element sits in a dynamic context, and the cascade from inline styles to computed values.
  - `getComputedStyle` is live: `PageAt(b, inline)` is the page at the moment the inline styles are `inline`, and every loop that writes while it reads reads each property on the page the writes before it left. The functions that specify those loops (`LiveColorValues`, `LiveWrites`) are folds that carry the writes made so far.
  - The element kinds are a `NodeKinds` record.
- **The two engines are classes.**
  - `InvertEngine.Engine` holds `colorTable`, `originals`, `isInverted` and the observer flag.
  - `AutoInvert.AutoEngine` holds `originals`, `isDark` and the observer flag.
  - Both carry a ghost `base`: the inline styles before the engine wrote anything.
  - Their invariant is that every record holds a `base` value and that every inline value differing from `base` is tracked. From it, restoring is proved to bring every element of the page back to `base`.
- **The passes of `useInvertTheme` as folds.**
  - `ApplyOne` is `applyToElement` on values: the table and the inline styles it leaves.
  - `ApplyFold` is `applyToElement` on every element of a list in order. Each element is read on the page the elements before it left.
  - `BuildFold` and `DropFold` are the build loop of `applyAll` and the first loop of a class change.
  - `ApplyAllAfter`, `MutationAfter` and `MutationsAfter` put these together as `applyAll` and the observer callback do.
  - The engine's methods are proved to leave exactly the state these folds give. The lemmas about the folds say what each element then shows, dynamic entries included.
- **Loops.** The loops of the source (`applyAll`, `restoreAll`, the observer callback, the per-property loops of `applyToElement`, the contrast search, the saturation maximum) are `while` loops. Each is proved against a function that specifies it.
- **Chat helpers** (`ChatCache`, `DashScope`, `ChatProxy`).
  - They are functions over a `JsValue` datatype: `undefined`, `null`, booleans, numbers, strings, arrays and objects tagged with their `Object.prototype.toString` class.
  - They use the truthiness, `||` and `??` of JavaScript.
  - `.map(f).filter(Boolean)` is one `FilterMap` function with append, membership and length lemmas.
- **The typewriter** is a class. Its pending `setTimeout` is the `scheduled` flag, and the timer firing is the `Tick` method.

Both theme engines carry their own copies of `parseRgb`, `rgbaToString` and `replaceRgbInString`:

- `src/composables/useAutoInvertTheme.js:29-41`, `:116-120` and `:158-165` are character-for-character the same as `src/composables/useInvertTheme.js:69-81`, `:156-160` and `:232-239`.
- The one exception is that the older `parseRgb` has no guard for a missing argument. The model passes only strings, and the two then agree.
- The model defines each helper once, and the rows below cite the newer file.

## Model

| member | source | states |
|---|---|---|
| Colors.Clamp01 | src/composables/useInvertTheme.js:65-67 | the result lies in [0,1], equals a value already in range, and is 0 below and 1 above |
| Colors.ParseRgb | src/composables/useInvertTheme.js:69-81 | an empty text gives `null`; a parsed alpha always lies in [0,1] |
| Colors.ParseRgbOnlyRgbSyntax | src/composables/useInvertTheme.js:69-74 | anything parsed is, once whitespace is deleted, a well-formed `rgb(`/`rgba(` text (any case, three digit runs, optional `[0-9.]+` alpha); hex, `hsl()` and named colours give `null` |
| Colors.ParseRgbAccepts | src/composables/useInvertTheme.js:70-80 | every well-formed text, whitespace anywhere, with a numeric alpha parses to its decimal channels (not clamped) and its alpha clamped into [0,1], 1 when absent |
| Colors.ParseRgbBadAlpha | src/composables/useInvertTheme.js:78-79 | an alpha text without a digit or with two dots (NaN) makes the colour unparsable |
| Colors.ScanRgbSound | src/composables/useInvertTheme.js:71-74 | what the regular-expression match accepts is well formed and its groups rebuild the text |
| Colors.ScanRgbComplete | src/composables/useInvertTheme.js:71-74 | the match accepts every well-formed text and returns exactly its groups |
| Colors.RgbaToString | src/composables/useInvertTheme.js:156-160 | the text starts with `rgba(` exactly when the clamped alpha is not 1, and with `rgb` always |
| Colors.RoundTrip | src/composables/useInvertTheme.js:69-81 | parsing a serialised colour gives the colour with its alpha clamped, for every opaque colour and every colour whose alpha prints as a plain decimal |
| Colors.RoundTripOpaque | src/composables/useInvertTheme.js:156-160 | an opaque colour serialises as `rgb(r, g, b)` and parses back to itself with alpha 1 |
| Colors.RoundTripTranslucent | src/composables/useInvertTheme.js:156-160 | a translucent colour whose alpha prints as a decimal parses back with that alpha |
| Colors.RgbToHsl | src/composables/useInvertTheme.js:83-115 | saturation and lightness lie in [0,1] |
| Colors.HslToRgb | src/composables/useInvertTheme.js:149-153 | every channel is clamped into [0,255] |
| Colors.InvertByLightness | src/composables/useInvertTheme.js:162-166 | lightness becomes 1 minus lightness with hue and saturation kept, the channels lie in [0,255], the alpha is carried over |
| Colors.ContrastRatio | src/composables/useInvertTheme.js:180-186 | the ratio is at least 1, and exactly 1 for equal channels |
| Colors.ContrastRatioSymmetric | src/composables/useInvertTheme.js:180-186 | the ratio does not depend on the order of the two colours |
| ColorTokens.TokenLenExact | src/composables/useInvertTheme.js:234 | a token is found at the front of a text exactly when a prefix of that length matches `rgba?\([^)]+\)` case-insensitively |
| ColorTokens.SegmentsJoined | src/composables/useInvertTheme.js:234-238 | the scan's segments put back together give the text |
| ColorTokens.SegmentsTokens | src/composables/useInvertTheme.js:234 | every token segment is a match of the pattern |
| ColorTokens.SegmentsPlain | src/composables/useInvertTheme.js:234 | no match starts at a kept character: the scan takes every token it meets |
| ColorTokens.RewriteUnchanged | src/composables/useInvertTheme.js:234-238 | characters outside tokens are kept, so a rewrite that keeps every token keeps the text |
| ColorTokens.Matches | src/composables/useAutoInvertTheme.js:146 | every text `match` returns is a token |
| ColorTokens.ReplaceWithNullIsIdentity | src/composables/useInvertTheme.js:232-239 | with a replacer that always gives `null`, every text, `none` and `""` included, comes back unchanged |
| ColorTokens.ReplaceWithoutTokens | src/composables/useInvertTheme.js:232-239 | a text without any `rgb(...)` token is unchanged whatever the replacer |
| ColorTokens.ReplaceRgbInString | src/composables/useInvertTheme.js:232-239 | `""` and `none` come back unchanged, and so does any text for whose every token the replacer gives `null` |
| ColorTokens.ReplaceTokenThenRest | src/composables/useAutoInvertTheme.js:158-165 | a token at the front of a text becomes its substitute, and the rest of the text is replaced on its own |
| ColorTokens.ReplacePlainThenRest | src/composables/useAutoInvertTheme.js:158-165 | a character at which no token starts is kept, and the rest of the text is replaced on its own |
| Contrast.VisibleBackground | src/composables/useInvertTheme.js:192-194 | a background counts only when it parses with alpha above 0.05 |
| Contrast.FirstVisibleSpec | src/composables/useInvertTheme.js:188-198 | the effective background is the first visible one up the ancestor chain, and opaque white when there is none |
| Contrast.FindEffectiveBackgroundColor | src/composables/useInvertTheme.js:188-198 | the walk up the ancestors returns the first visible background, else white |
| Contrast.Direction | src/composables/useInvertTheme.js:207-208 | the search darkens on a background with luminance above 0.5 and lightens otherwise |
| Contrast.Candidate | src/composables/useInvertTheme.js:215-218 | every candidate keeps the text's alpha |
| Contrast.AdjustedUnchangedWhenEnough | src/composables/useInvertTheme.js:204-205 | a text that already reaches the minimum ratio comes back unchanged |
| Contrast.AdjustedKeepsAlphaAndContrast | src/composables/useInvertTheme.js:200-230 | the result keeps the alpha and never has less contrast than the text it started from |
| Contrast.AdjustedFirstReaching | src/composables/useInvertTheme.js:214-222 | the result is the first of the 20 candidates that reaches the minimum ratio |
| Contrast.AdjustedBestSeen | src/composables/useInvertTheme.js:223-229 | when no candidate reaches it, the result is the text or a candidate, with at least the contrast of every candidate |
| Contrast.SearchFromKeeps | src/composables/useInvertTheme.js:214-229 | from any step, the search keeps the alpha and ends with at least its best contrast so far |
| Contrast.SearchFromFirst | src/composables/useInvertTheme.js:219-221 | the search returns early at the first candidate reaching the ratio |
| Contrast.SearchFromBest | src/composables/useInvertTheme.js:222-229 | without an early return the search ends with the best candidate seen |
| Contrast.AdjustTextForContrast | src/composables/useInvertTheme.js:200-230 | the 20-step loop with `best`/`bestRatio` and its early return computes the specified search |
| Dom.Scope | src/composables/useInvertTheme.js:480-490 | the elements processed are the root first and then its descendants; nothing without a root |
| Dom.Put | src/composables/useInvertTheme.js:425-461 | after assignments to one element, the assigned properties read as written and everything else as before |
| Dom.PutPut | src/composables/useInvertTheme.js:425-461 | two batches of assignments to one element are one batch, the later values winning |
| Dom.Document.Write | src/composables/useInvertTheme.js:446 | `el.style[prop] = value` changes that one declaration |
| Dom.Document.WriteAll | src/composables/useInvertTheme.js:418-423 | the loop over an entry's records assigns exactly those properties |
| Dom.Storage.GetItem | src/composables/useInvertTheme.js:258 | reading fails exactly when storage is unavailable, and a missing key reads as `null` |
| Dom.Storage.SetItemIgnoringErrors | src/composables/useInvertTheme.js:269-275 | a write stores the value, or changes nothing when storage throws |
| StyleEntries.PropListsComplete | src/composables/useInvertTheme.js:19-34 | the two property lists hold exactly the colour and the colour-list properties |
| StyleEntries.Tracked | src/composables/useInvertTheme.js:311-368 | an entry tracks its colour records, its colour-list records and its filter |
| StyleEntries.Origs | src/composables/useInvertTheme.js:418-423 | the restoring writes set every tracked property, and only those, to its `origInline` |
| StyleEntries.Invs | src/composables/useInvertTheme.js:434-449 | the inverting writes of a static entry set every tracked property, and only those, to its `inv` |
| StyleEntries.RestoreAfterInvert | src/composables/useInvertTheme.js:418-461 | inverting then restoring leaves every tracked property at its `origInline` and every other property as before both |
| StyleEntries.InvertColor | src/composables/useInvertTheme.js:328-347 | one colour property gets no value when its computed colour does not parse or has alpha at most 0.01; text and caret colours are pushed to contrast 4.5 with the inverted background |
| StyleEntries.StringInv | src/composables/useInvertTheme.js:349-357 | a colour list gets a new value only when non-empty, not `none`, and changed by the replacement |
| StyleEntries.InvertColorList | src/composables/useInvertTheme.js:349-357 | the colour-list loop body computes that value |
| StyleEntries.StringInvWithoutTokens | src/composables/useInvertTheme.js:349-357 | a colour list without any `rgb(...)` token gets no record |
| StyleEntries.FilterInvMarked | src/composables/useInvertTheme.js:359-366 | the filter written on an image-like element contains `invert(` |
| StyleEntries.ColorValuesSpec | src/composables/useInvertTheme.js:326-348 | the colour records are exactly the properties of the list with an inverted value, holding that value |
| StyleEntries.StringValuesSpec | src/composables/useInvertTheme.js:349-357 | the colour-list records are exactly the properties the replacement changes, holding the new text |
| StyleEntries.EntryForWellFormed | src/composables/useInvertTheme.js:311-368 | an entry is built exactly for HTML and SVG elements, is dynamic exactly inside a dynamic context, and records the element's inline values of the moment |
| StyleEntries.StaticEntryCovers | src/composables/useInvertTheme.js:311-368 | a static entry records every visible colour, every changed colour list and, for image-like elements only, the filter |
| StyleEntries.BuildColorRecs | src/composables/useInvertTheme.js:326-348 | the loop over the colour properties builds exactly the specified records |
| StyleEntries.BuildStringRecs | src/composables/useInvertTheme.js:349-357 | the loop over the colour-list properties builds exactly the specified records |
| StyleEntries.BuildEntry | src/composables/useInvertTheme.js:311-368 | `buildEntry` returns the specified entry |
| StyleEntries.FilterWrite | src/composables/useInvertTheme.js:405-414 | a dynamic application writes at most the filter |
| StyleEntries.FilterWriteOnce | src/composables/useInvertTheme.js:405-414 | once the inverting filter is written, a second dynamic application leaves the filter alone |
| StyleEntries.ExtendTracked | src/composables/useInvertTheme.js:370-416 | after a dynamic application the entry tracks what it tracked plus what was written |
| StyleEntries.ExtendOrigs | src/composables/useInvertTheme.js:370-416 | old records keep their `origInline`, and each new record holds the inline value found before the write |
| StyleEntries.RecordAndWrite | src/composables/useInvertTheme.js:388-391 | a record of the inline value is added before the write unless the entry already tracks the property |
| StyleEntries.ApplyDynamicColors | src/composables/useInvertTheme.js:376-393 | the colour loop reads each property from the live computed style, after the writes to the properties before it; it writes the inverted values it finds and records the inline value each written property had before the pass |
| StyleEntries.ApplyDynamicStrings | src/composables/useInvertTheme.js:394-404 | the colour-list loop reads each list after the colour writes and the list writes before it; it writes the changed lists and records what was there before each |
| StyleEntries.ApplyDynamicFilter | src/composables/useInvertTheme.js:405-414 | the filter is written once on an image-like element and recorded when not yet tracked |
| StyleEntries.ApplyDynamic | src/composables/useInvertTheme.js:370-416 | `applyDynamicToElement` runs the colour loop, then the colour-list loop on the page the colour writes left, then the filter; the result is the one batch of writes and the entry the three loops give, every newly written property recorded |
| StyleEntries.LiveColorValuesSpec | src/composables/useInvertTheme.js:376-393 | over a list without repeats, a colour property is written exactly when its value, read after the writes before it, has an inverted value, and it gets that value |
| StyleEntries.LiveStringValuesSpec | src/composables/useInvertTheme.js:394-404 | over a list without repeats, a colour list is written exactly when the replacement changes its value read after the writes before it, and it gets the new text |
| StyleEntries.LiveColorValuesUnaffected | src/composables/useInvertTheme.js:376-393 | when the element's computed values do not follow its own inline styles, the live loop writes what `buildEntry` reads before writing anything |
| StyleEntries.DynamicParts | src/composables/useInvertTheme.js:370-416 | the three loops, each reading the page the one before left, compose into the writes and the entry of `applyDynamicToElement` |
| InvertEngine.StorageKey | src/composables/useInvertTheme.js:251-254 | the key is the trimmed option when that is not blank, else the default; it is never blank |
| InvertEngine.StoredInverted | src/composables/useInvertTheme.js:256-267 | a storage exception or a missing item reads as `null` |
| InvertEngine.StoredRoundTrip | src/composables/useInvertTheme.js:256-275 | what `writeStoredInverted` stores reads back as the flag written |
| InvertEngine.StoredCaseInsensitive | src/composables/useInvertTheme.js:260-262 | the stored text is read without regard to case |
| InvertEngine.StoredUpperTrue | src/composables/useInvertTheme.js:260-261 | `TRUE` reads as true |
| InvertEngine.ApplyThenRestore | src/composables/useInvertTheme.js:418-461 | applying an entry inverted and restoring from the entry it leaves puts exactly the tracked properties back to `origInline`, everything else as before; existing records are kept |
| InvertEngine.EnsuredIdempotent | src/composables/useInvertTheme.js:463-469 | `ensureEntry` twice is `ensureEntry` once: an existing entry is never rebuilt, and only HTML and SVG elements gain one |
| InvertEngine.ApplyFrame | src/composables/useInvertTheme.js:471-477 | `applyToElement` touches one element, gives every HTML or SVG element an entry, and when inverted shows a static entry's `inv` values |
| InvertEngine.BuildThenApply | src/composables/useInvertTheme.js:587-591 | the observer's build of a missing entry right before `applyToElement` changes nothing: `applyToElement` builds the same entry on the same page |
| InvertEngine.PrebuiltStatic | src/composables/useInvertTheme.js:492-508 | on the first `applyAll`, every static entry of the scope is the one built from the page before the pass wrote anything, not from the page earlier elements' writes left |
| InvertEngine.KeepsBuiltStep | src/composables/useInvertTheme.js:471-477 | `applyToElement` keeps every entry it finds unchanged when static, and keeps a dynamic entry dynamic |
| InvertEngine.BuiltAtStep | src/composables/useInvertTheme.js:463-469 | `ensureEntry` only adds entries built on the page as it is at that moment |
| InvertEngine.DriftAfterRestoreDelete | src/composables/useInvertTheme.js:598-603 | restoring an element from its entry and dropping the entry leaves the element at its original inline styles and every other change tracked |
| InvertEngine.UntrackedAtBase | src/composables/useInvertTheme.js:526-571 | an element without an entry has its original inline styles, apart from what `originals` holds |
| InvertEngine.SettledGrow | src/composables/useInvertTheme.js:479-524 | elements already settled stay settled when other elements are processed |
| InvertEngine.ApplyOneOnlyAt | src/composables/useInvertTheme.js:471-477 | `applyToElement` keeps every entry and changes the entry and inline style of its own element only |
| InvertEngine.ApplyOneAt | src/composables/useInvertTheme.js:471-477 | `applyToElement` on an HTML or SVG element: its entry is the one `ensureEntry` gives, as `applyEntry` leaves it, and its inline style gets exactly `applyEntry`'s writes |
| InvertEngine.EnsuredWellFormed | src/composables/useInvertTheme.js:463-469 | `ensureEntry` adds only well-formed entries |
| InvertEngine.AppliedEntryWellFormed | src/composables/useInvertTheme.js:425-461 | `applyEntry` keeps an entry well formed and as dynamic as it was |
| InvertEngine.AppliedDynamic | src/composables/useInvertTheme.js:437-439 | inverted, `applyEntry` on a dynamic entry writes and records what `applyDynamicToElement` does |
| InvertEngine.ApplyFoldAppend | src/composables/useInvertTheme.js:509-515 | a pass over two lists one after the other is the pass over their concatenation |
| InvertEngine.ApplyFoldOutside | src/composables/useInvertTheme.js:509-515 | a pass keeps every entry and changes nothing outside the elements it goes through |
| InvertEngine.ApplyFoldWellFormed | src/composables/useInvertTheme.js:509-515 | a pass keeps every entry of the table well formed |
| InvertEngine.ApplyFoldLast | src/composables/useInvertTheme.js:509-515 | after a pass, an HTML or SVG element that does not come again keeps what its own `applyToElement` left: the entry built on the page the elements before it left, as `applyEntry` leaves it, and on each property the value `applyEntry` wrote, every other property as before its turn |
| InvertEngine.ApplyFoldDynamic | src/composables/useInvertTheme.js:437-439 | inverted, an element with a dynamic entry ends the pass showing the values `applyDynamicToElement` computes on the page the elements before it left |
| InvertEngine.ApplyFoldDynamicEntry | src/composables/useInvertTheme.js:437-439 | inverted, a dynamic element ends the pass with the entry `applyDynamicToElement` leaves on that page |
| InvertEngine.BuildFoldOutside | src/composables/useInvertTheme.js:492-500 | the build loop keeps every entry and adds entries for elements of the scope only |
| InvertEngine.ApplyAllOutside | src/composables/useInvertTheme.js:479-515 | `applyAll` keeps every entry and changes nothing outside the scope |
| InvertEngine.DropFoldKeys | src/composables/useInvertTheme.js:599-606 | after the first loop of a class change no element of the subtree has an entry, and every other entry is kept |
| InvertEngine.ClassChangeRebuilt | src/composables/useInvertTheme.js:607-612 | an HTML or SVG element of the changed subtree has no entry when its turn comes, so its new entry is built on the page the elements before it left, dynamic exactly when it now sits in a dynamic context |
| InvertEngine.Engine.constructor | src/composables/useInvertTheme.js:247-282 | nothing inverted, nothing cached; the persisted flag is read once with the resolved key |
| InvertEngine.Engine.ReadStoredInverted | src/composables/useInvertTheme.js:256-267 | unavailable storage reads as `null` |
| InvertEngine.Engine.WriteStoredInverted | src/composables/useInvertTheme.js:269-275 | stores `1` or `0` under the key, which then reads back as the flag; a failing storage is ignored |
| InvertEngine.Engine.Record | src/composables/useInvertTheme.js:302-309 | `record` keeps the first value recorded for an element and property |
| InvertEngine.Engine.RecordAll | src/composables/useInvertTheme.js:429-432 | the `record` calls of `applyEntry` record every tracked `origInline`, first write winning |
| InvertEngine.Engine.EnsureEntry | src/composables/useInvertTheme.js:463-469 | returns the existing entry or the one built now, and stores a built one |
| InvertEngine.Engine.RestoreElementFromEntry | src/composables/useInvertTheme.js:418-423 | every tracked property goes back to its `origInline`, nothing else changes |
| InvertEngine.Engine.ApplyEntry | src/composables/useInvertTheme.js:425-461 | records the `origInline` values, then writes `inv` values (static), fresh values (dynamic) or `origInline` values (not inverted) |
| InvertEngine.Engine.ApplyInverted | src/composables/useInvertTheme.js:434-449 | a static entry inverted: every tracked property to its `inv` |
| InvertEngine.Engine.ApplyOriginal | src/composables/useInvertTheme.js:451-460 | not inverted: every tracked property to its `origInline` |
| InvertEngine.Engine.ApplyLive | src/composables/useInvertTheme.js:434-437 | a dynamic entry inverted: `applyDynamicToElement`, and the entry updated in the table |
| InvertEngine.Engine.ApplyToElement | src/composables/useInvertTheme.js:471-477 | `ensureEntry` then `applyEntry`, for HTML and SVG elements only; the state is `ApplyOne`; the engine invariant is kept |
| InvertEngine.Engine.BuildTable | src/composables/useInvertTheme.js:492-508 | the first pass gives every HTML or SVG element of the scope an entry, keeps existing entries, and builds every new entry on the page before any write; the table is `BuildFold` over the scope |
| InvertEngine.Engine.BuildStep | src/composables/useInvertTheme.js:496-500 | one turn of the build loop adds the entry `buildEntry` gives an element that has none, and nothing else |
| InvertEngine.Engine.ApplyPass | src/composables/useInvertTheme.js:509-515 | the apply loop leaves the state `ApplyFold` gives over the list; every HTML or SVG element of the list has an entry, every static one is shown inverted when inverted, and the pre-built entries are kept |
| InvertEngine.Engine.ApplyAll | src/composables/useInvertTheme.js:479-524 | the state is `ApplyAllAfter`: the build pass on the first call, then `ApplyFold` over the scope; nothing outside the scope changes; every HTML or SVG element of the scope has an entry, and when inverted every static one is shown inverted; on the first call every static entry is the one built from the page before the pass; without a root nothing changes |
| InvertEngine.Engine.RestoreAll | src/composables/useInvertTheme.js:526-571 | every element of the scope is back at its inline styles from before the engine wrote; nothing outside changes; the table is kept; records of elements without entries are deleted |
| InvertEngine.Engine.RestoreElement | src/composables/useInvertTheme.js:533-566 | one element of `restoreAll` is brought back to its original inline styles, and only it |
| InvertEngine.Engine.OnChildList | src/composables/useInvertTheme.js:581-594 | the state is `ApplyFold` over the added subtrees in order; every HTML or SVG element of them gets an entry, every static one is shown inverted when inverted; nothing else changes |
| InvertEngine.Engine.OnAddedNode | src/composables/useInvertTheme.js:582-593 | one added element: the state is `ApplyFold` over its subtree; every HTML or SVG element of it gets an entry and, when inverted, every static one is shown inverted; a non-element changes nothing |
| InvertEngine.Engine.DropEntry | src/composables/useInvertTheme.js:598-605 | an element with an entry is restored from it and loses it (the state is `DropOne`); it is then at its original inline styles |
| InvertEngine.Engine.OnClassChange | src/composables/useInvertTheme.js:595-613 | the state is `DropFold` then `ApplyFold` over the changed subtree; nothing outside it changes; every static entry of it is shown inverted when inverted; rebuilt entries record the same originals as the dropped ones |
| InvertEngine.Engine.OnMutation | src/composables/useInvertTheme.js:580-614 | one record leaves the state `MutationAfter` gives: a `childList` record applies its added subtrees, a `class` record drops and rebuilds its target's subtree, any other record changes nothing |
| InvertEngine.Engine.OnMutations | src/composables/useInvertTheme.js:577-615 | the callback changes nothing when not inverted; otherwise the state is `MutationsAfter` over the records in order, every static entry of every added or re-classed subtree is shown inverted, and nothing else changes |
| InvertEngine.Engine.StartObserver | src/composables/useInvertTheme.js:573-580 | connects only when there is a root |
| InvertEngine.Engine.StopObserver | src/composables/useInvertTheme.js:633-638 | disconnects |
| InvertEngine.Engine.Enable | src/composables/useInvertTheme.js:640-646 | inverted, persisted as true, observing when there is a root; the state is `ApplyAllAfter` inverted, nothing outside the scope changes, and every static entry of the scope is shown inverted |
| InvertEngine.Engine.Disable | src/composables/useInvertTheme.js:648-654 | not inverted, persisted as false, not observing, the whole scope back at its original inline styles, nothing outside changed |
| InvertEngine.Engine.Toggle | src/composables/useInvertTheme.js:656-659 | the flag flips and is persisted; turned on, the state is `ApplyAllAfter` inverted and nothing outside the scope changes; turned off, the scope is back at its original inline styles |
| InvertEngine.Engine.OnMounted | src/composables/useInvertTheme.js:665-672 | enables exactly when the flag read at creation was true, leaving the state `ApplyAllAfter` inverted |
| InvertEngine.Engine.OnUnmounted | src/composables/useInvertTheme.js:661-663 | the observer is stopped |
| Originals.RecordFirstWins | src/composables/useAutoInvertTheme.js:195-202 | a second record of a property does not replace the first |
| Originals.KeptOk | src/composables/useAutoInvertTheme.js:195-202 | recording original values keeps every record an original value |
| Originals.RestoreStepOk | src/composables/useAutoInvertTheme.js:252-261 | bringing one more element back to its original styles extends the restored prefix |
| AutoInvert.ShouldInvertNeutral | src/composables/useAutoInvertTheme.js:122-127 | true exactly for a colour that parsed, has alpha above 0.02 and saturation at most 0.45; `null` and alpha at most 0.02 give false whatever the saturation |
| AutoInvert.MaxPresentAtMost | src/composables/useAutoInvertTheme.js:147-155 | the running maximum (0 when nothing parses) is at most a bound exactly when every parsed value is |
| AutoInvert.MaxSaturationAtMost | src/composables/useAutoInvertTheme.js:144-155 | the largest token saturation is at most a bound exactly when every parsed token's is |
| AutoInvert.NeutralBackgroundMeaning | src/composables/useAutoInvertTheme.js:135-156 | a visible background colour (alpha above 0.05) decides alone; else no image is neutral, and an image is neutral when every colour in it has saturation at most 0.45 |
| AutoInvert.IsNeutralBackground | src/composables/useAutoInvertTheme.js:135-156 | the method computes that decision |
| AutoInvert.MaxSaturationOf | src/composables/useAutoInvertTheme.js:147-155 | the loop's `maxS` is the largest saturation among the parsed tokens, or 0 |
| AutoInvert.NeutralColorWritesMeaning | src/composables/useAutoInvertTheme.js:210-221 | the first loop reads each property from the live computed style, after the writes before it; over a list without repeats it writes exactly the properties whose value then is neutral (except text and caret colour on a saturated background), each as its serialised lightness inversion |
| AutoInvert.TextKeptOnAccentBackground | src/composables/useAutoInvertTheme.js:215-216 | `color` and `caretColor` are never written when the background is not neutral |
| AutoInvert.NeutralStringWritesMeaning | src/composables/useAutoInvertTheme.js:223-236 | the second loop reads each value after every write before it; it writes exactly the composite values the replacement then changes, each as the replaced text, never the same text |
| AutoInvert.PreReadColorWritesMeaning | src/composables/useAutoInvertTheme.js:210-221 | with every value read before any write, the first loop would write exactly the rewritten properties, each as the inversion of its computed colour |
| AutoInvert.PreReadStringWritesMeaning | src/composables/useAutoInvertTheme.js:223-236 | with every value read before any write, the second loop would write exactly the composite values the replacement changes |
| AutoInvert.LiveColorWritesLocal | src/composables/useAutoInvertTheme.js:210-221 | when no write changes what the other properties of the list compute to, the live loop writes what reading everything first would |
| AutoInvert.LiveAutoWritesLocal | src/composables/useAutoInvertTheme.js:204-237 | on a page where each property computes from its own inline declaration only, `applyToElement` writes what reading everything first would |
| AutoInvert.AutoFoldLocal | src/composables/useAutoInvertTheme.js:239-246 | on such a page, the parent-first pass over elements without repeats leaves every HTML element showing the inversion of the page before the pass |
| AutoInvert.LiveBorderReinverted | src/composables/useAutoInvertTheme.js:204-245 | as written: black text with a top border in `currentColor` gets white text and a black border, where reading first gives both white |
| AutoInvert.GreyPairHolds | src/composables/useAutoInvertTheme.js:122-127 | a grey-scale colour arithmetic meets that example's requirements: opaque black and white are neutral and invert into each other |
| AutoInvert.PreReadSettles | src/composables/useAutoInvertTheme.js:239-246 | corrected: reading before writing, any pass, even one visiting an element twice, leaves every HTML element of it showing the inversion of the page before the pass, and touches nothing else |
| AutoInvert.StringKeptWithoutNeutral | src/composables/useAutoInvertTheme.js:225-234 | a value with no token that parses to a neutral colour is not rewritten |
| AutoInvert.AutoWritesDisjoint | src/composables/useAutoInvertTheme.js:210-236 | the two loops write different properties |
| AutoInvert.RecordWriteOk | src/composables/useAutoInvertTheme.js:218-220 | recording the inline value before the write keeps every record original and every change recorded |
| AutoInvert.ComposeLoops | src/composables/useAutoInvertTheme.js:204-237 | the two loops of one call are one batch of writes and one batch of first-write-wins records of the values found |
| AutoInvert.RestoreRecordOk | src/composables/useAutoInvertTheme.js:252-261 | writing back an element's record brings it to its original styles, and the other records still cover every remaining change |
| AutoInvert.PersistedFlag | src/composables/useAutoInvertTheme.js:178-185 | true only for exactly `1` or `true`; false when absent or when storage throws |
| AutoInvert.PersistedRoundTrip | src/composables/useAutoInvertTheme.js:187-193 | the text written reads back as the flag written |
| AutoInvert.PersistedStricterThanStored | src/composables/useAutoInvertTheme.js:178-185 | `TRUE` is refused here but read as true by the newer engine; the two agree on what either stores |
| AutoInvert.AutoEngine.constructor | src/composables/useAutoInvertTheme.js:167-176 | not dark, nothing recorded, not observing, the key resolved as in the newer engine |
| AutoInvert.AutoEngine.ReadPersisted | src/composables/useAutoInvertTheme.js:178-185 | true only with storage available and the key present |
| AutoInvert.AutoEngine.WritePersisted | src/composables/useAutoInvertTheme.js:187-193 | stores `1` or `0`, which then reads back as the flag; a failure is ignored |
| AutoInvert.AutoEngine.RecordAndWrite | src/composables/useAutoInvertTheme.js:218-220 | records the inline value first-write-wins, then writes the new one |
| AutoInvert.AutoEngine.ApplyColor | src/composables/useAutoInvertTheme.js:212-220 | one turn of the first loop: the property read from the live style after the turns before it, written when neutral, its inline value recorded first-write-wins |
| AutoInvert.AutoEngine.ApplyString | src/composables/useAutoInvertTheme.js:225-235 | one turn of the second loop: the composite value read after every write before it, written when changed, its inline value recorded first-write-wins |
| AutoInvert.AutoEngine.ApplyColors | src/composables/useAutoInvertTheme.js:210-221 | the first loop performs exactly the live colour writes and records each overwritten value |
| AutoInvert.AutoEngine.ApplyStrings | src/composables/useAutoInvertTheme.js:223-236 | the second loop performs exactly the live composite writes, on the page the colour writes left, and records each overwritten value |
| AutoInvert.AutoEngine.ApplyToElement | src/composables/useAutoInvertTheme.js:204-237 | nothing for a non-HTML element; otherwise both loops' writes, each overwritten inline value recorded first |
| AutoInvert.AutoEngine.ApplyAll | src/composables/useAutoInvertTheme.js:239-246 | the pass visits the scope parent first; each HTML element gets the writes `applyToElement` computes on the page the elements before it left; nothing outside the scope changes |
| AutoInvert.AutoEngine.ApplyEach | src/composables/useAutoInvertTheme.js:243-245 | the loop over a list gives each HTML element the writes computed on the page the elements before it left, and changes nothing outside the list |
| AutoInvert.AutoEngine.RestoreElement | src/composables/useAutoInvertTheme.js:253-260 | the recorded values are written back and the record deleted; the element is at its original styles; no other element changes |
| AutoInvert.AutoEngine.RestoreAll | src/composables/useAutoInvertTheme.js:248-262 | every element of the scope is back at its original inline styles and has no record; nothing outside changes |
| AutoInvert.AutoEngine.OnAddedNode | src/composables/useAutoInvertTheme.js:271-276 | an added HTML element's subtree gets the same live pass, parent first; nothing else changes |
| AutoInvert.AutoEngine.OnAddedNodes | src/composables/useAutoInvertTheme.js:271-275 | the `addedNodes` of a record: one live pass over the added HTML subtrees in order; nothing else changes |
| AutoInvert.AutoEngine.OnMutations | src/composables/useAutoInvertTheme.js:268-278 | the callback does nothing when not dark; otherwise one live pass over every added HTML subtree, and nothing else changes |
| AutoInvert.AutoEngine.StartObserver | src/composables/useAutoInvertTheme.js:264-280 | connects only when there is a root |
| AutoInvert.AutoEngine.StopObserver | src/composables/useAutoInvertTheme.js:282-287 | disconnects |
| AutoInvert.AutoEngine.Enable | src/composables/useAutoInvertTheme.js:289-294 | dark, persisted as true, the live pass over the scope, nothing outside changed |
| AutoInvert.AutoEngine.Disable | src/composables/useAutoInvertTheme.js:296-301 | not dark, persisted as false, not observing, the scope back at its original styles with no records |
| AutoInvert.AutoEngine.ToggleDark | src/composables/useAutoInvertTheme.js:303-306 | the flag flips and is persisted; turning dark runs the live pass over the scope, turning light brings the scope back to its original styles |
| AutoInvert.AutoEngine.OnMounted | src/composables/useAutoInvertTheme.js:312-319 | enables exactly when the persisted flag reads true |
| AutoInvert.AutoEngine.OnUnmounted | src/composables/useAutoInvertTheme.js:308-310 | the observer is stopped |
| JsValues.Or | src/composables/useChatLocalCache.js:43 | `a \|\| b` is truthy exactly when one of them is, and is one of them |
| JsValues.FilterMapAppend | src/composables/useChatLocalCache.js:53 | `.map(f).filter(Boolean)` keeps the order: it distributes over concatenation |
| JsValues.FilterMapMembers | src/composables/useChatLocalCache.js:53 | every output comes from an input with a result, and every such result is output |
| JsValues.FilterMapLength | src/composables/useChatLocalCache.js:53 | one output per input with a result |
| ChatCache.SnapshotMessage | src/composables/useChatLocalCache.js:33-45 | `null` unless a plain object with non-empty string `role` and `text`; otherwise those two kept, `time` only when a string, `followUp` never `undefined` |
| ChatCache.SnapshotOfSnapshot | src/composables/useChatLocalCache.js:33-45 | snapshotting a snapshot gives it back |
| ChatCache.SnapshotMessages | src/composables/useChatLocalCache.js:51-54 | `[]` for a non-array; otherwise no longer than the input and every element a valid snapshot |
| ChatCache.SnapshotMessagesMeaning | src/composables/useChatLocalCache.js:51-54 | the snapshots are exactly those of the valid messages, in order, one per valid message |
| ChatCache.RestoreMessage | src/composables/useChatLocalCache.js:63-74 | accepted exactly for plain objects with string `role` and `text` (empty allowed); shown in full and not typing |
| ChatCache.RestoreMessages | src/composables/useChatLocalCache.js:60-76 | `[]` for a non-array; every output has `displayText == text` and `isTyping` false |
| ChatCache.RestoreAcceptsEmptyText | src/composables/useChatLocalCache.js:37 | a message with an empty text is restored but never snapshotted |
| ChatCache.RestoreAfterSnapshot | src/composables/useChatLocalCache.js:33-76 | restoring the snapshots loses no message and keeps role, text, time and follow-up, in order |
| ChatCache.NormalizeChat | src/composables/useChatLocalCache.js:78-90 | `null` unless a plain object with a non-empty string `id`; a non-string title becomes `新对话`; the messages are snapshotted |
| ChatCache.NormalizeChatIdempotent | src/composables/useChatLocalCache.js:78-90 | a normalised chat normalises to itself, whatever the clock says |
| ChatCache.NormalizeHistory | src/composables/useChatLocalCache.js:102-104 | every chat kept is well formed |
| ChatCache.NormalizeHistoryIdempotent | src/composables/useChatLocalCache.js:102-104 | a history of normalised chats normalises to itself |
| ChatCache.ReadChatId | src/composables/useChatLocalCache.js:106 | the stored id is kept exactly when it is a non-empty text; anything else reads as `null` |
| ChatCache.ReadChatCache | src/composables/useChatLocalCache.js:96-112 | `null` exactly when storage throws; otherwise well-formed chats and a non-empty id or `null` |
| ChatCache.NoChatReadsBackAsNullId | src/composables/useChatLocalCache.js:124-127 | as written, a write without a current chat reads back as the chat id `"null"` |
| ChatCache.StoredChatId | src/composables/useChatLocalCache.js:124-127 | corrected: the id item is removed, not stored, when the id is not a string |
| ChatCache.ChatIdRoundTrip | src/composables/useChatLocalCache.js:106 | corrected: the current chat id reads back as written, and no chat reads back as `null` |
| ChatCache.WriteChatCache | src/composables/useChatLocalCache.js:119-132 | a failure result instead of an exception exactly when storage refuses; only normalised chats are stored; the chat id item is the id when a string and the text `null` otherwise |
| ChatCache.CacheRoundTrip | src/composables/useChatLocalCache.js:96-132 | as written: reading back gives the normalised history whatever the clocks say; a non-empty id comes back, an empty one as `null`, and a missing or non-string one as the chat id `"null"` |
| ChatCache.WriteChatCacheCorrected | src/composables/useChatLocalCache.js:119-132 | corrected: as `writeChatCache`, but the chat id item is removed when the id is not a string |
| ChatCache.CacheRoundTripCorrected | src/composables/useChatLocalCache.js:96-132 | corrected: reading back gives the normalised history and the current chat id when it was a non-empty string, and `null` otherwise |
| DashScope.ConvertMessage | src/composables/useDashScopeAPI.js:164-168 | a message is kept exactly when its `text` or `content` is truthy; `ai` becomes `assistant`, every other role `user`; the content is `text` when truthy, else `content`, so never empty |
| DashScope.ConvertMessagesToDashScopeFormat | src/composables/useDashScopeAPI.js:162-169 | a `TypeError` for a non-array or an array holding `null`/`undefined`; otherwise the kept messages converted, in order |
| DashScope.ConvertMeaning | src/composables/useDashScopeAPI.js:163-168 | the conversion keeps the order, outputs one message per kept input, and every output has non-empty content and role `assistant` or `user` |
| DashScope.BodyMessageOf | src/composables/useDashScopeAPI.js:36-39 | in the request body `ai` becomes `assistant` and every other role is sent unchanged; the content is `content` when truthy, else `text` |
| DashScope.BodyMessages | src/composables/useDashScopeAPI.js:36-39 | a `TypeError` for a `null`/`undefined` entry; otherwise each entry mapped in order |
| DashScope.BodyAfterConvert | src/composables/useDashScopeAPI.js:36-39 | on converted messages the body mapping sends role and content as converted |
| DashScope.BodyDiffersFromConverter | src/composables/useDashScopeAPI.js:166 | on raw messages the two differ: a `system` role stays `system` in the body but becomes `user` in the converter |
| DashScope.ApiKey | src/composables/useDashScopeAPI.js:18-30 | an error before any request exactly when the key id is falsy; otherwise the secret when truthy, else the id |
| DashScope.StatusMessage | src/composables/useDashScopeAPI.js:67-100 | a body that did not parse, or parsed to `null` (its `code` is read and throws), gives the default message whatever the status; otherwise 401, 429, 403 and 500 and above get their fixed messages |
| DashScope.FailureMessage | src/composables/useDashScopeAPI.js:67-153 | the fixed messages survive the outer `catch` unchanged; a body `message` that mentions `Failed to fetch` is reported as the network failure |
| DashScope.StatusMessageDecision | src/composables/useDashScopeAPI.js:81-91 | 401, 429 and 403 get their fixed messages, 500 and above the server-error message, any other status the body's `message`, then `msg`, then the default |
| DashScope.Rethrown | src/composables/useDashScopeAPI.js:147-153 | an error mentioning `Failed to fetch` becomes the network message; any other is thrown again unchanged |
| ChatProxy.ConvertMessage | src/composables/useChatProxyAPI.js:42-46 | kept exactly when `m?.text` is truthy; the content is that text; `ai` becomes `assistant`, every other role `user` |
| ChatProxy.ConvertMessagesToOpenAIFormat | src/composables/useChatProxyAPI.js:40-47 | `[]` for a falsy input; a `TypeError` for any other non-array; otherwise the kept messages converted, in order |
| ChatProxy.ConvertMeaning | src/composables/useChatProxyAPI.js:41-46 | the order is kept, the length is the number of entries with a truthy text, each output carries its entry's text and is non-empty |
| ChatProxy.NullEntrySkipped | src/composables/useChatProxyAPI.js:42 | a `null` entry is skipped without error and changes nothing around it |
| ChatProxy.ProxyOutcome | src/composables/useChatProxyAPI.js:19-29 | success exactly for an OK answer with truthy `success` and `text`, returning the body unchanged; an OK answer without them fails with the format message |
| ChatProxy.FailureReason | src/composables/useChatProxyAPI.js:20-23 | a failed answer reports `error`, else `message`, else the status line, which is also what a body that is not JSON gives |
| Typing.TargetOf | src/composables/useTypingEffect.js:23 | a non-empty new text is typed; an absent or empty one gives exactly the construction text |
| Typing.SpeedOf | src/composables/useTypingEffect.js:24 | a non-zero new speed is used; an absent or zero one gives exactly the construction speed |
| Typing.Typewriter.constructor | src/composables/useTypingEffect.js:9-12 | text defaults to `''` and speed to 30; nothing shown, not typing, no timer |
| Typing.Typewriter.Stop | src/composables/useTypingEffect.js:52-58 | the timer is cleared and typing stops; the text shown stays |
| Typing.Typewriter.TypeNext | src/composables/useTypingEffect.js:30-47 | shows the next character and schedules the next tick, or past the end stops with the whole target shown |
| Typing.Typewriter.Start | src/composables/useTypingEffect.js:14-50 | stops the previous run, clears the screen, types the first character at once; an empty target ends inside `start` |
| Typing.Typewriter.Tick | src/composables/useTypingEffect.js:30-47 | the pending timer fires: one more character of the target, or the end of the run with the whole target shown; fewer ticks remain; the screen is always a prefix of the target |
| Typing.Typewriter.RunTimers | src/composables/useTypingEffect.js:30-47 | the timers of a run fire until none is pending; the whole target ends up on screen |
| Typing.Typewriter.Finish | src/composables/useTypingEffect.js:60-66 | stops and shows the construction text, not the text the last `start` was typing |

## Findings

| source | as written | input that shows it | evidently intended | confidence | as-written member | corrected member |
|---|---|---|---|---|---|---|
| src/composables/useChatLocalCache.js:124-127 | a `currentChatId` that is not a string becomes `null`, and `setItem(key, null)` stores the text `"null"`; reading then keeps that non-empty text as the id | `writeChatCache({chatHistory: [], currentChatId: null})` followed by `readChatCache()` gives `currentChatId === "null"` | no current chat reads back as `null` (remove the item instead of storing `null`) | not executed | ChatCache.CacheRoundTrip | ChatCache.CacheRoundTripCorrected |
| src/composables/useAutoInvertTheme.js:204-245 | `applyToElement` reads each colour from the live computed style after writing the ones before it, so a property drawn in `currentColor` is read after `color` was inverted, and inverted back | an element with black text and `border-top-color: currentColor` on a neutral background: the text turns white and the border black | every colour inverted from the page as it was before the element was touched (both white) | not executed | AutoInvert.LiveBorderReinverted | AutoInvert.PreReadSettles |

`ChatCache.WriteChatCache` and `ChatCache.CacheRoundTrip` model the code as written; `ChatCache.WriteChatCacheCorrected` and `ChatCache.NoChatReadsBackAsNullId` show the difference. The engine itself is modelled as written (`AutoInvert.AutoEngine` reads live); `AutoInvert.PreReadFold` is the corrected pass, and `AutoInvert.AutoFoldLocal` shows that the two agree on pages where no property follows another.

## Left out

- **Floating-point colour maths.** `rgbToHsl`, `hslToRgb`, `srgbToLinear`, `relativeLuminance`, `Math.round` and the number-to-text formatting of an alpha are function values of `Numerics`. Only their clamps are modelled. There are no proofs about hue round-trips or lightness involution.
- **The cascade itself.** What the browser computes from the inline styles is a function value (`Browser.cascade`); every read of the computed style goes through it with the inline styles of that moment.
- **Page-owned style changes.** The page's own changes to inline styles while an engine runs are not modelled: `base` is fixed at construction.
- **DOM queries are oracles.**
  - `querySelector`, `querySelectorAll` and `closest` with the dynamic-context selector list are `Page` function values.
  - The `instanceof` and tag checks are `NodeKinds` function values.
  - The ancestor chain is given to the effective-background walk.
- **Framework and timing.** `MutationObserver` wiring, Vue refs and hooks, and the `requestAnimationFrame` deferral of the older engine's `onMounted` are not modelled. The observer callbacks are methods called with the mutation records. The timers of the typewriter are the `Tick` method; their delays are kept but time is not modelled.
- **Telemetry.** The `log()` calls, the inline `fetch` calls to the local ingest endpoint, `performance.now` and the statistics counters are not modelled. One effect on control flow is modelled: the read of `errorData.code` at `src/composables/useDashScopeAPI.js:77` throws for a body that parsed to `null`, which `DashScope.StatusMessage` turns into the default message. One is not: the read of `messages.length` at `src/composables/useDashScopeAPI.js:16` throws for a missing `messages` before the key check.
- **Storage and JSON.**
  - `localStorage` is a `Storage` object: a map plus an availability flag.
  - The JSON grammar is not modelled. Reading starts from the value the stored text parsed to; writing ends with the value that is serialised.
  - `new Date().toISOString()` is a `now` parameter, one value for both timestamps of a chat.
- **The network paths.** These are the `fetch` requests, the `AbortController` timeouts, the `AbortError` branches, the parsing of a successful DashScope reply with its `code`/`output.choices` checks, and the proxy's request itself. The decisions before and after them are modelled: the access-key check, the status messages, the `Failed to fetch` rewrite, and the proxy's answer.
- DashScope.Rethrown: also kept unchanged are errors that are not `Error` instances and are thrown again without wrapping (`API 调用失败`); the model speaks of message texts only.
- Colors.ParseRgbAccepts: channels and alpha are exact decimals. JavaScript's `Number` and `parseFloat` round them to the nearest double (digit runs beyond 2^53, long alpha texts), which the model does not capture.
- ChatCache.CacheRoundTrip: takes the stored text to parse back to the very value that was serialised. A `followUp` holding what JSON cannot carry (`undefined` members, `NaN`, functions, `Date`s) would come back changed; the same holds for `ChatCache.CacheRoundTripCorrected`.
- ChatProxy.ConvertMessagesToOpenAIFormat: an object that is not an array but carries its own `filter` method is treated like any other non-array (a `TypeError`).
- DashScope.ConvertMessagesToDashScopeFormat: an object that is not an array but carries its own `filter` method is treated like any other non-array (a `TypeError`). At `src/composables/useDashScopeAPI.js:163-164` the source calls that method instead.
- Typing.Typewriter: `TypeNext`, `Start`, `Tick` and `RunTimers` count the target in Unicode scalar values, one per tick. The source indexes a JavaScript string, which counts UTF-16 code units (`src/composables/useTypingEffect.js:31-33`). A character outside the Basic Multilingual Plane, such as an emoji, therefore takes two ticks there, and between them the screen ends in a lone high surrogate. The model does not capture this.
- **`server/index.js`** (the Express proxy) and **`src/main.js`** (plugin registration and mounting) are not part of this model.
