# Door gallery selection model

This project models the gallery script of the TeakBlendDoors site (`script.js`). The script shows a searchable grid of door thumbnails. It opens a modal viewer with previous and next controls, deep-links the open door through the URL fragment, and navigates by arrow keys and swipes. The part modelled here is its selection logic. This is the catalogue of serials, the current index, the fragment, whether the modal is shown, and the thumbnail grid last rendered. Each event handler becomes a pure transition on that state.

Modules, one concern each:

- `Wrappers`: the `Option` type.
- `Text`: the string primitives the script uses: `String(n)`, `padStart`, `toLowerCase` and `includes`. Each comes with a reading it is proved against: a decimal parser, zero-padding that keeps the value, and an occurrence at some position.
- `Catalogue`: the 28 serials, `indexOf`, the search filter and the image URL template.
- `Layout`: the first-row count for a viewport width, and the rendered thumbnails with their lazy-loading flag.
- `Gallery`: the state record `State(currentIndex, hash, modalSerial, modalOpen, grid)`, one function per handler, an `Event` type with `Step` and `Run`, and the invariant every reachable state keeps.

Decisions worth knowing:

- Navigation wraps modulo the length of the full catalogue. It also looks the serial up in the full catalogue, whatever the grid shows. A thumbnail's `data-index` is its position in the filtered grid. So after a search, activating a thumbnail shows the catalogue entry at that position, not the door it previews. The model keeps this behaviour (`Gallery.FilteredThumbnailShowsCatalogueEntry`).
- JavaScript's `%` truncates toward zero. `Gallery.JsRem` models that operator, so an index adopted from an out-of-range `data-index` behaves as in the browser. `serials[i]` outside the catalogue is `undefined`, and a template literal renders it as the text `undefined` (`Gallery.SerialAt`).
- `location.hash` is a plain string field, either `""` or `#` followed by the fragment. Closing the modal sets it to `""`.
- The modal image's `src` is always `ImageUrl(serial)`. The state records the serial (`modalSerial`). The URL template and its injectivity are stated separately (`Catalogue.ImageUrl`, `Catalogue.ImageUrlInjective`).
- Keydown on a thumbnail runs the thumbnail's handler first and then the document's, in bubbling order (`Gallery.OnThumbKey`).

## Model

| member | source | states |
|---|---|---|
| Text.NatToString | script.js:2 | `String(n)` is a non-empty digit string that parses back to `n`; it is a single digit exactly when n is below 10, and a spelling of two or more digits never starts with 0 |
| Text.PadStart | script.js:2 | `padStart` keeps strings already long enough; otherwise the result has exactly the requested width, ends with the input and is pad characters before it |
| Text.ZeroPaddingKeepsValue | script.js:2 | zero-padding a number's spelling still denotes the same number |
| Text.Lower | script.js:136 | lower-casing keeps the length and maps every character through the ASCII lower-case map |
| Text.LowerIdempotent | script.js:136 | a lower-cased term has no capitals, lower-casing it again changes nothing, and a term without capitals is left as it is |
| Text.IncludesMeansOccurs | script.js:137 | `includes` holds exactly when the term occurs at some position of the string (both directions) |
| Text.EmptyIsIncluded | script.js:137 | every string includes the empty term |
| Catalogue.Serials | script.js:1-4 | the catalogue has 28 entries |
| Catalogue.SerialShape | script.js:1-4 | every serial, from both halves of the construction, is `vmk` followed by its number zero-padded to two digits |
| Catalogue.SerialNumberAt | script.js:1-4 | reading the number back out of the serial at position i gives i+1 for the first 19 and i+82 for the last 9 |
| Catalogue.CatalogueNumbered | script.js:1-4 | every catalogue entry is serial-shaped and carries its position's number |
| Catalogue.CatalogueOrdered | script.js:1-4 | the serials appear in strictly increasing order of their numbers |
| Catalogue.CatalogueDistinct | script.js:1-4 | no two catalogue positions hold the same serial |
| Catalogue.CatalogueNumbers | script.js:1-4 | the numbers carried are exactly 1..19 and 101..109 |
| Catalogue.CatalogueSamples | script.js:1-4 | positions 0, 4, 9, 18, 19 and 27 hold vmk01, vmk05, vmk10, vmk19, vmk101 and vmk109 |
| Catalogue.IndexOf | script.js:56-57 | `indexOf` gives -1 exactly when the value is absent; otherwise it gives the first position holding the value |
| Catalogue.IndexOfSerial | script.js:57 | in the catalogue, looking up the serial at position i gives back i |
| Catalogue.KeepIncluding | script.js:137 | the filter keeps only entries that contain the term, and it keeps every entry that does, each as many times as it occurs in the input |
| Catalogue.KeepIncludingIsSubsequence | script.js:137 | the filter result is an order-preserving subsequence of its input |
| Catalogue.KeepIncludingAll | script.js:137 | when every entry passes, the filter returns its input unchanged |
| Catalogue.Search | script.js:135-139 | a serial is in the search result exactly when it is in the catalogue and contains the lower-cased term |
| Catalogue.SearchKeepsOrder | script.js:136-137 | the search result is a subsequence of the catalogue in catalogue order, and the empty term gives the whole catalogue |
| Catalogue.PaddedSerialWithoutTen | script.js:2 | a two-digit serial other than `vmk10` does not contain "10" |
| Catalogue.PaddedSerialTen | script.js:2 | the tenth two-digit serial is `vmk10`, which contains "10" |
| Catalogue.SearchTen | script.js:137 | searching "10" finds exactly vmk10 and vmk101..vmk109 |
| Catalogue.SearchTenFirst | script.js:137 | the first result of searching "10" is vmk10 |
| Catalogue.KeepIncludingSkips | script.js:137 | leading entries the filter drops do not change the result for the rest |
| Catalogue.ImageUrl | script.js:26 | the image URL is the fixed host prefix, then the serial, then `.webp` |
| Catalogue.ImageUrlInjective | script.js:26 | different serials get different image URLs |
| Layout.FirstRowCount | script.js:64-69 | the first row holds 2, 3 or 4 thumbnails; 2 below 576 px, 3 from 576 to below 768, 4 from 768 |
| Layout.FirstRowCountMonotone | script.js:64-69 | a wider viewport never gives a smaller first row |
| Layout.Render | script.js:75-106 | thumbnail i previews filtered serial i, carries `data-index` i and that serial's URL, and is lazy exactly when i is at least the first-row count |
| Layout.EagerThumbsAreFirstRow | script.js:104-106 | the number of eager thumbnails is the first-row count, or the grid size when smaller; after a lazy thumbnail, all later ones are lazy |
| Layout.LazySamples | script.js:104-106 | at width 500 lazy loading starts at position 2; at width 1000 it starts at position 4 |
| Gallery.JsRem | script.js:31-36 | the truncating remainder lies strictly between -28 and 28, has the sign of the dividend and differs from it by a multiple of 28; it is the identity on (-28, 28) and subtracts 28 on [28, 56) |
| Gallery.SerialAt | script.js:22 | an in-range index gives its catalogue serial; any other index gives the text "undefined" |
| Gallery.ShowImage | script.js:21-28 | showing writes `#` + the current serial into the fragment and points the modal image at it; the index, modal state and grid are untouched |
| Gallery.Prev | script.js:30-33 | from an in-range index, prev steps back one, wraps from 0 to 27, and leaves the display naming the new index |
| Gallery.Next | script.js:35-38 | from an in-range index, next steps forward one, wraps from 27 to 0, and leaves the display naming the new index |
| Gallery.PrevNextInverse | script.js:31-36 | from an in-range index, prev after next and next after prev each give back the original state, redisplayed |
| Gallery.NextTimesAdvance | script.js:35-38 | each next press moves the index by one truncating-remainder step, whatever the display shows |
| Gallery.AdvanceWraps | script.js:36 | from a catalogue position, up to 28 remainder steps move forward and wrap once past the end |
| Gallery.NextTimesIndex | script.js:36 | k nexts (k up to 28) move k places forward, wrapping once past the end |
| Gallery.FullLap | script.js:36 | 28 consecutive nexts return to the starting index |
| Gallery.OnModalShow | script.js:40-48 | opening the modal with a `data-index` makes it the current index and points the fragment and the modal image at its serial; opening it without one only marks the modal shown; the grid is untouched |
| Gallery.OpenModal | script.js:59-60 | a script-triggered `show()` marks the modal shown and changes nothing else |
| Gallery.OnModalHidden | script.js:50-52 | closing clears the fragment and marks the modal hidden; the index is kept |
| Gallery.ClosedModalRestoresNothing | script.js:50-62 | after closing, the fragment restores nothing |
| Gallery.Fragment | script.js:55 | `substring(1)` drops the leading character of a non-empty hash, and an empty hash gives the empty fragment |
| Gallery.HashTarget | script.js:55-57 | the fragment names a position exactly when it is a catalogue serial, and that position holds it |
| Gallery.LoadFromHash | script.js:54-62 | a fragment naming a serial selects its position, displays it and opens the modal; any other fragment leaves the state unchanged |
| Gallery.FragmentNamesIndex | script.js:27 | the fragment written for an in-range index leads back to that same index |
| Gallery.HashSampleKnown | script.js:54-62 | loading with `#vmk05` selects index 4 and opens the modal |
| Gallery.HashSampleUnknown | script.js:54-62 | loading with `#zzz` changes nothing |
| Gallery.OnDocumentKey | script.js:143-151 | arrow keys act only while the modal is shown: ArrowLeft is prev, ArrowRight is next, and every other key changes nothing |
| Gallery.OnThumbKey | script.js:86-94 | Enter or space on a thumbnail makes its `data-index` current, opens the modal and points the fragment and image at that catalogue serial, grid untouched; any other key acts as the document's key handler does |
| Gallery.OnThumbClick | script.js:98-100 | clicking a thumbnail image opens the modal on its `data-index`: that index becomes current and the fragment and image name its catalogue serial, grid untouched |
| Gallery.ArrowKeysUndo | script.js:143-151 | while the modal is shown, opposite arrow presses cancel out |
| Gallery.SwipeDirection | script.js:166-177 | no navigation when the displacement is within 50 px either way; forward when it is below -50; backward when it is above 50 |
| Gallery.SwipeReversed | script.js:166-177 | swiping the same path in reverse gives the opposite direction, and a short swipe stays short |
| Gallery.OnSwipe | script.js:161-177 | a leftward swipe past the threshold acts as next, a rightward one as prev, and a swipe within 50 px either way changes nothing |
| Gallery.SwipeBackRestores | script.js:166-177 | a swipe followed by its reverse returns to the starting index, and a short swipe leaves the state unchanged |
| Gallery.OnSearch | script.js:135-139 | a search leaves the selection, fragment and modal alone; the new grid numbers its thumbnails 0, 1, … and holds exactly the catalogue serials containing the lower-cased term; it is the rendering of the search result at the current width |
| Gallery.Init | script.js:133-141 | at page load the grid is the whole catalogue rendered at the load width; a serial fragment opens the modal on it; any other fragment leaves index 0 selected with the modal closed |
| Gallery.InitInv | script.js:133-141 | the state after page load satisfies the invariant |
| Gallery.Step | script.js:30-177 | only a search re-renders the grid; closing the modal hides it and clears the fragment; a thumbnail click opens the modal on that thumbnail's index; an event for a thumbnail the grid lacks changes nothing |
| Gallery.Run | script.js:30-177 | no events change nothing; events without a search leave the grid as it was; a run ending in a close leaves the modal hidden with the fragment cleared |
| Gallery.StepInv | script.js:30-177 | every event keeps the invariant: index in the catalogue, thumbnail `data-index` equal to grid position, and an open modal displaying the current serial |
| Gallery.RunInv | script.js:30-177 | every sequence of events keeps the invariant |
| Gallery.ThumbnailSelectsCataloguePosition | script.js:84-100 | activating grid position p by click, Enter or space selects catalogue index p, opens the modal and displays catalogue serial p |
| Gallery.FilteredThumbnailShowsCatalogueEntry | script.js:84-100 | after searching "10", the first thumbnail previews vmk10 but activating it shows vmk01 |

## Left out

- DOM construction, CSS classes and ARIA attributes of the grid (script.js:76-110) are presentation only. The model keeps only each thumbnail's serial, `data-index`, image URL and lazy flag.
- The `IntersectionObserver` reveal animation (script.js:116-131) is a browser callback API with a fractional threshold.
- Bootstrap's modal is a foreign library. "Shown" is a boolean that the show and hidden transitions set. A script-triggered `show()` is modelled as a show event without an opening element.
- Image loading and the `fallback.webp` substitution on error (script.js:23-26, script.js:101-102) are asynchronous network I/O. The model records only which serial's URL the image points at.
- `history.replaceState` and `window.location` are reduced to the `hash` string field. `window.location.pathname` is not modelled beyond clearing the fragment.
- Gallery.OnModalShow: `data-index` is an already-parsed optional integer. A value that `parseInt` turns into NaN, which would set the index to NaN, is not modelled.
- The missing-element check and its `console.error` (script.js:16-19) are startup plumbing.
- Text.Lower: only ASCII capitals are lower-cased. JavaScript's `toLowerCase` also maps other Unicode capitals, so non-ASCII terms are not modelled exactly.
- Gallery.SwipeDirection: touch coordinates are integers here. `screenX` may be fractional in the browser.
- The viewport width is an argument of each search, read when the grid is rendered. Resizing without a search does not re-render, which matches the script.
- A second variant of this script, which suppresses vertical scrolling during single-finger touches, is not part of this model.
