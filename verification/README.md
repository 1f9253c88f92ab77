# gallery.js, modelled in Dafny

`gallery.js` drives a static photo-gallery page. This project models the
parts of it that are logic rather than browser plumbing:

- **The catalog** (`getLocalImages`). A compiled-in list of 26 file names is
  filtered by format, mapped to `{name, baseName}` entries, and
  de-duplicated by base name. The model keeps only names whose lower-cased
  extension (the text after the last dot) is `png`, `jpg` or `jpeg`. The
  first entry with a given base name wins.
- **The initial render** (`loadGalleryFromLocal`, `createImageElement`). The
  grid is emptied and gets one tile per catalog entry. The tile's image
  loads `images/<name>`.
- **The "view more" button.** A click hides the button. It reads back the
  names the grid shows: each image's `src` with the first `images/`
  removed. It then appends one tile for each catalog entry that no tile
  shows. When it appended anything, a recheck a second later shows the
  button again, and only if an entry is still missing. An appended tile
  whose image fails to load switches to `images/01.png`.
- **The error fallback of `loadImagesDirectly`** (`tryNextFallback`). This
  is a step over a three-picture list with an index. The index is a local
  of each `onerror` call, so it starts at 0 every time.

Modules:

| module | file | content |
|---|---|---|
| `Seqs` | seqs.dfy | order-preserving subsequences and `Array.prototype.filter` |
| `Text` | text.dfy | `split`/`join` on one character, `lastIndexOf`, `indexOf`, `replace` (first occurrence), ASCII `toLowerCase` |
| `Catalog` | catalog.dfy | the catalog pipeline over an arbitrary list of names |
| `LocalCatalog` | local_catalog.dfy | the compiled-in list and the catalog it yields |
| `Render` | render.dfy | tiles, the page, the initial render |
| `ViewMore` | view_more.dfy | the click handler, the recheck, the `onerror` of appended tiles |
| `Fallback` | fallback.dfy | `tryNextFallback` and the `onerror` that runs it |

The click handler, the recheck and the error handlers are modelled as pure
functions from page to page. Timers and load errors become explicit steps:
the recheck is its own function, and `TileError` is applied to whichever
tile fails. The model does not decide when such an event fires.

Three facts about the code shape the model:

- The initial render titles a tile `image.baseName || image.name.split('.')[0]`
  (gallery.js:139), so an empty base name falls back to the text before the
  first dot.
- `currentFallbackIndex` is set to 0 inside every `onerror` call
  (gallery.js:434), so each error assigns the first fallback and the
  error-message branch (gallery.js:440-449) is never reached.
- Tiles of the initial render set no `onerror`. The fallback chain lives in
  `loadImagesDirectly`, which nothing in gallery.js calls.

## Model

| member | source | states |
|---|---|---|
| Text.SplitJoin | gallery.js:44 | joining the parts of `split('.')` back with dots gives the string again |
| Text.SplitPartsClean | gallery.js:44 | no part of `split('.')` holds a dot |
| Text.SplitCount | gallery.js:44 | `split('.')` gives two or more parts exactly when the string has a dot, and one part otherwise |
| Text.ReplaceLeadingPattern | gallery.js:302 | `replace` with a pattern the string starts with removes exactly that leading occurrence |
| Catalog.BaseNameDotExtension | gallery.js:44-49 | the extension holds no dot; a dotted name is its base name, a dot and its extension; a dotless name is its own base name and its own extension |
| Catalog.SplitFormsCutAtLastDot | gallery.js:44-49 | `split('.').pop()` and `split('.').slice(0, -1).join('.')` are the text after and before the last dot |
| Catalog.FindIndex | gallery.js:57 | `findIndex` gives the first position holding the base name, or -1 when no position holds it |
| Catalog.IsSupported | gallery.js:43-46 | the format filter: the lower-cased text after the last dot is `png`, `jpg` or `jpeg`; `ListImagesKeepsSupported` and `ListImagesEntryShape` state it of every catalog entry, `ListImagesCoversSupported` of every input name it admits, and `WebpOnly` shows it rejecting `webp` |
| Catalog.Dedupe | gallery.js:56-58 | the `findIndex` filter; `DedupeKeepsFirstHolders`, `DedupeUnique`, `DedupeCovers`, `DedupeOrdered` and `DedupeByFirstAppearance` state that it keeps exactly the first holder of each base name, in order of first appearance |
| Catalog.ListImages | gallery.js:42-58 | the catalog pipeline over any list of names; its contract is stated by the `ListImages…` lemmas below, which together fix its result |
| Catalog.ListImagesKeepsSupported | gallery.js:42-54 | every catalog entry is an input name that passes the format filter, paired with that name's own base name |
| Catalog.ListImagesEntryShape | gallery.js:43-49 | every entry's lower-cased extension is `png`, `jpg` or `jpeg`, so never `webp`; base name, dot and extension spell the entry's name |
| Catalog.ListImagesUniqueBaseNames | gallery.js:56-58 | no two catalog entries share a base name |
| Catalog.ListImagesCoversSupported | gallery.js:42-58 | every supported input name has its base name in the catalog |
| Catalog.ListImagesKeepsFirstHolder | gallery.js:56-58 | the entry kept for a base name is at or before every supported input with that base name |
| Catalog.ListImagesKeepsOrder | gallery.js:42-58 | the catalog names are an order-preserving subsequence of the input |
| Catalog.ListImagesByFirstAppearance | gallery.js:42-58 | the catalog lists its entries in the order in which their base names first appear among the supported input names, even when a name repeats |
| Catalog.ListImagesAppend | gallery.js:42-58 | for two listings with no base name in common, the catalog of both is the catalog of the first followed by that of the second |
| LocalCatalog.PngJpgWebp | gallery.js:29 | the names `s.png`, `s.jpg`, `s.webp` give one entry, `s.png` with base name `s` |
| LocalCatalog.WebpOnly | gallery.js:43-46 | a lone `webp` name gives an empty catalog |
| LocalCatalog.ListImagesByLines | gallery.js:28-58 | a listing of well-spelled lines with distinct stems, each `png`/`jpg`/`webp` or `jpg` alone, gives the first spelling of each line, in line order |
| LocalCatalog.GetLocalImages | gallery.js:24-61 | `getLocalImages()`: the catalog of the compiled-in list of 26 names; `GetLocalImagesValue` states its value |
| LocalCatalog.GetLocalImagesValue | gallery.js:24-61 | `getLocalImages()` is exactly ten entries, one per stem in listing order: the `png` name for eight stems and the `jpg` name for the two stems that only have one |
| Render.CreateTile | gallery.js:95-152 | `createImageElement`: a tile loading `images/<name>` with no `onerror`; `LoadGallery` and `RenderDisplaysCatalog` state its `src`, `CreateTileTitleIsBaseName` its title |
| Render.CreateTileTitle | gallery.js:139 | a tile of the initial render is titled with its entry's base name when that is not empty |
| Render.CreateTileTitleEmptyBase | gallery.js:139 | when the base name is empty the title is the text before the first dot, which is then empty too |
| Render.CreateTileTitleIsBaseName | gallery.js:139 | for every name, a tile of the initial render is titled with its entry's base name, the `||` fallback included |
| Render.LoadGallery | gallery.js:67-93 | the loaded grid has one tile per catalog entry, whatever it held before, each loading `images/<name>`; the button is untouched |
| ViewMore.DisplayedName | gallery.js:301-302 | the name a tile shows: its `src` with the first `images/` removed; `DisplayedPrefixed` states it for `images/<name>`, `FailedTileIsOfferedAgain` for a tile switched to `images/01.png` |
| ViewMore.DisplayedPrefixed | gallery.js:301-302 | a tile whose `src` is `images/<name>` shows `name` |
| ViewMore.RenderDisplaysCatalog | gallery.js:127 | the tiles of the initial render show exactly the catalog names, in catalog order |
| ViewMore.Undisplayed | gallery.js:305-309 | the new items; `UndisplayedMembers`, `UndisplayedOrdered` and `UndisplayedEmpty` state that they are exactly the catalog entries no tile shows, in catalog order |
| ViewMore.UndisplayedMembers | gallery.js:305-309 | the new items are exactly the catalog entries whose name no tile shows |
| ViewMore.UndisplayedOrdered | gallery.js:305-309 | the new items keep the catalog order |
| ViewMore.UndisplayedEmpty | gallery.js:305-312 | there are no new items exactly when every catalog name is shown |
| ViewMore.NewTile | gallery.js:337-345 | an appended tile: it loads `images/<name>` and is titled by the text before the first dot; `NewTilesDisplay`, `ClickAppendsMissing`, `NewTileTitleOneDot` and `NewTileTitleManyDots` state it |
| ViewMore.ClickViewMore | gallery.js:279-394 | a click always hides the button and keeps the existing tiles as a prefix; it adds one tile per missing entry; it schedules the recheck exactly when some catalog entry is not shown |
| ViewMore.ClickAppendsMissing | gallery.js:305-351 | the appended tiles show the missing names in catalog order, and none of those names was shown before |
| ViewMore.ClickDisplaysAll | gallery.js:305-351 | after a click every catalog name is shown |
| ViewMore.Recheck | gallery.js:381-394 | the recheck never touches the tiles; afterwards the button is visible exactly when it was visible or some catalog entry is not shown |
| ViewMore.RecheckAfterClickKeepsHidden | gallery.js:383-393 | with no load error between the click and the recheck, the button stays hidden |
| ViewMore.SecondClickAddsNothing | gallery.js:312-316 | a click right after a click adds nothing and schedules no recheck |
| ViewMore.ClickAfterLoadAddsNothing | gallery.js:296-316 | a click right after the initial render adds nothing, schedules no recheck and leaves the button hidden |
| ViewMore.ViewMoreOnLoadedPage | gallery.js:67-81 | the loaded page holds ten tiles and "view more" has nothing to add to it |
| ViewMore.TileError | gallery.js:357-360 | a failed appended tile now loads `images/01.png` and no other tile changes; tiles of the initial render are left alone |
| ViewMore.FailedTileIsOfferedAgain | gallery.js:357-393 | when a recheck comes straight after an appended tile's load error, and no other tile shows that tile's entry, the recheck finds the entry missing and shows the button again, unless that entry is `01.png`, which the fallback picture itself shows |
| ViewMore.FailedOnePngIsNotOffered | gallery.js:357-393 | the exception: after an appended tile's load error the `01.png` entry counts as shown by the failed tile itself, so a recheck straight after keeps a hidden button hidden when every other entry is shown by some other tile |
| ViewMore.NewTileTitleOneDot | gallery.js:342 | for a name `stem.ext` with a dotless stem, the empty stem of `.png` included, appended and initial tiles get the same title, the stem |
| ViewMore.NewTileTitleManyDots | gallery.js:342 | for `a.b.ext`, an empty `a` included, an appended tile is titled `a` while the initial render titles it `a.b` |
| Fallback.TryNextFallback | gallery.js:436-450 | an index within the list stays within it; every picture assigned comes from the list and advances the index by one; the error message appears exactly when the list is used up |
| Fallback.OnError | gallery.js:430-453 | whatever the image showed, one error runs `tryNextFallback` once from index 0 and so assigns `images/01.png` |
| Fallback.ErrorsAlwaysGiveFirstFallback | gallery.js:430-453 | after any positive number of errors the image shows `images/01.png`, and the error message is never reached |

## Left out

- DOM construction is not modelled: the `<picture>` element with its `data-srcset` sources, `innerHTML` templates, `alt` and `data-src` attributes, and the CSS opacity, transform and transition styling. A tile keeps only its `src`, its title and its error behaviour.
- Timers, the scroll handlers and the `IntersectionObserver` reveal are not modelled. The one-second recheck is a separate function applied after the click.
- ViewMore.FailedTileIsOfferedAgain: holds only for a recheck that comes straight after the error. Appended tiles carry `data-src="images/<name>"` (gallery.js:339). The scroll handlers (gallery.js:212-219, 463-470) set `src` back from `data-src` for every such image whose top is above the bottom of the viewport, images scrolled past included, and that has no `svg` in its `src`, which undoes `TileError`. The view-more computation reads `src` back, so after such a scroll the entry counts as shown again.
- ViewMore.NewTile: takes `images/<name>` and `name.split('.')[0]` verbatim. The program builds appended tiles from an `innerHTML` template (gallery.js:337-345), and the HTML parser decodes `&` references, ends the `src` attribute at a `"`, and reads `<` in the title as markup. The lemmas about appended tiles over an arbitrary catalog (`ClickDisplaysAll`, `ClickAppendsMissing`, `SecondClickAddsNothing`, `RecheckAfterClickKeepsHidden`, `NewTileTitleOneDot`, `NewTileTitleManyDots`) therefore match the program only for names without `"`, `&` or `<`. Every compiled-in name is such a name, so `ViewMoreOnLoadedPage` is unaffected.
- The lightbox handlers, `setupLightbox`, are not modelled. They only toggle a CSS class from DOM event targets.
- The auto-creation of a missing `.gallery-grid`, the missing-grid branches and the console logging are not modelled. The model assumes the grid and the button exist.
- `loadDesignsDirectly` and its `picsum.photos` fallback are not modelled. Nothing in gallery.js calls it.
- Image loading itself is not modelled: the network fetch, success and failure. A load error is an input (`TileError`, `OnError`) applied to a chosen tile or image.
- `Text.ToLower` lower-cases the ASCII letters only, where JavaScript maps all of Unicode. All names in the catalog are ASCII.
- `Catalog.ListImages` works on any list of names. gallery.js only ever uses it on its compiled-in list, modelled as `LocalCatalog.ImageFiles`.
