# scentdex catalog logic in Dafny

scentdex is a small Next.js site for browsing a catalog of fragrances. This
project models the parts of it that decide something, and proves what they
promise:

- the catalog page (`src/app/page.tsx`): the brand and note count tables
  of the sidebar, the filter over the search box and the gender, designer,
  note and season toggles, the stable sort selected by the sort menu, the
  window of results grown by Show More, and the page state with its
  setters, toggles and Clear button;
- the photo gallery of a fragrance page (`components/gallery.tsx`): the
  lightbox state `activeImage` and its handlers;
- the image download script (`dev-scripts/download-images.js`): the
  sanitised file name of each picture, and the bookkeeping of the download
  loop, where each download's outcome is a parameter;
- the image URL rewrite script (`dev-scripts/update-image-urls.js`): the
  in-place rewrite of the records from the image mapping, with its counters.

Modules, one per file:

| module | file | models |
|---|---|---|
| `Text` | `text.dfy` | ASCII `toLowerCase`, `String.prototype.includes`, the decimal numeral of an index |
| `Sorting` | `sorting.dfy` | `Array.prototype.sort` with a key comparator: stable, as section 23.1.3.30 of ECMA-262 (2023 edition) requires; an insertion sort in place on an array, proved equal to every stable sort |
| `Catalog` | `catalog.dfy` | the fragrance records and the `ID` the page gives each |
| `CatalogIndex` | `catalog_index.dfy` | the `designers` and `notes` count tables |
| `CatalogQuery` | `catalog_query.dfy` | the `filtered` memo: filter, sort, window |
| `CatalogPage` | `catalog_page.dfy` | the page state as a class, its setters, and the sidebar lists |
| `Gallery` | `gallery.dfy` | the lightbox, as a class and as a pure transition function |
| `DownloadImages` | `download_images.dfy` | `generateFileName` and `downloadAllImages` |
| `UpdateImageUrls` | `update_image_urls.dfy` | the rewrite loop, and the two scripts run one after the other |

Numbers are integers: a rating and a year as stored, a season score in
hundredths (the source's `0.9` threshold is `90`). JavaScript truthiness is
written out: a filter toggle is active when it is set to a non-empty
string, a record has an image URL when its `Image URL` is not empty, and a
mapping entry counts when it is present and not empty.

Every sort mode is modelled as "largest key first": the popularity tier
(5 for "Very high" down to 1 for "Very low", 0 for anything else), the
rating, the year, and for any other mode the negated `ID`, which orders
like the source's ascending `a.ID - b.ID` comparator.

Three behaviours of the code are easy to miss. The model keeps the first
two:

- the note filter lets every record without `Notes` through
  (`src/app/page.tsx:54`);
- gender and note names are compared exactly, without case folding or
  trimming (`src/app/page.tsx:52,58`).

The third is left out: names with equal counts in the count tables follow
the object's key order, which lists integer-like keys first, whereas the
model's dictionary keeps every key in insertion order (see "Left out").

## Model

| member | source | states |
|---|---|---|
| `Text.LowerStr` | src/app/page.tsx:49-50 | lower-casing keeps the length and lower-cases each ASCII capital, leaving every other character as it is |
| `Text.Decimal` | dev-scripts/download-images.js:56 | the numeral of an index is non-empty, all digits, one digit long exactly for indices below 10, and starts with `0` only for index 0 (no leading zeros); `DecimalValue` states that it stands for the index |
| `Text.DigitValue` | dev-scripts/download-images.js:56 | a digit character stands for a number below 10, and `DigitChar` of that number gives the character back |
| `Text.DecimalValue` | dev-scripts/download-images.js:56 | read back digit by digit, the numeral of `n` stands for `n` |
| `Text.DecimalInjective` | dev-scripts/download-images.js:56 | different indices have different numerals |
| `Sorting.InsertionSortIsStableSort` | src/app/page.tsx:71-88 | the sort yields a permutation of its input, ordered by key, largest first, in which the elements of each key keep their input order |
| `Sorting.StableSortIsInsertionSort` | src/app/page.tsx:71-88 | any stable sort of the input by the key is the same sequence as the model's sort, so the model fixes the source's result |
| `Sorting.StableSortUnique` | src/app/page.tsx:71-88 | two stable sorts of the same input by the same key are equal |
| `Sorting.InsertionSortTieOrder` | src/app/page.tsx:71-88 | over an input in increasing tie-breaker order, the result is ordered by key and then by increasing tie-breaker |
| `Sorting.InsertionSortDistinct` | src/app/page.tsx:71-88 | sorting an input without repeats gives a result without repeats |
| `Sorting.SortInPlace` | src/app/page.tsx:71-88 | sorting the array in place, as each of the four `results.sort(...)` calls does, leaves in it the stable sort of its former contents |
| `Sorting.InsertAt` | src/app/page.tsx:71-88 | one insertion step places the element at the end of the sorted prefix after every larger-or-equal key and before every smaller one, and leaves the rest of the array alone |
| `Sorting.SortArrayOf` | src/app/page.tsx:71-88 | sorting a copy in an array gives the stable sort of the sequence |
| `Catalog.WithIds` | src/app/page.tsx:11 | the listing at position `i` is record `i` with `ID` `i` |
| `Catalog.NoteNamesMembership` | src/app/page.tsx:55-57 | a name is among a record's flattened note names exactly when some entry of some note group has that name, bare or illustrated |
| `CatalogIndex.Increment` | src/app/page.tsx:28 | counting a name adds one to its count, a new name starting at one and going to the end of the key order; `IncrementTallies` states that it keeps the dictionary exact |
| `CatalogIndex.Entries` | src/app/page.tsx:30 | `Object.entries` lists one `(name, count)` pair per key, in key order; `EntriesCountTable` states that an exact dictionary gives an exact count table without repeats |
| `CatalogIndex.IncrementTallies` | src/app/page.tsx:28 | counting one more name keeps the dictionary exact: its keys are the names seen, without repeats, and each value is that name's number of occurrences |
| `CatalogIndex.CountTableTotal` | src/app/page.tsx:30 | the counts of an exact count table add up to the number of names counted |
| `CatalogIndex.CountTableMembership` | src/app/page.tsx:30 | an exact count table holds a pair exactly when its name was counted and its count is that name's number of occurrences |
| `CatalogIndex.SortedCountTable` | src/app/page.tsx:43 | sorting the entries by count keeps them an exact count table of the same names |
| `CatalogIndex.SortedTable` | src/app/page.tsx:30 | `Object.entries(...).sort(...)` gives an exact count table, non-increasing by count, whose counts add up to the number of names counted |
| `CatalogIndex.DesignerCounts` | src/app/page.tsx:25-31 | the brand table lists each brand once with its number of fragrances, non-increasing by count, and the counts add up to the catalog size |
| `CatalogIndex.TallyNames` | src/app/page.tsx:37-40 | counting the note names of one record extends an exact dictionary to one exact for all names seen so far |
| `CatalogIndex.NoteCounts` | src/app/page.tsx:33-44 | the note table lists each note name once with its number of entries over the records that have `Notes`, non-increasing by count, and the counts add up to the number of those entries |
| `CatalogQuery.FindSeason` | src/app/page.tsx:61-63 | the season lookup finds the first entry whose name equals the chosen season up to ASCII case, or reports that none does |
| `CatalogQuery.Matches` | src/app/page.tsx:47-69 | a listing passes the filter when the search, gender, designer, note and season predicates all hold; `Filter`, `NoteFilterExact` and `SeasonFilterExact` state what each admits |
| `CatalogQuery.Filter` | src/app/page.tsx:46-69 | a listing is in the result exactly when it is in the catalog and satisfies every active predicate; the result is no longer than the catalog |
| `CatalogQuery.FilterUnconstrained` | src/app/page.tsx:48-60 | with an empty search and no toggle set, the filter returns the whole catalog, in order |
| `CatalogQuery.NoteFilterExact` | src/app/page.tsx:54-59 | the note filter rejects a listing exactly when a note is chosen and the listing has `Notes` that lack it |
| `CatalogQuery.SeasonFilterExact` | src/app/page.tsx:60-67 | with a season chosen, a listing passes exactly when its first entry for that season (up to case) scores strictly above 0.9; a score of exactly 0.9 or no entry fails |
| `CatalogQuery.FilterKeepsOrder` | src/app/page.tsx:47 | the filter keeps the catalog's increasing `ID` order |
| `CatalogQuery.PopularityRank` | src/app/page.tsx:76-85 | a popularity tier ranks between 0 and 5, and 0 exactly when it is none of the five known tiers |
| `CatalogQuery.PopularityTiersOrdered` | src/app/page.tsx:76-84 | the tiers rank in order, "Very high" above "High" above "Medium" above "Low" above "Very low" above any unknown tier, so "Most popular" lists "Very high" first |
| `CatalogQuery.SortKey` | src/app/page.tsx:71-88 | the key each sort mode orders by, largest first; `QueryOrder` states the order it gives, with ties by ascending `ID` |
| `CatalogQuery.Query` | src/app/page.tsx:46-91 | the `filtered` memo: the matching listings, stably sorted by the mode's key; `QueryIsStableSortOfFilter` and `UnconstrainedQueryIsPermutation` state what it holds |
| `CatalogQuery.QueryIsStableSortOfFilter` | src/app/page.tsx:46-91 | the page's results are a permutation of the matching listings, stably sorted by the key of the sort mode, and hold exactly the matching catalog listings |
| `CatalogQuery.UnconstrainedQueryIsPermutation` | src/app/page.tsx:46-91 | with no filter active the results are a permutation of the whole catalog |
| `CatalogQuery.QueryOrder` | src/app/page.tsx:71-88 | "Highest rated", "Newest" and "Most popular" order the results by rating, year or popularity rank, largest first, and equal keys by ascending `ID`; any other mode orders by ascending `ID` |
| `CatalogQuery.Window` | src/app/page.tsx:303 | the grid shows the first `min(visibleCount, n)` results, in order |
| `CatalogQuery.ShowMoreExtendsWindow` | src/app/page.tsx:326-330 | Show More never hides a shown result, keeps the shown ones in place, and reveals more exactly when it is offered |
| `CatalogPage.Toggle` | src/app/page.tsx:168 | pressing a toggle clears the filter when that value is selected, and selects the value otherwise |
| `CatalogPage.ToggleTwice` | src/app/page.tsx:168 | pressing the same toggle twice restores an unset filter, and a filter set to another value ends unset |
| `CatalogPage.SidebarMatches` | src/app/page.tsx:215-218 | the sidebar list keeps exactly the entries whose name contains the sidebar search up to ASCII case |
| `CatalogPage.SidebarMatchesSorted` | src/app/page.tsx:215-218 | narrowing a list ordered by count keeps it ordered by count |
| `CatalogPage.SidebarMatchesEmptyQuery` | src/app/page.tsx:215-218 | an empty sidebar search lists every entry |
| `CatalogPage.SidebarMatchesCount` | src/app/page.tsx:254-257 | narrowing a list without repeated names keeps exactly one entry per matching name |
| `CatalogPage.SidebarMatchesDistinct` | src/app/page.tsx:215-218 | narrowing a list whose names are distinct keeps them distinct |
| `CatalogPage.Take` | src/app/page.tsx:258 | the cap keeps the first `min(cap, n)` entries |
| `CatalogPage.TakeTop` | src/app/page.tsx:254-258 | cutting a list sorted by count keeps only entries of the list, and every entry left out counts at most as much as every entry kept |
| `CatalogPage.TakeDistinct` | src/app/page.tsx:258 | a leading part of a list whose names are distinct has distinct names |
| `CatalogPage.Page.constructor` | src/app/page.tsx:14-22 | the page opens with empty search boxes, no toggle set, "Most popular" and 20 results shown |
| `CatalogPage.Page.Criteria` | src/app/page.tsx:91 | the filter reads the search box and the four toggles of the page |
| `CatalogPage.Page.HasActiveFilters` | src/app/page.tsx:103 | `hasActiveFilters` is truthy when a toggle or the search box is; `HasActiveFiltersIffConstrained` ties it to the filter |
| `CatalogPage.Page.HasActiveFiltersIffConstrained` | src/app/page.tsx:103 | the Clear button shows exactly when some filter constrains the results |
| `CatalogPage.Page.Filtered` | src/app/page.tsx:46-91 | filtering then sorting the array in place yields the query result: exactly the matching listings, stably sorted |
| `CatalogPage.Page.Visible` | src/app/page.tsx:303-330 | the grid shows the first `min(visibleCount, n)` results and Show More is offered exactly while some result is hidden |
| `CatalogPage.Page.DesignerList` | src/app/page.tsx:215-219 | the designer list holds exactly the brands whose name contains the designer search, each once with its number of fragrances, one entry per matching brand, non-increasing by count |
| `CatalogPage.Page.NoteList` | src/app/page.tsx:254-259 | the note list holds `min(50, m)` entries, where `m` is the number of counted notes whose name contains the note search; each is such a note with its number of entries, no name twice, non-increasing by count; every matching note left out counts at most as much as every note listed, so all of them are listed when fewer than 50 match |
| `CatalogPage.Page.SetSearch` | src/app/page.tsx:284 | the search box sets the search text and nothing else |
| `CatalogPage.Page.SetDesignerSearch` | src/app/page.tsx:206 | the designer search box sets its text and nothing else |
| `CatalogPage.Page.SetNoteSearch` | src/app/page.tsx:245 | the note search box sets its text and nothing else |
| `CatalogPage.Page.SetSortBy` | src/app/page.tsx:149 | the sort menu sets the mode and nothing else |
| `CatalogPage.Page.ToggleGender` | src/app/page.tsx:168 | a gender button toggles the gender filter and nothing else |
| `CatalogPage.Page.ToggleSeason` | src/app/page.tsx:188 | a season button toggles the season filter and nothing else |
| `CatalogPage.Page.ToggleDesigner` | src/app/page.tsx:227 | a designer entry toggles the designer filter and nothing else |
| `CatalogPage.Page.ToggleNote` | src/app/page.tsx:267 | a note entry toggles the note filter and nothing else |
| `CatalogPage.Page.ClearFilters` | src/app/page.tsx:93-101 | Clear unsets the four toggles and empties the three search boxes, keeps the sort mode and the number shown, and leaves no filter active |
| `CatalogPage.Page.ShowMore` | src/app/page.tsx:330 | Show More adds exactly 20 to the number shown and changes nothing else |
| `CatalogPage.ClearedPageListsCatalog` | src/app/page.tsx:93-101 | after Clear the results are a permutation of the whole catalog |
| `Gallery.Previous` | components/gallery.tsx:17-21 | previous does nothing when closed or on the first image, and otherwise moves back exactly one |
| `Gallery.Next` | components/gallery.tsx:23-27 | next does nothing when closed or on the last image, and otherwise moves on exactly one |
| `Gallery.KeyDown` | components/gallery.tsx:29-33 | Escape closes from any state, the left and right arrow keys act as previous and next, and any other key does nothing |
| `Gallery.Step` | components/gallery.tsx:17-68 | the effect of one thumbnail, arrow, close or key action on the viewer; `StepInRange` and `Lightbox.Perform` state it |
| `Gallery.Run` | components/gallery.tsx:17-68 | the viewer after a sequence of actions; `RunInRange` states it stays closed or on an existing image |
| `Gallery.StepInRange` | components/gallery.tsx:13-68 | one action keeps the viewer closed or on an existing image |
| `Gallery.RunInRange` | components/gallery.tsx:13-68 | after any sequence of thumbnail, arrow, close and key actions, the viewer is closed or on an existing image |
| `Gallery.ArrowsShownIffEffective` | components/gallery.tsx:87-98 | the left arrow shows exactly when previous would move, the right arrow exactly when next would |
| `Gallery.Lightbox.constructor` | components/gallery.tsx:13 | the gallery starts closed |
| `Gallery.Lightbox.SelectThumbnail` | components/gallery.tsx:44 | clicking thumbnail `idx` opens the viewer on image `idx` |
| `Gallery.Lightbox.HandlePrevious` | components/gallery.tsx:17-21 | the handler performs `Previous` and keeps the viewer in range |
| `Gallery.Lightbox.HandleNext` | components/gallery.tsx:23-27 | the handler performs `Next` and keeps the viewer in range |
| `Gallery.Lightbox.Close` | components/gallery.tsx:68 | the close button closes the viewer from any state |
| `Gallery.Lightbox.HandleKeyDown` | components/gallery.tsx:29-33 | the three key tests in sequence perform `KeyDown` and keep the viewer in range |
| `Gallery.Lightbox.Perform` | components/gallery.tsx:17-68 | every handler changes the state as the transition function says |
| `Gallery.Lightbox.Render` | components/gallery.tsx:15-111 | nothing renders without images; the open viewer shows image `activeImage` with the counter `activeImage + 1` out of the image count, and exactly the arrows whose handlers would move |
| `DownloadImages.Collapse` | dev-scripts/download-images.js:54 | after collapsing, the name holds only `a`-`z`, `0`-`9` and `-`, never two `-` in a row; where each `-` goes is stated by `CollapseAppend` and `CollapseRun` |
| `DownloadImages.DropDisallowedAppend` | dev-scripts/download-images.js:54 | the leading run the pattern consumes ends inside a string that ends in a kept character |
| `DownloadImages.DropDisallowedRun` | dev-scripts/download-images.js:54 | a run of other characters followed by a kept character or the end is consumed whole |
| `DownloadImages.CollapseAppend` | dev-scripts/download-images.js:54 | collapsing splits after a kept character: the two sides are collapsed independently |
| `DownloadImages.CollapseRun` | dev-scripts/download-images.js:54 | each maximal run of characters outside `[a-z0-9]` becomes exactly one `-` |
| `DownloadImages.CollapseKeepsLetters` | dev-scripts/download-images.js:54 | collapsing keeps every letter and digit, in order |
| `DownloadImages.StripLeadingDash` | dev-scripts/download-images.js:55 | one leading `-` is removed when there is one |
| `DownloadImages.StripTrailingDash` | dev-scripts/download-images.js:55 | one trailing `-` is removed when there is one |
| `DownloadImages.Sanitize` | dev-scripts/download-images.js:52-55 | a sanitised name holds only `a`-`z`, `0`-`9` and `-`, never two `-` in a row, and neither starts nor ends with `-`; where the `-` go is stated by `CollapseAppend` and `CollapseRun` |
| `DownloadImages.CollapseExample` | dev-scripts/download-images.js:54 | a name shaped like `"a b!"` (kept, other, kept, other) collapses to the kept characters each followed by one `-` |
| `DownloadImages.SanitizeExample` | dev-scripts/download-images.js:52-55 | a name shaped like `"a b!"` sanitises to the two kept characters joined by one `-`, the trailing `-` stripped |
| `DownloadImages.SanitizeKeepsLetters` | dev-scripts/download-images.js:52-55 | sanitising keeps every ASCII letter, lower-cased, and every digit of the name, in order |
| `DownloadImages.SanitizeIdempotent` | dev-scripts/download-images.js:52-55 | sanitising a sanitised name returns it unchanged |
| `DownloadImages.GenerateFileName` | dev-scripts/download-images.js:51-57 | a file name is the index numeral, a `-`, the sanitised name and `.jpg`; it holds only `a`-`z`, `0`-`9`, `-` and `.`, and its first `-` ends the index |
| `DownloadImages.FileNameInjective` | dev-scripts/download-images.js:51-57 | two records with different indices never get the same file name, whatever their names |
| `DownloadImages.LocalPath` | dev-scripts/download-images.js:81 | the local path recorded for a picture is never empty |
| `DownloadImages.FailuresSound` | dev-scripts/download-images.js:99-104 | every reported failure is a record with an image URL whose download failed, reported with its index, name, URL and error, in record order |
| `DownloadImages.FailuresComplete` | dev-scripts/download-images.js:99-104 | every record whose download failed is reported |
| `DownloadImages.SavedSetSize` | dev-scripts/download-images.js:87-95 | the count of saved pictures equals the number of indices whose picture is on disk |
| `DownloadImages.DownloadAllImages` | dev-scripts/download-images.js:70-105 | the mapping holds exactly the records with an image URL whose file existed or downloaded, each with its local path; `downloaded` is the size of the mapping; every failure is listed; downloaded plus failed plus the records without URL is the record count |
| `UpdateImageUrls.Rewritten` | dev-scripts/update-image-urls.js:23-31 | a record with a truthy mapping entry gets that entry as its image URL, every other record keeps its URL, and no other field of any record changes |
| `UpdateImageUrls.RewrittenIdempotent` | dev-scripts/update-image-urls.js:23-31 | running the rewrite a second time with the same mapping changes nothing |
| `UpdateImageUrls.MappedCountIsSize` | dev-scripts/update-image-urls.js:24-26 | the update count is the number of indices below the record count with a truthy mapping entry |
| `UpdateImageUrls.UpdateImageUrls` | dev-scripts/update-image-urls.js:20-31 | the loop rewrites the array in place to the rewritten records; `updatedCount` counts the mapped indices and `updatedCount + skippedCount` is the record count |
| `UpdateImageUrls.DownloadThenUpdate` | dev-scripts/update-image-urls.js:23-31 | after both scripts, a record whose picture is on disk points at its local file, every other record keeps its URL, and the update count equals the download count |

## Left out

- Markup and styling: the JSX, the Tailwind classes, `next/image`, `next/link`, the icons, the results-count caption (`src/app/page.tsx:295-298`) and the mobile sidebar flag `isFiltersOpen`; `components/navbar.tsx`, `src/app/layout.tsx` and `src/components/Footer.tsx` are markup only.
- React itself: memoisation and re-rendering are not modelled; derived values (`filtered`, the count tables, the sidebar lists) are computed from the current state on demand.
- Network and file I/O: `downloadFile` (redirects, status codes, streams, deleting a partial file), `fs.existsSync`, `mkdirSync`, reading and writing JSON, the 100 ms delay, and all console output. `downloadFile` has no time-out, so a request that never settles stalls the source's loop; the model's loop always finishes. Whether a picture was already on disk, was fetched, or failed with a message is the `outcome` parameter of `DownloadAllImages`.
- The update script reads a file of failed downloads (`dev-scripts/update-image-urls.js:12-17`) and never uses it; it is not modelled.
- UpdateImageUrls.DownloadThenUpdate: assumes both scripts work on the same records; as written they resolve the data file from different directories (`../data` from the download script, `data` under the scripts directory from the update script).
- Floating point: ratings, years and season scores are integers (season scores in hundredths); `Number()` coercion of arbitrary strings and `NaN` in comparators are not modelled.
- Text.LowerStr: lower-cases ASCII capitals only; Unicode case mapping (which can change a string's length) is not modelled, and characters are Dafny characters rather than UTF-16 code units.
- CatalogIndex.DesignerCounts: the order of names with equal counts is not stated; the dictionary's keys are kept in insertion order, whereas `Object.entries` lists integer-like keys first.
- CatalogIndex.NoteCounts: the order of names with equal counts is not stated, for the same reason.
- CatalogIndex.DesignerCounts: the brand dictionary is modelled as a map without inherited keys; the source's plain object literal (`src/app/page.tsx:26-28`) reads `Object.prototype` members, so a brand named `__proto__` never gets an entry and one named `constructor` or `toString` gets a string count.
- CatalogIndex.NoteCounts: the note dictionary (`src/app/page.tsx:34-39`) is modelled the same way, with the same consequences for note names such as `__proto__` or `constructor`.
- CatalogQuery.PopularityRank: a popularity string naming an `Object.prototype` member (`constructor`, `toString`) reads a function from the object literal at `src/app/page.tsx:76-82`, and the comparator then yields `NaN`; the model ranks every unknown string 0.
- DownloadImages.DownloadAllImages: every name is a string; in the source `generateFileName(fragrance.Name, i)` runs before the `try` (`dev-scripts/download-images.js:79,83`), so a record with an image URL but no string `Name` throws and stops the script before the mapping is written.
- An absent `images` list and an empty one render the same (nothing); the model has only the list, empty for both. The image author field is never shown and is not modelled.
- The record fields the core never reads (accords, occasion scores, purchase URL) are not part of the record datatype, so "no other field changes" in `UpdateImageUrls.Rewritten` is about the modelled fields.
- `src/app/fragrance/[id]/page.tsx` is not part of this model: similar fragrances, same-brand lists, accord colours and the detail route are not modelled.
