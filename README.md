# Gallery image discovery, modelled in Dafny

This project models the core of `script.js`, the script behind a photo gallery page. The page has five sections. Each section's images are numbered files named after a one-letter prefix: `A1.jpg`, `A2.png`, …. The page has no directory listing, so when it opens it discovers the images by trial loading:

- for each section in configured order, it tries image numbers 1, 2, … up to 100;
- for each number it tries the extensions `jpg`, `jpeg`, `png`, `gif`, `webp` in that order;
- the first extension that loads is recorded in the catalogue `allImages` and as a grid item, and no later extension is tried;
- the section ends at the first number for which no extension loads.

Around the catalogue sit three small rules:

- star mode shows the catalogue entries of the current section;
- selecting a section shows exactly its grid items and its title;
- a download is saved under the last `/`-segment of the image address, or `image.jpg`.

The browser's image loading is an oracle `loads: string -> bool`. It answers whether the image at a path loads, meaning its `onload` fires rather than its `onerror`.

Files:

- `text.dfy`, module `Text`: decimal printing of image numbers, and `split('/')` with its last piece.
- `scan.dfy`, module `Scan`: the configuration, plus the scan as specification functions (`FirstLoading`, `Probe`, `ScanFrom`, `ScanSection`, `ScanAll`) and their lemmas.
- `view.dfy`, module `View`: the star filter, the show/hide rules for grid items and titles, and the download file name.
- `gallery.dfy`, module `Page`: the page state as a class `Gallery`. It holds the catalogue, grid items, titles, current section, star mode and stars, plus a ghost log of the requested paths. Its methods are imperative: the scan is a `while` loop over image numbers with an inner `for` loop over extensions, both with `break`s as in the source. Each method is proved against the functions of `Scan` and `View`.

The scan's result depends on nothing but the oracle: `LoadImages` ends with `allImages == old(allImages) + ScanAll(loads, Sections)`. So two page loads that see the same oracle build the same catalogue.

A section ends at the first number for which no extension loads (script.js:104): there is no tolerance for gaps in the numbering. `Scan.StopsAtFirstMiss` states it.

The class also keeps a ghost log `probed` of every path the page asks the browser to load, in order. `Scan.AttemptsStopAtFirstLoad` and `Scan.SectionRequestsNumbers` state which requests the scan makes: per number, the extensions in order up to the first that loads and none after it; per section, the numbers 1 up to one past the last entry, and none above 100.

## Model

| member | source | states |
|---|---|---|
| Text.Decimal | script.js:80 | `${imageNum}` prints a number as a non-empty string of decimal digits with no leading zero |
| Text.DecimalRoundTrip | script.js:80 | reading the printed number back gives the number itself |
| Text.DecimalInjective | script.js:80 | after the same prefix, different numbers print differently |
| Text.Split | script.js:191 | `split('/')` yields at least one piece, and no piece contains the separator |
| Text.JoinSplit | script.js:191 | joining the pieces of a split with the separator gives back the original string |
| Text.SplitAtLeastTwo | script.js:191 | a string containing the separator splits into two pieces or more |
| Text.LastPieceAfterSeparator | script.js:191 | the last piece (`pop()`) depends only on what follows the last separator |
| Text.SplitWithoutSeparator | script.js:191 | a string without the separator is a single piece |
| Scan.FirstLoading | script.js:84-102 | the extension reported is a valid position at or after the starting one |
| Scan.FirstLoadingSpec | script.js:84-102 | the reported extension loads, no earlier one loads, and none is reported exactly when no extension loads |
| Scan.Rank | script.js:2-8 | gives the position of the first section with a given id: every section before it has another id, and `|secs|` means absent |
| Scan.RankAppend | script.js:2-8 | adding a section keeps the positions of ids already present and gives a new id the last position |
| Scan.ScanFromAt | script.js:79-106 | number `m` of a scan starting at `n` is entry `m - n`, recorded under its first loading extension |
| Scan.ScanFromBound | script.js:79 | a scan from number `n` records at most 101 - n entries; no number above 100 is recorded |
| Scan.ScanFromEnd | script.js:104 | unless the scan reaches 100, the number after its last entry has no loading extension |
| Scan.SectionShape | script.js:79-106 | a section's entries are numbers 1..k with no gap and k <= 100; entry i - 1 is number i under its first loading extension; number k + 1 loads under no extension unless k = 100 |
| Scan.SectionLength | script.js:79-106 | conversely, if numbers 1..k load and k + 1 does not (or k = 100), the section has exactly k entries |
| Scan.StopsAtFirstMiss | script.js:104 | nothing at or past the first missing number is recorded: there is no miss tolerance |
| Scan.SectionEntryLoads | script.js:80-102 | each entry is `{path: "images/" + name + "." + ext, name: prefix + number, section: id}` for its number, its path loads, and no earlier extension loads |
| Scan.AttemptsStopAtFirstLoad | script.js:84-102 | for each number, the requested paths are the extensions in configured order; every request but the last fails, and the last succeeds exactly when the number loads, so no extension after the first loading one is requested |
| Scan.RequestsFromRange | script.js:79-106 | the scan from number `n` requests exactly numbers `n` up to one past its last entry, capped at 100, each with its own extension attempts |
| Scan.SectionRequestsNumbers | script.js:79-106 | a section's requests are those of numbers 1 to min(entries + 1, 100): nothing beyond the first miss and nothing above 100 is requested |
| Scan.ImageNameInjective | script.js:80 | different numbers give different image names within a section |
| Scan.SectionNameAt | script.js:137-141 | entry `m - 1` of a section is named after number `m` |
| Scan.SectionNamesDistinct | script.js:79-106 | at most one entry per image number: the names within a section are pairwise distinct |
| Scan.ScanFromSection | script.js:137-141 | every entry of a section's scan carries that section's id |
| Scan.GroupedAppend | script.js:66-106 | appending one more section's entries to a catalogue grouped by the earlier sections keeps it grouped |
| Scan.ScanAllGrouped | script.js:66-106 | the catalogue is grouped by section in configured order: every entry belongs to a configured section, and section positions never decrease along it |
| Scan.ScanAllBound | script.js:79 | the catalogue holds at most 100 entries per section |
| Scan.ConfiguredIdsDistinct | script.js:2-8 | the five configured section ids are distinct |
| View.StarImages | script.js:311 | the star images are exactly the catalogue entries of the current section, and no more of them than the catalogue holds |
| View.StarImagesAppend | script.js:311 | the filter distributes over concatenation, so stars keep catalogue order |
| View.StarImagesAll | script.js:311 | a stretch of entries all of the current section is kept whole |
| View.StarImagesNone | script.js:311 | a stretch with no entry of the current section contributes nothing |
| View.StarsOfAppended | script.js:311 | the stars of a catalogue extended by one section's entries |
| View.StarsOfSection | script.js:311 | in star mode, section k shows exactly its own scan, in increasing image number, whatever the other sections hold |
| View.StarsOfMissingSection | script.js:311 | a section id that no configured section has shows no stars |
| View.ShowSection | script.js:45-51 | after selecting `s`, every grid item keeps its section, path and alt text, and is hidden if and only if its section differs from `s` |
| View.ShowTitles | script.js:152-158 | every title keeps its section and text, and is displayed if and only if its section is the current one |
| View.GridMatchesStars | script.js:45-51 | once section `s` is selected, the visible grid shows exactly the images star mode shows for `s`, in the same order |
| View.DownloadName | script.js:191 | the download name is non-empty and contains no `/` |
| View.DownloadNameOfFile | script.js:191 | an address ending in `/file` downloads as `file` |
| View.DownloadNameFallback | script.js:191 | an address ending in `/` downloads as `image.jpg` |
| View.EntryDownloadName | script.js:184-191 | any catalogue entry, under any page address, downloads as its own name plus its extension |
| Page.ItemsFor | script.js:114-141 | the grid items created for catalogue entries match them position by position: same section and path |
| Page.LoadStep | script.js:66-75 | loading one more section extends the catalogue, grid and titles to those of one more section |
| Page.RequestStep | script.js:66-106 | scanning one more section appends its requests to the request log |
| Page.RequestsAdvance | script.js:79-106 | the requests for one more number, followed by the later ones, are the rest of the section's requests |
| Page.InitialGridShowsFirstSection | script.js:110 | after the scan and `switchSection('losing-it')`, the visible grid is exactly the first section's scan |
| Page.OpenPage | script.js:16-23 | opening the page runs the scan on an empty gallery; the catalogue is the scan of every section, the visible grid is the first section's scan, and the requests made are exactly those of every section's scan |
| Page.Gallery.constructor | script.js:10-13 | initial state: empty catalogue, current section `losing-it`, star mode off |
| Page.Gallery.CreateImageItem | script.js:114-141 | appends one grid item (hidden unless of `losing-it`) and one catalogue entry; nothing already present changes |
| Page.Gallery.LoadImages | script.js:63-111 | the catalogue is the old one followed by the scan of every section; grid and titles gain one item per entry and one title per section; the request log gains exactly the scan's requests; then `losing-it` is selected |
| Page.Gallery.LoadSections | script.js:66-106 | the loop over the sections appends their titles, entries, items and requests in configured order |
| Page.Gallery.LoadSection | script.js:66-106 | one section: appends its title, then its scan's entries, items and requests |
| Page.Gallery.ScanSectionImages | script.js:76-106 | the image-number loop appends exactly the section's scan, keeping grid and catalogue in step, and requests exactly the section's requests |
| Page.Gallery.TryExtensions | script.js:81-102 | the extension loop reports whether the number loads, and appends exactly one entry, under the first loading extension, or none; it requests the extensions in order up to that one and no later one |
| Page.Gallery.SwitchSection | script.js:41-60 | selects `s`: items hidden if and only if of another section, titles shown if and only if of `s`, stars rebuilt for `s` in star mode, catalogue and request log unchanged |
| Page.Gallery.UpdateSectionTitles | script.js:150-159 | displays exactly the titles of the current section |
| Page.Gallery.ToggleStarMode | script.js:280-289 | flips star mode; turning it on builds the stars of the current section, and turning it off clears them |
| Page.Gallery.CreateStars | script.js:303-311 | the stars are the catalogue entries of the current section, in catalogue order |
| Page.Gallery.ClearStars | script.js:351-354 | no stars remain |

## Left out

- DOM construction is not modelled: the container, `div`/`img` elements, CSS classes other than `hidden`, `loading = 'lazy'` and the item's click handler. Grid items and titles are records holding only what the rules read.
- The Promise and `onload`/`onerror` plumbing (script.js:86-99) is not modelled. Each probe is one call of the deterministic oracle `loads`, recorded in the ghost log `probed` when its `src` is set. The scan runs to completion as one step. Clicks that arrive while the asynchronous scan is still running are not interleaved.
- The `imagesFound` flag (script.js:77, 91) is not modelled, because nothing reads it.
- The navigation buttons' `active` class (script.js:26-38) is not modelled. A click is a call of `SwitchSection`.
- The lightbox, profile modal and birthday message (script.js:162-273) are left out except for the download name. Each only shows or hides a panel.
- The star elements' random position, size and animation timing (script.js:322-339) are left out: they are `Math.random` and floating-point pixel arithmetic. Stars are modelled as the list of entries they show.
- The resize handler's 250 ms debounce (script.js:292-300) is left out because it is timer-driven. Its effect is a call of `CreateStars`.
- `lightboxImg.src` is the absolute address the browser resolves. `View.EntryDownloadName` takes any address prefix `base` for it.
- Page.Gallery.LoadSections: it receives the section list as a parameter where the source loops over the global `sections`. `LoadImages` passes the configured `Sections`.
- Text.Split: it models `split` only for a one-character separator, the only use in the source.
