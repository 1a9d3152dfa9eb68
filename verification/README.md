# GLM dashboard explainer: the build scripts, the page widgets and the grid scripts in Dafny

This project models the small, deterministic logic of the GLM tutorial site and proves properties of it. It has three parts.

- **The HTML rewriters.** Four build scripts each take a page's text. They skip the page when a marker is already present, and otherwise splice fixed snippets in at located points:
  - `add-navigation.py` adds header navigation and a back-link style, and rewrites the "advanced" page's next-tutorial link;
  - `extract-css.py` replaces the inline style block with links to the shared and themed style sheets;
  - `add-feedback-widget.py` puts the feedback script before `</body>`;
  - `add-mobile-picker.py` adds the tap-to-select style, the picker script and a new `setupDropZones`.

  Each regular expression is a hand-written matcher with the leftmost, greedy or lazy behaviour of its fixed pattern. `re.sub` and `str.replace` are a generic left-to-right scanner (module `Rewrite`). Writing a file is returning `Some(new text)`; a dry run returns `None`.
- **The page widgets.**
  - `getPageInfo` and the issue-link builders of `feedback.js` (module `FeedbackLinks`).
  - The tap-to-select selection state of `variable-picker.js` (module `VariablePicker`). Cards and the picker are classes whose fields change in place; browser events are method calls; the `onDrop` calls are logged in a `drops` field.
- **The elevation grid scripts.**
  - `fetch_arthurs_seat.py` (module `FetchElevation`): row-major point enumeration, batching by 100, concatenation and reshape, and the summary statistics.
  - `generate_arthurs_seat.py` (module `GenerateElevation`): the Gaussian-bump surface, the grid loops, and the first maximum with its (row, column).
  - The statistics and the row-major index arithmetic they share are in `GridStats`.

Shared modules:
- `Wrappers`: Option and Result.
- `Text`: prefix, find, split, join, replace and Python's whitespace class.
- `Rewrite`: the substitution scanner and its trace of kept and swapped pieces.

## Model

| member | source | states |
|---|---|---|
| Navigation.Lookup | scripts/build/add-navigation.py:26-31 | the next tutorial of the first entry whose folder equals the argument; nothing when no entry matches |
| Navigation.TutorialsChained | scripts/build/add-navigation.py:18-24 | each entry's next folder is the following entry's folder, the last entry has none, and folders are distinct |
| Navigation.NextFollowsTable | scripts/build/add-navigation.py:18-31 | `get_next_tutorial` of entry k gives entry k+1's folder; the last folder and unknown folders give none |
| Navigation.HeaderMatch | scripts/build/add-navigation.py:41-46 | a header match is `<header>`, whitespace, then `<div class="container">`, and its replacement appends the back link |
| Navigation.HeaderComplete | scripts/build/add-navigation.py:41-46 | every `<header>`, whitespace, then `<div class="container">` at a position is matched in full and gets the back link after it |
| Navigation.AddHeaderNav | scripts/build/add-navigation.py:36-37 | a page already holding the index link or "All Tutorials" comes back unchanged |
| Navigation.BackCssPlacement | scripts/build/add-navigation.py:49-64 | after the link stage, the back-link style goes before every `</style>` exactly when `.back-to-index` is absent |
| Navigation.AddHeaderNavIdempotent | scripts/build/add-navigation.py:34-66 | a second `add_header_nav` changes nothing |
| Navigation.SpanSound | scripts/build/add-navigation.py:74 | the nav-buttons matcher finds the leftmost start, the lazy `.*?` middle and the closing tags of the pattern |
| Navigation.SpanComplete | scripts/build/add-navigation.py:88 | any text with the pattern's shape at the start is found by the matcher with exactly those groups |
| Navigation.NavSwaps | scripts/build/add-navigation.py:74-99 | the rewrite is a left-to-right sequence of kept text and nav blocks; each swapped block is one pattern match replaced by the new link |
| Navigation.NavUntouched | scripts/build/add-navigation.py:74-99 | text without a nav block is unchanged |
| Navigation.NextNavNames | scripts/build/add-navigation.py:90-92 | the next link carries `../{folder}/systematic.html` and `Next: {title}` |
| Navigation.UpdateWithNext | scripts/build/add-navigation.py:86-102 | with a next tutorial only the link is swapped and no `.btn-success` style is added |
| Navigation.UpdateAtEnd | scripts/build/add-navigation.py:71-85 | at the last tutorial the completion link goes to the index, and the `.btn-success` style is added before every `</style>` only when missing |
| Navigation.NavPageScope | scripts/build/add-navigation.py:122-129 | pages other than `advanced.html` get only the header stage, and a second pass changes nothing |
| Navigation.ProcessFile | scripts/build/add-navigation.py:117-137 | the result is true exactly when the text changed; the file is written only then, and never in a dry run |
| Navigation.WrittenAllAt | scripts/build/add-navigation.py:155-161 | page k's write is that page's own outcome; a dry run writes nothing |
| Navigation.RunNavigation | scripts/build/add-navigation.py:140-161 | the modified count is the number of changed pages, and modified plus skipped is the page count |
| ExtractCss.ThemeLookupFirst | scripts/extract-css.py:36-40 | the theme is that of the first folder in table order that occurs in the path |
| ExtractCss.ThemeLookupMiss | scripts/extract-css.py:36-41 | the lookup fails exactly when no folder occurs in the path |
| ExtractCss.ThemeLookupFound | scripts/extract-css.py:36-40 | a found theme belongs to a folder occurring in the path |
| ExtractCss.CssLinksName | scripts/extract-css.py:29-34 | the link block names `../../css/base.css` and `themes/{theme}.css` |
| ExtractCss.StyleSound | scripts/extract-css.py:58-62 | a style match is whitespace, `<style>`, a lazy body, `</style>`, whitespace, with the earliest close |
| ExtractCss.StyleComplete | scripts/extract-css.py:58-62 | every such block at the start is found with exactly those bounds |
| ExtractCss.StyleSearch | scripts/extract-css.py:60 | `re.search` finds a block exactly when a `<style>` is followed by a `</style>` |
| ExtractCss.ReplaceBlockFirst | scripts/extract-css.py:69 | only the first block is replaced; the text before and after it is kept |
| ExtractCss.ReplaceStyleNone | scripts/extract-css.py:60-62 | without a style block the text is unchanged |
| ExtractCss.ReplaceStyleLinks | scripts/extract-css.py:66-69 | the rewritten text contains both style-sheet links |
| ExtractCss.DecideSkips | scripts/extract-css.py:52-65 | already-converted pages and pages without a style block are skipped before the theme lookup; the lookup error is raised only otherwise |
| ExtractCss.ConvertedLinks | scripts/extract-css.py:66-69 | a converted page links the base and theme style sheets |
| ExtractCss.ConvertedIdempotent | scripts/extract-css.py:52-54 | a converted page is skipped by a second run |
| ExtractCss.ProcessHtmlFile | scripts/extract-css.py:43-82 | an error exactly when the lookup fails on a page that needs it; true exactly on conversion; written only when not a dry run |
| ExtractCss.FailureFromFirst | scripts/extract-css.py:99-103 | the loop stops at the first failing page: no page before it fails |
| ExtractCss.WrittenAllAt | scripts/extract-css.py:99-103 | page i's write is that page's own outcome; a dry run writes nothing |
| ExtractCss.RunExtract | scripts/extract-css.py:84-105 | counts and writes cover exactly the pages before the first failure, and that page's error is reported |
| FeedbackWidget.AddFeedbackToFile | scripts/build/add-feedback-widget.py:20-41 | true exactly when the page has no `feedback.js` and has `</body>`; the result is true exactly when a file was written |
| FeedbackWidget.TutorialTagMarked | scripts/build/add-feedback-widget.py:17 | the tutorial tag contains the skip marker |
| FeedbackWidget.IndexTagMarked | scripts/build/add-feedback-widget.py:18 | the index tag contains the skip marker |
| FeedbackWidget.InsertedPieces | scripts/build/add-feedback-widget.py:34-37 | every `</body>` is replaced by the tag insertion, and the rest of the text is kept |
| FeedbackWidget.InsertionsRemoved | scripts/build/add-feedback-widget.py:34-37 | replacing each insertion back with `</body>` gives the original text |
| FeedbackWidget.AddFeedbackIdempotent | scripts/build/add-feedback-widget.py:25-37 | the output holds the tag, so a second call skips the page |
| FeedbackWidget.TutorialDirNumbered | scripts/build/add-feedback-widget.py:49 | a directory qualifies exactly when its name starts with `01` to `05` |
| FeedbackWidget.SelectedOnlyTutorials | scripts/build/add-feedback-widget.py:48-51 | every page processed comes from a qualifying directory |
| FeedbackWidget.WrittenAt | scripts/build/add-feedback-widget.py:51-53 | page k's write is that page's own outcome |
| FeedbackWidget.AddFeedbackToPages | scripts/build/add-feedback-widget.py:51-53 | the count is the number of pages written |
| FeedbackWidget.AddFeedbackToSite | scripts/build/add-feedback-widget.py:43-60 | the tutorial pages and then the index are processed; the count includes the index when it was written |
| MobilePicker.DimmedSound | scripts/build/add-mobile-picker.py:112-119 | a dimmed-rule match is `.variable-card.dimmed {`, no `}`, then `}`; the style rules follow it |
| MobilePicker.DimmedComplete | scripts/build/add-mobile-picker.py:112-119 | every such rule at the start is matched with exactly its length |
| MobilePicker.DimmedStageEach | scripts/build/add-mobile-picker.py:112-119 | each swapped piece is one dimmed rule followed by a newline and the mobile style |
| MobilePicker.MobileCssMarked | scripts/build/add-mobile-picker.py:19-21 | the inserted style contains `.variable-card.selected` |
| MobilePicker.ScriptStage | scripts/build/add-mobile-picker.py:123-130 | the script tag goes before each main script only when `variable-picker.js` is absent, and afterwards it is present |
| MobilePicker.SetupSound | scripts/build/add-mobile-picker.py:134-143 | a setup match is the old `setupDropZones` header, then text up to the first `});` followed by two closing braces |
| MobilePicker.SetupComplete | scripts/build/add-mobile-picker.py:134-143 | every such function at the start is matched with exactly its length |
| MobilePicker.AddMobileSupport | scripts/build/add-mobile-picker.py:100-155 | a page holding `.variable-card.selected` is skipped; no stage applying means false and no write; a dry run never writes |
| MobilePicker.RerunSkips | scripts/build/add-mobile-picker.py:107-119 | once the style stage has applied, a second run skips the page |
| MobilePicker.WrittenAllAt | scripts/build/add-mobile-picker.py:158-176 | tutorial k's write is that page's own outcome; a dry run writes nothing |
| MobilePicker.AddMobileToTutorials | scripts/build/add-mobile-picker.py:158-179 | the count is the number of tutorial pages changed |
| FeedbackLinks.NonEmptySpec | prototype/js/feedback.js:9 | the segments are exactly the non-empty pieces |
| FeedbackLinks.NonEmptyAppend | prototype/js/feedback.js:9 | the filter keeps the order of the pieces |
| FeedbackLinks.SegmentsSpec | prototype/js/feedback.js:9 | each segment is a non-empty piece between slashes and holds no slash |
| FeedbackLinks.FirstFolderFromSpec | prototype/js/feedback.js:16-24 | the scan stops at the first segment of two digits and `-`, and finds nothing when there is none |
| FeedbackLinks.FriendlyNameSpec | prototype/js/feedback.js:27-35 | the five folders map to "Tutorial N: …"; any other name is returned as is |
| FeedbackLinks.FriendlyNameInjective | prototype/js/feedback.js:27-35 | different tutorial folders, and the index, get different names |
| FeedbackLinks.GetPageInfo | prototype/js/feedback.js:7-42 | the loop gives the page information of the first tutorial folder, with the defaults when there is none |
| FeedbackLinks.NoFolderDefaults | prototype/js/feedback.js:12-13 | without a tutorial folder the result is "Index", "index" |
| FeedbackLinks.FirstFolderUsed | prototype/js/feedback.js:17-22 | the first folder names the tutorial; the page is the next segment minus its first `.html`, or "index" when the folder is last |
| FeedbackLinks.LinkRoundTrip | prototype/js/feedback.js:55 | the encoded title and body can be read back from a link built on the issue form |
| FeedbackLinks.BugLinkReads | prototype/js/feedback.js:45-56 | the bug link opens the bug template; its title decodes to `[Bug] {tutorial} - {page}` and its body to the page report |
| FeedbackLinks.FeatureLinkReads | prototype/js/feedback.js:58-68 | the feature link opens the feature template; its title decodes to `[Feature] ` and its body to the page context |
| FeedbackLinks.TemplatesDistinct | prototype/js/feedback.js:55-67 | a bug link never reads as a feature link, nor the reverse |
| VariablePicker.Picker.constructor | docs/js/variable-picker.js:24-25 | the picker starts with nothing selected and nothing dropped |
| VariablePicker.Picker.ClearSelection | docs/js/variable-picker.js:176-183 | both selection fields become null and the previous card loses `selected`; no card's set-up mark or handlers change |
| VariablePicker.Picker.SetupVariableCards | docs/js/variable-picker.js:65-76 | every card is marked set up; a card gets handlers once, and only when it was unmarked and not dimmed |
| VariablePicker.Picker.TapCard | docs/js/variable-picker.js:95-111 | tapping the selected card deselects it; another card becomes the only selected card and the old one loses `selected`; no card's set-up mark or handlers change |
| VariablePicker.Picker.TapZone | docs/js/variable-picker.js:153-169 | with nothing selected nothing changes; otherwise the selection is cleared and `onDrop` is called once with the old variable exactly when `validateDrop` accepts; no card's set-up mark or handlers change |
| VariablePicker.Picker.DesktopDrop | docs/js/variable-picker.js:135-148 | `onDrop` is called only when `validateDrop` is absent or accepts |
| GridStats.CellIndex | data/generate_arthurs_seat.py:98-100 | the flat index `i*COLS+j` decomposes back into `i` and `j` |
| GridStats.CellInGrid | data/fetch_arthurs_seat.py:46-51 | every cell's flat index is below `ROWS*COLS` |
| GridStats.IndexInGrid | data/generate_arthurs_seat.py:98-100 | a flat index below `ROWS*COLS` gives a row below `ROWS` and a column below `COLS` that recompose it |
| GridStats.MaxSpec | data/generate_arthurs_seat.py:93 | the maximum is an element and bounds every element |
| GridStats.MinSpec | data/generate_arthurs_seat.py:94 | the minimum is an element and bounds every element from below |
| GridStats.SumBounds | data/fetch_arthurs_seat.py:99 | element bounds give the sum's bounds |
| GridStats.IndexOf | data/generate_arthurs_seat.py:98 | `list.index` is the first position holding the value |
| GridStats.StatsSpec | data/fetch_arthurs_seat.py:96-100 | for a non-empty list the minimum and maximum are elements that bound every element and the mean |
| GridStats.DivBetween | data/fetch_arthurs_seat.py:99 | a total between `n*lo` and `n*hi` averages to a value between `lo` and `hi` |
| FetchElevation.GridCorners | data/fetch_arthurs_seat.py:38-49 | the first and last rows and columns are the bounding-box edges |
| FetchElevation.GridPoints | data/fetch_arthurs_seat.py:46-51 | the loops produce `ROWS*COLS` points in row-major order |
| FetchElevation.GridCell | data/fetch_arthurs_seat.py:46-51 | point `i*COLS+j` has row `i`'s latitude and column `j`'s longitude |
| FetchElevation.BatchSizes | data/fetch_arthurs_seat.py:61-63 | every batch holds 1 to 100 points; all but the last hold exactly 100 |
| FetchElevation.BatchesPrefix | data/fetch_arthurs_seat.py:61-63 | the first c batches are the first `c*100` points, in order |
| FetchElevation.BatchesCover | data/fetch_arthurs_seat.py:58-63 | the batches together are all points, once each, in order |
| FetchElevation.PointInBatch | data/fetch_arthurs_seat.py:61-63 | point k is entry `k % 100` of batch `k // 100` |
| FetchElevation.FetchAll | data/fetch_arthurs_seat.py:58-71 | one request per batch, `(n + 99) // 100` of them, and the answers concatenated in order |
| FetchElevation.FetchedAligned | data/fetch_arthurs_seat.py:59-68 | with one answer per point, elevation k is the answer for point k within its batch |
| FetchElevation.Reshape | data/fetch_arthurs_seat.py:74-77 | row i is `elevations[i*COLS:(i+1)*COLS]`; with `ROWS*COLS` values, cell (i, j) is value `i*COLS+j` |
| FetchElevation.BuildElevationGrid | data/fetch_arthurs_seat.py:36-100 | cell (i, j) holds the answer for point (i, j), and the statistics bound every cell |
| FetchElevation.PointOfElevation | data/fetch_arthurs_seat.py:61-67 | the answer for point k is asked for with point k's own latitude and longitude |
| GenerateElevation.PeaksUpward | data/generate_arthurs_seat.py:49-70 | every bump has a positive height and positive spreads |
| GenerateElevation.GaussianNonNegative | data/generate_arthurs_seat.py:26-36 | a bump is never negative when `exp` is not |
| GenerateElevation.BumpsNonNegative | data/generate_arthurs_seat.py:47-70 | the bumps sum to a non-negative amount |
| GenerateElevation.ElevationAboveBase | data/generate_arthurs_seat.py:38-72 | no elevation is below the base of 30 |
| GenerateElevation.BuildGrid | data/generate_arthurs_seat.py:79-90 | `ROWS` rounded rows of `COLS` values, and the flat list of unrounded values in row-major order |
| GenerateElevation.GridMatchesFlat | data/generate_arthurs_seat.py:86-89 | `grid[i][j]` is the rounded `flat[i*COLS+j]` |
| GenerateElevation.GenerateSurface | data/generate_arthurs_seat.py:74-102 | the minimum, maximum and mean are `min`, `max` and sum over length of the unrounded values; the summit is the first maximum; its row and column recompose its index; the minimum and maximum bound every value and the mean |
| GenerateElevation.SummitOnSurface | data/generate_arthurs_seat.py:98-102 | the value at the reported cell is the surface at that cell's latitude and longitude |

## Left out

- File reading and writing, `Path.glob`/`iterdir` and `sys.argv`: page texts and file lists are inputs, and a write is the returned text.
- Console output and the progress and warning messages are not modelled.
- HTTP and JSON in `fetch_elevations`, `time.sleep`, `os.makedirs` and the `json.dump` output: the elevation service is a parameter from a batch to a list of elevations.
- The output JSON of `generate_arthurs_seat.py` is not modelled, including its `round(…, 1)` of the statistics.
- Floating point: coordinates and elevations are exact reals. `exp`, `cos`, `sin` and `round(…, 1)` are parameters, so the concrete elevations and the summit's position are not computed.
- General regular expressions: each fixed pattern is a hand-written matcher.
- The browser plumbing of `variable-picker.js` is not modelled:
  - `MutationObserver` and `addEventListener` wiring;
  - the drag classes, the `wrong` flash and its timer;
  - the hint element.
- `isTouchDevice` is a constant of the picker.
- The outside-click handler is a call of `ClearSelection`.
- One `initVariablePicker` configuration is modelled; the module-level state shared between several calls is not.
- `encodeURIComponent` is a parameter: any encoder that never produces `&` and has a left inverse.
- `createWidget` and the widget's HTML and CSS are not modelled.
- `scripts/py/validate_*.py` are not modelled: their results come from model fits in an external statistics library.
- GridStats.StatsOf: an empty list gives `None`, where Python's `min` raises `ValueError` and `main` of `fetch_arthurs_seat.py` stops before writing anything; `FetchElevation.BuildElevationGrid` then returns `stats == None` and a grid of empty rows instead of failing.
- MobilePicker.RerunSkips: assumes the replaced `setupDropZones` lies after the inserted style. A page whose setup function comes before its dimmed rule is not covered.
