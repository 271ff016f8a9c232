# TV show browser: verified model of the client-side core

The browser app in `script.js` loads the TVMaze show list, shows it as cards, opens a
show's episodes on click or from a drop-down, narrows the cards with a live search box,
and pins a single episode from an episode drop-down. Almost all of the file builds DOM
or calls `fetch`. This project models the pure logic inside it:

- **Episode codes** (`episode_code.dfy`): `formatEpisodeCode` built from `String(n)` and
  `padStart(2, "0")`, with a parser used as its inverse.
- **Live search** (`live_search.dfy`, over `text.dfy` and `seqs.dfy`): the `input` handler
  of `liveSearch`. The query is lower-cased and trimmed, then used as an order-preserving
  filter. Episodes match on name or optional summary. Shows match on name, optional summary,
  or the genres joined with `", "`.
- **Episode selection** (`episode_selector.dfy`): the `change` handler of
  `setupEpisodeSelector`, which works on the cards currently on screen.
- **Data store** (`data_store.dfy`): the `cachedEpisodes` map behind `fetchEpisodes`, the
  read-only cache check of `fetchShows`, and the `setup` step that stores and sorts shows.
- **Sorting** (`show_sort.dfy`): `sortShowsAlphabetically`, with `localeCompare` replaced
  by an abstract total preorder on names.

`catalog.dfy` holds the `Show` and `Episode` records and `basics.dfy` holds `Option` and
`Result`. Every operation is a pure function. The network is a parameter: a
`Result` value, either `Ok(data)` or `Err(status)`, standing for what the endpoint would answer.

The code behaves as follows in cases a reader might not expect, and the model does the same:

- Selecting an id that is not among the displayed cards leaves the view unchanged and
  reports a count of 1. It does not show an empty list.
- Pinning and searching are independent handlers. Neither takes precedence over the other.
- `fetchShows` never writes `cachedShows`. `setup` stores its result.
- There is no single-flight coalescing of concurrent fetches.
- `liveSearch` is called once, at script.js:22, with an empty episode list. So its episode
  branch (script.js:243-249) never runs. Typing in the search box while an episode page is
  open replaces that page with the filtered show page. `OnSearchInput` models both branches
  and shows this through its first clause.

## Model

| member | source | states |
|---|---|---|
| Text.Trim | script.js:241 | `trim` yields a contiguous slice of its input with only white space cut from either end, and the slice neither starts nor ends with white space |
| Text.TrimEmptyIffBlank | script.js:241 | trimming leaves the empty string exactly when the input is all white space, in both directions |
| Text.ToLower | script.js:241 | `toLowerCase` keeps the length, folds each character on its own and leaves no upper-case letter |
| Text.TrimOfLower | script.js:241 | trimming the lower-cased query cuts exactly the white space around the original query |
| Text.Contains | script.js:246-247 | `includes` holds for the empty term and never for a term longer than the string |
| Text.Join | script.js:255 | `join` of no parts is empty, and otherwise its length is the parts' lengths plus one separator between each neighbouring pair |
| Text.JoinAppend | script.js:255 | appending a part to a non-empty list appends one separator and then that part, so the parts appear in order |
| Text.ContainsIffOccurs | script.js:246-247 | `includes` holds exactly when the term occurs at some position, in both directions |
| Text.JoinContainsPart | script.js:255 | every genre occurs as a substring of the genres joined with a separator |
| Seqs.Filter | script.js:244-248 | `filter` keeps only items that satisfy the predicate, and every satisfying value appears in the result; counts are stated by FilterCounts |
| Seqs.FilterCounts | script.js:244-248 | counted with multiplicity, every occurrence of a satisfying item is kept and no other item is |
| Seqs.FilterIsSubsequence | script.js:244-248 | the filtered list is a subsequence of the input: nothing is added, duplicated or reordered |
| Seqs.FilterKeepsAll | script.js:244-248 | when every item satisfies the predicate the filter returns its input unchanged |
| Seqs.FilterIdempotent | script.js:244-248 | filtering a filtered list again by the same predicate changes nothing |
| EpisodeCode.Decimal | script.js:154 | `String(n)` of a non-negative number is a non-empty digit string without leading zeros |
| EpisodeCode.ValueOfDecimal | script.js:154 | reading `String(n)` back as a decimal numeral gives `n` |
| EpisodeCode.PadStart | script.js:154-157 | `padStart` fills on the left up to the width, keeps the whole input as the suffix and never shortens it |
| EpisodeCode.IntToString | script.js:154 | `String(x)` is all digits exactly when x is non-negative, and then reads back as x; a negative x gives a minus sign followed by digits reading -x; the numeral is canonical, with no leading zero except for "0" itself |
| EpisodeCode.FormatEpisodeCode | script.js:153-158 | for a non-negative season and number the code is `S`, the season's digits, `E`, the number's digits; each part reads back as its value and is two digits wide below 10, full width from 10 up |
| EpisodeCode.SplitsAsUnique | script.js:153-158 | only one string splits that way for a given season and number, so the contract above fixes the code |
| EpisodeCode.FormatThenParse | script.js:153-158 | the code of any non-negative season and number parses back to exactly that season and number, so no digit is truncated |
| EpisodeCode.PaddedWidth | script.js:154-157 | padding a numeral to two digits adds zeros only below 10 |
| EpisodeCode.DigitsUnique | script.js:154 | two digit strings of equal width and value are equal |
| EpisodeCode.FormatExampleS02E07 | script.js:153-158 | (2, 7) gives S02E07 |
| EpisodeCode.FormatExampleS10E00 | script.js:153-158 | (10, 0) gives S10E00 |
| EpisodeCode.FormatExampleS01E100 | script.js:153-158 | (1, 100) gives S01E100, without truncation |
| LiveSearch.NormaliseTerm | script.js:241 | the term is the lower-cased query with only the white space around it removed; it has no upper-case letter and neither starts nor ends with white space |
| LiveSearch.EpisodeMatches | script.js:245-247 | every episode matches the empty term, and an episode without a summary matches exactly when its name does |
| LiveSearch.ShowMatches | script.js:252-255 | every show matches the empty term, and a show matches when any one of its genres contains the term |
| LiveSearch.GenreMatchLifts | script.js:255 | a genre containing the term makes the lower-cased, `", "`-joined genre text contain it |
| LiveSearch.FilterEpisodes | script.js:244-248 | every occurrence of a matching episode is kept and no other, in base order as a subsequence |
| LiveSearch.FilterShows | script.js:251-256 | every occurrence of a show matching on name, present summary or joined genres is kept and no other, in base order as a subsequence |
| LiveSearch.OnSearchInput | script.js:240-258 | the handler renders an episode page exactly when episodes are loaded; the page holds every occurrence of the matching items of that list and no other, in order |
| LiveSearch.BlankInputRestoresPage | script.js:240-258 | a blank query renders the whole loaded list of whichever page is active |
| LiveSearch.BlankQueryNormalisesToEmpty | script.js:241 | a query normalises to the empty term exactly when it is all white space, in both directions |
| LiveSearch.BlankQueryKeepsAllEpisodes | script.js:241-248 | an empty or white-space query leaves the episode list unchanged |
| LiveSearch.BlankQueryKeepsAllShows | script.js:241-256 | an empty or white-space query leaves the show list unchanged |
| LiveSearch.SearchEpisodesIdempotent | script.js:244-248 | searching the episode result again with the same query gives the same result |
| LiveSearch.SearchShowsIdempotent | script.js:251-256 | searching the show result again with the same query gives the same result |
| LiveSearch.SearchIgnoresQueryCase | script.js:241 | a query and its lower-cased form give the same results for episodes and for shows |
| LiveSearch.EpisodeWithoutSummaryMatchesOnName | script.js:245-247 | an episode without a summary is kept exactly when its name contains the term |
| LiveSearch.ShowKeptWhenGenreMatches | script.js:251-256 | a show with a genre that contains the term, case-insensitively, is kept |
| EpisodeSelector.FindCard | script.js:216 | `find` reports a card exactly when one carries the id, and returns the first such card |
| EpisodeSelector.SelectEpisode | script.js:204-226 | an empty id shows every displayed card with their count; a found id shows only the first card with that id; an unknown id leaves the view as it was; any non-empty id reports count 1 |
| EpisodeSelector.SelectEpisodeRepeatable | script.js:204-226 | handling the same selection twice gives the same view and count as handling it once |
| EpisodeSelector.UnknownIdMiscounts | script.js:215-225 | for an unknown id and other than one displayed card, the reported count differs from the number shown; the app never reaches this case, since cards and drop-down come from the same list (script.js:74-76, 193-195), so an id is missing only after a pin, when one card is shown and the count 1 is right |
| EpisodeSelector.PinIsSticky | script.js:208-221 | once one card is pinned, every later selection, of another episode or of "All Episodes", still shows that card alone |
| EpisodeSelector.PinIsStickyExample | script.js:208-221 | with episodes 1 and 2, selecting 1 and then 2 leaves episode 1 displayed with count 1 |
| EpisodeSelector.SelectFromAll | script.js:214-225 | corrected selection: the count always equals the cards shown, an empty id shows all, a found id shows its first card, an unknown id shows nothing |
| EpisodeSelector.SelectionIsIdFilter | script.js:216 | with unique ids, the corrected selection equals filtering the full list by the selected id |
| ShowSort.InsertKeepsSorted | script.js:264 | inserting a show into a name-sorted list keeps it sorted |
| ShowSort.SortShowsAlphabetically | script.js:263-265 | the sorted shows are a permutation of the input, non-decreasing by name under the comparator |
| ShowSort.SortKeepsSorted | script.js:263-265 | a list already in name order comes back exactly as it was |
| ShowSort.SortIdempotent | script.js:263-265 | sorting the sorted list again changes nothing |
| DataStore.FetchEpisodes | script.js:38-48 | a cached id is served without a request; otherwise a request is sent; success stores exactly that entry and returns it; failure passes on the status and leaves the cache unchanged; existing entries never change |
| DataStore.FailedFetchIsRetried | script.js:43-44 | after a failed fetch the next call for the same show sends a new request |
| DataStore.FetchedEpisodesAreReused | script.js:39-47 | after a successful fetch the next call for that show sends no request and returns the same episodes |
| DataStore.CachedShowNeverRequested | script.js:39 | over any run of calls, a cached show is never requested and its entry never changes |
| DataStore.AtMostOneSuccessfulFetch | script.js:38-48 | over any run of calls, each show's episodes are fetched successfully at most once |
| DataStore.FetchShows | script.js:29-35 | a request is sent exactly when no shows are cached; cached shows are returned as they are, and otherwise the response is passed on |
| DataStore.LoadShows | script.js:15-18 | loading succeeds whenever shows are already cached or the response is good; on success the cache holds the fetched shows sorted in place by name, as a permutation of what was fetched; on failure the cache is untouched and the status is passed on |
| DataStore.LoadedShowsAreReused | script.js:17-30 | after the shows are loaded, `fetchShows` sends no request and returns the sorted list |

## Findings

| source | as written | input that shows it | evidently intended | confidence | as-written member | corrected member |
|---|---|---|---|---|---|---|
| script.js:208-225 | the selector rebuilds its card list from the episode container, so after a pin the container holds one card; an id not in it keeps that card with count 1, and "All Episodes" re-renders only that card | episodes with ids "1" and "2": select "1", then select "2" (or "All Episodes") | each selection is made from the show's full episode list, and the count equals the cards shown | high (not executed) | EpisodeSelector.PinIsSticky | EpisodeSelector.SelectFromAll |

## Left out

- DOM construction and updates are left out because they are display side effects: `makePageForShows`, `makePageForEpisodes`, `addBackToShowsButton`, `restoreShowsView`, `populateShowDropdown`, `populateEpisodeDropdown`, `showError`, `updateCount`'s text, and the listener wiring in `setup`, `setupShowSelector` and `liveSearch`.
- `fetch`, `response.json()` and `window.onload` are left out as network and page I/O. Each response is a `Result` parameter, and JSON decoding failures are not modelled.
- `toLowerCase` is modelled as ASCII case folding and `trim` removes ASCII white space only. Unicode case mapping and non-ASCII white space are host-library behaviour.
- `localeCompare` is replaced by an arbitrary total preorder on names. Its collation rules are not part of this model.
- ShowSort.SortShowsAlphabetically: does not state stability. `Array.prototype.sort` keeps shows with equal names in input order, and the contract does not say so.
- Concurrent fetches for the same show are left out. The code has no coalescing and no stale-response guard, and interleaving needs an async model.
- The show's status, rating, runtime and image and the episode's url are left out because they are only displayed.
- Episode cards are modelled by their `data-episode-id` and markup. Re-parsing `outerHTML` through `innerHTML` is assumed to give back the same cards.
- JavaScript object keys are strings, so `cachedEpisodes[5]` and `cachedEpisodes["5"]` are one entry. The model keys the cache by integer show id.
- EpisodeSelector.SelectEpisode: assumes the episode container is on screen. After "Back to Shows" (script.js:136-143) or a search on an episode page (script.js:257) the container is gone, yet the drop-down keeps its listener. The handler then throws at script.js:209 and the view and count stay as they were. The model has no state for an absent container, and in that case it would report a count the page does not show.
- `setupEpisodeSelector` adds a new listener every time a show is opened, so one selection runs the handler several times. These runs are not modelled one by one, and `EpisodeSelector.SelectEpisodeRepeatable` proves that a repeated run changes nothing.
- EpisodeCode.Decimal: models `String(n)` for unbounded integers. A JavaScript number prints in exponent form from 1e21 upwards (as "1e+21"), so for such values the digit-string and round-trip contracts do not describe the source. Season and episode numbers from the API stay far below that.
- EpisodeCode.FormatThenParse: covers non-negative seasons and numbers only. For a negative value the code contains a minus sign and is not parsed.
