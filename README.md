# Real-Debrid library addon: a verified model

The repository is a small Express server that mirrors a user's Real-Debrid
download list. It serves two things:

* a dashboard (`/manager`), where the hoster files are grouped into titles
  by a normalised filename key, and a group can be hidden or given an IMDb
  id;
* a Stremio addon (`/catalog`, `/stream`), which lists the titles that have
  an IMDb id and offers the matching files as streams.

Two snapshots of the server are modelled:

* `index-najlepszy-stabilny.js` (the "stabilny" snapshot), with hidden
  groups and a forced metadata value when the metadata lookup fails;
* `index.js`, without hidden groups, where update-group writes nothing
  when the lookup fails.

Both snapshots share the same helpers, so the helpers are modelled once.

| Dafny file | what it models |
|---|---|
| `strings.dfy` | JavaScript `\s`, `\w`, ASCII `toLowerCase`, `includes`, decimal digits |
| `normalize.dfy` | `deLeet`, `getNormalizedKey`, `getDisplayTitle`, with their regular expressions written out as a lazy search for the first cut |
| `records.dfy` | the download, metadata and stream records; `hostersOnly` |
| `episode.dfy` | `matchesEpisode` as a backtracking matcher, proved equal to the language of its two patterns; `Number()` coercion; `split(":")` and `parseSeasonEpisode` |
| `grouping.dfy` | the `/manager` grouping loop, the sort by file count, the hidden filter, and the whole dashboard |
| `catalog.dfy` | the catalog loop with its `unique` set and `slice(0, 100)` |
| `streams.dfy` | stream selection |
| `manage.dfy` | the update-group write loop and the toggle of the hidden set |
| `sync.dfy` | the paginated `syncAllDownloads` loop |
| `stable_server.dfy`, `server.dfy` | the module-level state of each snapshot as the fields of a class, with one method per handler |

The main modelling choices:

* The network is replaced by parameters:
  * `fetchCinemeta(imdbId)` becomes an `Option<Meta>` argument;
  * the Real-Debrid page responses become a sequence of `PageOutcome`s.
* Each loop that builds a value (groups, catalog, streams, metadata writes,
  pages) is a method with a `while` loop. It is proved equal to a
  reference function defined by recursion, and the properties are proved
  as lemmas about that reference function.
* The grouping, catalog and update-group definitions take the key function
  as a parameter, so their lemmas hold for any key. The handlers pass
  `Grouping.KeyOf`, which is `getNormalizedKey` of the filename.

Where the code and its comment disagree, the model follows the code. The
comment at `index-najlepszy-stabilny.js:245` says groups with an assigned
id come first. The comparator on line 246 sorts by file count alone, so
`Grouping.SortByCount` sorts by count alone.

The episode matcher is modelled as written, including two behaviours a
reader may not expect:

* The season/episode pattern has no boundary after the episode digits, so
  episode 1 also matches `S01E11`. This is proved in
  `Episode.EpisodeOneMatchesE11`.
* The `<s>x<e>` form allows no zero padding, so `1x05` does not match
  episode 5. This is proved in `Episode.PaddedCrossFormMissed`.

## Model

| member | source | states |
|---|---|---|
| Normalize.Clean | index-najlepszy-stabilny.js:43 | every `.` and `_` becomes a space, every other character is kept, and the length is unchanged |
| Normalize.DeLeet | index-najlepszy-stabilny.js:37-40 | the length is kept; 0→o, 1→i, 3→e, 4→a, 5→s, 7→t, @→a; every other character is unchanged; the output contains none of `0 1 3 4 5 7 @` |
| Normalize.FirstCut | index-najlepszy-stabilny.js:44 | the lazy `^(.+?)(?=\s+(marker))` match: the result is a cut point and no earlier index is one, or no index is a cut point |
| Normalize.LookaheadIsRegex | index-najlepszy-stabilny.js:44 | testing the marker after the maximal whitespace run gives the same answer as the backtracking `\s+` lookahead |
| Normalize.RawTitle | index-najlepszy-stabilny.js:45 | the raw title is the cleaned filename up to its first cut point when one exists, and the whole cleaned filename otherwise |
| Normalize.KeepKeyChars | index-najlepszy-stabilny.js:46 | the output is no longer than the input, has only `[a-z0-9]`, and is the input itself when the input has nothing else |
| Normalize.KeepKeyCharsAppend | index-najlepszy-stabilny.js:46 | the filter distributes over concatenation, so the kept characters stay in their input order |
| Normalize.KeepKeyCharsCounts | index-najlepszy-stabilny.js:46 | every `[a-z0-9]` character is kept as often as it occurs, and every other character is dropped |
| Normalize.NormalizedKey | index-najlepszy-stabilny.js:42-47 | the key has only `a-z` and the digits `2 6 8 9`; an empty filename gives the empty key |
| Normalize.NormalizedKeyIdempotent | index-najlepszy-stabilny.js:42-47 | normalising a key again returns the same key |
| Normalize.KeyIsFixed | index-najlepszy-stabilny.js:42-47 | any string made only of key characters is its own key, because without whitespace there is no cut |
| Normalize.NoSpaceNoCut | index-najlepszy-stabilny.js:44 | a string without whitespace has no cut point |
| Normalize.TitleKey | index-najlepszy-stabilny.js:43-46 | a one-word title followed by `.`, `_` or a space and a marker is keyed by the de-leeted, lowercased title alone |
| Normalize.LeetSpellingsShareKey | index-najlepszy-stabilny.js:43-46 | two spellings of a one-word title that de-leet to the same lowercase text get the same key |
| Normalize.KeyIgnoresTags | index-najlepszy-stabilny.js:44-46 | for a one-word title, whatever follows the first marker does not change the key |
| Normalize.MultiWordLeetSpellingsDiffer | index-najlepszy-stabilny.js:43-46 | for titles of several words the spellings can differ in key: "Show.1980s.Kids" and "Show.I98Os.Kids" de-leet to the same text, yet the year marker cuts the first to "show" while the second is keyed "showi98oskids" |
| Normalize.ThreeWordsFilter | index-najlepszy-stabilny.js:46 | the filter drops the spaces between words and keeps what it keeps of each word, in order |
| Normalize.DarEDevilExample | index-najlepszy-stabilny.js:42-47 | "Dar3devil.S01E01.mkv" and "Daredevil.S01E01.mkv" both have the key "daredevil" |
| Normalize.Trim | index-najlepszy-stabilny.js:52 | the result is the input without its leading and trailing whitespace |
| Normalize.DisplayTitle | index.js:50-54 | the title has no `.` or `_`; without a season marker it is the cleaned filename, untrimmed and of the same length; otherwise it is the trimmed text before the first season marker |
| Normalize.DisplayCutNotBeforeKeyCut | index-najlepszy-stabilny.js:44-51 | when the display title is cut at a season marker, the key is cut too, at the same point or earlier |
| Normalize.MarkerStartsWord | index-najlepszy-stabilny.js:44 | no marker begins with whitespace |
| Strings.ContainsFrom | index-najlepszy-stabilny.js:56 | `includes` holds exactly when the pattern occurs at some position from the start index on |
| Strings.Contains | index-najlepszy-stabilny.js:56 | `includes` holds exactly when the pattern occurs somewhere |
| Strings.Lower | index-najlepszy-stabilny.js:46 | `toLowerCase` on ASCII keeps the length and lowercases each character |
| Strings.Decimal | index-najlepszy-stabilny.js:61-63 | the decimal text of a number has digits only, and a leading zero only for 0 |
| Strings.DecimalRoundTrip | index-najlepszy-stabilny.js:61-63 | reading back the printed number gives the number |
| Strings.LeadingZeroValue | index.js:62-63 | a leading zero does not change the value of a digit string |
| Records.HostersOnly | index-najlepszy-stabilny.js:55-57 | the result is no longer than the input and every record in it is a hoster (`streamable === 1`, link without "/d/") |
| Records.HostersOnlyMembers | index.js:56-58 | a record is kept exactly when it is in the input and is a hoster |
| Records.HostersOnlyCounts | index.js:56-58 | each hoster record is kept as often as it occurs, and every other record is dropped |
| Records.HostersOnlyAppend | index.js:56-58 | the filter distributes over concatenation, so order is preserved |
| Records.HostersOnlyIdempotent | index.js:56-58 | filtering twice is filtering once |
| Episode.ZerosThenSpec | index-najlepszy-stabilny.js:63 | the matcher for `0*<e>` accepts exactly the strings of that form |
| Episode.NonDigitsThenESpec | index-najlepszy-stabilny.js:63 | the matcher for `[^0-9]*E0*<e>` accepts exactly the strings of that form |
| Episode.SeasonThenSpec | index-najlepszy-stabilny.js:63 | the matcher for `0*<s>[^0-9]*E0*<e>` accepts exactly the strings of that form |
| Episode.SEMatchFromSpec | index-najlepszy-stabilny.js:63-65 | `re.test` holds exactly when `S0*<s>[^0-9]*E0*<e>` occurs, case-insensitively, at some position |
| Episode.XMatchFromSpec | index-najlepszy-stabilny.js:64-65 | `re2.test` holds exactly when `<s>x<e>` occurs as a whole word |
| Episode.Coerced | index-najlepszy-stabilny.js:61-62 | a digit string is printed as its numeric value, with no leading zero unless the value is 0 ("05" prints as "5"); any other string becomes "NaN" |
| Episode.MatchesEpisode | index-najlepszy-stabilny.js:59-66 | false when the season or the episode is absent or empty; otherwise true exactly when the filename contains the S/E pattern or the `<s>x<e>` word |
| Episode.LeadingZeroCoercion | index.js:60-67 | "01" and "1" give the same answer, as season and as episode |
| Episode.PaddedSeasonEpisodeMatches | index.js:60-67 | any case of S and E, any zero padding and any non-digit run in between match |
| Episode.CrossFormMatches | index.js:60-67 | an unpadded `<s>x<e>` (any case of x) between non-word characters matches |
| Episode.EpisodeOneMatchesE11 | index-najlepszy-stabilny.js:63 | season 1 episode 1 matches "Show.S01E11.mkv" |
| Episode.EpisodeOneMatchesE01 | index-najlepszy-stabilny.js:63 | season 1 episode 1 matches "Show.S01E01.mkv" |
| Episode.PaddedCrossFormMissed | index-najlepszy-stabilny.js:64 | season 1 episode 5 does not match "Show.1x05.mkv" |
| Episode.AbsentCoordinatesNeverMatch | index-najlepszy-stabilny.js:60 | a missing or empty season or episode never matches |
| Episode.Split | index-najlepszy-stabilny.js:398 | `split` gives one piece more than there are separators, and no piece holds a separator |
| Episode.JoinSplit | index-najlepszy-stabilny.js:398 | joining the pieces gives back the string |
| Episode.SplitJoin | index-najlepszy-stabilny.js:398 | splitting the join of separator-free pieces gives back the pieces |
| Episode.ParseSeasonEpisode | index-najlepszy-stabilny.js:397-400 | the base is the text before the first ':', the season the text between the first and second ':', and the episode the text after the second ':' up to the next one or the end; the season is absent exactly when there is no ':', and the episode exactly when there are fewer than two |
| Episode.ParseRoundTrip | index.js:270-273 | `base:season:episode` parses back into its three parts |
| Episode.ParseMovieId | index.js:270-273 | an id without ':' parses to itself with no season and no episode |
| Grouping.KeysAreMemberKeys | index-najlepszy-stabilny.js:101-114 | a key has a group exactly when some hoster file has that key |
| Grouping.KeysDistinct | index-najlepszy-stabilny.js:99-114 | no key is grouped twice |
| Grouping.MembersExactly | index-najlepszy-stabilny.js:101-115 | a file is in a group exactly when its key is the group's key |
| Grouping.TotalMembership | index-najlepszy-stabilny.js:101-115 | the group sizes add up to the number of hoster files |
| Grouping.GroupsSpec | index-najlepszy-stabilny.js:99-122 | every file lands in the group of its own key; a group holds only files of its key; the group keys are distinct |
| Grouping.DisplayNameFromFirst | index-najlepszy-stabilny.js:103-108 | a group's display name is the display title of its first member |
| Grouping.MembersFirst | index-najlepszy-stabilny.js:105-115 | the first member of a group is the first file with that key |
| Grouping.LastMetaNone | index-najlepszy-stabilny.js:117-121 | a group's metadata fields are null exactly when none of its files has a metadata entry |
| Grouping.LastMetaIsLast | index-najlepszy-stabilny.js:117-121 | otherwise they come from the last member that has an entry |
| Grouping.GroupOfStep | index-najlepszy-stabilny.js:105-121 | one loop iteration: the group of the file's key is created if needed, then receives the file and its metadata |
| Grouping.OtherGroupUnchanged | index-najlepszy-stabilny.js:101-122 | an iteration leaves the groups of the other keys as they were |
| Grouping.GroupsSoFarStep | index-najlepszy-stabilny.js:101-122 | the loop invariant, that the dictionary and its key order are the groups of the files seen so far, is kept by one iteration |
| Grouping.BuildGroups | index-najlepszy-stabilny.js:99-122 | the loop produces exactly the reference groups, in first-seen key order |
| Grouping.Values | index-najlepszy-stabilny.js:246 | `Object.values` lists the groups in key order |
| Grouping.BuildGroupsAsWritten | index-najlepszy-stabilny.js:99-115 | the loop as written throws exactly when some file's key is "constructor", and otherwise agrees with `BuildGroups` |
| Grouping.ConstructorTitleKey | index-najlepszy-stabilny.js:42-47 | "Constructor.S01E01.mkv" has the key "constructor" |
| Grouping.InsertKeepsSorted | index-najlepszy-stabilny.js:246 | inserting a group keeps the list in descending order of file count |
| Grouping.SortByCountSpec | index-najlepszy-stabilny.js:246 | the sort gives non-increasing file counts and a permutation of the groups, and groups with equal counts keep their order |
| Grouping.VisibleGroups | index-najlepszy-stabilny.js:248-251 | the render loop keeps exactly the groups the filter keeps, in order |
| Grouping.VisibleMembers | index-najlepszy-stabilny.js:248-251 | a group is skipped exactly when its key is hidden and `showHidden` is false |
| Grouping.VisibleAll | index-najlepszy-stabilny.js:248-251 | with `showHidden`, or with no hidden keys, nothing is skipped |
| Grouping.VisibleSorted | index-najlepszy-stabilny.js:246-251 | skipping groups keeps the order by count |
| Grouping.DashboardSpec | index-najlepszy-stabilny.js:98-251 | the dashboard has non-increasing counts and lists exactly the shown groups of the hoster files; with no hidden keys it is the whole sorted list |
| Catalog.CollectCatalog | index-najlepszy-stabilny.js:377-395 | the loop with its `unique` set and the slice gives the reference catalog |
| Catalog.FirstOfEachIdSpec | index-najlepszy-stabilny.js:389-392 | the deduplicated list has distinct ids, holds only candidates, and covers every candidate's id |
| Catalog.FirstOfEachIdIsFirst | index-najlepszy-stabilny.js:389-392 | the entry kept for an id is the first candidate with that id |
| Catalog.CandidatesAdmitted | index-najlepszy-stabilny.js:381-388 | every candidate is the metadata of a hoster file that passes the hidden, `tt` and type tests |
| Catalog.AdmittedCandidates | index-najlepszy-stabilny.js:381-388 | every file that passes the tests contributes its metadata as a candidate |
| Catalog.CatalogSpec | index-najlepszy-stabilny.js:377-395 | at most 100 entries with distinct ids, each starting with "tt", of the requested type, and each the metadata of a file outside the hidden groups; they are the first 100 (or all) entries of the first-of-each-id list |
| Catalog.CandidatesAppend | index-najlepszy-stabilny.js:381-388 | the candidates of a list of files are those of its parts, in file order |
| Catalog.FirstOfEachIdPrefix | index-najlepszy-stabilny.js:389-392 | later values never displace or reorder the entries already kept |
| Catalog.CatalogPrefix | index-najlepszy-stabilny.js:381-394 | first-occurrence order: the catalog of the first files is a prefix of the catalog of all the files |
| Catalog.CatalogComplete | index.js:254-268 | every admitted file's id is in the deduplicated list, and in the response when there are at most 100 ids |
| Streams.CollectStreams | index-najlepszy-stabilny.js:402-417 | the loop gives the streams of the selected downloads in cache order |
| Streams.StreamsForSpec | index.js:275-293 | a stream is offered exactly for a download whose metadata id is the base and, for a series, whose filename matches the episode; there are never more streams than downloads |
| Streams.StreamsForAppend | index.js:280-290 | the streams of a cache are those of its parts, in order |
| Streams.StreamsForOne | index.js:282-289 | one download gives its stream exactly when it is selected, so each selected download gives one stream, in cache order |
| Streams.MovieStreams | index.js:287-289 | for a non-series request every download with the requested metadata id is offered, whatever its filename |
| Streams.SeriesWithoutEpisode | index.js:277-285 | a series request without `:season:episode` finds no stream |
| Streams.EpisodeStreams | index.js:277-285 | a series request offers each download of the title whose filename matches the episode |
| Manage.ForcedMeta | index-najlepszy-stabilny.js:321-323 | the forced value has the given id, the name "Wymuszono: " followed by the group key, no poster, and type "series" |
| Manage.AssignGroup | index-najlepszy-stabilny.js:324-327 | the write loop gives the reference metadata map |
| Manage.AssignedSpec | index-najlepszy-stabilny.js:324-327 | exactly the hoster files of the group get the value; every other entry is kept; no entry is removed |
| Manage.ToggledSpec | index-najlepszy-stabilny.js:306-315 | toggling flips membership of the given key alone, so toggling twice restores the set |
| Sync.LastPage | index-najlepszy-stabilny.js:342-355 | the loop ends at the first page that is not a full array |
| Sync.FetchAllPages | index-najlepszy-stabilny.js:338-355 | the loop throws exactly when the last page requested throws; otherwise it returns the concatenation of the pages fetched |
| Sync.LastPageAt | index-najlepszy-stabilny.js:342-355 | after full pages only, the first page that is not full is the last one requested |
| Sync.FullPagesCount | index-najlepszy-stabilny.js:351-352 | the pages before the last hold at least 100 records each |
| Sync.FetchedSpec | index.js:217-230 | the accumulated list is the full pages in order, then the records of the last page; a non-ok response or a non-array body after full pages keeps what they brought |
| Sync.SyncedCacheSpec | index.js:216-234 | after `n` full pages and an ending page `n`: a throw keeps the cache; a non-ok or non-array response installs the full pages, or keeps the cache when there were none; a short array installs the full pages followed by its records, unless it is the first page and empty; anything installed after full pages holds at least 100 records per page |
| StableServer.Addon.constructor | index-najlepszy-stabilny.js:29-32 | the caches and the hidden set start empty and no sync is running |
| StableServer.Addon.Manager | index-najlepszy-stabilny.js:96-251 | the cards are the dashboard of the current caches and hidden set |
| StableServer.Addon.ToggleHide | index-najlepszy-stabilny.js:306-315 | the hidden set is toggled at the key and nothing else changes |
| StableServer.Addon.UpdateGroup | index-najlepszy-stabilny.js:317-330 | with a `tt` id the group's files get the looked-up value, or the forced one when the lookup fails; otherwise nothing changes |
| StableServer.Addon.CatalogRequest | index-najlepszy-stabilny.js:377-395 | the response is the catalog of the hoster files, skipping hidden groups |
| StableServer.Addon.StreamRequest | index-najlepszy-stabilny.js:402-417 | the response is the streams selected from the whole download cache |
| StableServer.Addon.SyncAllDownloads | index-najlepszy-stabilny.js:335-359 | a call while busy changes nothing; otherwise the cache becomes the synced cache and the busy flag ends cleared |
| Server.Addon.constructor | index.js:29-31 | the caches start empty and no sync is running |
| Server.Addon.Manager | index.js:100-151 | the cards are the groups of the hoster files sorted by count |
| Server.Addon.UpdateGroup | index.js:182-203 | with a `tt` id and a found value the group's files get it; a failed lookup or another id changes nothing |
| Server.Addon.CatalogRequest | index.js:254-268 | the response is the catalog of the hoster files with no hidden filter |
| Server.Addon.StreamRequest | index.js:275-293 | the response is the streams selected from the whole download cache |
| Server.Addon.SyncAllDownloads | index.js:208-236 | a call while busy changes nothing; otherwise the cache becomes the synced cache and the busy flag ends cleared |

## Left out

- HTTP and HTML. The Express app, CORS, routing, `res.json`, `res.send`, `res.redirect`, the manifest object and the HTML template of `/manager` are framework glue. Only the values they are built from are modelled.
- `fetchCinemeta` and the Real-Debrid `fetch`, because they are network calls. Their results are parameters: an `Option<Meta>`, and one `PageOutcome` per page. A body that fails to parse is read as `[]` by the source, which the model expresses as `Page([])`.
- `/manager/refresh` (index-najlepszy-stabilny.js:300-303) only calls `syncAllDownloads` and redirects, so the sync method stands for it.
- The 200 ms pacing between pages, the 15-minute timer, `app.listen`, dotenv and logging, because they have no effect on state.
- Concurrency, because real async interleaving is not modelled. The busy flag is modelled sequentially: a call made while it is set does nothing.
- Normalize.NormalizedKey: `toLowerCase` is modelled for ASCII letters only. Non-ASCII capitals such as U+0130 and U+212A, which JavaScript lowers to ASCII letters or letter sequences, are kept unchanged.
- Episode.Coerced: only digit strings are read as numbers. Every other string gives "NaN", although `Number()` also parses whitespace, signs, decimals, hexadecimal, exponents and "Infinity". A digit string is printed as its exact value, whereas `Number()` rounds values above 2^53 to a double ("9007199254740993" prints as "9007199254740992") and prints values from 1e21 on in exponent form ("1000000000000000000000" prints as "1e+21").
- Episode.MatchesEpisode: the coerced text is spliced into the pattern as literal text. A regular-expression metacharacter inside it is not interpreted.
- Grouping.Values: `Object.values` is modelled as listing the keys in first-seen order. JavaScript lists integer-like keys first, in numeric order, as the next line says.
- Grouping.BuildGroups: the groups are listed in first-seen key order. `Object.values` lists integer-like keys such as "2" or "69" first, in numeric order, before the others; the model does not reproduce that.
- StableServer.Addon.Manager: uses the corrected grouping `Grouping.BuildGroups` (see Findings). The `TypeError` that a "constructor" key raises in the source is modelled only by `Grouping.BuildGroupsAsWritten`.
- Server.Addon.Manager: the same; index.js:102-118 has the same plain-object dictionary.
- Inherited members of `METADATA_CACHE`, because the metadata cache is modelled as a map holding only the entries written to it. In the source it is a plain object. For a download id such as "constructor" or "toString", `METADATA_CACHE[f.id]` returns an inherited, truthy function. `/manager` would then show its `name` ("Object" or "toString") as the detected name (index-najlepszy-stabilny.js:117-120). `/catalog` would throw on `meta.id.startsWith` (index-najlepszy-stabilny.js:387-388), and `/stream` would skip the file. Writing to the id "__proto__" in update-group would replace the prototype instead of adding an entry.
- Missing or `undefined` fields in request bodies and records (`groupKey`, `imdbId`, `meta.id`, `link`), because every field is modelled as present.
- Sync.FetchAllPages: requires that some page ends the loop. An account that returns full pages forever makes the source loop forever.
- StableServer.Addon.SyncAllDownloads and Server.Addon.SyncAllDownloads: the same requirement applies.
- Line terminators in filenames are handled in the cut search (`.` does not cross them), but no property about them is proved.

## Findings

| source | as written | input that shows it | evidently intended | confidence | as-written member | corrected member |
|---|---|---|---|---|---|---|
| index-najlepszy-stabilny.js:99-115 | `groups` is a plain object `{}`, so `groups[key]` for the key "constructor" finds the inherited `Object.prototype.constructor`. No group is created, and `groups[key].files.push(f)` throws a `TypeError`, so `/manager` fails. index.js:102-118 is the same. | a hoster file named "Constructor.S01E01.mkv" (key "constructor", by `Grouping.ConstructorTitleKey`) | every key gets its own group (a `Map` or `Object.create(null)`) | not executed | Grouping.BuildGroupsAsWritten | Grouping.BuildGroups |
