# Emote archiver: a Dafny model of the sync passes and the gallery

This project models the core of a small emote archiver. The archiver mirrors one streamer's emotes from two providers into a local cache:

- **7TV**: the emote set of the streamer's first Twitch connection.
- **Twitch**: the global emotes followed by the channel emotes, fetched through the Helix API.

Each emote is cached as `<dir>\<id>_<norm(name)>.webp`. Each provider's directory also holds a `metadata.json` sidecar listing the records of the last pass. A desktop console reads both sidecars and shows a filterable, sorted grid of thumbnails, plus a details panel.

Modules, in dependency order:

- `Results`: `Option` and `Result`.
- `EmoteNames`: the identifier normaliser `norm`.
- `EmoteStore`: the fixed directory layout, the asset naming rule, metadata records and the sidecar.
  - The file system is the value `FsState`, a map from path to content plus a set of directories.
  - `Disk` is the mutable file system that the sync methods update in place.
- `SyncWalk`: the per-item loop the two passes share, as a function over the planned items, with its counters, the records it collects, the URLs it requests and each item's fate (`Unchanged`, `Added`, `Failed`). It also holds the final `_save_meta`.
- `SevenTvSync` and `TwitchSync`:
  - each pass as a specification function (`SevenTvPass`, `TwitchPass`);
  - the part after the listing as a second specification function (`EmotesPass`, `ItemsPass`);
  - imperative methods with the source's loop (`FetchSevenTvEmotes` calling `SyncEmotes`, `FetchTwitchEmotes` calling `SyncItems`), each proved equal to its specification function;
  - lemmas on the pass's counters, records, requests and files, and on running a pass a second time.
- `ConsoleText`: `lower`, `strip`, the `in` substring test and Python's string order.
- `ConsoleListing`: source selection, the filter, the stable sort by lower-cased name, and `Shown`, which is the listing a gallery build produces.
- `Console`: `_meta_path`, thumbnail placement, the details panel, and the window as the class `Gallery`. Its methods rebuild the grid when the source, the filter or the cached lists change.

Everything outside the program is a parameter:

- the user lookup and asset downloads of 7TV;
- the Helix answers, the PNG downloads and the WebP transcoder of Twitch;
- the clock, as `clock(k)`, which is the k-th `_utc()` reading of a pass;
- the image decoder of the console.

Each pass returns two things:

- what the Python function returns, or the error it raises;
- the URLs it requested, in order.

Returning the requests lets the contracts say "never fetched" and "fails before any request".

Where descriptions of this program and its code differ, the model follows the code:

- `_save_meta` overwrites `metadata.json` in place. It does not write a temporary file and rename it.
- A 7TV asset fetch does not check the HTTP status. Whatever body comes back is written and counted as added.
- A key missing outside the per-item `try` raises out of the whole pass. This covers `name`, `id`, and the 7TV `data`/`host`/`url` keys. Assets written before the missing key stay on disk and no sidecar is written. The model's error for this is `MissingKey`.
- Twitch assets are saved with the `.webp` extension, as transcoded WebP.
- `_meta_path` has a fallback for records without a `path`. That fallback uses `<name>.webp` or `<name>.png`, which is not the naming the sync passes use.
- Grid positions come from `divmod(idx, 8)`, where `idx` counts records that were skipped. A record whose image is missing or does not decode therefore leaves an empty cell.
- `thumb_refs` is keyed by emote name. When two listed records share a name, only the later thumbnail stays in it, but both buttons are placed.
- With an empty filter and a single source, `metas` is the window's own list, so `metas.sort()` reorders `metas7` or `metatw` in place. `Kept7` and `KeptTw` model this aliasing.

## Model

| member | source | states |
|---|---|---|
| EmoteNames.Norm | emote_common.py:47-52 | the result is never empty, holds only characters of `[A-Za-z0-9._-]`, and neither starts nor ends with `_` |
| EmoteNames.NormIdempotent | emote_common.py:50-52 | `norm(norm(s)) == norm(s)` |
| EmoteNames.NormPlaceholder | emote_common.py:51-52 | `norm(s)` is `"emote"` exactly when nothing survives the replace-and-trim (or what survives is itself `emote`); otherwise it is what survives, a contiguous part of the substituted name with only underscores around it |
| EmoteNames.SubstituteIsSafe | emote_common.py:47-51 | replacing unsafe runs leaves only safe characters and never lengthens the name |
| EmoteNames.SubstituteKeepsSafe | emote_common.py:47-51 | a name made only of safe characters is left as it is by the substitution |
| EmoteNames.RunCollapses | emote_common.py:47-51 | a maximal run of unsafe characters becomes exactly one `_` |
| EmoteNames.SafeCharsPassThrough | emote_common.py:47-51 | safe characters before the next unsafe run are copied unchanged |
| EmoteNames.TrimEnds | emote_common.py:51 | `strip("_")` keeps a contiguous part of its input and removes only underscores before and after it; what is left has no `_` at either end, and a safe string stays safe |
| EmoteNames.NormDropsTrailingRun | emote_common.py:50-52 | a safe name that neither starts nor ends with `_`, followed by a run of unsafe characters, normalises to that name: trailing punctuation is dropped |
| EmoteNames.NormDropsTrailingPunctuation | emote_common.py:50-52 | `norm("Poggers!!") == "Poggers"` |
| EmoteNames.NormFallsBackToPlaceholder | emote_common.py:50-52 | `norm("***") == "emote"` |
| EmoteNames.NormReplacesSeparators | emote_common.py:50-52 | `norm("a/b\\c") == "a_b_c"` |
| EmoteNames.NormKeepsExistingUnderscores | emote_common.py:50-52 | `norm("a_!b") == "a__b"`: existing underscores are kept, so doubled ones can occur |
| EmoteStore.FsState.SaveMeta | emote_common.py:59-61 | `_save_meta` succeeds exactly when no file blocks the folder and no directory blocks the sidecar; afterwards the folder exists; a failure changes no file |
| EmoteStore.FsState.MakeDir | emote_common.py:67 | the definition of `mkdir(parents=True, exist_ok=True)` on the file system; stated by `MakeDirSpec` |
| EmoteStore.MakeDirSpec | emote_common.py:60 | `mkdir(exist_ok=True)` succeeds exactly when no file is in the way; it then keeps every file and everything that existed, makes the directory exist, and repeating it changes nothing |
| EmoteStore.FsState.Write | emote_common.py:94 | the definition of `write_bytes` / `Image.save` on the file system; stated by `WriteSpec` |
| EmoteStore.WriteSpec | emote_common.py:94 | after a write the path exists and holds exactly the bytes written; no other path and no directory changes; writing the same bytes again changes nothing |
| EmoteStore.AssetPath | emote_common.py:88 | the definition `dir\<id>_<norm(name)>.webp` that both passes use; its distinctness and its difference from the sidecar path are stated by `AssetPathDistinguishesNames` and `AssetIsNotSidecar` |
| EmoteStore.FsState.LoadMeta | emote_console.py:83-88 | a missing sidecar reads as no records; an error needs something to exist at the path |
| EmoteStore.SaveThenLoad | emote_common.py:59-61 | after a successful save the sidecar reads back as exactly the saved records, with no merge, and every other file is unchanged |
| EmoteStore.AssetPathDistinguishesNames | emote_common.py:88 | for one directory and id, two names give the same asset path exactly when they normalise alike |
| EmoteStore.AssetIsNotSidecar | emote_common.py:145 | no asset path is a sidecar path, so an asset write never touches `metadata.json` |
| EmoteStore.Disk.MakeDirs | emote_common.py:67 | `mkdir(parents=True, exist_ok=True)` succeeds unless a file is in the way, and adds the directory |
| EmoteStore.Disk.Exists | emote_common.py:90 | `fp.exists()` is true for files and directories, with paths compared as exact strings |
| EmoteStore.Disk.WriteBytes | emote_common.py:94 | the file at the path now holds the bytes; nothing else changes |
| EmoteStore.Disk.SaveMeta | emote_common.py:59-61 | the disk becomes what `FsState.SaveMeta` describes, and the method reports whether writing succeeded |
| SyncWalk.WalkCounts | emote_common.py:84-113 | each item gets exactly one fate; the counters count the fates, so `added + same + failed` is the number of items; `len(meta) == added + same`; one request per item that was not already present |
| SyncWalk.FateAt | emote_common.py:90-99 | the definition of one item's outcome: unchanged when its path exists, failed when the download yields nothing, added otherwise; `WalkFates` states that it decides each item |
| SyncWalk.Step | emote_common.py:90-113 | the definition of one loop iteration: the counter, the write, the request and the stamped record of the item's outcome; `StepFacts` states what a step keeps |
| SyncWalk.Walk | emote_common.py:84-113 | the definition of the whole loop as steps in listing order; its counters, records, requests and files are stated by `WalkCounts`, `WalkMeta`, `WalkRequests`, `WalkKeepsExisting` and `WalkNewFiles` |
| SyncWalk.Finish | emote_common.py:115-116 | the definition of the save and return after the loop; stated by `FinishWritesSidecar`, `FinishOnlyTouchesSidecar` and `FinishSucceeded` |
| SyncWalk.CountsPartition | emote_common.py:90-99 | the three counters partition the items |
| SyncWalk.WalkFates | emote_common.py:90-99 | an item's fate depends on the disk as the items before it left it: present means unchanged, a successful download means added, otherwise failed |
| SyncWalk.WalkKeepsExisting | emote_common.py:90-92 | files already present keep their content, everything that existed still exists, and directories are untouched |
| SyncWalk.WalkNewFiles | emote_common.py:93-95 | every file the loop creates is the download of an added item, at that item's path |
| SyncWalk.WalkSparesSidecar | emote_common.py:84-113 | a loop whose items all have paths other than the sidecar leaves the sidecar as it was: present exactly when it was before, with the same content |
| SyncWalk.WalkKeptPresent | emote_common.py:90-99 | an item fails only when its download fails, and the path of every item that did not fail exists after the loop |
| SyncWalk.ExistingNeverFetched | emote_common.py:90-91 | an item whose path exists when the pass starts is unchanged and never requested |
| SyncWalk.WalkMeta | emote_common.py:101-113 | `meta` is the in-order subsequence of non-failed items' records, the j-th stamped with the j-th clock reading |
| SyncWalk.WalkRequests | emote_common.py:93-94 | the requests are the URLs of the items that were not present, in listing order |
| SyncWalk.FailedNotKept | emote_common.py:96-99 | a failed item has no record |
| SyncWalk.FailedWasMissing | emote_common.py:96-99 | a failed item's path was missing when the pass started |
| SyncWalk.FailedStaysMissing | emote_common.py:96-99 | when no two items share a path, a failed item's file is still missing and unrecorded after the pass, so the next pass retries it |
| SyncWalk.NotAddedStaysMissing | emote_common.py:90-99 | a path missing at the start that no added item has is still missing at the end |
| SyncWalk.WalkOverFullDisk | emote_common.py:90-99 | when every downloadable item is already present, the loop writes nothing and adds nothing |
| SyncWalk.SecondWalkWritesNothing | emote_common.py:84-113 | running the loop again with the same downloads adds nothing and leaves the disk as it was |
| SyncWalk.SecondWalkSameRecords | emote_common.py:84-113 | with distinct paths, a second run fails the same items, counts every earlier addition as unchanged, and records the same items, differing only in `downloaded_at` |
| SyncWalk.WalkAgainOn | emote_common.py:84-113 | a second run on any disk where the same item paths exist as after the first run writes nothing, fails the same items, counts every earlier addition as unchanged, and records the same items, differing only in `downloaded_at` |
| SyncWalk.WalkAgainFates | emote_common.py:90-99 | in such a second run an item fails exactly when it failed the first time and is otherwise found present |
| SyncWalk.FinishAgain | emote_common.py:84-116 | after a successful loop and save, the same loop and save again succeed, write no asset, change no directory, and leave a sidecar with the same items restamped |
| SyncWalk.FatesCount | emote_common.py:90-99 | the counting step of the second-run lemma: added items become unchanged and failures remain |
| SyncWalk.FinishWritesSidecar | emote_common.py:115-116 | a successful finish returns the loop's counters and records, and the sidecar holds exactly those records |
| SyncWalk.FinishSucceeded | emote_common.py:84-116 | after a successful final save every item is counted once, the loop's requests (one per fetched item) follow the earlier ones, and the sidecar reads back as `meta`: the kept items' records in listing order, the j-th stamped with the j-th clock reading |
| SyncWalk.FinishOnlyTouchesSidecar | emote_common.py:115 | however the final save goes, no file other than the sidecar is added or changed |
| SevenTvSync.FirstTwitchSetSpec | emote_common.py:70-77 | `next(...)` is `None` exactly when no connection is a `TWITCH` one carrying an `emote_set`; otherwise it is the set of the first such connection |
| SevenTvSync.FirstTwitchSet | emote_common.py:70-77 | the definition of the `next(...)` over the connections; stated by `FirstTwitchSetSpec` |
| SevenTvSync.ListEmotes | emote_common.py:70-84 | listing fails with "No 7TV Twitch set" exactly when there is no such set or the set is `null` or an empty object; otherwise it gives the set's emotes, or none when the set has no `emotes` key |
| SevenTvSync.SevenTvPass | emote_common.py:64-116 | the definition of the whole pass: directory, user lookup, listing, then `EmotesPass`; its outcomes are stated by the `SevenTvPass...` and `SevenTv...` lemmas below |
| SevenTvSync.EmotesPass | emote_common.py:84-116 | the definition of the loop over the well-formed prefix of the listing, then a `KeyError` or the save; stated by `EmotesKeyError`, `EmotesStopAtMalformed`, `EmotesKeepCachedFiles`, `EmotesNewFiles` and `EmotesSucceeded` |
| SevenTvSync.WellFormedPrefix | emote_common.py:85-87 | the loop gets through exactly the leading items that have the keys it reads outside the `try` |
| SevenTvSync.MissingKeyOf | emote_common.py:85-87 | the definition of the first key the loop body reads that is missing, in the order `name`, `id`, `data`, `host`, `url`; stated by `EmotesKeyError` |
| SevenTvSync.EmotesKeyError | emote_common.py:84-87 | the loop raises `KeyError` exactly when some listed emote lacks one of those keys; the error names the first key of `name`, `id`, `data`, `host`, `url` that the first such emote lacks, and the sidecar is left as it was |
| SevenTvSync.EmotesStopAtMalformed | emote_common.py:84-99 | the loop stops at the first malformed emote, however the pass ends: the URLs already sent stay first, every later request is the asset URL of an emote before it, and every new asset file is the download of such an emote |
| SevenTvSync.AssetUrl | emote_common.py:87 | the definition `https:` + `data.host.url` + `/4x.webp`; `EmotesNewFiles` states that each new file is the answer to this URL |
| SevenTvSync.ToRecord | emote_common.py:101-112 | name, id, `source == "7tv"` and the asset path; owner, animated, created_at and tags are copied from `data` when present, and are otherwise `"unknown"`, false, null and no tags; `downloaded_at` is still to be set |
| SevenTvSync.SevenTvListingFailure | emote_common.py:67-79 | a failed lookup or listing raises before any per-item work: no file changes; the requests are exactly the user lookup, or none when a file blocks the directory; the error is the blocked directory, else the failed lookup, else `No 7TV Twitch set`; and the directory exists unless a file blocked it |
| SevenTvSync.EmotesKeepCachedFiles | emote_common.py:84-116 | the item loop and the final save change no file except the sidecar |
| SevenTvSync.SevenTvKeepsCachedFiles | emote_common.py:64-116 | however the pass ends, every file except the sidecar keeps its content |
| SevenTvSync.EmotesNewFiles | emote_common.py:87-95 | every file the item loop creates holds the download of a listed emote's `4x.webp` URL, at that emote's path |
| SevenTvSync.SevenTvNewFilesAreDownloads | emote_common.py:87-95 | every asset file the pass creates holds the download of a listed emote's `4x.webp` URL, at that emote's path |
| SevenTvSync.SevenTvPassFinishes | emote_common.py:64-116 | a pass that returns found a Twitch emote set, every listed emote had the keys read outside the `try`, and the pass is the loop over all of them followed by the save |
| SevenTvSync.EmotesSucceeded | emote_common.py:84-116 | after a loop over the whole listing and a successful save, every emote is counted once, one request per fetched emote follows the earlier ones, and the sidecar reads back as `meta`; `meta` holds exactly the records of the emotes that did not fail, in listing order, the j-th stamped with the j-th clock reading (the indices are `Indices(Walk(...).fates, Kept)`) |
| SevenTvSync.SevenTvPassSucceeded | emote_common.py:64-116 | a returning pass requested the user first and then one download per fetched emote; it accounts for every listed emote once; `len(meta) == added + same`; `meta` holds exactly the records of the emotes that did not fail, in listing order, the j-th stamped with the j-th clock reading (the indices are `Indices(Walk(...).fates, Kept)`); the sidecar then reads back as `meta` |
| SevenTvSync.EmotesPassAgain | emote_common.py:84-116 | the loop and save run again on the disk a successful run left: it succeeds, writes no asset and leaves the same items restamped in the sidecar |
| SevenTvSync.SevenTvPassAgain | emote_common.py:64-116 | with the same answers from 7TV and no two emotes sharing an asset path, a second pass succeeds, writes no asset, changes no directory, fails the same emotes, counts every earlier download as unchanged, and its sidecar lists the same emotes, differing only in `downloaded_at` |
| SevenTvSync.FetchSevenTvEmotes | emote_common.py:64-116 | the imperative pass leaves the disk, the requests and the result that `SevenTvPass` describes |
| SevenTvSync.SyncEmotes | emote_common.py:84-116 | the imperative loop and final save leave the disk, the requests and the result that `EmotesPass` describes |
| SevenTvSync.SyncEmote | emote_common.py:85-113 | one pass of the loop body for an emote with its keys leaves the disk, counters, records and requests that one `SyncWalk.Step` describes |
| TwitchSync.HelixData | emote_common.py:119-127 | without both credentials the call raises before any request; otherwise it fails on a failed request and on a body without `data`, and returns `data` otherwise |
| TwitchSync.TwitchListingSpec | emote_common.py:136-138 | the listing succeeds exactly when both calls do, and is then global followed by channel; without credentials nothing is requested; a failed global call stops before the channel is asked |
| TwitchSync.HelixSent | emote_common.py:119-127 | the definition of the URLs one `_helix` call requests: none without credentials, else its own; stated by `TwitchListingSpec` and `TwitchCredentialsMissing` |
| TwitchSync.TwitchListing | emote_common.py:136-138 | the definition of the two listing calls, global first; stated by `TwitchListingSpec` |
| TwitchSync.WellFormedPrefix | emote_common.py:144 | the loop gets through exactly the leading items that have `name` and `id` |
| TwitchSync.MissingKeyOf | emote_common.py:144 | the definition of the first missing key of `e["name"], e["id"]`; stated by `ItemsKeyError` |
| TwitchSync.ItemsKeyError | emote_common.py:143-144 | the loop raises `KeyError` exactly when some listed emote lacks `name` or `id`; for the first such emote the error names `name` when that is missing and `id` otherwise, and the sidecar is left as it was |
| TwitchSync.ItemsStopAtMalformed | emote_common.py:143-158 | the loop stops at the first malformed emote, however the pass ends: the listing requests stay first, every later request is the PNG URL of an emote before it, and every new asset file is the transcoded download of such an emote |
| TwitchSync.PngUrl | emote_common.py:131-132 | the definition of `png_url(eid)`; `ItemsNewFiles` states that each new file is the transcode of this URL's download |
| TwitchSync.ToRecord | emote_common.py:160-171 | name, id, `source == "official"`, owner `"Twitch"`, not animated, no created_at, no tags, the `.webp` asset path |
| TwitchSync.Payload | emote_common.py:150-154 | the definition of what is written for a missing asset: the PNG download as transcoded, nothing when either step fails; stated for the pass by `TwitchNewFilesAreTranscoded` |
| TwitchSync.TwitchPass | emote_common.py:130-175 | the definition of the whole pass: directory, listing, then `ItemsPass`; its outcomes are stated by the `Twitch...` lemmas |
| TwitchSync.ItemsPass | emote_common.py:140-175 | the definition of the loop over the well-formed prefix of the listing, then a `KeyError` or the save; stated by `ItemsKeyError`, `ItemsStopAtMalformed`, `ItemsKeepCachedFiles`, `ItemsNewFiles` and `ItemsSucceeded` |
| TwitchSync.TwitchCredentialsMissing | emote_common.py:119-121 | without both credentials the pass requests nothing, changes no file and raises; the directory is still created |
| TwitchSync.TwitchListingFailure | emote_common.py:134-138 | a listing failure raises before any per-item work: no file changes, the error is the listing's, and the directory exists unless a file blocked it |
| TwitchSync.ItemsKeepCachedFiles | emote_common.py:143-175 | the item loop and the final save change no file except the sidecar |
| TwitchSync.TwitchKeepsCachedFiles | emote_common.py:130-175 | however the pass ends, every file except the sidecar keeps its content |
| TwitchSync.ItemsNewFiles | emote_common.py:147-154 | every file the item loop creates is the transcoded PNG of a listed emote, at its path |
| TwitchSync.TwitchNewFilesAreTranscoded | emote_common.py:150-154 | every asset file a pass creates is the transcoded PNG of a listed emote, at its path |
| TwitchSync.ItemsFinish | emote_common.py:143-175 | an item loop that returns got through every item, and is the walk over all of them followed by the save |
| TwitchSync.ItemsSucceeded | emote_common.py:143-175 | after a loop over all items and a successful save, every item is counted once, one request per fetched item follows the listing requests, and the sidecar reads back as `meta`; `meta` holds exactly the records of the items that did not fail, in listing order, the j-th stamped with the j-th clock reading (the indices are `Indices(Walk(...).fates, Kept)`) |
| TwitchSync.TwitchPassSucceeded | emote_common.py:130-175 | a returning pass listed global then channel emotes first, then one download per fetched item; its counters are as for 7TV, and `meta`, which is also the sidecar, holds exactly the records of the items that did not fail, global before channel, stamped in order |
| TwitchSync.ItemsPassAgain | emote_common.py:143-175 | the loop and save run again on the disk a successful run left: it succeeds, writes no asset and leaves the same items restamped in the sidecar |
| TwitchSync.TwitchPassAgain | emote_common.py:130-175 | with the same Helix answers, downloads and transcoder and no two emotes sharing an asset path, a second pass succeeds, writes no asset, changes no directory, fails the same emotes, counts every earlier download as unchanged, and its sidecar lists the same emotes, differing only in `downloaded_at` |
| TwitchSync.FetchTwitchEmotes | emote_common.py:130-175 | the imperative pass leaves the disk, the requests and the result that `TwitchPass` describes |
| TwitchSync.SyncItems | emote_common.py:143-174 | the imperative loop and final save leave what `ItemsPass` describes |
| TwitchSync.SyncItem | emote_common.py:144-172 | one pass of the loop body for an emote with its keys leaves the disk, counters, records and requests that one `SyncWalk.Step` describes |
| ConsoleText.Lower | emote_console.py:109 | lower-casing keeps the length and lower-cases each character |
| ConsoleText.LowerIdempotent | emote_console.py:114 | a lower-cased string has no upper-case letter and lower-casing it again changes nothing |
| ConsoleText.StripSpec | emote_console.py:109 | `strip()` keeps a contiguous middle part, removes only whitespace around it, and leaves no whitespace at either end |
| ConsoleText.Query | emote_console.py:109 | the definition `filter_var.get().lower().strip()`; stated by `QuerySpec` |
| ConsoleText.QuerySpec | emote_console.py:109 | the query is a contiguous part of the lower-cased filter text with only whitespace around it, has no whitespace at either end, and is already lower-case |
| ConsoleText.ContainsSpec | emote_console.py:114 | `q in s` holds exactly when `q` occurs in `s` at some position |
| ConsoleText.ContainsEmpty | emote_console.py:110 | the empty string occurs in every string |
| ConsoleText.LexLeReflexive | emote_console.py:118 | the key order is reflexive |
| ConsoleText.LexLeTotal | emote_console.py:118 | the key order is total |
| ConsoleText.LexLeAntisymmetric | emote_console.py:118 | the key order is antisymmetric |
| ConsoleText.LexLeTransitive | emote_console.py:118 | the key order is transitive |
| ConsoleListing.SelectSource | emote_console.py:102-107 | the definition of the source choice: the 7TV records, the official ones, or both with the 7TV records first; `ShownSpec` states the listing built from it |
| ConsoleListing.Filter | emote_console.py:111-116 | the definition of the list comprehension; stated by `FilterMembers`, `FilterAppend` and `FilterEmptyQuery` |
| ConsoleListing.SortByName | emote_console.py:118 | the definition of the stable sort by lower-cased name, as an insertion sort; stated by `SortSorted`, `SortPermutes`, `SortStable` and `SortKeepsSorted` |
| ConsoleListing.FilterMembers | emote_console.py:111-116 | the filter keeps exactly the records whose lower-cased name or some lower-cased tag contains the query |
| ConsoleListing.Matches | emote_console.py:114-115 | the definition of the match test on the lower-cased name and tags; the filter keeps exactly its records, by `FilterMembers` |
| ConsoleListing.FilterAppend | emote_console.py:111-116 | the filter keeps the original relative order |
| ConsoleListing.FilterEmptyQuery | emote_console.py:110-116 | the empty query would keep every record, so the `if q:` guard does not change the listing |
| ConsoleListing.SortSorted | emote_console.py:118 | the sorted list is ordered by lower-cased name |
| ConsoleListing.Key | emote_console.py:118 | the definition of the sort key `m["name"].lower()`; the order and stability by it are stated by `SortSorted` and `SortStable` |
| ConsoleListing.SortPermutes | emote_console.py:118 | the sorted list is a permutation of its input |
| ConsoleListing.SortStable | emote_console.py:118 | the sort is stable: records with equal keys keep their order |
| ConsoleListing.SortKeepsSorted | emote_console.py:118 | sorting a list already in order leaves it unchanged |
| ConsoleListing.ShownSpec | emote_console.py:102-118 | the listing is sorted, is a permutation of the filtered records of the chosen source, includes a record exactly when it belongs to that source and matches, and keeps equal-key records in source order |
| ConsoleListing.Shown | emote_console.py:102-118 | the definition of the list the gallery shows: the source, then the filter when the query is not empty, then the sort; stated by `ShownSpec` |
| Console.MetaPath | emote_console.py:90-95 | the recorded path when there is one; otherwise `DIR_7TV\name.webp` for source `7tv` and `DIR_TWITCH\name.png` for any other source |
| Console.MetaPathOfSevenTvRecord | emote_console.py:90-92 | a record written by a 7TV pass leads the console to that pass's asset |
| Console.MetaPathOfTwitchRecord | emote_console.py:90-92 | a record written by a Twitch pass leads the console to that pass's asset |
| Console.Picture | emote_console.py:120-131 | a record's image loads exactly when its path is a file that decodes, and it then has the requested size |
| Console.CellsOf | emote_console.py:119-140 | the definition of the buttons the placement loop leaves; stated by `CellsGrid` and `SkippedRecordLeavesGap` |
| Console.RefsOf | emote_console.py:119-133 | the definition of `thumb_refs` after the loop; stated by `RefsOfCells` |
| Console.CellsGrid | emote_console.py:119-140 | each button lies in column `c < 8` with `8*r + c` its record's listing index; it shows that record and its thumbnail; indices increase, so no two buttons share a cell; every record whose thumbnail loads is placed |
| Console.SkippedRecordLeavesGap | emote_console.py:119-134 | when the first record is skipped and the second loads, the second lands in row 0, column 1 and cell (0, 0) stays empty |
| Console.RefsOfCells | emote_console.py:133 | `thumb_refs` holds exactly the names of the placed buttons, each with the last thumbnail placed under that name |
| Console.InfoText | emote_console.py:167-175 | the definition of the details text of a record that has all its keys |
| Console.JoinTags | emote_console.py:174 | the definition of `", ".join(tags)`; stated by `JoinTagsIsJoin` |
| Console.JoinTagsIsJoin | emote_console.py:174 | the joined text is empty for no tags, and otherwise the first tag followed by each later tag after a `", "`, in order |
| Console.ShowOn | emote_console.py:151-175 | the definition of `_show_details` on the panel: the preview and text when the 256-pixel image loads, otherwise the panel unchanged; used by `Gallery.ShowDetails` |
| Console.FirstPanel | emote_console.py:144-149 | the definition of the end of a build; stated by `FirstPanelSpec` |
| Console.FirstPanelSpec | emote_console.py:144-149 | the panel says "(no emotes match)" exactly when nothing is listed; otherwise it shows the first listed record with a 256-pixel preview, or is left as it was when that image cannot be shown |
| Console.RebuildListsTheSame | emote_console.py:103-118 | after the in-place sort, rebuilding with the same source and filter lists the same records in the same order, and each window list keeps its records |
| Console.Kept7 | emote_console.py:103-118 | the definition of the 7TV list after a build: sorted in place when it was `metas` itself, otherwise as it was; `RebuildListsTheSame` states that it keeps its records |
| Console.KeptTw | emote_console.py:103-118 | the definition of the official list after a build, in the same way; stated by `RebuildListsTheSame` |
| Console.Gallery.constructor | emote_console.py:74-81 | the window starts on source `7tv` with an empty filter, builds the gallery, then shows the first record of `metas7 or metatw` |
| Console.Gallery.ShowDetails | emote_console.py:151-175 | the panel shows the record's preview and text when its image loads; otherwise nothing changes |
| Console.Gallery.BuildGallery | emote_console.py:97-149 | the grid, `thumb_refs` and the panel become those of the sorted, filtered listing; the window's lists change only by the in-place sort |
| Console.Gallery.PlaceThumbs | emote_console.py:119-140 | the loop places exactly the cells and `thumb_refs` of the listing, starting from a cleared grid |
| Console.Gallery.SetSource | emote_console.py:48 | choosing a source rebuilds the gallery for that source |
| Console.Gallery.SetFilter | emote_console.py:55 | typing a filter rebuilds the gallery for that filter |
| Console.Gallery.RefreshDone | emote_console.py:191-207 | a pass that returned replaces its list with the records it returned; a pass that raised leaves its list unchanged; the gallery is then rebuilt |
| Console.OpenConsole | emote_console.py:74-76 | opening the console fails exactly when one of the sidecars exists but cannot be read; otherwise the window starts on `7tv` with an empty filter, holds the official records as loaded and the 7TV records sorted in place by name, and its grid and `thumb_refs` are those of the sorted 7TV records |

## Left out

- Module-level credential loading, `.env`, `os.getenv` and `_fetch_app_token` (emote_common.py:8-36) are not modelled. The credentials are a parameter of the Twitch pass.
- HTTP transport, `raise_for_status` and JSON decoding of responses are oracles:
  - the 7TV user lookup is an optional parsed user;
  - Helix answers are optional parsed bodies;
  - asset downloads are optional bytes.
  Timeouts are not modelled separately; they are among the `None` answers.
- PIL decoding, RGBA conversion, resizing and the WebP encoder are oracles: `transcode` for the sync pass and `Renderer` for the console.
- The JSON layout and pretty-printing of `metadata.json` are not modelled. A sidecar stores its record sequence, and `null` values and wrongly typed JSON fields are not modelled.
- JSON `null` and wrongly typed values in the 7TV and Helix answers are not modelled: the model's API types only tell a present key from a missing one. In the source:
  - `"owner": null` raises `AttributeError` at emote_common.py:106, when the asset is already on disk (written at :94 or found present), so it stays, the pass aborts and no sidecar is saved;
  - `"tags": null` is stored as `null` in the sidecar and later makes the filter (emote_console.py:115) and the details panel (:174) raise;
  - `"connections": null` or `"emotes": null` raise `TypeError` at emote_common.py:73 and :84.
- `_utc()` is the parameter `clock`. Its ISO-8601 format is not modelled.
- The tkinter widgets, the scroll region, mouse-wheel binding and the refresh thread (emote_console.py:10-72, 177-189) are not modelled. `RefreshDone` takes the two pass results that the worker thread collected.
- Error messages printed to stderr, and the warning dialog of `_refresh_done`, are not modelled.
- `twitch_emote_archiver.py` and `7tv_emote_archiver.py` are command-line wrappers around the two passes and are not modelled.
- `mkdir(parents=True)` is modelled as creating the one provider directory; missing parents are not modelled.
- A write can only fail because the path is occupied. Disk-full and permission errors are not modelled.
- Paths use the fixed separator `\`, as on the Windows system the base directory names.
- EmoteStore.Disk.Exists: paths are compared as exact, case-sensitive strings. The Windows file system the base directory names ignores letter case, so there `fp.exists()` also finds a file whose name differs only in case. For example, when `123_pog.webp` is cached and the emote is renamed `Pog`, the source counts it as unchanged and downloads nothing; the model counts it as added, requests it and stores a second file.
- EmoteStore.FsState.Exists: compares paths case-sensitively, as `Disk.Exists` does.
- SyncWalk.FateAt: decides an item's outcome with that case-sensitive existence test.
- EmoteStore.AssetPathDistinguishesNames: states that the path strings differ; on a case-insensitive file system two of them that differ only in case name the same file.
- `thumb_refs` exists in the source to keep images alive against Python's garbage collector. That role is not modelled; the model only states which image each name maps to.
- ConsoleText.Lower: lower-cases only the ASCII letters, not the whole of Unicode as Python's `str.lower` does.
- SevenTvSync.FetchSevenTvEmotes: a failed user lookup and a lookup body that is not JSON are both the answer `None`, reported as `RequestFailed`; the source raises the underlying exception instead. An error body that is JSON but has no `connections` raises "No 7TV Twitch set", as in the source.
- Console.FirstPanelSpec: the "exactly when" half assumes the panel's text was not already "(no emotes match)". If it was, and the first record's image cannot be shown, that text simply stays.
- Console.OpenConsole: states the loaded lists, the grid and `thumb_refs`. The panel is stated by `Console.Gallery.constructor`, which it calls.
- A sidecar record missing `source`, `owner`, `animated`, `tags` or `downloaded_at` is not represented: every record the two passes write has all of these keys. For such a record the source's details text shows `?` for a missing `source` or `owner` and `None` for a missing `animated` (emote_console.py:170-172); `Console.InfoText` covers only complete records.
