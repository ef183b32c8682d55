# File manager views, modelled in Dafny

The project models the two browser views of a small self-hosted file
manager. Both views list the same file records from the backend; each
record has an `id`, a stored `filename`, a display `name`, a `size` and a
`date`. Both link files to the static URL
`http://localhost:3000/uploads/{...}`, but they fill it from different
fields:

* the catalog view builds the link and the extension from `name`;
* the list view searches on `name` but builds the link and the
  previewable test from `filename`.

* **Catalog view** (`ControlCenter`). It shows a grid of tiles, one per
  file whose display name contains the search query (case ignored). Each
  tile holds a compact preview picked from the file's extension: a picture,
  a video placeholder, an audio player, a blurred document frame, or
  "preview unavailable". A tile click opens an overlay with the large
  variant of the same preview; in the large variant a video actually plays
  and a document is not blurred. The backdrop or the close button closes
  the overlay, while clicks inside the overlay's content do nothing.
* **List view** (`Download`). It shows a table of the filtered files with
  these behaviours:
  * Columns are sortable. A repeated click on the same column flips its
    order. A new column starts ascending, except the date column, which
    starts descending.
  * The table reveals 50 rows at first and 50 more each time the page is
    scrolled near its bottom, never more rows than match.
  * A changed query resets the row count to 50.
  * Each row has a checkbox. A select-all button works only on the rows on
    screen: when all of them are selected it deselects them, otherwise it
    selects them without creating duplicates.
  * Deletion is confirmed first, and the row disappears only on a
    successful reply.
  * A click on a file opens it at once when its extension is previewable;
    any other file asks for confirmation first.

The modules follow the program's structure:

| file | module | contents |
|---|---|---|
| `optional.dfy` | `Optional` | `Option` |
| `strings.dfy` | `Strings` | `toLowerCase`, `includes`, `split`/`pop`, `localeCompare` (the list view's sort only) |
| `sequences.dfy` | `Sequences` | `filter`, `slice`, `Array.from(new Set(...))`, order/membership facts |
| `uploads.dfy` | `Uploads` | the static asset URL |
| `control_center.dfy` | `ControlCenter` | the catalog view: pure functions plus a value-level state machine (`Step`) |
| `download.dfy` | `Download` | the list view: pure helpers, and the class `ListView` whose fields are the view's state and whose methods are its handlers |
| `view_agreement.dfy` | `ViewAgreement` | how the two views' separate extension rules relate |

The list view keeps its state in a class because its handlers replace
state fields one by one (`setSortConfig`, then `setFiles`, and so on). The
catalog view's handlers each replace a single field with a new value, so
they are modelled as a function from state and event to the next state.

## Model

| member | source | states |
|---|---|---|
| `Strings.LowerChar` | frontend/src/components/ControlCenter.tsx:22 | upper-case ASCII letters map to lower case (+32) and every other character is unchanged |
| `Strings.Lower` | frontend/src/components/ControlCenter.tsx:22 | `toLowerCase` keeps the length and lower-cases each character in place |
| `Strings.LowerIdempotent` | frontend/src/components/ControlCenter.tsx:27 | lower-casing twice is the same as lower-casing once |
| `Strings.LowerKeepsDots` | frontend/src/components/ControlCenter.tsx:26-27 | lower-casing neither adds nor removes dots, so it cannot change where a name splits |
| `Strings.Includes` | frontend/src/components/ControlCenter.tsx:22 | `includes` is true exactly when the needle occurs at some position of the text |
| `Strings.MatchesQuery` | frontend/src/components/ControlCenter.tsx:21-23 | a name matches exactly when the lower-cased query occurs somewhere in the lower-cased name |
| `Strings.EmptyQueryMatches` | frontend/src/components/ControlCenter.tsx:21-23 | the empty query matches every name |
| `Strings.BlockOfNameMatches` | frontend/src/components/Download.tsx:31-33 | any contiguous part of a name, typed as the query, matches that name |
| `Strings.MatchIgnoresCase` | frontend/src/components/Download.tsx:31-33 | whether a name matches depends neither on the case of the name nor on that of the query |
| `Strings.Split` | frontend/src/components/ControlCenter.tsx:26 | `split('.')` gives at least one piece, no piece contains a dot, and there is exactly one piece iff the text has no dot |
| `Strings.JoinSplit` | frontend/src/components/ControlCenter.tsx:26 | joining the pieces of a split with the separator gives back the original text |
| `Strings.SplitJoin` | frontend/src/components/ControlCenter.tsx:26 | splitting a join of dot-free pieces gives back those pieces |
| `Strings.Last` | frontend/src/components/ControlCenter.tsx:27 | `pop` returns the element whose removal leaves the rest of the array |
| `Strings.LastPiece` | frontend/src/components/ControlCenter.tsx:26-27 | the popped last piece is the dot-free suffix of the name that is preceded by a dot, or is the whole name when there is no dot |
| `Strings.LastPieceUnique` | frontend/src/components/Download.tsx:96 | only one suffix of a name has that property, so the two views' uses of `pop` agree |
| `Strings.SplitLower` | frontend/src/components/ControlCenter.tsx:26-27 | splitting the lower-cased name gives the lower-cased pieces of the name |
| `Strings.StringCompare` | frontend/src/components/Download.tsx:63 | the comparison yields -1, 0 or 1, and 0 exactly for equal strings |
| `Strings.StringCompareAntisymmetric` | frontend/src/components/Download.tsx:69 | swapping the operands negates the comparison |
| `Strings.StringCompareTransitive` | frontend/src/components/Download.tsx:69 | "not after" is transitive on strings |
| `Sequences.AllInIsContainment` | frontend/src/components/Download.tsx:143 | `a.every(x => b.includes(x))` holds exactly when every member of `a` is a member of `b` |
| `Sequences.Filter` | frontend/src/components/ControlCenter.tsx:21-23 | `filter` keeps the elements that pass, in their original order, and none other |
| `Sequences.FilterCounts` | frontend/src/components/Download.tsx:123 | a value that passes keeps all its occurrences and one that fails keeps none |
| `Sequences.FilterAppend` | frontend/src/components/Download.tsx:31-33 | filtering distributes over concatenation |
| `Sequences.FilterKeepsAll` | frontend/src/components/Download.tsx:31-33 | when every element passes, the filter returns the sequence unchanged |
| `Sequences.FilterDropsAll` | frontend/src/components/Download.tsx:123 | when no element passes, the filter returns nothing |
| `Sequences.FilterIdempotent` | frontend/src/components/Download.tsx:123 | filtering twice by the same test is the same as filtering once |
| `Sequences.SubsequenceNoDuplicates` | frontend/src/components/Download.tsx:137 | an order-preserving selection from a duplicate-free sequence is duplicate-free |
| `Sequences.SubsequenceMembers` | frontend/src/components/Download.tsx:145 | an order-preserving selection contains only elements of the original |
| `Sequences.Take` | frontend/src/components/Download.tsx:189 | `slice(0, n)` is the prefix of length min(n, length) |
| `Sequences.InsertAll` | frontend/src/components/Download.tsx:147 | adding to a `Set` keeps the old contents as a prefix, contains the old and the new values, and never creates a duplicate |
| `Sequences.Dedup` | frontend/src/components/Download.tsx:147 | `Array.from(new Set(s))` has the same members as `s` and no duplicate |
| `Sequences.InsertAllAppend` | frontend/src/components/Download.tsx:147 | inserting `a + b` is inserting `a`, then `b` |
| `Sequences.InsertAllFresh` | frontend/src/components/Download.tsx:147 | distinct values that are not yet present are appended in their order |
| `Sequences.DedupDistinct` | frontend/src/components/Download.tsx:147 | a duplicate-free sequence is unchanged by the round trip through a `Set` |
| `Sequences.InsertAllAdds` | frontend/src/components/Download.tsx:147 | everything appended after the old contents is a new value that was not present before |
| `Sequences.Reverse` | frontend/src/components/Download.tsx:71 | the reversal lists the same positions back to front |
| `Sequences.ReverseMultiset` | frontend/src/components/Download.tsx:71 | reversing keeps every element with its multiplicity |
| `Uploads.AssetUrl` | frontend/src/components/ControlCenter.tsx:39 | the URL is the uploads prefix followed by the given name, unencoded; the catalog passes the record's `name`, the list view its `filename` |
| `Uploads.AssetUrlRoundTrip` | frontend/src/components/Download.tsx:101 | the stored name can be read back from its URL, so different files get different URLs |
| `ControlCenter.GetFileExtension` | frontend/src/components/ControlCenter.tsx:25-28 | without a dot the extension is ""; otherwise it is the lower-cased, dot-free suffix that directly follows the last dot |
| `ControlCenter.TrailingDotHasNoExtension` | frontend/src/components/ControlCenter.tsx:26-27 | a name ending in a dot has the empty extension |
| `ControlCenter.ExtensionIgnoresCase` | frontend/src/components/ControlCenter.tsx:27 | the extension of the lower-cased name equals the extension of the name |
| `ControlCenter.SameExtensionUpToCase` | frontend/src/components/ControlCenter.tsx:25-28 | names equal up to case have the same extension |
| `ControlCenter.Classify` | frontend/src/components/ControlCenter.tsx:42-135 | a known category owns the extension, and every category tested earlier (image, video, audio, document) does not own it; unknown means no category owns it |
| `ControlCenter.ClassifyIgnoresCase` | frontend/src/components/ControlCenter.tsx:38 | names equal up to case get the same preview kind |
| `ControlCenter.ClassifyUnique` | frontend/src/components/ControlCenter.tsx:42-135 | the earliest category that owns the extension is the classification, and no other is |
| `ControlCenter.NoExtensionIsUnknown` | frontend/src/components/ControlCenter.tsx:43 | a name with no dot, whatever it looks like, gets the "preview unavailable" placeholder |
| `ControlCenter.OggIsVideo` | frontend/src/components/ControlCenter.tsx:34 | `ogg` is listed as both video and audio, and an `.ogg` file is a video because the video test comes first |
| `ControlCenter.AudioIsMp3OrWav` | frontend/src/components/ControlCenter.tsx:84-88 | in effect only `mp3` and `wav` files get the audio player |
| `ControlCenter.RenderPreview` | frontend/src/components/ControlCenter.tsx:37-136 | the compact preview follows the classification, points at the file's asset URL, never mounts a video element, and blurs documents |
| `ControlCenter.RenderLargePreview` | frontend/src/components/ControlCenter.tsx:139-187 | the large preview follows the same classification but plays videos instead of showing the placeholder, and never blurs documents |
| `ControlCenter.RenderersAgree` | frontend/src/components/ControlCenter.tsx:37-187 | both renderers pick the same kind and URL; they differ only for video (a placeholder or a player) and for document blur |
| `ControlCenter.NameTest` | frontend/src/components/ControlCenter.tsx:22 | the filter callback keeps a file exactly when its lower-cased `name` includes the lower-cased query |
| `ControlCenter.FilteredFiles` | frontend/src/components/ControlCenter.tsx:21-23 | the grid shows exactly the files whose name matches, in listing order; the empty query shows the whole listing |
| `ControlCenter.FilteredFilesCounts` | frontend/src/components/ControlCenter.tsx:21-23 | a matching file shows as many times as it was listed, a non-matching one never |
| `ControlCenter.PartOfNameKeepsFile` | frontend/src/components/ControlCenter.tsx:21-23 | typing any part of a listed name keeps that file in the grid |
| `ControlCenter.InitialCatalog` | frontend/src/components/ControlCenter.tsx:10-13 | the view mounts with no files, an empty query, 300-pixel tiles and the overlay closed |
| `ControlCenter.Step` | frontend/src/components/ControlCenter.tsx:197-267 | each event replaces only its own field; a tile opens its file, the backdrop and the close button close the overlay, a click inside the content changes nothing |
| `ControlCenter.Tiles` | frontend/src/components/ControlCenter.tsx:216-235 | one compact preview per filtered file, in order |
| `ControlCenter.Overlay` | frontend/src/components/ControlCenter.tsx:238-272 | the overlay is mounted exactly while a file is selected, and shows that file's large preview |
| `ControlCenter.OpenThenClose` | frontend/src/components/ControlCenter.tsx:228-269 | opening a tile shows its large preview, a content click keeps it open, and either closing event unmounts it while the listing stays untouched |
| `ControlCenter.GridNeverPlaysVideo` | frontend/src/components/ControlCenter.tsx:47-82 | no tile of the grid mounts a video player |
| `Download.NameTest` | frontend/src/components/Download.tsx:32 | the filter callback keeps a record exactly when its lower-cased `name` includes the lower-cased query |
| `Download.FilteredFiles` | frontend/src/components/Download.tsx:31-33 | the table's records are those whose display name matches, in the current order; the empty query keeps all |
| `Download.Compare` | frontend/src/components/Download.tsx:60-70 | for size and date the comparison follows the numeric order; for id and name it is 0 exactly when the keys are equal |
| `Download.Directed` | frontend/src/components/Download.tsx:71 | ascending keeps the comparator's sign, descending negates it; a tie stays a tie |
| `Download.CompareAntisymmetric` | frontend/src/components/Download.tsx:60-70 | swapping the records negates the comparison for every field |
| `Download.CompareTransitive` | frontend/src/components/Download.tsx:60-70 | "not after" is transitive for every field, so the comparator is consistent |
| `Download.PrecedesReflexive` | frontend/src/components/Download.tsx:60-72 | every record may stand before itself |
| `Download.PrecedesTotal` | frontend/src/components/Download.tsx:60-72 | of any two records, one may stand before the other |
| `Download.PrecedesTransitive` | frontend/src/components/Download.tsx:60-72 | the directed order is transitive, in both directions |
| `Download.DescendingIsReversedAscending` | frontend/src/components/Download.tsx:71 | `a` may precede `b` descending exactly when `b` may precede `a` ascending |
| `Download.PrecedesBothWaysIsTie` | frontend/src/components/Download.tsx:60-72 | two records that may each precede the other compare equal |
| `Download.Insert` | frontend/src/components/Download.tsx:60 | inserting into a sorted sequence adds exactly the one record |
| `Download.InsertSorted` | frontend/src/components/Download.tsx:60 | inserting into a sorted sequence keeps it sorted |
| `Download.SortRecords` | frontend/src/components/Download.tsx:59-74 | the sorted copy is ordered by the chosen field and direction and is a permutation of the records |
| `Download.SortSortedIsIdentity` | frontend/src/components/Download.tsx:60-72 | sorting an already sorted listing leaves it as it is |
| `Download.TiedWith` | frontend/src/components/Download.tsx:60-70 | the records the comparator cannot tell from `x`: those comparing 0 with it |
| `Download.TieIsTransitive` | frontend/src/components/Download.tsx:60-70 | two records tied with the same record are tied with each other |
| `Download.InsertKeepsTieOrder` | frontend/src/components/Download.tsx:60 | inserting a record puts it before every record it is tied with and keeps the others' order |
| `Download.SortStable` | frontend/src/components/Download.tsx:59-74 | the sort is stable: records tied on the sorted field come out in the order they went in, so a sort by size keeps the previous order among equal sizes |
| `Download.SortIdempotent` | frontend/src/components/Download.tsx:59-74 | sorting twice by the same column and direction is the same as sorting once |
| `Download.SortedHeadPrecedes` | frontend/src/components/Download.tsx:60-72 | the first record of a sorted sequence may precede every record in it |
| `Download.SortedUnique` | frontend/src/components/Download.tsx:59-74 | without ties, only one ordering of a multiset of records is sorted |
| `Download.SameTails` | frontend/src/components/Download.tsx:59-74 | two permutations with the same first record have permuted tails |
| `Download.AscendingThenDescendingReverses` | frontend/src/components/Download.tsx:76-85 | without ties, the descending order is the ascending order reversed |
| `Download.DefaultOrder` | frontend/src/components/Download.tsx:81 | a newly chosen column starts descending exactly when it is the date |
| `Download.Flip` | frontend/src/components/Download.tsx:79 | a flip always changes the direction |
| `Download.NextSortConfig` | frontend/src/components/Download.tsx:76-83 | the clicked field becomes active; the same field flips its order; a new field starts descending exactly when it is the date |
| `Download.SortClickTwiceRestores` | frontend/src/components/Download.tsx:78-79 | two clicks on the active column bring back the original direction |
| `Download.SortIndicator` | frontend/src/components/Download.tsx:87-92 | the arrow appears only on the active column, up when ascending and down when descending |
| `Download.GrowVisible` | frontend/src/components/Download.tsx:42 | a scroll reveals 50 more rows, or all matching rows when fewer remain, and never more than match |
| `Download.GrowTimesReveals` | frontend/src/components/Download.tsx:39-44 | starting within the matches, k scrolls reveal min(start + 50k, matches) rows |
| `Download.GrowAtCapIsStable` | frontend/src/components/Download.tsx:42 | once every match is shown, further scrolls change nothing |
| `Download.ScrollScenario` | frontend/src/components/Download.tsx:21-44 | with 120 matches, one scroll shows 100 rows, the second 120, and the third still 120 |
| `Download.Ids` | frontend/src/components/Download.tsx:142 | `map(file => file.id)`: one id per row, in row order |
| `Download.SelectUpdate` | frontend/src/components/Download.tsx:133-139 | checking appends the id, and unchecking removes every occurrence while keeping the others in order |
| `Download.UncheckKeepsOthers` | frontend/src/components/Download.tsx:137 | unchecking one id leaves every other selection as it was |
| `Download.SelectAllUpdate` | frontend/src/components/Download.tsx:141-149 | when every visible id is selected, the visible ids are removed and the rest kept in order; otherwise the missing visible ids are appended after the old selection; no duplicate arises |
| `Download.DeselectKeepsHidden` | frontend/src/components/Download.tsx:145 | deselect-all never touches rows hidden by the query or the row count |
| `Download.SelectAllTwice` | frontend/src/components/Download.tsx:141-149 | a second press after a select-all deselects all visible rows |
| `Download.SelectAllTwiceRestores` | frontend/src/components/Download.tsx:141-149 | when no visible row was selected, two presses restore the original selection |
| `Download.RemoveByFilename` | frontend/src/components/Download.tsx:123 | the records with that stored name are removed and all others kept in order |
| `Download.DeleteRemovesOne` | frontend/src/components/Download.tsx:123 | with unique stored names, a deletion removes exactly the one record |
| `Download.DeleteIdempotent` | frontend/src/components/Download.tsx:123 | deleting the same file twice has the effect of deleting it once |
| `Download.TruncateId` | frontend/src/components/Download.tsx:151-153 | ids of at most 12 characters are shown whole; longer ones as their first 12 characters followed by "..." |
| `Download.IsPreviewable` | frontend/src/components/Download.tsx:94-98 | a file is previewable exactly when the lower-cased text after its last dot, or its whole name when there is no dot, is one of the 11 media extensions |
| `Download.DotlessPngIsPreviewable` | frontend/src/components/Download.tsx:96-97 | a bare `PNG` with no dot counts as previewable |
| `Download.FileClickOpens` | frontend/src/components/Download.tsx:100-108 | the file's URL is opened exactly when it is previewable or the user confirms |
| `Download.ListView.constructor` | frontend/src/components/Download.tsx:19-23 | no files, no sort, 50 rows, empty query, empty selection |
| `Download.ListView.Filtered` | frontend/src/components/Download.tsx:31-33 | the filtered records are an order-preserving selection of the files, holding exactly those whose name matches the query |
| `Download.ListView.VisibleRows` | frontend/src/components/Download.tsx:189 | the table rows are the first min(visibleCount, matches) filtered records |
| `Download.ListView.VisibleIds` | frontend/src/components/Download.tsx:142 | the visible ids are the ids of the table rows, in order |
| `Download.ListView.IsChecked` | frontend/src/components/Download.tsx:194 | a row's checkbox is checked exactly when its id occurs in the selection |
| `Download.ListView.Load` | frontend/src/components/Download.tsx:25-29 | the listing replaces the files and nothing else |
| `Download.ListView.SetSearchQuery` | frontend/src/components/Download.tsx:35-37 | the query is replaced, and the row count goes back to 50 exactly when the query changed |
| `Download.ListView.OnScroll` | frontend/src/components/Download.tsx:39-48 | near the bottom the row count grows as `GrowVisible` says and stays within the matches; elsewhere nothing changes |
| `Download.ListView.SortFiles` | frontend/src/components/Download.tsx:59-74 | the files become their sorted permutation and nothing else changes |
| `Download.ListView.HandleSort` | frontend/src/components/Download.tsx:76-85 | the sort setting advances by `NextSortConfig` and the files are sorted accordingly |
| `Download.ListView.HandleSelect` | frontend/src/components/Download.tsx:133-139 | the selection changes as `SelectUpdate` says; it stays duplicate-free unless an already selected id is checked again |
| `Download.ListView.OnCheckboxChange` | frontend/src/components/Download.tsx:192-196 | a checkbox toggle flips exactly its own id and keeps the selection duplicate-free |
| `Download.ListView.HandleSelectAll` | frontend/src/components/Download.tsx:141-149 | the visible ids are deselected when all are selected and selected otherwise, every other id is kept, and the selection stays duplicate-free |
| `Download.ListView.HandleDelete` | frontend/src/components/Download.tsx:117-131 | nothing happens without confirmation; a success reply removes the file's records and reports deletion; a failure reply or a failed request reports an error and keeps the files |
| `ViewAgreement.PreviewableIffMedia` | frontend/src/components/Download.tsx:94-98 | for one string with a dot, `isPreviewable` holds exactly when the catalog's classification of that string is image, video or audio |
| `ViewAgreement.SameRecordBothViews` | frontend/src/components/Download.tsx:100-108 | for a record whose `name` equals its `filename` and has a dot, a list click opens without asking exactly when the catalog tile is a picture, video or audio player, and both views link the same URL |
| `ViewAgreement.DisplayNameLinksDiffer` | frontend/src/components/ControlCenter.tsx:37-45 | a record stored as `x` and displayed as `photo.png` is a picture of `uploads/photo.png` in the catalog, while the list view links `uploads/x` and asks before opening |
| `ViewAgreement.DotlessNamesDisagree` | frontend/src/components/Download.tsx:96 | for names without a dot the views disagree: `PNG` is previewable in one and unknown in the other |

## Left out

- The `fetch` calls for the listing and the `DELETE` request are network I/O. The listing enters through `Load` and `FilesLoaded`, and the delete reply through a `DeleteResponse` parameter, where a rejected promise is `RequestFailed`.
- `window.confirm` answers become a `confirmed` parameter. `window.open` and `alert` become return values: the URL to open, and the `Notice` to show.
- `handleCopy` (clipboard write and alerts) is not modelled, because it only performs browser I/O.
- Scroll geometry (viewport height, scroll offset, page height, the 500-pixel margin) is reduced to the `nearBottom` flag of `OnScroll`. Registering and removing the scroll listener are not modelled.
- React's render scheduling is not modelled: each handler takes effect at once and in full. The query-reset effect is folded into `SetSearchQuery`.
- `formatBytes` is floating-point arithmetic (`Math.log`, `toFixed`), so it is not modelled. As written it also has no unit for sizes of 1024^5 bytes and up.
- Record dates are integer timestamps. Parsing date strings with `new Date`, and the `NaN` an unparsable date would give the comparator, are not modelled. The catalog view keeps its date as a string because it never reads it.
- Strings.LowerChar: only ASCII letters are lower-cased, because Unicode case mapping is not modelled.
- Strings.StringCompare: `localeCompare` is modelled as plain character-by-character lexicographic order; locale collation rules are not modelled.
- Download.TruncateId: string length counts Dafny characters, not UTF-16 code units.
- Download.SortRecords: `Array.prototype.sort` is modelled as a stable insertion sort. Language editions since 2019 require stability, and the engine's own algorithm is not modelled. Copying the array before sorting is modelled by value semantics.
- File names are inserted into URLs without percent-encoding, exactly as the views do. What the server makes of such URLs is not modelled.
- Markup, styling, the iframe sandbox and the slider's 200–1000 bounds are presentation only. `BoxResized` accepts any integer, as the slider's handler does not check it.
- Download.ListView.HandleDelete: the confirmation, which happens at click time, and the reply, which comes asynchronously, are folded into one step; other events, including a second delete, may come between them in the source. The source updates with `prev => prev.filter(...)`, so applying the step when the reply arrives gives the same files.
- The catalog view links files by `name`, while the list view links them by `filename` and only shows `name`. The two agree only for records whose two fields hold the same text (`ViewAgreement.SameRecordBothViews`). The model does not decide which field the catalog was meant to use.
- After a successful deletion, the deleted record's id stays in `selectedIds`. The model keeps this behaviour.
- The row count is capped at the number of matches only when a scroll happens. The initial 50, and the 50 after a query change, may exceed the number of matches.
