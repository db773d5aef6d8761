# Batch background removal, modelled in Dafny

This project models the batch background-removal page of the SoftStash web
app (`src/components/BgRemoval.tsx`). Images are dropped onto the page and
become items of a store. An effect drains the pending items one at a time
through an inference call, and the page keeps object URLs for the results. A
result can be downloaded alone or with the others as a zip archive. Items can
be deleted one at a time or cleared all at once.

The model is split into six modules:

- `Seqs`: `Option` for the source's `null`, JavaScript's `Array.prototype.filter` as `Filter`, and `Pairwise`.
- `Items`: the `ImageItem` record.
  - How a dropped file becomes an item, including its id.
  - The per-id updates that `processOne` applies with `prev.map`.
  - `find`, and the filtered views of the store (pending, ready).
  - The store invariant and the lemmas showing that each handler keeps it.
  - What the page shows of an item.
- `Sanitize`: the three regular-expression replacements that turn an item name into its export file name.
- `Scheduler`: `processOne` and the auto-process drain, as functions on a state made of the store and the URL counter. Their lemmas cover the frame, first-in-first-out order and URL freshness.
- `Archive`: the loop of `handleDownloadAll`. The zip is a map from entry name to bytes, in which a later entry of the same name wins. It also gives the dated zip name and how the handler ends.
- `BgRemoval`: the component as `class Pipeline`.
  - Its fields are the React state: `items`, `runRef`, the processing and zipping flags, and the before/after toggle.
  - A counter stands for `URL.createObjectURL`.
  - A ghost set records the URLs passed to `URL.revokeObjectURL`.
  - Each handler is a method proved against the functions above.
  - The handlers that end with the store at rest keep `Valid()`, the store invariant: OnDrop, Drain, DownloadOne, DownloadAll, Clear and DeleteOne. The constructor establishes it.
  - ProcessOne and RunPending are steps inside a drain and do not promise it: between the mark and the result an item is `processing`. Drain's `Valid()` rests on DrainKeepsInvariant.
  - Unmount, UnmountRevokingAll and ToggleShowAfter do not promise it. After UnmountRevokingAll the store's URLs are revoked, which the invariant forbids of a live store.

The store invariant says:

- every item is well formed: a display URL exists exactly when the result blob does, exactly when the status is `done`;
- no item is left `processing` between operations;
- ids and display URLs are distinct;
- every URL the store refers to was minted and has not been revoked.

## Model

| member | source | states |
|---|---|---|
| Seqs.Filter | src/components/BgRemoval.tsx:132 | `filter` keeps exactly the elements that satisfy the predicate, and never lengthens the list |
| Seqs.FilterAppend | src/components/BgRemoval.tsx:57 | filtering a store with a batch appended is filtering the store, then the batch: filter keeps store order |
| Seqs.FilterIdempotent | src/components/BgRemoval.tsx:183 | filtering the ready items again keeps them all |
| Seqs.FilterPairwise | src/components/BgRemoval.tsx:285 | a filtered store keeps any pairwise property of the store (distinct ids, distinct URLs) |
| Sanitize.IsWordChar | src/components/BgRemoval.tsx:166 | JavaScript's `\w`: ASCII letters, digits and `_` |
| Sanitize.IsSpace | src/components/BgRemoval.tsx:166 | JavaScript's `\s`: the ASCII controls TAB to CR, SPACE, NBSP, U+1680, U+2000 to U+200A, U+2028, U+2029, U+202F, U+205F, U+3000 and U+FEFF |
| Sanitize.Kept | src/components/BgRemoval.tsx:166 | what `/[^\w\s-]/g` leaves in place: word characters, white space and `-` |
| Sanitize.ExtensionAt | src/components/BgRemoval.tsx:165 | `/\.[^.]+$/` matches at position i: a dot followed by at least one character, none of them a dot, up to the end |
| Sanitize.LastDot | src/components/BgRemoval.tsx:165 | the position of the last dot, with no dot after it, or no dot at all |
| Sanitize.StripExtension | src/components/BgRemoval.tsx:165 | `/\.[^.]+$/` matches at most once. A match cuts the name before it; otherwise the name is unchanged |
| Sanitize.SkipSpaces | src/components/BgRemoval.tsx:166 | the result starts with no white space, holds only characters of the input, and is shorter exactly when the input starts with white space |
| Sanitize.SkipSpacesSuffix | src/components/BgRemoval.tsx:166 | only white space is dropped: the result is the suffix of the input after its leading run of white space |
| Sanitize.CollapseSpaces | src/components/BgRemoval.tsx:166 | `replace(/\s+/g, "_")` never lengthens the string |
| Sanitize.CollapseSpacesAlphabet | src/components/BgRemoval.tsx:166 | the collapsed string holds no white space, and every other character comes from the input |
| Sanitize.CollapseSpacesNoSpace | src/components/BgRemoval.tsx:166 | a string without white space is left unchanged |
| Sanitize.CollapseOneSpace | src/components/BgRemoval.tsx:166 | one white-space character between runs without white space becomes one underscore |
| Sanitize.SkipSpacesRun | src/components/BgRemoval.tsx:166 | a run of white space is skipped whole, up to the first character that is not white space |
| Sanitize.CollapseRun | src/components/BgRemoval.tsx:166 | the `+` of `/\s+/g`: a run of one or more white-space characters becomes a single underscore in front of the collapsed rest |
| Sanitize.TwoSpacesOneUnderscore | src/components/BgRemoval.tsx:166 | `"a  b"` becomes `"a_b"`, not `"a__b"` |
| Sanitize.CleanAlphabet | src/components/BgRemoval.tsx:166 | after both replacements, a base holds only [A-Za-z0-9_-] |
| Sanitize.CleanIdempotent | src/components/BgRemoval.tsx:166 | the two replacements change nothing when applied to their own output |
| Sanitize.StripExtensionNoDot | src/components/BgRemoval.tsx:165 | a name without a dot keeps everything |
| Sanitize.SafeBaseIdempotent | src/components/BgRemoval.tsx:165-166 | sanitising a sanitised name changes nothing |
| Sanitize.StripExtensionOf | src/components/BgRemoval.tsx:165 | only the non-empty text after the last dot is stripped: "a.b.png" becomes "a.b" |
| Sanitize.ExportNameShape | src/components/BgRemoval.tsx:165-167 | an export name is the sanitised base, which holds only [A-Za-z0-9_-], followed by "-no-bg.png" |
| Sanitize.ExportNameIgnoresExtension | src/components/BgRemoval.tsx:205-207 | names that differ only in their extension get the same export name |
| Items.MakeId | src/components/BgRemoval.tsx:41-43 | the id template `${name}-${size}-${lastModified}-${suffix}`; DistinctSuffixesDistinctIds states what it separates |
| Items.NewItem | src/components/BgRemoval.tsx:40-50 | the item a reader resolves with is pending (idle, without a display URL) and well-formed |
| Items.NewItems | src/components/BgRemoval.tsx:36-56 | one new item per file |
| Items.Decimal | src/components/BgRemoval.tsx:41 | the decimal text of a size is non-empty and all digits |
| Items.DecimalValue | src/components/BgRemoval.tsx:41 | `${file.size}` prints the size: its digits read back as the number |
| Items.NumberText | src/components/BgRemoval.tsx:41 | `${file.lastModified}` starts with a minus sign exactly for a negative number |
| Items.NumberTextValue | src/components/BgRemoval.tsx:41 | `${file.lastModified}` prints the timestamp: the text reads back as the number, sign included |
| Items.DistinctSuffixesDistinctIds | src/components/BgRemoval.tsx:41-43 | two reads of the same file get different ids exactly when their random suffixes differ |
| Items.MapById | src/components/BgRemoval.tsx:73-77 | `prev.map(it => it.id === id ? update(it) : it)` keeps length and order, updates the items with that id and leaves every other item as it was |
| Items.Apply | src/components/BgRemoval.tsx:75-122 | the object spreads of `processOne` change the status fields only: id, name and original are kept |
| Items.IsPending | src/components/BgRemoval.tsx:132 | the drain's filter, idle and without a display URL; SnapshotIds and DrainSkips state what the drain does with it |
| Items.HasBlob | src/components/BgRemoval.tsx:183 | the download filter, a result blob is present; LabelReadyIffDownloadable ties it to the label |
| Items.Pending | src/components/BgRemoval.tsx:132 | the drain's snapshot of the store; SnapshotIds states it is found and unique |
| Items.Ready | src/components/BgRemoval.tsx:183 | the items "Download All" packs; ArchiveHasKey states each lands in the archive |
| Items.Find | src/components/BgRemoval.tsx:79 | `find` returns null exactly when no item has the id; otherwise it returns an item of the list with that id |
| Items.FindIsFirst | src/components/BgRemoval.tsx:79 | `find` returns the first item with the id |
| Items.Handles | src/components/BgRemoval.tsx:268-272 | the display URLs a store refers to, exactly |
| Items.PairwiseApartUniqueIds | src/components/BgRemoval.tsx:41-43 | a store whose items are pairwise apart has unique ids |
| Items.IngestedItemsArePending | src/components/BgRemoval.tsx:33-59 | a dropped batch is appended in file order. Every new item is idle, at progress 0 and without a result, so the next snapshot is the old one followed by the batch |
| Items.IngestKeepsInvariant | src/components/BgRemoval.tsx:56-58 | appending a batch with fresh ids keeps the store invariant |
| Items.AtMostOneProcessing | src/components/BgRemoval.tsx:73-77 | after `processOne` marks its item in a well-kept store (the first call of a drain), at most one item is `processing` |
| Items.Without | src/components/BgRemoval.tsx:285 | `prev.filter(i => i.id !== id)`; WithoutRemovesId states what it keeps |
| Items.DeletedHandles | src/components/BgRemoval.tsx:280-283 | handleDeleteOne revokes only the display URL of an item with the deleted id |
| Items.DeleteRevokesOwnUrl | src/components/BgRemoval.tsx:280-283 | in a store with unique ids, the display URL of every item with the deleted id is revoked |
| Items.WithoutRemovesId | src/components/BgRemoval.tsx:285 | deletion keeps exactly the items with another id, and deleting an absent id changes nothing |
| Items.DeleteKeepsInvariant | src/components/BgRemoval.tsx:278-287 | handleDeleteOne keeps the store invariant |
| Items.DeleteSparesOthers | src/components/BgRemoval.tsx:280-285 | the URL handleDeleteOne revokes is not the URL of an item it keeps |
| Items.ClearKeepsInvariant | src/components/BgRemoval.tsx:266-276 | handleClear keeps the store invariant: every URL it revokes was minted |
| Items.DownloadUrlKeepsInvariant | src/components/BgRemoval.tsx:161-174 | a download URL is fresh, so revoking it revokes no URL of the store |
| Items.StatusLabel | src/components/BgRemoval.tsx:458-464 | the status line reads "Ready" exactly for a done item |
| Items.ImageSource | src/components/BgRemoval.tsx:418-422 | the thumbnail shows the result URL exactly when "after" is on and the item has one, and otherwise the original |
| Items.ReadyCount | src/components/BgRemoval.tsx:341 | the count on "Download All" never exceeds the number of items |
| Items.DownloadAllDisabled | src/components/BgRemoval.tsx:328-330 | `disabled` of "Download All"; EnabledButtonSaves states what an enabled button does |
| Items.LabelReadyIffDownloadable | src/components/BgRemoval.tsx:458-476 | on a well-formed item the label reads "Ready" exactly when the Download button is shown |
| Items.StatusLabelsDistinct | src/components/BgRemoval.tsx:458-464 | every status has its own label |
| Items.ImageSourceShowsResult | src/components/BgRemoval.tsx:418-422 | the thumbnail shows the result URL exactly when "after" is on and the item is done; otherwise it shows the original |
| Items.DownloadAllEnabled | src/components/BgRemoval.tsx:328-341 | "Download All" is enabled exactly when no zip is in preparation and some item holds a blob. Its count is at most the number of items |
| Scheduler.Step | src/components/BgRemoval.tsx:69-127 | one `processOne` call keeps the store's length and ids |
| Scheduler.Settle | src/components/BgRemoval.tsx:104-123 | a completed call keeps the id, ends done with the given URL exactly on success, and keeps a fresh item well-formed |
| Scheduler.Drained | src/components/BgRemoval.tsx:131-152 | the whole drain over the snapshot's ids keeps the store's length |
| Scheduler.AfterDrain | src/components/BgRemoval.tsx:131-152 | the drain of a store over its own snapshot, one outcome per snapshot item, keeps the store's length |
| Scheduler.StepFrame | src/components/BgRemoval.tsx:69-127 | `processOne`: items with another id are untouched. On a lookup hit, items with the id end done with the next URL or in error, and a URL is minted exactly on success. On a miss they stay `processing` |
| Scheduler.StepOther | src/components/BgRemoval.tsx:73-77 | a call leaves items with another id as they were |
| Scheduler.StepMints | src/components/BgRemoval.tsx:79-102 | a call mints a URL exactly when the lookup and the inference succeed |
| Scheduler.StepSettles | src/components/BgRemoval.tsx:104-123 | a call whose lookup succeeds settles the item with its id |
| Scheduler.LookupMissLeavesProcessing | src/components/BgRemoval.tsx:73-83 | when the closure's store lacks the id, the live items with it stay `processing` at progress 0 and nothing is minted |
| Scheduler.Successes | src/components/BgRemoval.tsx:142-144 | the number of successes among the first k outcomes is at most k |
| Scheduler.Minted | src/components/BgRemoval.tsx:142-144 | the number of URLs minted by the first k calls is at most k |
| Scheduler.Run | src/components/BgRemoval.tsx:142-144 | the sequential `await processOne` loop keeps the store's length and ids |
| Scheduler.Listed | src/components/BgRemoval.tsx:79 | an id the store lists is found in it |
| Scheduler.SuccessesMonotone | src/components/BgRemoval.tsx:142-144 | a success before position l makes the URL numbered at l larger |
| Scheduler.RunMints | src/components/BgRemoval.tsx:142-144 | the first m calls mint exactly the URLs Minted counts |
| Scheduler.MintedAllFound | src/components/BgRemoval.tsx:142-144 | when every id is found, the calls that mint are exactly the successes |
| Scheduler.RunUntouched | src/components/BgRemoval.tsx:142-144 | an item whose id no call has reached yet is untouched |
| Scheduler.RunSettles | src/components/BgRemoval.tsx:142-144 | the item of the k-th id holds the k-th outcome, with the URL minted after the k calls before it |
| Scheduler.RunSettlesLast | src/components/BgRemoval.tsx:142-144 | the k-th call settles an item that the calls before it left untouched |
| Scheduler.SnapshotIds | src/components/BgRemoval.tsx:132 | a well-kept store's snapshot has unique ids, all of them found in the store, so no call of a drain misses its lookup |
| Scheduler.SnapshotPosition | src/components/BgRemoval.tsx:132 | a pending item stands in the snapshot; an item that is not pending has an id the snapshot lacks |
| Scheduler.DrainedAt | src/components/BgRemoval.tsx:131-152 | after a drain, an item that was not pending is untouched. A pending item is the k-th of the snapshot and holds the k-th outcome |
| Scheduler.DrainedPending | src/components/BgRemoval.tsx:131-152 | a pending item is the k-th of the snapshot and holds the k-th outcome |
| Scheduler.SnapshotIndex | src/components/BgRemoval.tsx:132 | a pending item stands at some position of the snapshot |
| Scheduler.DrainSkips | src/components/BgRemoval.tsx:132-144 | a drain leaves items that were not pending as they were |
| Scheduler.DrainIsFifo | src/components/BgRemoval.tsx:132-144 | first in, first out: the k-th snapshot item gets the k-th outcome and, on success, the URL numbered by the successes before it |
| Scheduler.DrainMintsSuccesses | src/components/BgRemoval.tsx:142-144 | during a drain, the URLs minted before the k-th call are the successes before it |
| Scheduler.DrainSettlesSnapshot | src/components/BgRemoval.tsx:131-152 | a drain keeps ids and order. Each pending item ends done or in error; every other item is unchanged |
| Scheduler.DrainKeepsInvariant | src/components/BgRemoval.tsx:131-152 | a drain keeps the store invariant and mints one URL per success |
| Scheduler.NothingProcessingMidDrain | src/components/BgRemoval.tsx:138-149 | between two calls of a drain no item of the store is `processing` |
| Scheduler.ReachedSettled | src/components/BgRemoval.tsx:138-149 | an item an earlier call of the drain reached is settled |
| Scheduler.NotYetReached | src/components/BgRemoval.tsx:132-144 | no call before the k-th has the id of an item that was not pending or stands at snapshot position k or later |
| Scheduler.SettledNotProcessing | src/components/BgRemoval.tsx:104-123 | a completed call leaves its item `done` or `error` |
| Scheduler.AtMostOneProcessingMidDrain | src/components/BgRemoval.tsx:69-149 | while the k-th inference of any drain is in flight, at most one item of the store is `processing` |
| Scheduler.KeptAt | src/components/BgRemoval.tsx:131-152 | each drained item is well formed and settled, and its URL was minted and is live |
| Scheduler.DrainedOrigin | src/components/BgRemoval.tsx:131-152 | a drained item's URL predates the drain or is the one its own call minted |
| Scheduler.ApartAt | src/components/BgRemoval.tsx:131-152 | drained items keep distinct ids and distinct URLs |
| Archive.ArchiveSize | src/components/BgRemoval.tsx:197-211 | the zip has at most one entry per item added |
| Archive.DateStamp | src/components/BgRemoval.tsx:243 | `toISOString().slice(0, 10)` is the first ten characters of the timestamp, or all of it when shorter |
| Archive.ZipName | src/components/BgRemoval.tsx:243-244 | the zip name is "softstash-", the date stamp, then ".zip" |
| Archive.ExportAll | src/components/BgRemoval.tsx:182-264 | the handler ends with nothing exactly when nothing is ready. A saved zip counts every ready item with a blob and holds at most that many entries |
| Archive.BuildArchive | src/components/BgRemoval.tsx:193-220 | the loop builds exactly the zip and the success count of the specification |
| Archive.PackReady | src/components/BgRemoval.tsx:189-234 | the try block past the empty check ends as ExportAll describes |
| Archive.ArchivePrefix | src/components/BgRemoval.tsx:197-211 | one more item adds its entry and counts, or does nothing without a blob |
| Archive.ArchiveHasKey | src/components/BgRemoval.tsx:205-210 | every item with a blob has an entry under its export name |
| Archive.ArchiveKeyOrigin | src/components/BgRemoval.tsx:205-210 | every entry comes from a ready item with that export name |
| Archive.ArchiveLastWins | src/components/BgRemoval.tsx:210 | an entry holds the blob of the last item exported under its name |
| Archive.ExportAllNeverFails | src/components/BgRemoval.tsx:183-224 | on the ready items the zero-success error is unreachable. A saved zip counts the button's number of items, has the dated name and holds the archive of the ready items |
| Archive.EnabledButtonSaves | src/components/BgRemoval.tsx:328-330 | "Download All" is enabled exactly when a click would save a zip |
| Archive.SameExportNameCollides | src/components/BgRemoval.tsx:205-211 | two done images with one export name make one entry, holding the later blob, although both are counted |
| Archive.ExtensionTwinsCollide | src/components/BgRemoval.tsx:205-211 | "cat photo.png" and "cat photo.jpg", both done, make a zip of one entry and a count of two |
| BgRemoval.Pipeline.constructor | src/components/BgRemoval.tsx:28-31 | the first render: an empty store, the "after" view on, nothing running |
| BgRemoval.Pipeline.OnDrop | src/components/BgRemoval.tsx:33-59 | an empty batch changes nothing; otherwise the new items are appended in file order, and the invariant holds |
| BgRemoval.Pipeline.ProcessOne | src/components/BgRemoval.tsx:69-127 | the method's new store and URL counter are those of Step |
| BgRemoval.Pipeline.Drain | src/components/BgRemoval.tsx:129-152 | the effect does nothing when nothing is pending or a drain is running. Otherwise its new state is Drained over the snapshot, and the flags end cleared |
| BgRemoval.Pipeline.RunPending | src/components/BgRemoval.tsx:138-149 | the `run` loop reaches Drained and clears both flags |
| BgRemoval.Pipeline.DownloadOne | src/components/BgRemoval.tsx:154-180 | nothing without a blob; otherwise the blob is offered under its export name through one fresh URL, which is revoked |
| BgRemoval.Pipeline.OfferDownload | src/components/BgRemoval.tsx:161-174 | a fresh URL is minted and revoked, keeping the invariant |
| BgRemoval.Pipeline.DownloadAll | src/components/BgRemoval.tsx:182-264 | the outcome is ExportAll of the ready items. Zipping ends cleared, and a URL is minted and revoked exactly when a zip is saved |
| BgRemoval.Pipeline.RevokeAll | src/components/BgRemoval.tsx:268-272 | revokes exactly the display URLs of the list |
| BgRemoval.Pipeline.Clear | src/components/BgRemoval.tsx:266-276 | revokes every display URL of the store, empties it, and keeps the invariant |
| BgRemoval.Pipeline.DeleteOne | src/components/BgRemoval.tsx:278-287 | revokes the URL of the first item with the id, and with it the URL of every item with the id. It removes every item with the id and keeps the invariant |
| BgRemoval.Pipeline.Unmount | src/components/BgRemoval.tsx:289-298 | the cleanup as written walks the first render's empty store and revokes nothing |
| BgRemoval.Pipeline.UnmountRevokingAll | src/components/BgRemoval.tsx:289-298 | the intended cleanup revokes every display URL of the store at unmount |
| BgRemoval.UnmountLeaksDisplayUrl | src/components/BgRemoval.tsx:289-298 | drop one image, drain it to a result and unmount: the store holds URL 0 and it was never revoked |
| BgRemoval.OneItemDrained | src/components/BgRemoval.tsx:131-152 | a drain over one fresh item whose removal succeeds gives it the first URL |
| BgRemoval.Pipeline.ToggleShowAfter | src/components/BgRemoval.tsx:307 | the toggle flips the before/after view |

## Left out

- `removeBackground`, `fetch(item.original)` and `response.blob()` are calls into code the model cannot see. The outcome of each `processOne` is a parameter: the result bytes or a failure. Drain takes one outcome per snapshot item.
- `FileReader` is left out: a dropped file's data URL is its content. The dropzone's accept filter (`.png`, `.jpg`, `.jpeg`) is left out; every file passed in counts as accepted.
- `Math.random().toString(36).slice(2)` is a parameter, one suffix per file. OnDrop requires the resulting ids to be fresh: the source relies on randomness for this.
- A `null` or empty `acceptedFiles` is an empty sequence.
- `new Date().toISOString()` is a parameter of DownloadAll.
- Async interleaving: each handler and each drain runs to completion before the next event. Items dropped while a drain runs are not modelled.
  - The drain's calls look items up in the store as it was when the drain started. The snapshot comes from that same store, so the lookup never misses during a drain (SnapshotIds). LookupMissLeavesProcessing states what `processOne` does on a miss, which no drain reaches.
  - What the stale closure does cause, and the model does not capture: an item deleted or cleared while a drain runs is still sent to `removeBackground`. On success its URL (line 102) is minted, stored in no item, and never revoked.
  - React's re-running of the effect after the drain is a second call of Drain.
- `setTimeout(() => URL.revokeObjectURL(url), 1000)` is counted as done when the handler returns. The DOM link, `click()`, `console` output and `alert` are left out.
- JSZip compression and `generateAsync` are left out: the saved zip is its map of entries. A failure of `generateAsync`, and the exceptions the per-item and per-download `try`/`catch` blocks guard against, are not modelled. Only the zero-success error is.
- Progress values other than 0 and 100 never occur in the source, so progress is an integer fixed by the status.
- Archive.Archive, Sanitize.Clean, Sanitize.SafeBase and Sanitize.ExportName: their facts are stated in the lemmas ArchiveSize, CleanAlphabet and ExportNameShape rather than in their own contracts.

## Findings

| source | as written | input that shows it | evidently intended | confidence | as-written member | corrected member |
|---|---|---|---|---|---|---|
| src/components/BgRemoval.tsx:289-298 | the unmount cleanup is an effect with no dependencies, so its closure holds the `items` of the first render, which is empty | drop one image, let it finish (it gets a display URL), then unmount: the cleanup walks `[]` and the URL stays live | revoke the display URL of every item in the store at unmount, as the comment on line 289 says | not executed | BgRemoval.Pipeline.Unmount, BgRemoval.UnmountLeaksDisplayUrl | BgRemoval.Pipeline.UnmountRevokingAll |
