# MediaStream: entry bookkeeping of a streamed zip download

`Spatie\MediaLibrary\MediaStream` collects media library items under a zip
name and streams them out as one zip archive. Each item is stored under a
name derived from its `file_name`. The first item with a given name keeps it.
The c-th later item with exactly the same name (case-sensitive) is stored as
`"{filename} ({c}).{extension}"`.

This project models that bookkeeping in Dafny:

- `decimal.dfy` (module `Decimal`): the decimal notation PHP uses when it
  interpolates the counter into the new name, with its inverse.
- `path_info.dfy` (module `PathInfo`): the two parts of `pathinfo()` that the
  renaming uses. The base name is the text after the last `/`. It is split at
  its last `.`. The extension is the text after that dot, or empty when there
  is no dot. The file name is the text before it.
- `naming.dfy` (module `Naming`): the renaming policy as pure functions over
  the list of original names (`CountBefore`, `FinalName`, `ResolveNames`),
  with lemmas about it.
- `media_stream.dfy` (module `MediaStreams`): the `MediaStream` class. It
  holds `zipName` and the item list `mediaItems` and has the methods
  `AddMedia`, `GetMediaItems`, `GetFileNameWithSuffix` (the counting loop),
  `GetZipStreamContents` and `GetZipStream`. `ZipSink` stands for the
  ZipStream writer. It records, in order, the files added, the read streams
  closed and the final `finish`.

Behaviour of the code worth knowing:

- A repeated name without an extension keeps the dot. `readme` twice gives
  `readme` and `readme (1).` (`Naming.NoExtensionKeepsDot`).
- Final names are distinct only among items that share an original name
  (`Naming.SameNameDistinct`). They are not pairwise distinct in general.
  `["a (1).txt", "a.txt", "a.txt"]` stores `a (1).txt` twice, and so does
  every list of that shape (`Naming.CollisionAcrossNames`).
- A renamed item loses the directory part of its name, because `pathinfo`
  works on the base name. `dir/a.txt` repeated becomes `a (1).txt`.
- A read stream is closed only after `addFileFromStream` returns normally.
  There is no close on the failure path.

## Model

| member | source | states |
|---|---|---|
| Decimal.NatToString | src/MediaStream.php:134 | the counter is written with at least one decimal digit and no leading zero, and with two or more digits exactly from 10 on |
| Decimal.DecimalRoundTrip | src/MediaStream.php:134 | reading the written digits back gives the counter again |
| Decimal.NatToStringInjective | src/MediaStream.php:134 | different counters are written differently |
| PathInfo.LastIndexOf | src/MediaStream.php:131-132 | the index found holds the character and no later index does; -1 when the character does not occur |
| PathInfo.Basename | src/MediaStream.php:131-132 | the base name `pathinfo` works on: the text after the last `/`; `BasenameIsLastComponent` states it is the `/`-free suffix of the path that starts right after the last `/` |
| PathInfo.Extension | src/MediaStream.php:131 | `PATHINFO_EXTENSION`: the text after the last `.` of the base name, empty without a `.`; `SplitAtLastDot`, `SplitWithoutDot` and `BasenameRecomposes` state this |
| PathInfo.FileNameWithoutExtension | src/MediaStream.php:132 | `PATHINFO_FILENAME`: the base name up to its last `.`, the whole base name without a `.`; `SplitAtLastDot`, `SplitWithoutDot` and `BasenameRecomposes` state this |
| PathInfo.BasenameIsLastComponent | src/MediaStream.php:131-132 | the base name is the suffix of the path that starts right after its last `/`: it holds no `/`, the character before it is a `/` when it is not the whole path, and it is the whole path when the path has no `/` |
| PathInfo.SplitAtLastDot | src/MediaStream.php:131-132 | a name without `/` is split at its last `.`: the file name is the text before it and the extension the text after it |
| PathInfo.SplitWithoutDot | src/MediaStream.php:131-132 | a name without `/` and `.` is its own file name, with an empty extension |
| PathInfo.PiecesAroundDot | src/MediaStream.php:131-132 | the two pieces around the last `.` hold no `/`, the second holds no `.`, and they give the name back around the `.` |
| PathInfo.BasenameRecomposes | src/MediaStream.php:131-132 | file name and extension hold no `/`, the extension holds no `.`, and file name, `.` and extension put back together give the base name; without a `.` the file name is the base name and the extension is empty |
| Naming.CountBefore | src/MediaStream.php:113-125 | the number of earlier equal names is at most the current index |
| Naming.CountZeroIff | src/MediaStream.php:113-127 | the count is 0 exactly when no earlier name is exactly the same |
| Naming.CountIsCardinality | src/MediaStream.php:113-125 | the count equals the number of indices before the current one whose name is exactly the same |
| Naming.CountBeforeAppend | src/MediaStream.php:117-120 | items after the current index are never looked at: appending to the list leaves the count unchanged |
| Naming.CountBeforeMonotone | src/MediaStream.php:117-125 | scanning further never lowers the count |
| Naming.Suffixed | src/MediaStream.php:131-134 | the renamed form `{filename} ({count}).{extension}`; `SuffixedDiffersFromName`, `SuffixedInjective` and `DuplicateSuffixEncodesCount` state what it gives |
| Naming.SuffixedDiffersFromName | src/MediaStream.php:131-134 | a suffixed name always differs from the original name |
| Naming.SuffixedInjective | src/MediaStream.php:131-134 | two different counts give two different suffixed names for the same original name |
| Naming.FinalName | src/MediaStream.php:111-135 | the name of the item at an index inside the archive; `FinalNameUnchangedIff`, `DuplicateSuffixEncodesCount`, `FinalNameAppend` and `SameNameDistinct` state what it is, and `MediaStream.GetFileNameWithSuffix` computes it |
| Naming.FinalNameUnchangedIff | src/MediaStream.php:111-135 | the final name equals the original name exactly when no earlier item has exactly the same name |
| Naming.DuplicateSuffixEncodesCount | src/MediaStream.php:131-134 | when the count is positive the final name is the file name, ` (`, the decimal count without a leading zero, `).` and the extension, and the digits read back give the count; the `.` is there even for an empty extension |
| Naming.FinalNameAppend | src/MediaStream.php:117-120 | appending items never changes the final name of an earlier item |
| Naming.RepeatCountIncreases | src/MediaStream.php:113-125 | of two items with the same name, the later one has a strictly higher count |
| Naming.SameNameDistinct | src/MediaStream.php:113-134 | two items with the same original name at different indices get different final names |
| Naming.ResolveNames | src/MediaStream.php:103-108 | there is one final name per item |
| Naming.DistinctNamesUnchanged | src/MediaStream.php:127-129 | a list without repeated names keeps all its names, in order |
| Naming.ResolveNamesAppend | src/MediaStream.php:117-120 | appending names leaves the earlier final names as they were |
| Naming.SplitPlainName | src/MediaStream.php:131-132 | `{stem}.{ext}` with an extension free of `/` and `.` splits back into that file name and extension |
| Naming.SuffixedPlainName | src/MediaStream.php:131-134 | a repeat of `{stem}.{ext}` with count c is stored as `{stem} ({c}).{ext}` |
| Naming.SuffixedWithoutDot | src/MediaStream.php:131-134 | a repeat of a name without `.` with count c is stored as `{name} ({c}).` |
| Naming.RepeatedTwice | src/MediaStream.php:111-135 | a name given twice: the first copy keeps it, the second is suffixed with count 1 |
| Naming.RepeatedThrice | src/MediaStream.php:111-135 | a name given three times: the first keeps it, the others are suffixed with counts 1 and 2 |
| Naming.RepeatedAroundOther | src/MediaStream.php:117-125 | a different name between two copies is not counted: the second copy gets count 1 |
| Naming.RepeatedAfterOther | src/MediaStream.php:117-125 | a different name before two copies is not counted: the first copy keeps its name, the second gets count 1 |
| Naming.ThreeCopies | src/MediaStream.php:111-135 | `{stem}.{ext}` three times gives `{stem}.{ext}`, `{stem} (1).{ext}`, `{stem} (2).{ext}` |
| Naming.OtherNamesInBetween | src/MediaStream.php:111-135 | `{stem}.{ext}`, another name, `{stem}.{ext}` gives `{stem}.{ext}`, the other name, `{stem} (1).{ext}` |
| Naming.NoExtensionKeepsDot | src/MediaStream.php:134 | a name without `.` given twice gives the name and `{name} (1).` |
| Naming.CaseSensitive | src/MediaStream.php:122 | `A.txt` and `a.txt` are not a repeat and keep their names |
| Naming.CollisionAcrossNames | src/MediaStream.php:111-135 | an original `{stem} (1).{ext}` followed by `{stem}.{ext}` twice: the first and the third item get the same final name |
| MediaStreams.Items | src/MediaStream.php:34-45 | the items one argument contributes: a single item, or every item of a group in order; `Flatten` and `FlattenSingles` state the result |
| MediaStreams.Flatten | src/MediaStream.php:33-48 | a media item is in the flattened list exactly when it is in one of the arguments |
| MediaStreams.FlattenAppend | src/MediaStream.php:33-48 | flattening two argument lists one after the other gives the two flattened lists one after the other |
| MediaStreams.FlattenSingles | src/MediaStream.php:34-37 | arguments that are all single items are taken one for one, in order |
| MediaStreams.Names | src/MediaStream.php:115 | one file name per item |
| MediaStreams.Resolve | src/MediaStream.php:101-109 | one record per item, in list order |
| MediaStreams.ResolveKeepsItems | src/MediaStream.php:103-107 | each record carries the item at the same index |
| MediaStreams.ResolveKeepsFirstNames | src/MediaStream.php:103-108 | an item is stored under its own file name exactly when no earlier item has that file name |
| MediaStreams.ResolveAt | src/MediaStream.php:103-108 | the records up to an index are those before it followed by the item at the index with its final name |
| MediaStreams.ResolveAppend | src/MediaStream.php:101-109 | adding items never changes the records of the items already in the list |
| MediaStreams.ResolveSameNameDistinct | src/MediaStream.php:103-108 | two items with the same file name are stored under different names |
| MediaStreams.ResolveNamesMatch | src/MediaStream.php:103-108 | the record names are the final names of the item file names, so every lemma about the final-name list holds for the records |
| MediaStreams.EntryEvents | src/MediaStream.php:89-93 | the calls for one entry: its file added under its name, then its stream closed when that is a resource; `EntryEventsAdded`, `EntriesClosedRightAfterAdded`, `EntriesCloseEveryResource` and `EntriesCloseOnlyResources` state this |
| MediaStreams.EntriesTrace | src/MediaStream.php:86-94 | between n and 2n calls for n entries; `EntriesTraceStep` gives the calls entry by entry |
| MediaStreams.EntriesTraceStep | src/MediaStream.php:86-94 | one more entry adds its own calls after those of the entries before it |
| MediaStreams.EntriesNeverFinish | src/MediaStream.php:86-94 | the calls made for the entries never finish the archive |
| MediaStreams.ZipTrace | src/MediaStream.php:86-96 | the whole run of `getZipStream`: the calls for every entry, then finish; `FinishedOnceAtEnd`, `FilesAddedInOrder`, `ClosedRightAfterAdded`, `EveryResourceClosed` and `OnlyResourcesClosed` state what it holds |
| MediaStreams.FinishedOnceAtEnd | src/MediaStream.php:86-96 | the archive is finished exactly once, as the last call; with no item it is the only call |
| MediaStreams.AddedAppend | src/MediaStream.php:86-94 | the files added by two runs of calls one after the other are those of the first run, then those of the second |
| MediaStreams.EntriesAdded | src/MediaStream.php:86-94 | the calls for the entries add every entry once, with its own name and item, in entry order |
| MediaStreams.EntryEventsAdded | src/MediaStream.php:89-93 | the calls for one entry add exactly that entry's file, under its name and item |
| MediaStreams.FilesAddedInOrder | src/MediaStream.php:86-96 | the whole run adds every entry once, with its own name and item, in entry order |
| MediaStreams.EntriesClosedRightAfterAdded | src/MediaStream.php:89-93 | in the calls for the entries, each stream close comes right after the file of the same item was added |
| MediaStreams.ClosedRightAfterAdded | src/MediaStream.php:86-96 | in the whole run, each stream close comes right after the file of the same item was added |
| MediaStreams.EntriesCloseEveryResource | src/MediaStream.php:89-93 | in the calls for the entries, every entry whose stream is a resource has its file added and its stream closed by the very next call |
| MediaStreams.EveryResourceClosed | src/MediaStream.php:86-96 | in the whole run, every entry whose stream is a resource has its file added and its stream closed by the very next call |
| MediaStreams.EntriesCloseOnlyResources | src/MediaStream.php:89-93 | in the calls for the entries, every stream closed belongs to an entry whose stream is a resource |
| MediaStreams.OnlyResourcesClosed | src/MediaStream.php:86-96 | in the whole run, no stream is closed unless it belongs to an entry whose stream is a resource |
| MediaStreams.ZipSink.constructor | src/MediaStream.php:81-83 | a new archive writer has the zip name, no call recorded and is not finished |
| MediaStreams.ZipSink.AddFileFromStream | src/MediaStream.php:89 | an unfinished writer records the added file under its name |
| MediaStreams.ZipSink.CloseStream | src/MediaStream.php:91-93 | the close of the item's stream is recorded |
| MediaStreams.ZipSink.Finish | src/MediaStream.php:96 | an unfinished writer records the finish and becomes finished |
| MediaStreams.MediaStream.constructor | src/MediaStream.php:24-29 | a new instance has the given zip name and an empty item list |
| MediaStreams.MediaStream.Create | src/MediaStream.php:19-22 | returns a new instance with the given zip name and an empty item list |
| MediaStreams.MediaStream.AddMedia | src/MediaStream.php:31-54 | the item list becomes the old list followed by the arguments flattened one level, in order; the object itself is returned |
| MediaStreams.MediaStream.GetMediaItems | src/MediaStream.php:56-59 | returns the current item list |
| MediaStreams.MediaStream.GetFileNameWithSuffix | src/MediaStream.php:111-135 | the counting scan, stopped at the current index, returns the final name of the item at that index |
| MediaStreams.MediaStream.GetZipStreamContents | src/MediaStream.php:101-109 | returns every item paired with its final name, in list order |
| MediaStreams.MediaStream.GetZipStream | src/MediaStream.php:73-99 | a new writer with the zip name receives, per item in list order, the file under its final name and then the close of its stream when that is a resource, and is finished once at the end |

## Left out

- `toResponse` (src/MediaStream.php:61-71): the HTTP headers and the
  `StreamedResponse` wrapper are transport plumbing.
- The choice of ZipStream options through `class_exists`
  (src/MediaStream.php:77-84): the zero-header option only changes how the
  writer frames bytes. The zip format itself, CRCs and byte framing belong to
  the ZipStream library, which is not part of this model.
- `Media::stream()` and `is_resource()`: reading media is I/O. Whether an
  item's stream is a resource is the parameter `isResource` of `GetZipStream`.
- Errors raised by the writer or a stream in the middle of `getZipStream`:
  the model has no failure path there.
- Runtime type dispatch in `addMedia`: arguments are typed as a single item or
  a group of items. A non-media element is not modelled. Inside a `Collection`
  argument it raises a `TypeError` in the `reduce` callback
  (src/MediaStream.php:40) before anything from that call is pushed. Inside a
  plain array argument it raises a `TypeError` in the `each` callback
  (src/MediaStream.php:49) after the earlier items were pushed. An argument
  that is neither an item, a `Collection` nor an array is dropped.
- Laravel `Collection` details: keys, and the aliasing that lets a caller
  change the list returned by `getMediaItems`. `flatMap` joins the results of
  its callback with `array_merge`. When two plain-array arguments hold items
  under the same string key, the later item replaces the earlier one, and the
  earlier item is never pushed. `Flatten` keeps both.
- `pathinfo` edge cases: trailing slashes, `\` separators and locale-dependent
  base names. The model uses the last-`/` and last-`.` split described above.
- PHP integer overflow of the counter: the count is an unbounded `nat`.
