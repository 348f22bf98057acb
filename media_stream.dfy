/** MediaStream: a named list of media items that is streamed out as one zip
    archive, each item under a collision-free name. The ZipStream writer and
    the media read streams are opaque collaborators; the model keeps only the
    order of the calls made on them. */
module MediaStreams {
  import opened Naming

  /** A media library item, reduced to an opaque identity and its file name. */
  datatype Media = Media(id: nat, file_name: string)

  /** One argument of addMedia: a single media item, or a group of them
      (a Collection or an array). */
  datatype MediaArg = Single(media: Media) | Group(items: seq<Media>)

  function Items(arg: MediaArg): seq<Media> {
    match arg
    case Single(m) => [m]
    case Group(ms) => ms
  }

  /** The arguments flattened one level, in argument order. */
  function Flatten(args: seq<MediaArg>): (r: seq<Media>)
    ensures forall m :: m in r <==> exists k :: 0 <= k < |args| && m in Items(args[k])
  {
    if args == [] then []
    else
      var rest := Flatten(args[1..]);
      assert forall k :: 1 <= k < |args| ==> args[k] == args[1..][k - 1];
      Items(args[0]) + rest
  }

  /** Flattening distributes over concatenation of the argument lists. */
  lemma {:induction false} FlattenAppend(a: seq<MediaArg>, b: seq<MediaArg>)
    ensures Flatten(a + b) == Flatten(a) + Flatten(b)
  {
    if a != [] {
      assert (a + b)[0] == a[0];
      assert (a + b)[1..] == a[1..] + b;
      FlattenAppend(a[1..], b);
    } else {
      assert a + b == b;
    }
  }

  /** Arguments that are all single items are taken as they are. */
  lemma {:induction false} FlattenSingles(args: seq<MediaArg>)
    requires forall k :: 0 <= k < |args| ==> args[k].Single?
    ensures |Flatten(args)| == |args|
    ensures forall k :: 0 <= k < |args| ==> Flatten(args)[k] == args[k].media
  {
    if args != [] {
      FlattenSingles(args[1..]);
    }
  }

  function Names(items: seq<Media>): (names: seq<string>)
    ensures |names| == |items|
  {
    seq(|items|, i requires 0 <= i < |items| => items[i].file_name)
  }

  /** One record of getZipStreamContents. */
  datatype ZipEntry = ZipEntry(fileNameInZip: string, media: Media)

  /** Every item paired with its final name, in list order. */
  function Resolve(items: seq<Media>): (r: seq<ZipEntry>)
    ensures |r| == |items|
  {
    seq(|items|, i requires 0 <= i < |items| => ZipEntry(FinalName(Names(items), i), items[i]))
  }

  /** The names in the records are the final names of the file names, so
      every fact about ResolveNames holds for the records too. */
  lemma ResolveNamesMatch(items: seq<Media>)
    ensures |Resolve(items)| == |ResolveNames(Names(items))|
    ensures forall i :: 0 <= i < |items| ==> Resolve(items)[i].fileNameInZip == ResolveNames(Names(items))[i]
  {
  }

  /** Each record carries the item at the same index. */
  lemma ResolveKeepsItems(items: seq<Media>)
    ensures forall i :: 0 <= i < |items| ==> Resolve(items)[i].media == items[i]
  {
  }

  /** An item is stored under its own file name exactly when no earlier item
      has that file name. */
  lemma ResolveKeepsFirstNames(items: seq<Media>, i: nat)
    requires i < |items|
    ensures Resolve(items)[i].fileNameInZip == items[i].file_name <==>
      forall j :: 0 <= j < i ==> items[j].file_name != items[i].file_name
  {
    var names := Names(items);
    FinalNameUnchangedIff(names, i);
    assert forall j :: 0 <= j < i ==> names[j] == items[j].file_name;
  }

  lemma ResolveAt(items: seq<Media>, i: nat)
    requires i < |items|
    ensures Resolve(items)[..i + 1] ==
      Resolve(items)[..i] + [ZipEntry(FinalName(Names(items), i), items[i])]
  {
  }

  /** Adding media never renames an item already in the list. */
  lemma ResolveAppend(items: seq<Media>, more: seq<Media>)
    ensures Resolve(items + more)[..|items|] == Resolve(items)
  {
    assert Names(items + more) == Names(items) + Names(more);
    forall i | 0 <= i < |items|
      ensures Resolve(items + more)[i] == Resolve(items)[i]
    {
      FinalNameAppend(Names(items), Names(more), i);
    }
  }

  /** Two items with the same file name are stored under different names. */
  lemma ResolveSameNameDistinct(items: seq<Media>, i: nat, j: nat)
    requires i < |items| && j < |items| && i != j
    requires items[i].file_name == items[j].file_name
    ensures Resolve(items)[i].fileNameInZip != Resolve(items)[j].fileNameInZip
  {
    SameNameDistinct(Names(items), i, j);
  }

  /** What the archive writer and the read streams are asked to do. */
  datatype ZipEvent =
    | FileAdded(name: string, mediaId: nat)
    | StreamClosed(mediaId: nat)
    | ArchiveFinished

  /** The calls made for one entry: the file is added from the media's read
      stream, and that stream is closed when it is a resource. */
  function EntryEvents(entry: ZipEntry, isResource: Media -> bool): seq<ZipEvent> {
    if isResource(entry.media)
    then [FileAdded(entry.fileNameInZip, entry.media.id), StreamClosed(entry.media.id)]
    else [FileAdded(entry.fileNameInZip, entry.media.id)]
  }

  /** The calls made for all entries, in order; the archive is not finished. */
  function EntriesTrace(entries: seq<ZipEntry>, isResource: Media -> bool): (t: seq<ZipEvent>)
    ensures |entries| <= |t| <= 2 * |entries|
  {
    if entries == [] then []
    else EntriesTrace(entries[..|entries| - 1], isResource) + EntryEvents(entries[|entries| - 1], isResource)
  }

  /** One more entry adds its own calls after those of the entries before it. */
  lemma EntriesTraceStep(entries: seq<ZipEntry>, k: nat, isResource: Media -> bool)
    requires k < |entries|
    ensures EntriesTrace(entries[..k + 1], isResource) ==
      EntriesTrace(entries[..k], isResource) + EntryEvents(entries[k], isResource)
  {
    assert entries[..k + 1][..k] == entries[..k];
  }

  /** The calls made for the entries never finish the archive. */
  lemma {:induction false} EntriesNeverFinish(entries: seq<ZipEntry>, isResource: Media -> bool)
    ensures forall k :: 0 <= k < |EntriesTrace(entries, isResource)| ==>
      !EntriesTrace(entries, isResource)[k].ArchiveFinished?
  {
    if entries != [] {
      EntriesNeverFinish(entries[..|entries| - 1], isResource);
    }
  }

  /** The complete run of getZipStream. */
  function ZipTrace(entries: seq<ZipEntry>, isResource: Media -> bool): seq<ZipEvent> {
    EntriesTrace(entries, isResource) + [ArchiveFinished]
  }

  /** The archive is finished exactly once, as the very last call, also when
      there is no entry. */
  lemma FinishedOnceAtEnd(entries: seq<ZipEntry>, isResource: Media -> bool)
    ensures var t := ZipTrace(entries, isResource);
      |t| >= 1 && t[|t| - 1] == ArchiveFinished &&
      forall k :: 0 <= k < |t| - 1 ==> !t[k].ArchiveFinished?
    ensures entries == [] ==> ZipTrace(entries, isResource) == [ArchiveFinished]
  {
    EntriesNeverFinish(entries, isResource);
  }

  /** The (name, media) pairs of the files added, in call order. */
  function Added(t: seq<ZipEvent>): seq<(string, nat)> {
    if t == [] then []
    else Added(t[..|t| - 1]) + (if t[|t| - 1].FileAdded? then [(t[|t| - 1].name, t[|t| - 1].mediaId)] else [])
  }

  lemma {:induction false} AddedAppend(a: seq<ZipEvent>, b: seq<ZipEvent>)
    ensures Added(a + b) == Added(a) + Added(b)
    decreases |b|
  {
    if b != [] {
      assert (a + b)[..|a + b| - 1] == a + b[..|b| - 1];
      assert (a + b)[|a + b| - 1] == b[|b| - 1];
      AddedAppend(a, b[..|b| - 1]);
    } else {
      assert a + b == a;
    }
  }

  /** What a file-added event says about an entry: its name and its item. */
  function AddedEntry(e: ZipEntry): (string, nat) {
    (e.fileNameInZip, e.media.id)
  }

  /** Every entry is added exactly once, under its own name, in entry order. */
  lemma FilesAddedInOrder(entries: seq<ZipEntry>, isResource: Media -> bool)
    ensures var added := Added(ZipTrace(entries, isResource));
      |added| == |entries| && forall i :: 0 <= i < |entries| ==> added[i] == AddedEntry(entries[i])
  {
    var t := EntriesTrace(entries, isResource);
    AddedAppend(t, [ArchiveFinished]);
    assert Added([ArchiveFinished]) == [] by {
      assert [ArchiveFinished][..0] == [];
    }
    EntriesAdded(entries, isResource);
  }

  lemma {:induction false} EntriesAdded(entries: seq<ZipEntry>, isResource: Media -> bool)
    ensures var added := Added(EntriesTrace(entries, isResource));
      |added| == |entries| && forall i :: 0 <= i < |entries| ==> added[i] == AddedEntry(entries[i])
  {
    if entries != [] {
      var n := |entries|;
      var front, e := entries[..n - 1], entries[n - 1];
      EntriesAdded(front, isResource);
      AddedAppend(EntriesTrace(front, isResource), EntryEvents(e, isResource));
      EntryEventsAdded(e, isResource);
      var added := Added(EntriesTrace(entries, isResource));
      assert added == Added(EntriesTrace(front, isResource)) + [AddedEntry(e)];
      forall i | 0 <= i < n
        ensures added[i] == AddedEntry(entries[i])
      {
        if i < n - 1 {
          assert entries[i] == front[i];
        }
      }
    }
  }

  /** The calls for one entry add exactly that entry. */
  lemma EntryEventsAdded(e: ZipEntry, isResource: Media -> bool)
    ensures Added(EntryEvents(e, isResource)) == [AddedEntry(e)]
  {
    var add := [FileAdded(e.fileNameInZip, e.media.id)];
    assert Added(add) == [AddedEntry(e)] by {
      assert add[..0] == [];
    }
    if isResource(e.media) {
      var events := EntryEvents(e, isResource);
      assert events[..1] == add;
    }
  }

  /** Every stream-closed event comes right after the file-added event of
      the same media item. */
  predicate ClosesFollowAdds(t: seq<ZipEvent>) {
    forall k :: 0 <= k < |t| && t[k].StreamClosed? ==> ClosedAfterAdd(t, k)
  }

  predicate ClosedAfterAdd(t: seq<ZipEvent>, k: nat)
    requires k < |t| && t[k].StreamClosed?
  {
    k > 0 && t[k - 1].FileAdded? && t[k - 1].mediaId == t[k].mediaId
  }

  /** A stream is closed right after the file was added from it. */
  lemma ClosedRightAfterAdded(entries: seq<ZipEntry>, isResource: Media -> bool)
    ensures ClosesFollowAdds(ZipTrace(entries, isResource))
  {
    var t0 := EntriesTrace(entries, isResource);
    var t := ZipTrace(entries, isResource);
    EntriesClosedRightAfterAdded(entries, isResource);
    forall k | 0 <= k < |t| && t[k].StreamClosed?
      ensures ClosedAfterAdd(t, k)
    {
      assert k < |t0| && t[k] == t0[k];
      assert ClosedAfterAdd(t0, k);
      assert t[k - 1] == t0[k - 1];
    }
  }

  lemma {:induction false} EntriesClosedRightAfterAdded(entries: seq<ZipEntry>, isResource: Media -> bool)
    ensures ClosesFollowAdds(EntriesTrace(entries, isResource))
  {
    if entries != [] {
      var front := entries[..|entries| - 1];
      var events := EntryEvents(entries[|entries| - 1], isResource);
      var t0 := EntriesTrace(front, isResource);
      var t := t0 + events;
      assert t == EntriesTrace(entries, isResource);
      EntriesClosedRightAfterAdded(front, isResource);
      forall k | 0 <= k < |t| && t[k].StreamClosed?
        ensures ClosedAfterAdd(t, k)
      {
        if k < |t0| {
          assert t[k] == t0[k];
          assert ClosedAfterAdd(t0, k);
          assert t[k - 1] == t0[k - 1];
        } else {
          assert t[k] == events[k - |t0|];
          assert k == |t0| + 1;
          assert t[k - 1] == events[0];
        }
      }
    }
  }

  /** The file of entry e is added and its stream is closed by the very
      next call. */
  predicate AddedThenClosed(t: seq<ZipEvent>, e: ZipEntry) {
    exists k :: 0 <= k < |t| - 1 && t[k] == FileAdded(e.fileNameInZip, e.media.id) &&
      t[k + 1] == StreamClosed(e.media.id)
  }

  /** Some entry whose stream is a resource belongs to the media item id. */
  predicate IsResourceOf(entries: seq<ZipEntry>, isResource: Media -> bool, id: nat) {
    exists i :: 0 <= i < |entries| && isResource(entries[i].media) && entries[i].media.id == id
  }

  /** Every resource stream is closed right after its file was added. */
  lemma EveryResourceClosed(entries: seq<ZipEntry>, isResource: Media -> bool)
    ensures forall i :: 0 <= i < |entries| && isResource(entries[i].media) ==>
      AddedThenClosed(ZipTrace(entries, isResource), entries[i])
  {
    var t0 := EntriesTrace(entries, isResource);
    var t := ZipTrace(entries, isResource);
    EntriesCloseEveryResource(entries, isResource);
    forall i | 0 <= i < |entries| && isResource(entries[i].media)
      ensures AddedThenClosed(t, entries[i])
    {
      assert AddedThenClosed(t0, entries[i]);
      var k :| 0 <= k < |t0| - 1 && t0[k] == FileAdded(entries[i].fileNameInZip, entries[i].media.id) &&
        t0[k + 1] == StreamClosed(entries[i].media.id);
      assert t[k] == t0[k] && t[k + 1] == t0[k + 1];
    }
  }

  lemma {:induction false} EntriesCloseEveryResource(entries: seq<ZipEntry>, isResource: Media -> bool)
    ensures forall i :: 0 <= i < |entries| && isResource(entries[i].media) ==>
      AddedThenClosed(EntriesTrace(entries, isResource), entries[i])
  {
    if entries != [] {
      var n := |entries|;
      var front, e := entries[..n - 1], entries[n - 1];
      var events := EntryEvents(e, isResource);
      var t0 := EntriesTrace(front, isResource);
      var t := t0 + events;
      assert t == EntriesTrace(entries, isResource);
      EntriesCloseEveryResource(front, isResource);
      forall i | 0 <= i < n && isResource(entries[i].media)
        ensures AddedThenClosed(t, entries[i])
      {
        if i < n - 1 {
          assert entries[i] == front[i];
          assert AddedThenClosed(t0, front[i]);
          var k :| 0 <= k < |t0| - 1 && t0[k] == FileAdded(front[i].fileNameInZip, front[i].media.id) &&
            t0[k + 1] == StreamClosed(front[i].media.id);
          assert t[k] == t0[k] && t[k + 1] == t0[k + 1];
        } else {
          assert t[|t0|] == events[0] && t[|t0| + 1] == events[1];
        }
      }
    }
  }

  /** Every stream closed in t belongs to an entry whose stream is a
      resource. */
  predicate ClosesOnlyResources(t: seq<ZipEvent>, entries: seq<ZipEntry>, isResource: Media -> bool) {
    forall k :: 0 <= k < |t| && t[k].StreamClosed? ==> IsResourceOf(entries, isResource, t[k].mediaId)
  }

  /** No stream is closed unless it belongs to an entry whose stream is a
      resource. */
  lemma OnlyResourcesClosed(entries: seq<ZipEntry>, isResource: Media -> bool)
    ensures ClosesOnlyResources(ZipTrace(entries, isResource), entries, isResource)
  {
    var t0 := EntriesTrace(entries, isResource);
    var t := ZipTrace(entries, isResource);
    EntriesCloseOnlyResources(entries, isResource);
    forall k | 0 <= k < |t| && t[k].StreamClosed?
      ensures IsResourceOf(entries, isResource, t[k].mediaId)
    {
      assert k < |t0| && t[k] == t0[k];
      assert ClosesOnlyResources(t0, entries, isResource);
    }
  }

  lemma {:induction false} EntriesCloseOnlyResources(entries: seq<ZipEntry>, isResource: Media -> bool)
    ensures ClosesOnlyResources(EntriesTrace(entries, isResource), entries, isResource)
  {
    if entries != [] {
      var n := |entries|;
      var front, e := entries[..n - 1], entries[n - 1];
      var events := EntryEvents(e, isResource);
      var t0 := EntriesTrace(front, isResource);
      var t := t0 + events;
      assert t == EntriesTrace(entries, isResource);
      EntriesCloseOnlyResources(front, isResource);
      forall k | 0 <= k < |t| && t[k].StreamClosed?
        ensures IsResourceOf(entries, isResource, t[k].mediaId)
      {
        if k < |t0| {
          assert t[k] == t0[k];
          assert ClosesOnlyResources(t0, front, isResource);
          assert IsResourceOf(front, isResource, t0[k].mediaId);
          var i :| 0 <= i < |front| && isResource(front[i].media) && front[i].media.id == t0[k].mediaId;
          assert entries[i] == front[i];
        } else {
          assert t[k] == events[k - |t0|];
          assert isResource(e.media) && t[k].mediaId == e.media.id;
          assert entries[n - 1] == e;
        }
      }
    }
  }

  /** The ZipStream writer, seen from outside: it records each call made on
      it, together with the closing of the read streams it was given. A
      finished archive takes no further entry and no second finish. */
  class ZipSink {
    const zipName: string
    var events: seq<ZipEvent>
    var finished: bool

    constructor (zipName: string)
      ensures this.zipName == zipName && events == [] && !finished
    {
      this.zipName := zipName;
      events := [];
      finished := false;
    }

    method AddFileFromStream(name: string, media: Media)
      requires !finished
      modifies this
      ensures events == old(events) + [FileAdded(name, media.id)] && !finished
    {
      events := events + [FileAdded(name, media.id)];
    }

    method CloseStream(media: Media)
      modifies this
      ensures events == old(events) + [StreamClosed(media.id)] && finished == old(finished)
    {
      events := events + [StreamClosed(media.id)];
    }

    method Finish()
      requires !finished
      modifies this
      ensures events == old(events) + [ArchiveFinished] && finished
    {
      events := events + [ArchiveFinished];
      finished := true;
    }
  }

  class MediaStream {
    const zipName: string
    var mediaItems: seq<Media>

    constructor (zipName: string)
      ensures this.zipName == zipName && mediaItems == []
    {
      this.zipName := zipName;
      mediaItems := [];
    }

    static method Create(zipName: string) returns (stream: MediaStream)
      ensures fresh(stream) && stream.zipName == zipName && stream.mediaItems == []
    {
      stream := new MediaStream(zipName);
    }

    /** Appends the flattened arguments; returns this object for chaining. */
    method AddMedia(args: seq<MediaArg>) returns (self: MediaStream)
      modifies this
      ensures self == this
      ensures mediaItems == old(mediaItems) + Flatten(args)
    {
      var flat := Flatten(args);
      var k := 0;
      while k < |flat|
        invariant k <= |flat|
        invariant mediaItems == old(mediaItems) + flat[..k]
      {
        mediaItems := mediaItems + [flat[k]];
        k := k + 1;
      }
      self := this;
    }

    method GetMediaItems() returns (items: seq<Media>)
      ensures items == mediaItems
    {
      items := mediaItems;
    }

    /** The final name of items[currentIndex]: a scan of the earlier items
        that counts those with exactly the same file name. */
    method GetFileNameWithSuffix(items: seq<Media>, currentIndex: nat) returns (name: string)
      requires currentIndex < |items|
      ensures name == FinalName(Names(items), currentIndex)
    {
      ghost var names := Names(items);
      var fileNameCount := 0;
      var fileName := items[currentIndex].file_name;
      assert fileName == names[currentIndex];
      var index := 0;
      while index < |items|
        invariant index <= currentIndex
        invariant fileNameCount == CountBefore(names, fileName, index)
      {
        if index >= currentIndex {
          break;
        }
        assert names[index] == items[index].file_name;
        if items[index].file_name == fileName {
          fileNameCount := fileNameCount + 1;
        }
        index := index + 1;
      }
      if fileNameCount == 0 {
        return fileName;
      }
      var extension := PathInfo.Extension(fileName);
      var fileNameWithoutExtension := PathInfo.FileNameWithoutExtension(fileName);
      name := fileNameWithoutExtension + " (" + Decimal.NatToString(fileNameCount) + ")." + extension;
      assert name == Suffixed(fileName, fileNameCount);
    }

    /** Every item paired with its final name, in list order. */
    method GetZipStreamContents() returns (contents: seq<ZipEntry>)
      ensures contents == Resolve(mediaItems)
    {
      var items := mediaItems;
      ghost var resolved := Resolve(items);
      contents := [];
      var i := 0;
      while i < |items|
        invariant i <= |items|
        invariant contents == resolved[..i]
      {
        var fileNameInZip := GetFileNameWithSuffix(items, i);
        ResolveAt(items, i);
        contents := contents + [ZipEntry(fileNameInZip, items[i])];
        assert contents == resolved[..i + 1];
        i := i + 1;
      }
      assert resolved[..i] == resolved;
    }

    /** Streams every entry into a new archive named zipName, closing each
        read stream that is a resource, then finishes the archive.
        isResource stands for is_resource() on the stream of a media item. */
    method GetZipStream(isResource: Media -> bool) returns (zip: ZipSink)
      ensures fresh(zip) && zip.zipName == zipName && zip.finished
      ensures zip.events == ZipTrace(Resolve(mediaItems), isResource)
    {
      zip := new ZipSink(zipName);
      var contents := GetZipStreamContents();
      var k := 0;
      while k < |contents|
        invariant k <= |contents|
        invariant !zip.finished
        invariant zip.events == EntriesTrace(contents[..k], isResource)
      {
        var entry := contents[k];
        EntriesTraceStep(contents, k, isResource);
        ghost var before := zip.events;
        zip.AddFileFromStream(entry.fileNameInZip, entry.media);
        if isResource(entry.media) {
          zip.CloseStream(entry.media);
          assert zip.events == before + [FileAdded(entry.fileNameInZip, entry.media.id), StreamClosed(entry.media.id)];
        }
        k := k + 1;
      }
      assert contents[..k] == contents;
      zip.Finish();
    }
  }
}
