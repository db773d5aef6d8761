/** "Download All" of src/components/BgRemoval.tsx (handleDownloadAll): the
    ready items, one zip entry per item under its export name, the success
    counter, and what the handler ends with.

    JSZip's `zip.file(name, data)` replaces an entry of the same name, so the
    archive is a map from entry name to bytes in which a later item wins.
    Compression and `generateAsync` are not modelled: the saved archive is
    that map. */
module Archive {
  import opened Seqs
  import opened Items
  import opened Sanitize

  /** How the handler ends: nothing ready (a warning and no download), the
      zero-success error shown in an alert, or a zip saved under `fileName`
      holding `entries`, after `count` items were added. */
  datatype ZipResult =
    | NothingReady
    | ZipFailed(message: string)
    | Saved(fileName: string, entries: map<string, Bytes>, count: nat)

  const NoImagesMessage: string := "No images could be added to zip"

  /** The entries after `zip.file(ExportName(it.name), it.processedBlob)` for
      every item of `ready` in order, skipping items without a blob. */
  function Archive(ready: seq<Item>): map<string, Bytes>
  {
    if ready == [] then map[]
    else
      var init := ready[..|ready| - 1];
      var last := ready[|ready| - 1];
      if HasBlob(last) then Archive(init)[ExportName(last.name) := last.processedBlob.value]
      else Archive(init)
  }

  /** The archive has at most one entry per item added: a name used twice
      makes one entry. */
  lemma {:induction false} ArchiveSize(ready: seq<Item>)
    ensures |Archive(ready)| <= |Filter(ready, HasBlob)|
  {
    if ready != [] {
      var init := ready[..|ready| - 1];
      var last := ready[|ready| - 1];
      ArchiveSize(init);
      FilterSnoc(init, last, HasBlob);
      assert ready == init + [last];
      if HasBlob(last) {
        var after := Archive(init)[ExportName(last.name) := last.processedBlob.value];
        assert after.Keys == Archive(init).Keys + {ExportName(last.name)};
      }
    }
  }

  /** `new Date().toISOString().slice(0, 10)`: the first ten characters of
      the clock's ISO timestamp, which the caller supplies. */
  function DateStamp(iso: string): (r: string)
    ensures |r| == if |iso| < 10 then |iso| else 10
    ensures r == iso[..|r|]
  {
    if |iso| <= 10 then iso else iso[..10]
  }

  /** `softstash-${timestamp}.zip`. */
  function ZipName(iso: string): (r: string)
    ensures 14 <= |r| <= 24
    ensures r[..10] == "softstash-" && r[|r| - 4..] == ".zip"
    ensures r[10..|r| - 4] == DateStamp(iso)
  {
    "softstash-" + DateStamp(iso) + ".zip"
  }

  /** The handler on the ready items it filtered: nothing when there are
      none, the error when no item was added, otherwise the archive saved
      under the dated name. */
  function ExportAll(ready: seq<Item>, iso: string): (r: ZipResult)
    ensures r.NothingReady? <==> ready == []
    ensures r.Saved? ==> r.count == |Filter(ready, HasBlob)| && r.count > 0 && |r.entries| <= r.count
  {
    if ready == [] then NothingReady
    else
      var count := |Filter(ready, HasBlob)|;
      if count == 0 then ZipFailed(NoImagesMessage)
      else
        ArchiveSize(ready);
        Saved(ZipName(iso), Archive(ready), count)
  }

  /** The loop of handleDownloadAll: adds each item that has a blob to the
      zip and counts it. */
  method BuildArchive(ready: seq<Item>) returns (zip: map<string, Bytes>, successCount: nat)
    ensures zip == Archive(ready)
    ensures successCount == |Filter(ready, HasBlob)|
  {
    zip := map[];
    successCount := 0;
    var k := 0;
    while k < |ready|
      invariant 0 <= k <= |ready|
      invariant zip == Archive(ready[..k])
      invariant successCount == |Filter(ready[..k], HasBlob)|
    {
      var it := ready[k];
      ArchivePrefix(ready, k);
      if it.processedBlob.Some? {
        zip := zip[ExportName(it.name) := it.processedBlob.value];
        successCount := successCount + 1;
      }
      assert zip == Archive(ready[..k + 1]) && successCount == |Filter(ready[..k + 1], HasBlob)|;
      k := k + 1;
    }
    assert ready[..k] == ready;
  }

  /** The try block of handleDownloadAll past the empty check: build the
      archive, throw when nothing was added, otherwise name the zip. */
  method PackReady(ready: seq<Item>, iso: string) returns (r: ZipResult)
    requires ready != []
    ensures r == ExportAll(ready, iso)
  {
    var zip, successCount := BuildArchive(ready);
    if successCount == 0 {
      r := ZipFailed(NoImagesMessage);
    } else {
      r := Saved(ZipName(iso), zip, successCount);
    }
  }

  /** Extending the prefix of `ready` handled so far by one item. */
  lemma ArchivePrefix(ready: seq<Item>, k: int)
    requires 0 <= k < |ready|
    ensures Archive(ready[..k + 1])
            == if HasBlob(ready[k]) then Archive(ready[..k])[ExportName(ready[k].name) := ready[k].processedBlob.value]
               else Archive(ready[..k])
    ensures |Filter(ready[..k + 1], HasBlob)| == |Filter(ready[..k], HasBlob)| + if HasBlob(ready[k]) then 1 else 0
  {
    assert ready[..k + 1] == ready[..k] + [ready[k]];
    ArchiveSnoc(ready[..k], ready[k]);
    FilterSnoc(ready[..k], ready[k], HasBlob);
  }

  /** One more item adds its entry, or nothing when it has no blob. */
  lemma ArchiveSnoc(s: seq<Item>, x: Item)
    ensures Archive(s + [x]) == if HasBlob(x) then Archive(s)[ExportName(x.name) := x.processedBlob.value] else Archive(s)
  {
    assert (s + [x])[..|s|] == s;
  }

  /** Every item with a blob has an entry under its export name. */
  lemma {:induction false} ArchiveHasKey(ready: seq<Item>, i: int)
    requires 0 <= i < |ready| && HasBlob(ready[i])
    ensures ExportName(ready[i].name) in Archive(ready)
  {
    var init := ready[..|ready| - 1];
    assert ready == init + [ready[|ready| - 1]];
    ArchiveSnoc(init, ready[|ready| - 1]);
    if i < |init| {
      assert init[i] == ready[i];
      ArchiveHasKey(init, i);
    }
  }

  /** Every entry comes from an item with a blob: the index i of one. */
  lemma {:induction false} ArchiveKeyOrigin(ready: seq<Item>, n: string) returns (i: int)
    requires n in Archive(ready)
    ensures 0 <= i < |ready| && HasBlob(ready[i]) && ExportName(ready[i].name) == n
  {
    var init := ready[..|ready| - 1];
    var last := ready[|ready| - 1];
    assert ready == init + [last];
    ArchiveSnoc(init, last);
    if HasBlob(last) && ExportName(last.name) == n {
      i := |ready| - 1;
    } else {
      i := ArchiveKeyOrigin(init, n);
      assert init[i] == ready[i];
    }
  }

  /** An entry holds the blob of the last item exported under its name: an
      earlier item with the same export name is overwritten. */
  lemma {:induction false} ArchiveLastWins(ready: seq<Item>, i: int)
    requires 0 <= i < |ready| && HasBlob(ready[i])
    requires forall j :: i < j < |ready| && HasBlob(ready[j]) ==> ExportName(ready[j].name) != ExportName(ready[i].name)
    ensures ExportName(ready[i].name) in Archive(ready)
    ensures Archive(ready)[ExportName(ready[i].name)] == ready[i].processedBlob.value
  {
    var init := ready[..|ready| - 1];
    if i < |ready| - 1 {
      assert init[i] == ready[i];
      ArchiveLastWins(init, i);
    }
  }

  /** Filtering the store's ready items again keeps them all, so when the
      handler gets past its empty check the counter equals the number of
      ready items; the zero-success error is unreachable. */
  lemma ExportAllNeverFails(items: seq<Item>, iso: string)
    ensures !ExportAll(Ready(items), iso).ZipFailed?
    ensures ExportAll(Ready(items), iso).NothingReady? <==> ReadyCount(items) == 0
    ensures ExportAll(Ready(items), iso).Saved? ==>
              && ExportAll(Ready(items), iso).count == ReadyCount(items)
              && ExportAll(Ready(items), iso).fileName == ZipName(iso)
              && ExportAll(Ready(items), iso).entries == Archive(Ready(items))
  {
    FilterIdempotent(items, HasBlob);
  }

  /** The "Download All" button is enabled exactly when a click would save
      an archive holding the button's count of items. */
  lemma EnabledButtonSaves(items: seq<Item>, iso: string)
    ensures !DownloadAllDisabled(items, false) <==> ExportAll(Ready(items), iso).Saved?
  {
    ExportAllNeverFails(items, iso);
  }

  /** Two done images with the same export name share one entry: the
      archive holds the later result although both were counted. */
  lemma SameExportNameCollides(a: Item, b: Item)
    requires HasBlob(a) && HasBlob(b) && ExportName(a.name) == ExportName(b.name)
    ensures Archive([a, b]) == map[ExportName(a.name) := b.processedBlob.value]
    ensures |Filter([a, b], HasBlob)| == 2
  {
    ArchivePair(a, b);
    BothCounted(a, b);
  }

  /** The archive of two items with blobs: the second entry written over
      the first. */
  lemma ArchivePair(a: Item, b: Item)
    requires HasBlob(a) && HasBlob(b)
    ensures Archive([a, b])
            == map[ExportName(a.name) := a.processedBlob.value][ExportName(b.name) := b.processedBlob.value]
  {
    ArchiveSnoc([], a);
    assert [] + [a] == [a];
    ArchiveSnoc([a], b);
    assert [a] + [b] == [a, b];
  }

  /** Two items with blobs are both counted. */
  lemma BothCounted(a: Item, b: Item)
    requires HasBlob(a) && HasBlob(b)
    ensures |Filter([a, b], HasBlob)| == 2
  {
    FilterKeepsAll([a, b], HasBlob);
  }

  /** Export names ignore the extension, so "cat photo.png" and
      "cat photo.jpg", both done, collide in the archive. */
  lemma ExtensionTwinsCollide(a: Item, b: Item, base: string, ext1: string, ext2: string)
    requires a.name == base + "." + ext1 && b.name == base + "." + ext2
    requires |ext1| > 0 && '.' !in ext1 && |ext2| > 0 && '.' !in ext2
    requires HasBlob(a) && HasBlob(b)
    ensures |Archive([a, b])| == 1 && |Filter([a, b], HasBlob)| == 2
  {
    ExportNameIgnoresExtension(base, ext1, ext2);
    SameExportNameCollides(a, b);
  }
}
