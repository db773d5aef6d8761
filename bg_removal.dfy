/** The background-removal component of src/components/BgRemoval.tsx as an
    object whose fields are its React state: the item store, the `runRef`
    re-entrancy flag of the auto-process effect, the "processing" and
    "zipping" indicators, the before/after toggle, and a counter standing for
    `URL.createObjectURL`, with the URLs passed to `URL.revokeObjectURL`
    kept in a ghost set.

    Every handler runs to completion before the next one starts; the awaits
    inside processOne and the drain are not interleaved with other events.
    The outcomes of `removeBackground`, the random id suffixes and the clock
    are parameters. */
module BgRemoval {
  import opened Seqs
  import opened Items
  import opened Scheduler
  import opened Archive
  import opened Sanitize

  class Pipeline {
    var items: seq<Item>
    var runRef: bool
    var processingAll: bool
    var zipping: bool
    var showAfter: bool
    /** The number of object URLs minted so far; the next one is this. */
    var nextHandle: Handle
    ghost var revoked: set<Handle>
    /** The `items` of the first render, which the unmount cleanup closes
        over (its effect has no dependencies). */
    const mountItems: seq<Item>

    /** The store invariant, and the first render's store was empty. */
    ghost predicate Valid()
      reads this`items, this`nextHandle, this`revoked
    {
      StoreInvariant(items, nextHandle, revoked) && mountItems == []
    }

    /** The first render: no items, nothing running, the "after" view on. */
    constructor()
      ensures Valid()
      ensures items == [] && !runRef && !processingAll && !zipping && showAfter
      ensures nextHandle == 0 && revoked == {}
    {
      items := [];
      runRef := false;
      processingAll := false;
      zipping := false;
      showAfter := true;
      nextHandle := 0;
      revoked := {};
      mountItems := [];
    }

    /** `onDrop`: an empty batch changes nothing; otherwise, once every file
        is read, the new items are appended in file order. The suffixes
        stand for `Math.random().toString(36).slice(2)` and must make the
        new ids fresh. */
    method OnDrop(files: seq<File>, suffixes: seq<string>)
      requires Valid()
      requires |suffixes| == |files|
      requires UniqueIds(items + NewItems(files, suffixes))
      modifies this`items
      ensures Valid()
      ensures items == old(items) + NewItems(files, suffixes)
    {
      if |files| == 0 {
        assert NewItems(files, suffixes) == [];
        assert items + [] == items;
        return;
      }
      IngestKeepsInvariant(items, nextHandle, revoked, files, suffixes);
      items := items + NewItems(files, suffixes);
    }

    /** `processOne(id)` with closure store `view` and the outcome of the
        fetch and `removeBackground` calls: mark, look up, then mint a URL
        and finish, or fail. */
    method ProcessOne(id: string, view: seq<Item>, outcome: Outcome)
      modifies this`items, this`nextHandle
      ensures State(items, nextHandle) == Step(State(old(items), old(nextHandle)), view, id, outcome)
    {
      items := MapById(items, id, StartProcessing);
      var item := Find(view, id);
      if item.None? {
        return;
      }
      match outcome {
        case Removed(result) =>
          var url := nextHandle;
          nextHandle := nextHandle + 1;
          items := MapById(items, id, Succeed(url, result));
        case Failed =>
          items := MapById(items, id, Fail);
      }
    }

    /** The auto-process effect: nothing when no item is pending or a drain
        is already running; otherwise the guard is set, every pending item
        of the store as it is now is processed in order, each call getting
        the next outcome and seeing this same store, and the guard is
        cleared. */
    method Drain(outs: seq<Outcome>)
      requires Valid()
      requires |outs| == |Pending(items)|
      modifies this`items, this`nextHandle, this`runRef, this`processingAll
      ensures Valid()
      ensures old(runRef) || |Pending(old(items))| == 0 ==>
                && items == old(items) && nextHandle == old(nextHandle)
                && runRef == old(runRef) && processingAll == old(processingAll)
      ensures !old(runRef) && |Pending(old(items))| > 0 ==>
                && State(items, nextHandle)
                   == Drained(State(old(items), old(nextHandle)), old(items), Ids(Pending(old(items))), outs)
                && !runRef && !processingAll
    {
      var pending := Pending(items);
      if |pending| == 0 {
        return;
      }
      if runRef {
        return;
      }
      runRef := true;
      DrainKeepsInvariant(items, nextHandle, revoked, outs);
      RunPending(items, Ids(pending), outs);
    }

    /** The effect's `run` closure: raise the indicator, `await
        processOne(id)` for each id of the snapshot in order with closure
        store `view`, then lower the indicator and clear the guard. */
    method RunPending(view: seq<Item>, ids: seq<string>, outs: seq<Outcome>)
      requires |ids| <= |outs|
      modifies this`items, this`nextHandle, this`runRef, this`processingAll
      ensures State(items, nextHandle) == Drained(State(old(items), old(nextHandle)), view, ids, outs)
      ensures !runRef && !processingAll
    {
      processingAll := true;
      var k := 0;
      while k < |ids|
        invariant 0 <= k <= |ids|
        invariant State(items, nextHandle) == Run(State(old(items), old(nextHandle)), view, ids, outs, k)
      {
        ProcessOne(ids[k], view, outs[k]);
        k := k + 1;
      }
      processingAll := false;
      runRef := false;
    }

    /** `handleDownloadOne(it)`: nothing without a result blob; otherwise the
        blob is offered under its export name through a fresh URL that is
        revoked a second later. */
    method DownloadOne(it: Item) returns (fileName: Option<string>)
      requires Valid()
      modifies this`nextHandle, this`revoked
      ensures Valid()
      ensures fileName.None? <==> !HasBlob(it)
      ensures fileName.Some? ==> fileName.value == ExportName(it.name)
      ensures nextHandle == old(nextHandle) + (if HasBlob(it) then 1 else 0)
      ensures revoked == old(revoked) + (if HasBlob(it) then {old(nextHandle)} else {})
    {
      if it.processedBlob.None? {
        fileName := None;
        return;
      }
      OfferDownload();
      fileName := Some(ExportName(it.name));
    }

    /** `URL.createObjectURL(blob)` for a download link, with the
        `setTimeout(() => URL.revokeObjectURL(url), 1000)` that follows it
        taken as done: a fresh URL is minted and revoked. */
    method OfferDownload()
      requires Valid()
      modifies this`nextHandle, this`revoked
      ensures Valid()
      ensures nextHandle == old(nextHandle) + 1 && revoked == old(revoked) + {old(nextHandle)}
    {
      var url := nextHandle;
      DownloadUrlKeepsInvariant(items, nextHandle, revoked);
      nextHandle := nextHandle + 1;
      revoked := revoked + {url};
    }

    /** `handleDownloadAll()` with the clock's ISO timestamp: the outcome
        ExportAll describes; a saved archive goes through a fresh URL that
        is revoked a second later, and the zipping flag ends cleared. */
    method DownloadAll(iso: string) returns (r: ZipResult)
      requires Valid()
      modifies this`zipping, this`nextHandle, this`revoked
      ensures Valid()
      ensures r == ExportAll(Ready(items), iso)
      ensures r.NothingReady? ==> zipping == old(zipping)
      ensures !r.NothingReady? ==> !zipping
      ensures nextHandle == old(nextHandle) + (if r.Saved? then 1 else 0)
      ensures revoked == old(revoked) + (if r.Saved? then {old(nextHandle)} else {})
    {
      var ready := Ready(items);
      if |ready| == 0 {
        r := NothingReady;
        return;
      }
      zipping := true;
      r := PackReady(ready, iso);
      if r.Saved? {
        OfferDownload();
      }
      zipping := false;
    }

    /** `s.forEach(item => { if (item.processed) URL.revokeObjectURL(...) })`. */
    method RevokeAll(s: seq<Item>)
      modifies this`revoked
      ensures revoked == old(revoked) + Handles(s)
    {
      var k := 0;
      while k < |s|
        invariant 0 <= k <= |s|
        invariant revoked == old(revoked) + Handles(s[..k])
      {
        assert s[..k + 1][..k] == s[..k];
        if s[k].processed.Some? {
          revoked := revoked + {s[k].processed.value};
        }
        k := k + 1;
      }
      assert s[..k] == s;
    }

    /** `handleClear()`: revokes every display URL of the store and empties
        it. */
    method Clear()
      requires Valid()
      modifies this`items, this`revoked
      ensures Valid()
      ensures items == [] && revoked == old(revoked) + Handles(old(items))
    {
      ClearKeepsInvariant(items, nextHandle, revoked);
      RevokeAll(items);
      items := [];
    }

    /** `handleDeleteOne(id)`: revokes the display URL of the first item
        with that id, if any, and removes every item with that id. */
    method DeleteOne(id: string)
      requires Valid()
      modifies this`items, this`revoked
      ensures Valid()
      ensures items == Without(old(items), id)
      ensures revoked == old(revoked) + DeletedHandles(old(items), id)
      ensures forall i :: 0 <= i < |old(items)| && old(items)[i].id == id && old(items)[i].processed.Some? ==>
                old(items)[i].processed.value in revoked
    {
      DeleteKeepsInvariant(items, nextHandle, revoked, id);
      forall i | 0 <= i < |items| && items[i].id == id && items[i].processed.Some?
        ensures items[i].processed.value in DeletedHandles(items, id)
      {
        DeleteRevokesOwnUrl(items, id, i);
      }
      var item := Find(items, id);
      if item.Some? && item.value.processed.Some? {
        revoked := revoked + {item.value.processed.value};
      }
      items := Without(items, id);
    }

    /** The unmount cleanup as written: it walks the store of the first
        render, which was empty, so it revokes nothing. */
    method Unmount()
      requires Valid()
      modifies this`revoked
      ensures revoked == old(revoked) + Handles(mountItems)
      ensures revoked == old(revoked)
    {
      RevokeAll(mountItems);
    }

    /** The cleanup its comment describes: revoke the display URL of every
        item in the store at unmount. */
    method UnmountRevokingAll()
      requires Valid()
      modifies this`revoked
      ensures revoked == old(revoked) + Handles(items)
      ensures forall i :: 0 <= i < |items| && items[i].processed.Some? ==> items[i].processed.value in revoked
    {
      RevokeAll(items);
    }

    /** The "Show Before" / "Show After" button. */
    method ToggleShowAfter()
      modifies this`showAfter
      ensures showAfter == !old(showAfter)
    {
      showAfter := !showAfter;
    }
  }

  /** The unmount leak end to end: one image is dropped, the drain gives it
      a result with display URL 0, and the page unmounts; URL 0 is still
      held by the store and was never revoked. */
  method UnmountLeaksDisplayUrl(f: File, suffix: string, result: Bytes) returns (p: Pipeline)
    ensures |p.items| == 1 && p.items[0].processed == Some(0)
    ensures 0 !in p.revoked
  {
    p := new Pipeline();
    OneFileDropped(f, suffix);
    p.OnDrop([f], [suffix]);
    OneItemDrained(NewItem(f, suffix), result);
    p.Drain([Removed(result)]);
    p.Unmount();
  }

  /** Dropping one file on an empty store gives a store of its new item. */
  lemma OneFileDropped(f: File, suffix: string)
    ensures [] + NewItems([f], [suffix]) == [NewItem(f, suffix)]
    ensures UniqueIds([] + NewItems([f], [suffix]))
  {
    assert [] + NewItems([f], [suffix]) == NewItems([f], [suffix]);
  }

  /** A drain over a store of one fresh item whose removal succeeds gives
      it the first display URL. */
  lemma OneItemDrained(it: Item, result: Bytes)
    requires IsPending(it) && WellFormed(it)
    ensures Pending([it]) == [it]
    ensures var fin := Drained(State([it], 0), [it], Ids([it]), [Removed(result)]);
            |fin.items| == 1 && fin.items[0].processed == Some(0)
  {
    var store, outs := [it], [Removed(result)];
    FilterKeepsAll(store, IsPending);
    assert StoreInvariant(store, 0, {});
    var k := DrainedAt(store, 0, {}, outs, 0);
    assert k == 0 && Successes(outs, 0) == 0;
  }
}
