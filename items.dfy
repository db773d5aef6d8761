/** The item store of the background-removal component
    (src/components/BgRemoval.tsx): the `ImageItem` record, how files become
    items, the per-id updates that `processOne` applies with `prev.map`, the
    `filter` views the component takes of the store, the invariant every
    operation keeps, and what the page shows of an item. */
module Items {
  import opened Seqs

  /** Binary payloads are opaque here: a data URL, a Blob or a zip entry. */
  type Bytes = seq<bv8>

  /** A display URL made by `URL.createObjectURL`: the n-th URL minted. */
  type Handle = nat

  datatype Status = Idle | Processing | Done | Error

  /** `ImageItem`: `processed` is the display URL of the result and
      `processedBlob` the result itself; both start as `null`. */
  datatype Item = Item(
    id: string,
    name: string,
    original: Bytes,
    processed: Option<Handle>,
    processedBlob: Option<Bytes>,
    status: Status,
    progress: int)

  /** A dropped file, with the metadata the id is built from. */
  datatype File = File(name: string, size: nat, lastModified: int, content: Bytes)

  // ---------------------------------------------------------------------
  // Ingestion (onDrop)
  // ---------------------------------------------------------------------

  function DigitChar(d: nat): (c: char)
    requires d < 10
    ensures '0' <= c <= '9'
  {
    (48 + d) as char
  }

  /** The decimal text of a number, as a template literal prints it. */
  function Decimal(n: nat): (r: string)
    ensures |r| >= 1 && forall c :: c in r ==> '0' <= c <= '9'
  {
    if n < 10 then [DigitChar(n)] else Decimal(n / 10) + [DigitChar(n % 10)]
  }

  /** The text of an integer, as a template literal prints it: a minus sign
      before the digits of a negative number. */
  function NumberText(n: int): (r: string)
    ensures |r| >= 1 && (r[0] == '-' <==> n < 0)
  {
    if n < 0 then "-" + Decimal(-n)
    else var d := Decimal(n); assert d[0] in d; d
  }

  /** The number a string of decimal digits denotes, read most significant
      digit first. */
  function DigitsValue(s: string): int
  {
    if s == [] then 0 else DigitsValue(s[..|s| - 1]) * 10 + (s[|s| - 1] as int - '0' as int)
  }

  /** The number a printed integer denotes: digits, or a minus sign and
      digits. */
  function SignedValue(s: string): int
  {
    if s != [] && s[0] == '-' then -DigitsValue(s[1..]) else DigitsValue(s)
  }

  /** Decimal prints n: its digits read back as n. */
  lemma {:induction false} DecimalValue(n: nat)
    ensures DigitsValue(Decimal(n)) == n
  {
    if n >= 10 {
      DecimalValue(n / 10);
      var r := Decimal(n);
      assert r[..|r| - 1] == Decimal(n / 10);
    }
  }

  /** NumberText prints n: the text reads back as n, sign included. */
  lemma NumberTextValue(n: int)
    ensures SignedValue(NumberText(n)) == n
  {
    if n < 0 {
      DecimalValue(-n);
      assert NumberText(n)[1..] == Decimal(-n);
    } else {
      DecimalValue(n);
    }
  }

  /** `${name}-${size}-${lastModified}-${suffix}` where `suffix` stands for
      the base-36 digits of `Math.random()`, which the caller supplies. */
  function MakeId(f: File, suffix: string): string
  {
    f.name + "-" + Decimal(f.size) + "-" + NumberText(f.lastModified) + "-" + suffix
  }

  /** The item a `FileReader` callback resolves with. */
  function NewItem(f: File, suffix: string): (r: Item)
    ensures IsPending(r) && WellFormed(r)
  {
    Item(MakeId(f, suffix), f.name, f.content, None, None, Idle, 0)
  }

  /** The batch `Promise.all(readers)` resolves with: one item per file, in
      file order. */
  function NewItems(files: seq<File>, suffixes: seq<string>): (r: seq<Item>)
    requires |suffixes| == |files|
    ensures |r| == |files|
  {
    seq(|files|, i requires 0 <= i < |files| => NewItem(files[i], suffixes[i]))
  }

  /** Two reads of the very same file get different ids exactly when their
      random suffixes differ. */
  lemma DistinctSuffixesDistinctIds(f: File, s1: string, s2: string)
    ensures MakeId(f, s1) == MakeId(f, s2) <==> s1 == s2
  {
    var p := f.name + "-" + Decimal(f.size) + "-" + NumberText(f.lastModified) + "-";
    assert MakeId(f, s1) == p + s1 && MakeId(f, s2) == p + s2;
    if p + s1 == p + s2 {
      assert s1 == (p + s1)[|p|..];
      assert s2 == (p + s2)[|p|..];
    }
  }

  // ---------------------------------------------------------------------
  // Per-id updates (processOne's prev.map calls)
  // ---------------------------------------------------------------------

  /** The three object spreads of `processOne`. */
  datatype Transition = StartProcessing | Succeed(handle: Handle, blob: Bytes) | Fail

  function Apply(t: Transition, it: Item): (r: Item)
    ensures r.id == it.id && r.name == it.name && r.original == it.original
  {
    match t
    case StartProcessing => it.(status := Processing, progress := 0)
    case Succeed(h, b) => it.(processed := Some(h), processedBlob := Some(b), status := Done, progress := 100)
    case Fail => it.(status := Error)
  }

  /** `prev.map(it => it.id === id ? update(it) : it)`: the store keeps its
      length and order, the items with that id are updated and every other
      item is left as it was. */
  function MapById(items: seq<Item>, id: string, t: Transition): (r: seq<Item>)
    ensures |r| == |items|
    ensures forall i {:trigger r[i]} :: 0 <= i < |items| ==>
              r[i] == if items[i].id == id then Apply(t, items[i]) else items[i]
  {
    seq(|items|, i requires 0 <= i < |items| => if items[i].id == id then Apply(t, items[i]) else items[i])
  }

  /** `items.find(i => i.id === id)`: an item with that id, or null when
      there is none; FindIsFirst says which one. */
  function Find(items: seq<Item>, id: string): (r: Option<Item>)
    ensures r.None? <==> forall i :: 0 <= i < |items| ==> items[i].id != id
    ensures r.Some? ==> r.value in items && r.value.id == id
  {
    if items == [] then None
    else
      var init := items[..|items| - 1];
      match Find(init, id)
      case Some(it) => assert it in init; Some(it)
      case None => if items[|items| - 1].id == id then Some(items[|items| - 1]) else None
  }

  /** The item `find` returns is the first one with that id. */
  lemma {:induction false} FindIsFirst(items: seq<Item>, id: string, i: int)
    requires 0 <= i < |items| && items[i].id == id
    requires forall j :: 0 <= j < i ==> items[j].id != id
    ensures Find(items, id) == Some(items[i])
  {
    var init := items[..|items| - 1];
    if i < |items| - 1 {
      FindIsFirst(init, id, i);
    } else {
      assert forall j :: 0 <= j < |init| ==> init[j].id != id;
    }
  }

  // ---------------------------------------------------------------------
  // Views of the store
  // ---------------------------------------------------------------------

  /** The drain's filter: `i.status === "idle" && !i.processed`. */
  predicate IsPending(it: Item)
  {
    it.status == Idle && it.processed.None?
  }

  /** The download filter: `i.processedBlob` is not null. */
  predicate HasBlob(it: Item)
  {
    it.processedBlob.Some?
  }

  function Pending(items: seq<Item>): seq<Item>
  {
    Filter(items, IsPending)
  }

  function Ready(items: seq<Item>): seq<Item>
  {
    Filter(items, HasBlob)
  }

  function Ids(items: seq<Item>): (r: seq<string>)
    ensures |r| == |items| && forall i {:trigger r[i]} :: 0 <= i < |items| ==> r[i] == items[i].id
  {
    seq(|items|, i requires 0 <= i < |items| => items[i].id)
  }

  /** Every display URL the store still refers to. */
  function Handles(items: seq<Item>): (r: set<Handle>)
    ensures forall h :: h in r <==> exists i :: 0 <= i < |items| && items[i].processed == Some(h)
  {
    if items == [] then {}
    else
      var init := items[..|items| - 1];
      var last := items[|items| - 1];
      assert forall i :: 0 <= i < |init| ==> init[i] == items[i];
      Handles(init) + (if last.processed.Some? then {last.processed.value} else {})
  }

  // ---------------------------------------------------------------------
  // The store invariant
  // ---------------------------------------------------------------------

  /** An item's result fields agree with its status: a display URL exists
      exactly when the result blob does, exactly when the status is done, and
      the progress is 100 when done and 0 otherwise. */
  predicate WellFormed(it: Item)
  {
    && (it.processed.Some? <==> it.processedBlob.Some?)
    && (it.status == Done <==> it.processed.Some?)
    && it.progress == (if it.status == Done then 100 else 0)
  }

  /** Two distinct items have distinct ids and distinct display URLs. */
  predicate Apart(a: Item, b: Item)
  {
    a.id != b.id && (a.processed.Some? ==> a.processed != b.processed)
  }

  predicate UniqueIds(items: seq<Item>)
  {
    forall i, j :: 0 <= i < j < |items| ==> items[i].id != items[j].id
  }

  /** What holds of the store between two operations: every item is well
      formed and not in flight, ids and display URLs are distinct, every URL
      the store refers to was minted and is still live, and only minted URLs
      were revoked. */
  ghost predicate StoreInvariant(items: seq<Item>, next: Handle, revoked: set<Handle>)
  {
    && (forall i :: 0 <= i < |items| ==> WellFormed(items[i]) && items[i].status != Processing)
    && (forall i :: 0 <= i < |items| && items[i].processed.Some? ==>
          items[i].processed.value < next && items[i].processed.value !in revoked)
    && (forall h :: h in revoked ==> h < next)
    && Pairwise(items, Apart)
  }

  lemma {:induction false} PairwiseApartUniqueIds(items: seq<Item>)
    requires Pairwise(items, Apart)
    ensures UniqueIds(items)
  {
    forall i, j | 0 <= i < j < |items| ensures items[i].id != items[j].id {
      assert Apart(items[i], items[j]);
    }
  }

  /** A batch from `onDrop` is pending as a whole: the next drain's snapshot
      is the old snapshot followed by the new items in file order, and every
      new item is idle, at progress 0 and without a result. */
  lemma {:induction false} IngestedItemsArePending(items: seq<Item>, files: seq<File>, suffixes: seq<string>)
    requires |suffixes| == |files|
    ensures Pending(items + NewItems(files, suffixes)) == Pending(items) + NewItems(files, suffixes)
    ensures forall it :: it in NewItems(files, suffixes) ==>
              WellFormed(it) && it.status == Idle && it.progress == 0
              && it.processed.None? && it.processedBlob.None?
  {
    var batch := NewItems(files, suffixes);
    FilterAppend(items, batch, IsPending);
    FilterKeepsAll(batch, IsPending);
  }

  /** Appending a batch keeps the store invariant when the new ids are fresh. */
  lemma {:induction false} IngestKeepsInvariant(items: seq<Item>, next: Handle, revoked: set<Handle>,
                             files: seq<File>, suffixes: seq<string>)
    requires StoreInvariant(items, next, revoked)
    requires |suffixes| == |files|
    requires UniqueIds(items + NewItems(files, suffixes))
    ensures StoreInvariant(items + NewItems(files, suffixes), next, revoked)
  {
    var all := items + NewItems(files, suffixes);
    forall i, j | 0 <= i < j < |all| ensures Apart(all[i], all[j]) {
      if j < |items| {
        assert all[i] == items[i] && all[j] == items[j];
      } else {
        assert all[j].processed.None?;
      }
    }
  }

  /** `processOne` marks its item before anything else, so while the
      inference of a call on a well-kept store (the first call of a drain) is
      in flight, at most one item is `processing`. The later calls of a drain
      are covered by AtMostOneProcessingMidDrain. */
  lemma {:induction false} AtMostOneProcessing(items: seq<Item>, next: Handle, revoked: set<Handle>, id: string)
    requires StoreInvariant(items, next, revoked)
    ensures forall i, j ::
              (0 <= i < |items| && 0 <= j < |items|
               && MapById(items, id, StartProcessing)[i].status == Processing
               && MapById(items, id, StartProcessing)[j].status == Processing) ==> i == j
  {
    PairwiseApartUniqueIds(items);
    var m := MapById(items, id, StartProcessing);
    forall i, j | 0 <= i < |items| && 0 <= j < |items| && m[i].status == Processing && m[j].status == Processing
      ensures i == j
    {
      assert items[i] in items && items[j] in items;
      assert items[i].id == id && items[j].id == id;
    }
  }

  // ---------------------------------------------------------------------
  // Deletion, clearing and short-lived download URLs
  // ---------------------------------------------------------------------

  /** `prev.filter(i => i.id !== id)`. */
  function Without(items: seq<Item>, id: string): seq<Item>
  {
    Filter(items, (it: Item) => it.id != id)
  }

  /** What handleDeleteOne revokes: the display URL of the first item with
      that id, when it has one. */
  function DeletedHandles(items: seq<Item>, id: string): (r: set<Handle>)
    ensures r <= Handles(items)
    ensures forall h :: h in r ==> exists i :: 0 <= i < |items| && items[i].id == id && items[i].processed == Some(h)
  {
    match Find(items, id)
    case Some(it) => if it.processed.Some? then {it.processed.value} else {}
    case None => {}
  }

  /** The display URL of a deleted item is revoked: in a store with unique
      ids the item `find` returns is the only one with that id. */
  lemma DeleteRevokesOwnUrl(items: seq<Item>, id: string, i: int)
    requires Pairwise(items, Apart)
    requires 0 <= i < |items| && items[i].id == id && items[i].processed.Some?
    ensures items[i].processed.value in DeletedHandles(items, id)
  {
    PairwiseApartUniqueIds(items);
    FindIsFirst(items, id, i);
  }

  /** Deletion removes exactly the items with that id, and deleting an id no
      item has changes nothing. */
  lemma WithoutRemovesId(items: seq<Item>, id: string)
    ensures forall it :: it in Without(items, id) <==> it in items && it.id != id
    ensures (forall i :: 0 <= i < |items| ==> items[i].id != id) ==> Without(items, id) == items
  {
    if forall i :: 0 <= i < |items| ==> items[i].id != id {
      forall it | it in items ensures it.id != id {
        var i :| 0 <= i < |items| && items[i] == it;
      }
      FilterKeepsAll(items, (it: Item) => it.id != id);
    }
  }

  /** handleDeleteOne keeps the store invariant: the URL it revokes belonged
      only to an item it removes. */
  lemma {:induction false} DeleteKeepsInvariant(items: seq<Item>, next: Handle, revoked: set<Handle>, id: string)
    requires StoreInvariant(items, next, revoked)
    ensures StoreInvariant(Without(items, id), next, revoked + DeletedHandles(items, id))
  {
    var rest := Without(items, id);
    var gone := DeletedHandles(items, id);
    FilterPairwise(items, (it: Item) => it.id != id, Apart);
    forall i | 0 <= i < |rest| && rest[i].processed.Some?
      ensures rest[i].processed.value !in gone
    {
      assert rest[i] in rest;
      var a :| 0 <= a < |items| && items[a] == rest[i];
      DeleteSparesOthers(items, id, a);
    }
    forall i | 0 <= i < |rest| ensures WellFormed(rest[i]) && rest[i].status != Processing {
      assert rest[i] in rest;
    }
    forall i | 0 <= i < |rest| && rest[i].processed.Some?
      ensures rest[i].processed.value < next && rest[i].processed.value !in revoked
    {
      assert rest[i] in rest;
    }
  }

  /** The URL handleDeleteOne revokes is not the URL of an item it keeps. */
  lemma {:induction false} DeleteSparesOthers(items: seq<Item>, id: string, a: int)
    requires Pairwise(items, Apart)
    requires 0 <= a < |items| && items[a].id != id && items[a].processed.Some?
    ensures items[a].processed.value !in DeletedHandles(items, id)
  {
    forall b | 0 <= b < |items| && items[b].id == id ensures items[b].processed != items[a].processed {
      if a < b { assert Apart(items[a], items[b]); } else { assert Apart(items[b], items[a]); }
    }
  }

  /** handleClear keeps the store invariant: every URL it revokes was minted. */
  lemma ClearKeepsInvariant(items: seq<Item>, next: Handle, revoked: set<Handle>)
    requires StoreInvariant(items, next, revoked)
    ensures StoreInvariant([], next, revoked + Handles(items))
  {
    forall h | h in Handles(items) ensures h < next {
      var i :| 0 <= i < |items| && items[i].processed == Some(h);
    }
  }

  /** A download mints a URL for its blob and revokes it a second later; that
      URL is fresh, so no URL of the store is revoked with it. */
  lemma DownloadUrlKeepsInvariant(items: seq<Item>, next: Handle, revoked: set<Handle>)
    requires StoreInvariant(items, next, revoked)
    ensures StoreInvariant(items, next + 1, revoked + {next})
  {
  }

  // ---------------------------------------------------------------------
  // What the page shows of an item
  // ---------------------------------------------------------------------

  /** The status line under each thumbnail. */
  function StatusLabel(s: Status): (r: string)
    ensures r == "Ready" <==> s == Done
  {
    match s
    case Done => "Ready"
    case Processing => "Processing..."
    case Error => "Error"
    case Idle => "Waiting"
  }

  /** What the thumbnail's `src` refers to. */
  datatype Source = OriginalData(data: Bytes) | ResultUrl(handle: Handle)

  /** `showAfter && it.processed ? it.processed : it.original`. */
  function ImageSource(it: Item, showAfter: bool): (r: Source)
    ensures r.ResultUrl? <==> showAfter && it.processed.Some?
    ensures r.OriginalData? ==> r.data == it.original
  {
    if showAfter && it.processed.Some? then ResultUrl(it.processed.value) else OriginalData(it.original)
  }

  /** The count on the "Download All" button. */
  function ReadyCount(items: seq<Item>): (r: nat)
    ensures r <= |items|
  {
    |Ready(items)|
  }

  /** `disabled` of the "Download All" button. */
  function DownloadAllDisabled(items: seq<Item>, zipping: bool): bool
  {
    ReadyCount(items) == 0 || zipping
  }

  /** On a well-formed item the label reads "Ready" exactly when the
      per-item Download button is shown (its blob is present). */
  lemma LabelReadyIffDownloadable(it: Item)
    requires WellFormed(it)
    ensures StatusLabel(it.status) == "Ready" <==> HasBlob(it)
  {
    assert "Processing..." != "Ready" && "Error" != "Ready" && "Waiting" != "Ready";
  }

  /** Every status has its own label. */
  lemma StatusLabelsDistinct(s: Status, t: Status)
    ensures StatusLabel(s) == StatusLabel(t) ==> s == t
  {
    assert "Ready"[0] == 'R' && "Processing..."[0] == 'P' && "Error"[0] == 'E' && "Waiting"[0] == 'W';
  }

  /** On a well-formed item the thumbnail shows the result exactly when the
      "after" view is on and the item is done; otherwise it shows the
      original data. */
  lemma ImageSourceShowsResult(it: Item, showAfter: bool)
    requires WellFormed(it)
    ensures ImageSource(it, showAfter).ResultUrl? <==> showAfter && it.status == Done
    ensures ImageSource(it, showAfter).ResultUrl? ==> Some(ImageSource(it, showAfter).handle) == it.processed
    ensures ImageSource(it, showAfter).OriginalData? ==> ImageSource(it, showAfter).data == it.original
  {
  }

  /** "Download All" is enabled exactly when no zip is being prepared and
      some item holds a result blob; its count is the number of such items. */
  lemma DownloadAllEnabled(items: seq<Item>, zipping: bool)
    ensures !DownloadAllDisabled(items, zipping) <==> !zipping && exists it :: it in items && HasBlob(it)
    ensures ReadyCount(items) <= |items|
  {
    if exists it :: it in items && HasBlob(it) {
      var it :| it in items && HasBlob(it);
      assert it in Ready(items);
    }
    if |Ready(items)| > 0 {
      assert Ready(items)[0] in Ready(items);
    }
  }
}
