/** `processOne` and the auto-process effect of
    src/components/BgRemoval.tsx as functions on the store.

    `processOne(itemId)` first marks every item with that id `processing`,
    then looks the item up in `view` (the `items` its closure captured, not
    the live store) and returns when it is not there; otherwise it fetches the
    original, calls `removeBackground`, and on success mints a display URL
    and marks the item `done`, on any failure marks it `error`. The inference
    call is an oracle: its Outcome is supplied by the caller.

    The effect drains a snapshot: the pending items of the store it saw, by
    id and in store order, one `processOne` at a time, every call seeing that
    same store as `view`. */
module Scheduler {
  import opened Seqs
  import opened Items

  /** What one `processOne` call got from fetch, `blob()` and
      `removeBackground`: the result bytes, or an exception from any of them. */
  datatype Outcome = Removed(result: Bytes) | Failed

  /** The store and the number of display URLs minted so far. */
  datatype State = State(items: seq<Item>, next: Handle)

  /** One `processOne(id)` call with closure store `view`. */
  function Step(s: State, view: seq<Item>, id: string, outcome: Outcome): (r: State)
    ensures |r.items| == |s.items|
    ensures forall i {:trigger r.items[i]} :: 0 <= i < |s.items| ==> r.items[i].id == s.items[i].id
  {
    var marked := MapById(s.items, id, StartProcessing);
    if Find(view, id).None? then State(marked, s.next)
    else
      match outcome
      case Removed(b) => State(MapById(marked, id, Succeed(s.next, b)), s.next + 1)
      case Failed => State(MapById(marked, id, Fail), s.next)
  }

  /** What a completed `processOne` leaves of an item it found: marked, then
      done with display URL `h` or failed. */
  function Settle(it: Item, outcome: Outcome, h: Handle): (r: Item)
    ensures r.id == it.id && (r.status == Done <==> outcome.Removed?)
    ensures outcome.Removed? ==> r.processed == Some(h)
    ensures WellFormed(it) && it.processed.None? ==> WellFormed(r)
  {
    match outcome
    case Removed(b) => Apply(Succeed(h, b), Apply(StartProcessing, it))
    case Failed => Apply(Fail, Apply(StartProcessing, it))
  }

  /** How many of the first k outcomes are successes: the URLs they mint. */
  function Successes(outs: seq<Outcome>, k: nat): (n: nat)
    requires k <= |outs|
    ensures n <= k
  {
    if k == 0 then 0 else Successes(outs, k - 1) + (if outs[k - 1].Removed? then 1 else 0)
  }

  /** How many of the first k calls of a drain over `ids` mint a URL: those
      whose lookup in `view` succeeds and whose outcome is a success. */
  function Minted(view: seq<Item>, ids: seq<string>, outs: seq<Outcome>, k: nat): (n: nat)
    requires k <= |ids| <= |outs|
    ensures n <= k
  {
    if k == 0 then 0
    else Minted(view, ids, outs, k - 1) + (if Find(view, ids[k - 1]).Some? && outs[k - 1].Removed? then 1 else 0)
  }

  /** `for (const it of pending) await processOne(it.id)`, stopped after m
      calls: the calls for `ids[0]`, ..., `ids[m-1]` in order, the k-th call
      getting the k-th outcome. */
  function Run(s: State, view: seq<Item>, ids: seq<string>, outs: seq<Outcome>, m: nat): (r: State)
    requires m <= |ids| <= |outs|
    ensures |r.items| == |s.items|
    ensures forall i {:trigger r.items[i]} :: 0 <= i < |s.items| ==> r.items[i].id == s.items[i].id
  {
    if m == 0 then s
    else Step(Run(s, view, ids, outs, m - 1), view, ids[m - 1], outs[m - 1])
  }

  /** The whole drain over `ids`. */
  function Drained(s: State, view: seq<Item>, ids: seq<string>, outs: seq<Outcome>): (r: State)
    requires |ids| <= |outs|
    ensures |r.items| == |s.items|
  {
    Run(s, view, ids, outs, |ids|)
  }

  /** What the drain over a store's own snapshot leaves, one outcome per
      snapshot item. */
  function AfterDrain(items: seq<Item>, next: Handle, outs: seq<Outcome>): (r: State)
    requires |outs| == |Pending(items)|
    ensures |r.items| == |items|
  {
    Drained(State(items, next), items, Ids(Pending(items)), outs)
  }

  /** The frame of `processOne`: the store keeps its length and order; items
      with another id are untouched; the items with that id end `done` with
      the next URL or `error` when the lookup in `view` succeeds, and are left
      `processing` when it fails; a URL is minted exactly on success. */
  lemma StepFrame(s: State, view: seq<Item>, id: string, outcome: Outcome)
    ensures |Step(s, view, id, outcome).items| == |s.items|
    ensures forall i :: 0 <= i < |s.items| && s.items[i].id != id ==>
              Step(s, view, id, outcome).items[i] == s.items[i]
    ensures Find(view, id).Some? ==>
              && Step(s, view, id, outcome).next == s.next + (if outcome.Removed? then 1 else 0)
              && forall i :: 0 <= i < |s.items| && s.items[i].id == id ==>
                   Step(s, view, id, outcome).items[i] == Settle(s.items[i], outcome, s.next)
    ensures Find(view, id).None? ==>
              && Step(s, view, id, outcome).next == s.next
              && forall i :: 0 <= i < |s.items| && s.items[i].id == id ==>
                   Step(s, view, id, outcome).items[i] == Apply(StartProcessing, s.items[i])
  {
  }

  /** A `processOne` call leaves an item with another id as it was. */
  lemma {:induction false} StepOther(s: State, view: seq<Item>, id: string, outcome: Outcome, i: int)
    requires 0 <= i < |s.items| && s.items[i].id != id
    ensures Step(s, view, id, outcome).items[i] == s.items[i]
  {
  }

  /** A `processOne` call mints a URL exactly when its lookup succeeds and
      background removal succeeds. */
  lemma {:induction false} StepMints(s: State, view: seq<Item>, id: string, outcome: Outcome)
    ensures Step(s, view, id, outcome).next == s.next + (if Find(view, id).Some? && outcome.Removed? then 1 else 0)
  {
  }

  /** An id the store lists is found in it. */
  lemma Listed(view: seq<Item>, id: string)
    requires id in Ids(view)
    ensures Find(view, id).Some?
  {
  }

  /** A success counted before position l makes the l-th URL larger. */
  lemma {:induction false} SuccessesMonotone(outs: seq<Outcome>, k: nat, l: nat)
    requires k < l <= |outs|
    ensures Successes(outs, k) + (if outs[k].Removed? then 1 else 0) <= Successes(outs, l)
  {
    if k < l - 1 {
      SuccessesMonotone(outs, k, l - 1);
    }
  }

  /** The first m calls of a drain mint the URLs Minted counts. */
  lemma {:induction false} RunMints(s0: State, view: seq<Item>, ids: seq<string>, outs: seq<Outcome>, m: nat)
    requires m <= |ids| <= |outs|
    ensures Run(s0, view, ids, outs, m).next == s0.next + Minted(view, ids, outs, m)
  {
    if m > 0 {
      RunMints(s0, view, ids, outs, m - 1);
      StepMints(Run(s0, view, ids, outs, m - 1), view, ids[m - 1], outs[m - 1]);
    }
  }

  /** When every id is found in `view`, the calls that mint are exactly the
      successes. */
  lemma {:induction false} MintedAllFound(view: seq<Item>, ids: seq<string>, outs: seq<Outcome>, k: nat)
    requires k <= |ids| <= |outs|
    requires forall a :: 0 <= a < |ids| ==> ids[a] in Ids(view)
    ensures Minted(view, ids, outs, k) == Successes(outs, k)
  {
    if k > 0 {
      MintedAllFound(view, ids, outs, k - 1);
      Listed(view, ids[k - 1]);
    }
  }

  /** An item whose id the first m calls have not reached is untouched. */
  lemma {:induction false} RunUntouched(s0: State, view: seq<Item>, ids: seq<string>, outs: seq<Outcome>, m: nat, i: int)
    requires m <= |ids| <= |outs|
    requires 0 <= i < |s0.items|
    requires forall a :: 0 <= a < m ==> ids[a] != s0.items[i].id
    ensures Run(s0, view, ids, outs, m).items[i] == s0.items[i]
  {
    if m > 0 {
      RunUntouched(s0, view, ids, outs, m - 1, i);
      StepOther(Run(s0, view, ids, outs, m - 1), view, ids[m - 1], outs[m - 1], i);
    }
  }

  /** After the first m calls of a drain, an item whose id is the k-th id,
      and no other of those calls' ids, and is found in `view`, holds the
      k-th outcome, with the URL minted next after the k calls before it. */
  lemma {:induction false} RunSettles(s0: State, view: seq<Item>, ids: seq<string>, outs: seq<Outcome>, m: nat, i: int, k: int)
    requires m <= |ids| <= |outs|
    requires 0 <= i < |s0.items| && 0 <= k < m && s0.items[i].id == ids[k]
    requires Find(view, ids[k]).Some?
    requires forall a :: 0 <= a < m && a != k ==> ids[a] != ids[k]
    ensures Run(s0, view, ids, outs, m).items[i] == Settle(s0.items[i], outs[k], s0.next + Minted(view, ids, outs, k))
  {
    if k == m - 1 {
      RunSettlesLast(s0, view, ids, outs, k, i);
    } else {
      RunSettles(s0, view, ids, outs, m - 1, i, k);
      StepOther(Run(s0, view, ids, outs, m - 1), view, ids[m - 1], outs[m - 1], i);
    }
  }

  /** The k-th call settles an item with its id that the calls before it
      have left untouched. */
  lemma {:induction false} RunSettlesLast(s0: State, view: seq<Item>, ids: seq<string>, outs: seq<Outcome>, k: nat, i: int)
    requires k < |ids| <= |outs|
    requires 0 <= i < |s0.items| && s0.items[i].id == ids[k]
    requires Find(view, ids[k]).Some?
    requires forall a :: 0 <= a < k ==> ids[a] != ids[k]
    ensures Run(s0, view, ids, outs, k + 1).items[i] == Settle(s0.items[i], outs[k], s0.next + Minted(view, ids, outs, k))
  {
    var prev := Run(s0, view, ids, outs, k);
    RunUntouched(s0, view, ids, outs, k, i);
    RunMints(s0, view, ids, outs, k);
    StepSettles(prev, view, ids[k], outs[k], i);
  }

  /** A `processOne` call whose lookup succeeds settles the item at i when it
      has the call's id. */
  lemma {:induction false} StepSettles(s: State, view: seq<Item>, id: string, outcome: Outcome, i: int)
    requires Find(view, id).Some?
    requires 0 <= i < |s.items| && s.items[i].id == id
    ensures Step(s, view, id, outcome).items[i] == Settle(s.items[i], outcome, s.next)
  {
  }

  /** The snapshot of a well-kept store has distinct ids, all found in it. */
  lemma {:induction false} SnapshotIds(items: seq<Item>, next: Handle, revoked: set<Handle>)
    requires StoreInvariant(items, next, revoked)
    ensures UniqueIds(Pending(items))
    ensures forall k :: 0 <= k < |Pending(items)| ==> Find(items, Ids(Pending(items))[k]).Some?
  {
    var snap := Pending(items);
    FilterPairwise(items, IsPending, Apart);
    forall a, b | 0 <= a < b < |snap| ensures snap[a].id != snap[b].id {
      assert Apart(snap[a], snap[b]);
    }
    forall k | 0 <= k < |snap| ensures Find(items, snap[k].id).Some? {
      assert snap[k] in items;
    }
  }

  /** Where in the snapshot an item of the store stands: a pending item's id
      is the id at some snapshot position, an item that is not pending has an
      id the snapshot does not hold. */
  lemma {:induction false} SnapshotPosition(items: seq<Item>, next: Handle, revoked: set<Handle>, i: int)
    requires StoreInvariant(items, next, revoked)
    requires 0 <= i < |items|
    ensures IsPending(items[i]) ==> exists k :: 0 <= k < |Pending(items)| && Pending(items)[k] == items[i]
    ensures !IsPending(items[i]) ==> items[i].id !in Ids(Pending(items))
  {
    var snap := Pending(items);
    PairwiseApartUniqueIds(items);
    assert items[i] in items;
    if !IsPending(items[i]) {
      forall k | 0 <= k < |snap| ensures Ids(snap)[k] != items[i].id {
        assert snap[k] in items;
        var j :| 0 <= j < |items| && items[j] == snap[k];
        assert j != i;
      }
    }
  }

  /** What a drain leaves at one position of a well-kept store: an item
      that was not pending is untouched (k is -1); a pending item is the k-th
      item of the snapshot and holds the k-th outcome. */
  lemma {:induction false} DrainedAt(items: seq<Item>, next: Handle, revoked: set<Handle>, outs: seq<Outcome>, i: int) returns (k: int)
    requires StoreInvariant(items, next, revoked)
    requires |outs| == |Pending(items)|
    requires 0 <= i < |items|
    ensures !IsPending(items[i]) ==>
              k == -1 && AfterDrain(items, next, outs).items[i] == items[i]
    ensures IsPending(items[i]) ==>
              && 0 <= k < |Pending(items)| && Pending(items)[k] == items[i]
              && AfterDrain(items, next, outs).items[i]
                 == Settle(items[i], outs[k], next + Successes(outs, k))
  {
    if IsPending(items[i]) {
      k := DrainedPending(items, next, revoked, outs, i);
    } else {
      k := -1;
      DrainSkips(items, next, revoked, outs, i);
    }
  }

  /** A pending item is the k-th of the snapshot and holds the k-th outcome. */
  lemma {:induction false} DrainedPending(items: seq<Item>, next: Handle, revoked: set<Handle>, outs: seq<Outcome>, i: int) returns (k: int)
    requires StoreInvariant(items, next, revoked)
    requires |outs| == |Pending(items)|
    requires 0 <= i < |items| && IsPending(items[i])
    ensures 0 <= k < |Pending(items)| && Pending(items)[k] == items[i]
    ensures AfterDrain(items, next, outs).items[i]
            == Settle(items[i], outs[k], next + Successes(outs, k))
  {
    k := SnapshotIndex(items, i);
    SnapshotIds(items, next, revoked);
    DrainIsFifo(items, next, outs, i, k);
  }

  /** The position in the snapshot of a pending item. */
  lemma SnapshotIndex(items: seq<Item>, i: int) returns (k: int)
    requires 0 <= i < |items| && IsPending(items[i])
    ensures 0 <= k < |Pending(items)| && Pending(items)[k] == items[i]
  {
    assert items[i] in items;
    assert items[i] in Pending(items);
    k :| 0 <= k < |Pending(items)| && Pending(items)[k] == items[i];
  }

  /** A drain leaves an item that was not pending as it was: its id is not
      in the snapshot. */
  lemma {:induction false} DrainSkips(items: seq<Item>, next: Handle, revoked: set<Handle>, outs: seq<Outcome>, i: int)
    requires StoreInvariant(items, next, revoked)
    requires |outs| == |Pending(items)|
    requires 0 <= i < |items| && !IsPending(items[i])
    ensures AfterDrain(items, next, outs).items[i] == items[i]
  {
    var ids := Ids(Pending(items));
    SnapshotPosition(items, next, revoked, i);
    RunUntouched(State(items, next), items, ids, outs, |ids|, i);
  }

  /** First in, first out: in a store whose snapshot has unique ids, the
      item at position i that is the k-th item of the snapshot receives the
      k-th outcome, and on success the URL numbered by the successes before
      it, so URLs are minted in snapshot order. */
  lemma {:induction false} DrainIsFifo(items: seq<Item>, next: Handle, outs: seq<Outcome>, i: int, k: int)
    requires UniqueIds(Pending(items))
    requires |outs| == |Pending(items)|
    requires 0 <= i < |items| && 0 <= k < |Pending(items)| && Pending(items)[k] == items[i]
    ensures AfterDrain(items, next, outs).items[i]
              == Settle(items[i], outs[k], next + Successes(outs, k))
  {
    var ids := Ids(Pending(items));
    assert ids[k] == items[i].id;
    OtherIdsDiffer(Pending(items), k);
    DrainMintsSuccesses(items, outs, k);
    RunSettles(State(items, next), items, ids, outs, |ids|, i, k);
  }

  /** In a list with unique ids, no other position carries the k-th id. */
  lemma OtherIdsDiffer(snap: seq<Item>, k: int)
    requires UniqueIds(snap) && 0 <= k < |snap|
    ensures forall a :: 0 <= a < |snap| && a != k ==> Ids(snap)[a] != Ids(snap)[k]
  {
    forall a | 0 <= a < |snap| && a != k ensures Ids(snap)[a] != Ids(snap)[k] {
      if a < k { assert snap[a].id != snap[k].id; } else { assert snap[k].id != snap[a].id; }
    }
  }

  /** Every snapshot id is found in the store the drain's calls look in, so
      the URLs minted before the k-th call are the successes before it. */
  lemma {:induction false} DrainMintsSuccesses(items: seq<Item>, outs: seq<Outcome>, k: nat)
    requires |outs| == |Pending(items)|
    requires k <= |outs|
    ensures Minted(items, Ids(Pending(items)), outs, k) == Successes(outs, k)
  {
    var snap := Pending(items);
    var ids := Ids(snap);
    forall a | 0 <= a < |ids| ensures ids[a] in Ids(items) {
      assert snap[a] in items;
      var j :| 0 <= j < |items| && items[j] == snap[a];
      assert Ids(items)[j] == ids[a];
    }
    MintedAllFound(items, ids, outs, k);
  }

  /** A drain that gets one outcome per snapshot item settles every item of
      its snapshot: pending items end `done` or `error`, and every other item
      of the store, its length and its order are unchanged. */
  lemma {:induction false} DrainSettlesSnapshot(items: seq<Item>, next: Handle, revoked: set<Handle>, outs: seq<Outcome>)
    requires StoreInvariant(items, next, revoked)
    requires |outs| == |Pending(items)|
    ensures Ids(AfterDrain(items, next, outs).items) == Ids(items)
    ensures forall i :: 0 <= i < |items| ==>
              && (IsPending(items[i]) ==> AfterDrain(items, next, outs).items[i].status in {Done, Error})
              && (!IsPending(items[i]) ==> AfterDrain(items, next, outs).items[i] == items[i])
  {
    var fin := AfterDrain(items, next, outs);
    forall i | 0 <= i < |items|
      ensures fin.items[i].id == items[i].id
      ensures IsPending(items[i]) ==> fin.items[i].status in {Done, Error}
      ensures !IsPending(items[i]) ==> fin.items[i] == items[i]
    {
      var k := DrainedAt(items, next, revoked, outs, i);
    }
  }

  /** A drain keeps the store invariant and mints one URL per success. */
  lemma {:induction false} DrainKeepsInvariant(items: seq<Item>, next: Handle, revoked: set<Handle>, outs: seq<Outcome>)
    requires StoreInvariant(items, next, revoked)
    requires |outs| == |Pending(items)|
    ensures AfterDrain(items, next, outs).next == next + Successes(outs, |outs|)
    ensures StoreInvariant(AfterDrain(items, next, outs).items,
                           AfterDrain(items, next, outs).next, revoked)
  {
    var ids := Ids(Pending(items));
    var fin := Drained(State(items, next), items, ids, outs);
    assert fin.next == next + Successes(outs, |outs|) by {
      RunMints(State(items, next), items, ids, outs, |ids|);
      DrainMintsSuccesses(items, outs, |outs|);
    }
    forall i | 0 <= i < |fin.items|
      ensures WellFormed(fin.items[i]) && fin.items[i].status != Processing
      ensures fin.items[i].processed.Some? ==>
                fin.items[i].processed.value < fin.next && fin.items[i].processed.value !in revoked
    {
      KeptAt(items, next, revoked, outs, i);
    }
    forall i, j | 0 <= i < j < |fin.items| ensures Apart(fin.items[i], fin.items[j]) {
      ApartAt(items, next, revoked, outs, i, j);
    }
  }

  /** One item of DrainKeepsInvariant: well formed, settled, and its URL, if
      any, minted by this drain or before it and never revoked. */
  lemma {:induction false} KeptAt(items: seq<Item>, next: Handle, revoked: set<Handle>, outs: seq<Outcome>, i: int)
    requires StoreInvariant(items, next, revoked)
    requires |outs| == |Pending(items)|
    requires 0 <= i < |items|
    ensures var it := AfterDrain(items, next, outs).items[i];
            && WellFormed(it) && it.status != Processing
            && (it.processed.Some? ==> it.processed.value < next + Successes(outs, |outs|)
                                       && it.processed.value !in revoked)
  {
    var k := DrainedAt(items, next, revoked, outs, i);
    assert items[i] in items;
    if IsPending(items[i]) {
      SuccessesMonotone(outs, k, |outs|);
    }
  }

  /** Where the URL of a drained item comes from: the item was not pending
      and is unchanged (k is -1, and its URL predates the drain), or it is
      the k-th snapshot item and its URL, if any, is the one the k-th call
      minted. */
  lemma {:induction false} DrainedOrigin(items: seq<Item>, next: Handle, revoked: set<Handle>, outs: seq<Outcome>, i: int) returns (k: int)
    requires StoreInvariant(items, next, revoked)
    requires |outs| == |Pending(items)|
    requires 0 <= i < |items|
    ensures k == -1 || (0 <= k < |Pending(items)| && Pending(items)[k] == items[i])
    ensures var it := AfterDrain(items, next, outs).items[i];
            && (k == -1 ==> it == items[i] && (it.processed.Some? ==> it.processed.value < next))
            && (k != -1 && it.processed.Some? ==> outs[k].Removed? && it.processed.value == next + Successes(outs, k))
  {
    k := DrainedAt(items, next, revoked, outs, i);
  }

  /** Two items of DrainKeepsInvariant: distinct ids, and distinct URLs,
      because the drain mints a fresh URL per success. */
  lemma {:induction false} ApartAt(items: seq<Item>, next: Handle, revoked: set<Handle>, outs: seq<Outcome>, i: int, j: int)
    requires StoreInvariant(items, next, revoked)
    requires |outs| == |Pending(items)|
    requires 0 <= i < j < |items|
    ensures Apart(AfterDrain(items, next, outs).items[i],
                  AfterDrain(items, next, outs).items[j])
  {
    var fin := AfterDrain(items, next, outs);
    assert Apart(items[i], items[j]);
    var ki := DrainedOrigin(items, next, revoked, outs, i);
    var kj := DrainedOrigin(items, next, revoked, outs, j);
    if ki != -1 && kj != -1 && fin.items[i].processed.Some? && fin.items[j].processed.Some? {
      assert ki != kj;
      if ki < kj {
        SuccessesMonotone(outs, ki, kj);
      } else {
        SuccessesMonotone(outs, kj, ki);
      }
    }
  }

  /** Between the calls of a drain no item is `processing`: after the
      first k calls, an item reached by one of them is settled, and every
      other item is as the drain found it. */
  lemma {:induction false} NothingProcessingMidDrain(items: seq<Item>, next: Handle, revoked: set<Handle>, outs: seq<Outcome>, k: nat, i: int)
    requires StoreInvariant(items, next, revoked)
    requires |outs| == |Pending(items)| && k <= |outs|
    requires 0 <= i < |items|
    ensures Run(State(items, next), items, Ids(Pending(items)), outs, k).items[i].status != Processing
  {
    var ids := Ids(Pending(items));
    var p := -1;
    if IsPending(items[i]) {
      p := SnapshotIndex(items, i);
    }
    if 0 <= p < k {
      SnapshotIds(items, next, revoked);
      ReachedSettled(items, next, outs, k, i, p);
    } else {
      NotYetReached(items, next, revoked, outs, k, i, p);
      RunUntouched(State(items, next), items, ids, outs, k, i);
    }
  }

  /** An item the p-th call of a drain reached is settled after k > p calls. */
  lemma {:induction false} ReachedSettled(items: seq<Item>, next: Handle, outs: seq<Outcome>, k: nat, i: int, p: int)
    requires UniqueIds(Pending(items))
    requires |outs| == |Pending(items)| && k <= |outs|
    requires 0 <= i < |items| && 0 <= p < k && Pending(items)[p] == items[i]
    ensures Run(State(items, next), items, Ids(Pending(items)), outs, k).items[i].status != Processing
  {
    var ids := Ids(Pending(items));
    assert items[i] in items;
    OtherIdsDiffer(Pending(items), p);
    RunSettles(State(items, next), items, ids, outs, k, i, p);
    SettledNotProcessing(items[i], outs[p], next + Minted(items, ids, outs, p));
  }

  /** A settled item is `done` or `error`, never `processing`. */
  lemma SettledNotProcessing(it: Item, outcome: Outcome, h: Handle)
    ensures Settle(it, outcome, h).status != Processing
  {
  }

  /** No call before the k-th has an item's id when the item was not
      pending or stands at snapshot position p >= k. */
  lemma {:induction false} NotYetReached(items: seq<Item>, next: Handle, revoked: set<Handle>, outs: seq<Outcome>, k: nat, i: int, p: int)
    requires StoreInvariant(items, next, revoked)
    requires |outs| == |Pending(items)| && k <= |outs|
    requires 0 <= i < |items|
    requires IsPending(items[i]) ==> k <= p < |Pending(items)| && Pending(items)[p] == items[i]
    ensures forall a :: 0 <= a < k ==> Ids(Pending(items))[a] != items[i].id
  {
    var ids := Ids(Pending(items));
    if IsPending(items[i]) {
      SnapshotIds(items, next, revoked);
      OtherIdsDiffer(Pending(items), p);
    } else {
      SnapshotPosition(items, next, revoked, i);
      forall a | 0 <= a < k ensures ids[a] != items[i].id {
        assert ids[a] in ids;
      }
    }
  }

  /** While the k-th inference of a drain is in flight, the store holds at
      most one `processing` item: the k-th call's mark lands on a store
      where nothing is processing, and on one item only. */
  lemma {:induction false} AtMostOneProcessingMidDrain(items: seq<Item>, next: Handle, revoked: set<Handle>, outs: seq<Outcome>, k: nat)
    requires StoreInvariant(items, next, revoked)
    requires |outs| == |Pending(items)| && k < |outs|
    ensures var marked := MapById(Run(State(items, next), items, Ids(Pending(items)), outs, k).items,
                                  Ids(Pending(items))[k], StartProcessing);
            forall i, j ::
              (0 <= i < |marked| && 0 <= j < |marked|
               && marked[i].status == Processing && marked[j].status == Processing) ==> i == j
  {
    var id := Ids(Pending(items))[k];
    var run := Run(State(items, next), items, Ids(Pending(items)), outs, k).items;
    var marked := MapById(run, id, StartProcessing);
    PairwiseApartUniqueIds(items);
    forall i, j | 0 <= i < |marked| && 0 <= j < |marked| && marked[i].status == Processing && marked[j].status == Processing
      ensures i == j
    {
      NothingProcessingMidDrain(items, next, revoked, outs, k, i);
      NothingProcessingMidDrain(items, next, revoked, outs, k, j);
      assert run[i].id == id && run[j].id == id;
      assert items[i].id == items[j].id;
    }
  }

  /** The fidelity case of `processOne`: when the closure's store does not
      hold the id, the live items with that id are left `processing` at
      progress 0 and no URL is minted. */
  lemma {:induction false} LookupMissLeavesProcessing(s: State, view: seq<Item>, id: string, outcome: Outcome)
    requires forall i :: 0 <= i < |view| ==> view[i].id != id
    ensures Step(s, view, id, outcome).next == s.next
    ensures forall i :: 0 <= i < |s.items| && s.items[i].id == id ==>
              Step(s, view, id, outcome).items[i].status == Processing
              && Step(s, view, id, outcome).items[i].progress == 0
  {
  }
}
