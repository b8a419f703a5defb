/** A bounded commitment history fed out of order (canisters/historian/src/logic.rs). */
module CommitmentHistory {
  import opened Machine
  import opened Ordering
  import opened HistorianData

  type Samples = seq<CommitmentSample>

  ghost predicate Ascends(h: Samples) {
    StrictlySorted(h, TxKey)
  }

  ghost predicate HasTx(h: Samples, tx: U64) {
    exists i :: 0 <= i < |h| && h[i].txId == tx
  }

  /** prune_vec: drop the oldest entries beyond the cap. */
  function Prune<T>(h: seq<T>, cap: nat): seq<T> {
    if cap == 0 then [] else if |h| > cap then h[|h| - cap..] else h
  }

  function LowerBound(h: Samples, tx: U64): (at: nat)
    ensures at <= |h|
    ensures forall i :: 0 <= i < at ==> h[i].txId < tx
    ensures at < |h| ==> h[at].txId >= tx
  {
    if h == [] || h[0].txId >= tx then 0 else 1 + LowerBound(h[1..], tx)
  }

  function InsertAt(h: Samples, sample: CommitmentSample): Samples {
    var at := LowerBound(h, sample.txId);
    h[..at] + [sample] + h[at..]
  }

  /** One push without a cap: the first sample of a transaction wins. */
  ghost function Pushed(h: Samples, sample: CommitmentSample): Samples {
    if HasTx(h, sample.txId) then h else InsertAt(h, sample)
  }

  /** One push with a cap, on an ordered history. */
  ghost function PushedBounded(h: Samples, sample: CommitmentSample, cap: nat): Samples {
    if HasTx(h, sample.txId) then h else Prune(InsertAt(h, sample), cap)
  }

  ghost function PushAll(pushes: Samples): Samples {
    if pushes == [] then []
    else Pushed(PushAll(pushes[..|pushes| - 1]), pushes[|pushes| - 1])
  }

  ghost function PushAllBounded(pushes: Samples, cap: nat): Samples {
    if pushes == [] then []
    else PushedBounded(PushAllBounded(pushes[..|pushes| - 1], cap), pushes[|pushes| - 1], cap)
  }

  /** The sample is the first one pushed for its transaction. */
  ghost predicate FirstPushed(pushes: Samples, sample: CommitmentSample) {
    exists i :: 0 <= i < |pushes| && pushes[i] == sample && !HasTx(pushes[..i], sample.txId)
  }

  lemma OrderedSplit(h: Samples, tx: U64)
    requires Ascends(h)
    ensures var at := LowerBound(h, tx); forall i :: at <= i < |h| ==> h[i].txId >= tx
  {
    var at := LowerBound(h, tx);
    forall i | at < i < |h|
      ensures h[i].txId >= tx
    {
      assert KeyLess(TxKey(h[at]), TxKey(h[i]));
    }
  }

  lemma {:induction false} LowerBoundUnique(h: Samples, tx: U64, at: nat)
    requires at <= |h|
    requires forall i :: 0 <= i < at ==> h[i].txId < tx
    requires forall i :: at <= i < |h| ==> h[i].txId >= tx
    ensures LowerBound(h, tx) == at
  {
    if at > 0 {
      LowerBoundUnique(h[1..], tx, at - 1);
    }
  }

  lemma PushedAscends(h: Samples, sample: CommitmentSample)
    requires Ascends(h)
    ensures Ascends(Pushed(h, sample))
    ensures forall x :: x in Pushed(h, sample) <==> x in h || (x == sample && !HasTx(h, sample.txId))
  {
    if !HasTx(h, sample.txId) {
      var at := LowerBound(h, sample.txId);
      OrderedSplit(h, sample.txId);
      var r := InsertAt(h, sample);
      forall i, j | 0 <= i < j < |r|
        ensures KeyLess(TxKey(r[i]), TxKey(r[j]))
      {
        if i != at && j != at {
          var i', j' := if i < at then i else i - 1, if j < at then j else j - 1;
          assert KeyLess(TxKey(h[i']), TxKey(h[j']));
        }
      }
      assert h == h[..at] + h[at..];
      forall x
        ensures x in r <==> x in h || x == sample
      {
        assert x in h <==> x in h[..at] || x in h[at..];
      }
    }
  }

  lemma PruneAscends(h: Samples, cap: nat)
    requires Ascends(h)
    ensures Ascends(Prune(h, cap))
  {
    if cap > 0 && |h| > cap {
      StrictSlice(h, TxKey, |h| - cap, |h|);
      assert h[|h| - cap..|h|] == h[|h| - cap..];
    }
  }

  /** Pruning commutes with pushing: what an earlier prune dropped can never come back. */
  lemma PruneCommutes(h: Samples, sample: CommitmentSample, cap: nat)
    requires Ascends(h)
    ensures PushedBounded(Prune(h, cap), sample, cap) == Prune(Pushed(h, sample), cap)
  {
    hide InsertAt, LowerBound, HasTx;
    if cap > 0 && |h| > cap {
      var d := |h| - cap;
      var inserted := InsertAt(h, sample);
      OrderedSplit(h, sample.txId);
      InsertLength(h, sample);
      PruneSuffix(inserted, d, cap);
      if d <= LowerBound(h, sample.txId) {
        InsertInSuffix(h, sample, d);
        PresenceInSuffix(h, sample.txId, d);
        PruneOne(inserted[d..], cap);
      } else {
        InsertBelowSuffix(h, sample, d);
        BelowSuffix(h, sample.txId, d);
        PruneOne([sample] + h[d..], cap);
      }
    }
  }

  lemma InsertLength(h: Samples, sample: CommitmentSample)
    ensures |InsertAt(h, sample)| == |h| + 1
  {
  }

  lemma PruneOne(s: Samples, cap: nat)
    requires |s| == cap + 1 && cap > 0
    ensures Prune(s, cap) == s[1..]
  {
  }

  lemma PruneSuffix(s: Samples, d: nat, cap: nat)
    requires |s| == d + cap + 1 && cap > 0
    ensures Prune(s, cap) == s[d..][1..] == s[d + 1..]
  {
  }

  lemma InsertInSuffix(h: Samples, sample: CommitmentSample, d: nat)
    requires d <= LowerBound(h, sample.txId)
    requires forall i :: LowerBound(h, sample.txId) <= i < |h| ==> h[i].txId >= sample.txId
    ensures InsertAt(h[d..], sample) == InsertAt(h, sample)[d..]
  {
    hide LowerBound;
    LowerBoundUnique(h[d..], sample.txId, LowerBound(h, sample.txId) - d);
    SliceAroundInsert(h, sample, LowerBound(h, sample.txId), d);
  }

  lemma SliceAroundInsert<T>(h: seq<T>, x: T, at: nat, d: nat)
    requires at <= |h| && d <= |h|
    ensures d <= at ==> (h[..at] + [x] + h[at..])[d..] == h[d..][..at - d] + [x] + h[d..][at - d..]
    ensures at < d ==> (h[..at] + [x] + h[at..])[d + 1..] == h[d..]
  {
  }

  lemma InsertBelowSuffix(h: Samples, sample: CommitmentSample, d: nat)
    requires LowerBound(h, sample.txId) < d <= |h|
    requires forall i :: LowerBound(h, sample.txId) <= i < |h| ==> h[i].txId >= sample.txId
    ensures InsertAt(h[d..], sample) == [sample] + h[d..]
    ensures InsertAt(h, sample)[d + 1..] == h[d..]
  {
    hide LowerBound;
    var kept := h[d..];
    LowerBoundUnique(kept, sample.txId, 0);
    assert kept[..0] + [sample] + kept[0..] == [sample] + kept;
    SliceAroundInsert(h, sample, LowerBound(h, sample.txId), d);
  }

  lemma PresenceInSuffix(h: Samples, tx: U64, d: nat)
    requires d <= LowerBound(h, tx)
    ensures HasTx(h, tx) <==> HasTx(h[d..], tx)
  {
    if HasTx(h, tx) {
      var i :| 0 <= i < |h| && h[i].txId == tx;
      assert h[d..][i - d].txId == tx;
    }
    if HasTx(h[d..], tx) {
      var i :| 0 <= i < |h[d..]| && h[d..][i].txId == tx;
      assert h[d + i].txId == tx;
    }
  }

  lemma BelowSuffix(h: Samples, tx: U64, d: nat)
    requires Ascends(h) && LowerBound(h, tx) < d <= |h|
    ensures !HasTx(h[d..], tx)
  {
    var at := LowerBound(h, tx);
    forall i | 0 <= i < |h[d..]|
      ensures h[d..][i].txId != tx
    {
      assert KeyLess(TxKey(h[at]), TxKey(h[d + i]));
    }
  }

  /** Pruning once at the end is the same as pruning after every push. */
  lemma {:induction false} BoundedIsPruned(pushes: Samples, cap: nat)
    ensures Ascends(PushAll(pushes))
    ensures PushAllBounded(pushes, cap) == Prune(PushAll(pushes), cap)
  {
    if pushes != [] {
      var n := |pushes| - 1;
      BoundedIsPruned(pushes[..n], cap);
      PruneCommutes(PushAll(pushes[..n]), pushes[n], cap);
      PushedAscends(PushAll(pushes[..n]), pushes[n]);
    }
  }

  lemma FirstPushedStep(pushes: Samples, last: CommitmentSample, sample: CommitmentSample)
    ensures FirstPushed(pushes + [last], sample)
            <==> FirstPushed(pushes, sample) || (sample == last && !HasTx(pushes, last.txId))
  {
    var all := pushes + [last];
    forall i | 0 <= i <= |pushes|
      ensures all[..i] == pushes[..i]
    {
    }
    assert all[..|pushes|] == pushes;
    if FirstPushed(pushes, sample) {
      var i :| 0 <= i < |pushes| && pushes[i] == sample && !HasTx(pushes[..i], sample.txId);
      assert all[i] == sample;
    }
    if sample == last && !HasTx(pushes, last.txId) {
      assert all[|pushes|] == sample;
    }
    if FirstPushed(all, sample) {
      var i :| 0 <= i < |all| && all[i] == sample && !HasTx(all[..i], sample.txId);
      if i < |pushes| {
        assert pushes[i] == sample;
      }
    }
  }

  lemma {:induction false} PushAllHasTx(pushes: Samples, tx: U64)
    ensures HasTx(PushAll(pushes), tx) <==> HasTx(pushes, tx)
  {
    hide HasTx, Pushed;
    if pushes != [] {
      var n := |pushes| - 1;
      var before, last := pushes[..n], pushes[n];
      PushAllHasTx(before, tx);
      BoundedIsPruned(before, 0);
      PushedHasTx(PushAll(before), last, tx);
      AppendHasTx(before, last, tx);
      assert pushes == before + [last];
    } else {
      assert PushAll(pushes) == pushes;
    }
  }

  lemma PushedHasTx(h: Samples, sample: CommitmentSample, tx: U64)
    requires Ascends(h)
    ensures HasTx(Pushed(h, sample), tx) <==> HasTx(h, tx) || sample.txId == tx
  {
    hide Pushed, InsertAt;
    PushedAscends(h, sample);
    HasTxMembers(h, tx);
    HasTxMembers(h, sample.txId);
    HasTxMembers(Pushed(h, sample), tx);
  }

  lemma AppendHasTx(h: Samples, last: CommitmentSample, tx: U64)
    ensures HasTx(h + [last], tx) <==> HasTx(h, tx) || last.txId == tx
  {
    var all := h + [last];
    assert all[|h|] == last;
    assert forall i :: 0 <= i < |h| ==> all[i] == h[i];
  }

  lemma HasTxMembers(h: Samples, tx: U64)
    ensures HasTx(h, tx) <==> exists x :: x in h && x.txId == tx
  {
    if HasTx(h, tx) {
      var i :| 0 <= i < |h| && h[i].txId == tx;
      assert h[i] in h;
    }
  }

  lemma {:induction false} PushAllHolds(pushes: Samples, sample: CommitmentSample)
    ensures sample in PushAll(pushes) <==> FirstPushed(pushes, sample)
  {
    if pushes != [] {
      var n := |pushes| - 1;
      var before, last := pushes[..n], pushes[n];
      assert before + [last] == pushes;
      PushAllHolds(before, sample);
      PushAllHasTx(before, last.txId);
      BoundedIsPruned(before, 0);
      PushedAscends(PushAll(before), last);
      FirstPushedStep(before, last, sample);
    }
  }

  /**
   After any pushes from an empty history with cap k, the history is ascending, every entry is the first
   sample pushed for its transaction, and a first-pushed sample is missing only if the history is full
   and it is older than every entry.
   */
  lemma HoldsLargest(pushes: Samples, cap: nat)
    ensures var h := PushAllBounded(pushes, cap);
            && Ascends(h) && |h| <= cap
            && (forall x :: x in h ==> FirstPushed(pushes, x))
            && (forall x :: FirstPushed(pushes, x) && x !in h ==>
                  |h| == cap && forall i :: 0 <= i < |h| ==> x.txId < h[i].txId)
  {
    var full := PushAll(pushes);
    BoundedIsPruned(pushes, cap);
    PruneAscends(full, cap);
    var h := PushAllBounded(pushes, cap);
    forall x | x in h
      ensures FirstPushed(pushes, x)
    {
      assert x in full;
      PushAllHolds(pushes, x);
    }
    forall x | FirstPushed(pushes, x) && x !in h
      ensures |h| == cap && forall i :: 0 <= i < |h| ==> x.txId < h[i].txId
    {
      PushAllHolds(pushes, x);
      var p :| 0 <= p < |full| && full[p] == x;
      if cap > 0 {
        DroppedIsOlder(full, cap, p);
      }
    }
  }

  lemma DroppedIsOlder(full: Samples, cap: nat, p: nat)
    requires Ascends(full) && cap > 0 && p < |full| && full[p] !in Prune(full, cap)
    ensures |Prune(full, cap)| == cap
    ensures forall i :: 0 <= i < cap ==> full[p].txId < Prune(full, cap)[i].txId
  {
    var h := Prune(full, cap);
    assert |full| > cap;
    var d := |full| - cap;
    forall i | d <= i < |full|
      ensures full[i] in h
    {
      assert full[i] == h[i - d];
    }
    forall i | 0 <= i < cap
      ensures full[p].txId < h[i].txId
    {
      assert KeyLess(TxKey(full[p]), TxKey(full[d + i]));
    }
  }

  /** Two runs with the same first-pushed samples end in the same history, whatever their order and repeats. */
  lemma OrderIndependent(pushes: Samples, others: Samples, cap: nat)
    requires forall x :: FirstPushed(pushes, x) <==> FirstPushed(others, x)
    ensures PushAllBounded(pushes, cap) == PushAllBounded(others, cap)
  {
    BoundedIsPruned(pushes, cap);
    BoundedIsPruned(others, cap);
    forall x
      ensures x in PushAll(pushes) <==> x in PushAll(others)
    {
      PushAllHolds(pushes, x);
      PushAllHolds(others, x);
    }
    StrictOrderUnique(PushAll(pushes), PushAll(others), TxKey);
  }

  /** A transaction always arrives with the same sample. */
  ghost predicate Consistent(pushes: Samples) {
    forall i, j :: 0 <= i < |pushes| && 0 <= j < |pushes| && pushes[i].txId == pushes[j].txId ==> pushes[i] == pushes[j]
  }

  /** For consistent samples only the set of pushed samples matters. */
  lemma SetOfPushesDecides(pushes: Samples, others: Samples, cap: nat)
    requires Consistent(pushes) && Consistent(others)
    requires forall x :: x in pushes <==> x in others
    ensures PushAllBounded(pushes, cap) == PushAllBounded(others, cap)
  {
    forall x
      ensures FirstPushed(pushes, x) <==> FirstPushed(others, x)
    {
      ConsistentFirst(pushes, x);
      ConsistentFirst(others, x);
    }
    OrderIndependent(pushes, others, cap);
  }

  lemma {:induction false} ConsistentFirst(pushes: Samples, x: CommitmentSample)
    requires Consistent(pushes)
    ensures FirstPushed(pushes, x) <==> x in pushes
  {
    if pushes != [] {
      var n := |pushes| - 1;
      var before, last := pushes[..n], pushes[n];
      assert before + [last] == pushes;
      forall i, j | 0 <= i < n && 0 <= j < n && before[i].txId == before[j].txId
        ensures before[i] == before[j]
      {
        assert pushes[i].txId == pushes[j].txId;
      }
      ConsistentFirst(before, x);
      FirstPushedStep(before, last, x);
      if x == last && HasTx(before, last.txId) {
        var i :| 0 <= i < n && before[i].txId == last.txId;
        assert pushes[i] == pushes[n];
        assert before[i] in before;
      }
    }
  }

  /** sort_unstable_by_key: any arrangement sorted by transaction id. */
  method SortUnstable(items: Samples) returns (sorted: Samples)
    ensures Sorted(sorted, TxKey) && multiset(sorted) == multiset(items)
  {
    sorted := Sort(items, TxKey);
    SortProperties(items, TxKey);
  }

  datatype Search = Match(at: nat) | Missing(at: nat)

  /** binary_search_by_key on a sorted history. */
  method BinarySearch(h: Samples, tx: U64) returns (found: Search)
    requires Sorted(h, TxKey)
    ensures found.Match? ==> found.at < |h| && h[found.at].txId == tx
    ensures found.Missing? ==> !HasTx(h, tx) && found.at == LowerBound(h, tx)
  {
    var lo, hi := 0, |h|;
    while lo < hi
      invariant lo <= hi <= |h|
      invariant forall i :: 0 <= i < lo ==> h[i].txId < tx
      invariant forall i :: hi <= i < |h| ==> h[i].txId > tx
    {
      var mid := (lo + hi) / 2;
      if h[mid].txId == tx {
        return Match(mid);
      }
      if h[mid].txId < tx {
        forall i | 0 <= i <= mid
          ensures h[i].txId < tx
        {
          assert i < mid ==> KeyLeq(TxKey(h[i]), TxKey(h[mid]));
        }
        lo := mid + 1;
      } else {
        forall i | mid <= i < |h|
          ensures h[i].txId > tx
        {
          assert mid < i ==> KeyLeq(TxKey(h[mid]), TxKey(h[i]));
        }
        hi := mid;
      }
    }
    LowerBoundUnique(h, tx, lo);
    found := Missing(lo);
  }

  class History {
    var items: Samples

    constructor ()
      ensures items == []
    {
      items := [];
    }

    /** True exactly when the transaction was not retained; an ascending history stays the specified one. */
    method Push(sample: CommitmentSample, maxEntries: U32) returns (inserted: bool)
      modifies this
      ensures inserted <==> !HasTx(old(items), sample.txId)
      ensures Ascends(old(items)) ==> Ascends(items) && items == PushedBounded(old(items), sample, maxEntries)
      ensures !inserted ==> multiset(items) == multiset(old(items)) && Sorted(items, TxKey)
    {
      var sorted := SortUnstable(items);
      SameTransactions(items, sorted, sample.txId);
      if Ascends(items) {
        SortedIsSame(items, sorted);
        PushedAscends(items, sample);
        PruneAscends(Pushed(items, sample), maxEntries);
      }
      items := sorted;
      var found := BinarySearch(items, sample.txId);
      if found.Match? {
        return false;
      }
      items := items[..found.at] + [sample] + items[found.at..];
      items := Prune(items, maxEntries);
      inserted := true;
    }
  }

  lemma SortedIsSame(items: Samples, sorted: Samples)
    requires Ascends(items) && Sorted(sorted, TxKey) && multiset(sorted) == multiset(items)
    ensures sorted == items
  {
    assert DistinctKeys(items, TxKey);
    UnstableSortUnique(items, sorted, TxKey);
    SortIdentity(items, TxKey);
  }

  lemma SameTransactions(items: Samples, sorted: Samples, tx: U64)
    requires multiset(sorted) == multiset(items)
    ensures HasTx(sorted, tx) <==> HasTx(items, tx)
  {
    HasTxMembers(items, tx);
    HasTxMembers(sorted, tx);
    forall x
      ensures x in items <==> x in sorted
    {
      assert x in items <==> x in multiset(items);
      assert x in sorted <==> x in multiset(sorted);
    }
  }

  // ---- registration metadata ----

  datatype Sighting = Sighting(timestampNanos: Option<U64>, nowSecs: U64)

  function ObservedSeconds(s: Sighting): U64 {
    if s.timestampNanos.Some? then s.timestampNanos.value / NANOS_PER_SECOND else s.nowSecs
  }

  function ApplyCommitmentSeen(meta: CanisterMeta, s: Sighting): CanisterMeta {
    meta.(firstSeenTs := if meta.firstSeenTs.None? then Some(s.nowSecs) else meta.firstSeenTs,
          lastCommitmentTs := MaxOption(meta.lastCommitmentTs, Some(ObservedSeconds(s))))
  }

  function ApplyAllSeen(meta: CanisterMeta, sightings: seq<Sighting>): CanisterMeta {
    if sightings == [] then meta
    else ApplyCommitmentSeen(ApplyAllSeen(meta, sightings[..|sightings| - 1]), sightings[|sightings| - 1])
  }

  /**
   Backfill order does not matter: the last commitment time is the greatest of the old one and of the seconds
   of all sightings, where a sighting without a timestamp counts with its own time; the registration time is
   that of the first sighting, and the rest of the metadata stays.
   */
  lemma {:induction false} SeenIsMaximum(meta: CanisterMeta, sightings: seq<Sighting>)
    requires sightings != []
    ensures var after := ApplyAllSeen(meta, sightings);
            && after.firstSeenTs == (if meta.firstSeenTs.Some? then meta.firstSeenTs else Some(sightings[0].nowSecs))
            && after.lastCommitmentTs.Some?
            && (forall i :: 0 <= i < |sightings| ==> IsSeen(sightings[i], after.lastCommitmentTs.value, false))
            && (meta.lastCommitmentTs.Some? ==> meta.lastCommitmentTs.value <= after.lastCommitmentTs.value)
            && (meta.lastCommitmentTs == after.lastCommitmentTs
                || exists i :: 0 <= i < |sightings| && IsSeen(sightings[i], after.lastCommitmentTs.value, true))
            && after.lastCyclesProbeTs == meta.lastCyclesProbeTs
            && after.lastCyclesProbeResult == meta.lastCyclesProbeResult
  {
    var n := |sightings| - 1;
    var before := sightings[..n];
    if n > 0 {
      SeenIsMaximum(meta, before);
      forall i | 0 <= i < n
        ensures before[i] == sightings[i]
      {
      }
    } else {
      assert before == [];
    }
    assert IsSeen(sightings[n], ApplyAllSeen(meta, sightings).lastCommitmentTs.value, false);
    if ApplyAllSeen(meta, sightings).lastCommitmentTs != ApplyAllSeen(meta, before).lastCommitmentTs {
      assert IsSeen(sightings[n], ApplyAllSeen(meta, sightings).lastCommitmentTs.value, true);
    }
  }

  /** The time is exactly, or at least, the whole second of the sighting. */
  ghost predicate IsSeen(s: Sighting, time: U64, exactly: bool) {
    var observed: int := if s.timestampNanos.Some? then s.timestampNanos.value / 1_000_000_000 else s.nowSecs;
    if exactly then time == observed else time >= observed
  }
}
