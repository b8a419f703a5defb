/** The bounded newest-first feeds (canisters/historian/src/normalization.rs). */
module RecentFeeds {
  import opened Machine
  import opened Ordering
  import opened Filtering
  import opened HistorianData

  const MAX_RECENT_QUALIFYING := 500
  const MAX_RECENT_UNDER_THRESHOLD := 100
  const MAX_RECENT_INVALID := 100

  datatype RecentCommitment = RecentCommitment(
    canisterId: Principal,
    rawIcpMemoText: Option<string>,
    rawIcpDestination: Option<Bytes>,
    txId: U64,
    timestampNanos: Option<U64>,
    amountE8s: U64,
    countsTowardFaucet: bool)

  datatype InvalidCommitment = InvalidCommitment(
    txId: U64,
    timestampNanos: Option<U64>,
    amountE8s: U64,
    memoText: string)

  /** Newest first: by timestamp, then by transaction id, both descending. */
  function NewestFirst(timestampNanos: Option<U64>, txId: U64): Key {
    var ts: int, tx: int := if timestampNanos.Some? then timestampNanos.value else 0, txId;
    (-ts, -tx)
  }

  function RecentKey(item: RecentCommitment): Key {
    NewestFirst(item.timestampNanos, item.txId)
  }

  function InvalidKey(item: InvalidCommitment): Key {
    NewestFirst(item.timestampNanos, item.txId)
  }

  function RecentTx(item: RecentCommitment): nat {
    item.txId
  }

  function InvalidTx(item: InvalidCommitment): nat {
    item.txId
  }

  function CountsAs(flag: bool): RecentCommitment -> bool {
    (item: RecentCommitment) => item.countsTowardFaucet == flag
  }

  /** Keep the first item of every transaction. */
  function Dedupe<T>(items: seq<T>, tx: T -> nat, seen: set<nat>): seq<T> {
    if items == [] then []
    else if tx(items[0]) in seen then Dedupe(items[1..], tx, seen)
    else [items[0]] + Dedupe(items[1..], tx, seen + {tx(items[0])})
  }

  function Truncate<T>(items: seq<T>, cap: nat): seq<T> {
    if |items| > cap then items[..cap] else items
  }

  /** Sort newest first, keep one item per transaction, truncate. */
  function Feed<T>(items: seq<T>, key: T -> Key, tx: T -> nat, cap: nat): seq<T> {
    Truncate(Dedupe(Sort(items, key), tx, {}), cap)
  }

  ghost predicate DistinctTxs<T>(items: seq<T>, tx: T -> nat) {
    forall i, j :: 0 <= i < j < |items| ==> tx(items[i]) != tx(items[j])
  }

  /** A finished feed: strictly newest first, one item per transaction, within its cap. */
  ghost predicate IsFeed<T>(items: seq<T>, key: T -> Key, tx: T -> nat, cap: nat) {
    StrictlySorted(items, key) && DistinctTxs(items, tx) && |items| <= cap
  }

  /** Equal keys belong to the same transaction. */
  ghost predicate KeyHasTx<T(!new)>(key: T -> Key, tx: T -> nat) {
    forall a, b :: key(a) == key(b) ==> tx(a) == tx(b)
  }

  lemma {:induction false} DedupeProperties<T>(items: seq<T>, key: T -> Key, tx: T -> nat, seen: set<nat>)
    requires Sorted(items, key)
    ensures var d := Dedupe(items, tx, seen);
            && Sorted(d, key) && DistinctTxs(d, tx)
            && (forall i :: 0 <= i < |d| ==> d[i] in items && tx(d[i]) !in seen)
  {
    if items != [] {
      assert items == [items[0]] + items[1..];
      if tx(items[0]) in seen {
        DedupeProperties(items[1..], key, tx, seen);
      } else {
        DedupeProperties(items[1..], key, tx, seen + {tx(items[0])});
        var rest := Dedupe(items[1..], tx, seen + {tx(items[0])});
        forall i | 0 <= i < |rest|
          ensures KeyLeq(key(items[0]), key(rest[i])) && tx(rest[i]) != tx(items[0])
        {
          var p :| 0 <= p < |items[1..]| && items[1..][p] == rest[i];
          assert KeyLeq(key(items[0]), key(items[p + 1]));
        }
      }
    }
  }

  /** For every item of a sorted input, one at least as new survives for its transaction. */
  lemma {:induction false} DedupeKeepsNewest<T>(items: seq<T>, key: T -> Key, tx: T -> nat, seen: set<nat>, i: nat)
    returns (j: nat)
    requires Sorted(items, key) && i < |items| && tx(items[i]) !in seen
    ensures j < |Dedupe(items, tx, seen)|
    ensures var y := Dedupe(items, tx, seen)[j]; tx(y) == tx(items[i]) && KeyLeq(key(y), key(items[i]))
  {
    if tx(items[0]) in seen {
      j := DedupeKeepsNewest(items[1..], key, tx, seen, i - 1);
    } else if tx(items[0]) == tx(items[i]) {
      j := 0;
    } else {
      var p := DedupeKeepsNewest(items[1..], key, tx, seen + {tx(items[0])}, i - 1);
      j := p + 1;
    }
  }

  /**
   Every input item is represented by one of its transaction that is at least as new, unless the feed is
   full of items at least as new.
   */
  lemma FeedKeepsNewest<T>(items: seq<T>, key: T -> Key, tx: T -> nat, cap: nat, x: T)
    requires x in items
    ensures var feed := Feed(items, key, tx, cap);
            || (exists j :: 0 <= j < |feed| && tx(feed[j]) == tx(x) && KeyLeq(key(feed[j]), key(x)))
            || (|feed| == cap && forall j :: 0 <= j < |feed| ==> KeyLeq(key(feed[j]), key(x)))
  {
    var sorted := Sort(items, key);
    SortProperties(items, key);
    SortMembers(items, key);
    var i :| 0 <= i < |sorted| && sorted[i] == x;
    var j := DedupeKeepsNewest(sorted, key, tx, {}, i);
    DedupeProperties(sorted, key, tx, {});
    var d := Dedupe(sorted, tx, {});
    var feed := Feed(items, key, tx, cap);
    if j < |feed| {
      assert tx(feed[j]) == tx(x);
    } else {
      forall p | 0 <= p < |feed|
        ensures KeyLeq(key(feed[p]), key(x))
      {
        assert KeyLeq(key(d[p]), key(d[j]));
      }
    }
  }

  lemma {:induction false} DedupeIdentity<T>(items: seq<T>, tx: T -> nat, seen: set<nat>)
    requires DistinctTxs(items, tx)
    requires forall i :: 0 <= i < |items| ==> tx(items[i]) !in seen
    ensures Dedupe(items, tx, seen) == items
  {
    if items != [] {
      DedupeIdentity(items[1..], tx, seen + {tx(items[0])});
      assert items == [items[0]] + items[1..];
    }
  }

  lemma FeedEstablishes<T(!new)>(items: seq<T>, key: T -> Key, tx: T -> nat, cap: nat)
    requires KeyHasTx(key, tx)
    ensures IsFeed(Feed(items, key, tx, cap), key, tx, cap)
    ensures forall x :: x in Feed(items, key, tx, cap) ==> x in items
  {
    var sorted := Sort(items, key);
    SortProperties(items, key);
    SortMembers(items, key);
    DedupeProperties(sorted, key, tx, {});
    var d := Dedupe(sorted, tx, {});
    forall i, j | 0 <= i < j < |d|
      ensures KeyLess(key(d[i]), key(d[j]))
    {
      assert key(d[i]) != key(d[j]);
    }
  }

  lemma FeedIdentity<T>(items: seq<T>, key: T -> Key, tx: T -> nat, cap: nat)
    requires IsFeed(items, key, tx, cap)
    ensures Feed(items, key, tx, cap) == items
  {
    SortIdentity(items, key);
    DedupeIdentity(items, tx, {});
  }

  /** The retain pass with its set of seen transactions. */
  method RetainFirst<T>(items: seq<T>, tx: T -> nat) returns (kept: seq<T>)
    ensures kept == Dedupe(items, tx, {})
  {
    kept := [];
    var seen: set<nat> := {};
    for i := 0 to |items|
      invariant kept + Dedupe(items[i..], tx, seen) == Dedupe(items, tx, {})
    {
      assert items[i..][1..] == items[i + 1..];
      if tx(items[i]) !in seen {
        kept, seen := kept + [items[i]], seen + {tx(items[i])};
      }
    }
  }

  function CommitmentBucket(items: seq<RecentCommitment>, flag: bool, cap: nat): seq<RecentCommitment> {
    Feed(Filter(items, CountsAs(flag)), RecentKey, RecentTx, cap)
  }

  function InvalidBucket(items: seq<InvalidCommitment>): seq<InvalidCommitment> {
    Feed(items, InvalidKey, InvalidTx, MAX_RECENT_INVALID)
  }

  ghost predicate IsCommitmentBucket(items: seq<RecentCommitment>, flag: bool, cap: nat) {
    && IsFeed(items, RecentKey, RecentTx, cap)
    && forall x :: x in items ==> x.countsTowardFaucet == flag
  }

  /** Later, or at the same time with a larger transaction id; an item without a timestamp counts as time zero. */
  ghost predicate Newer(ts: Option<U64>, tx: U64, otherTs: Option<U64>, otherTx: U64) {
    var a: int, b: int := if ts.Some? then ts.value else 0, if otherTs.Some? then otherTs.value else 0;
    a > b || (a == b && tx > otherTx)
  }

  /**
   A commitment bucket, without reference to keys: strictly newest first, one item per transaction, taken from
   the items with the flag, and of each of those an item at least as new is kept for its transaction, unless
   the bucket is full of newer items.
   */
  lemma BucketKeepsNewest(items: seq<RecentCommitment>, flag: bool, cap: nat)
    ensures var b := CommitmentBucket(items, flag, cap);
            && |b| <= cap
            && (forall i, j :: 0 <= i < j < |b| ==>
                  b[i].txId != b[j].txId && Newer(b[i].timestampNanos, b[i].txId, b[j].timestampNanos, b[j].txId))
            && (forall x :: x in b ==> x in items && x.countsTowardFaucet == flag)
            && (forall x :: x in items && x.countsTowardFaucet == flag ==>
                  || (exists j :: 0 <= j < |b| && b[j].txId == x.txId
                       && !Newer(x.timestampNanos, x.txId, b[j].timestampNanos, b[j].txId))
                  || (|b| == cap
                      && forall j :: 0 <= j < |b| ==> !Newer(x.timestampNanos, x.txId, b[j].timestampNanos, b[j].txId)))
  {
    hide Feed;
    var mine := Filter(items, CountsAs(flag));
    var b := CommitmentBucket(items, flag, cap);
    FilterMembers(items, CountsAs(flag));
    FeedEstablishes(mine, RecentKey, RecentTx, cap);
    forall i, j | 0 <= i < j < |b|
      ensures b[i].txId != b[j].txId && Newer(b[i].timestampNanos, b[i].txId, b[j].timestampNanos, b[j].txId)
    {
      assert KeyLess(RecentKey(b[i]), RecentKey(b[j])) && RecentTx(b[i]) != RecentTx(b[j]);
    }
    forall x | x in items && x.countsTowardFaucet == flag
      ensures || (exists j :: 0 <= j < |b| && b[j].txId == x.txId
                   && !Newer(x.timestampNanos, x.txId, b[j].timestampNanos, b[j].txId))
              || (|b| == cap
                  && forall j :: 0 <= j < |b| ==> !Newer(x.timestampNanos, x.txId, b[j].timestampNanos, b[j].txId))
    {
      assert x in mine;
      FeedKeepsNewest(mine, RecentKey, RecentTx, cap, x);
      forall j | 0 <= j < |b| && KeyLeq(RecentKey(b[j]), RecentKey(x))
        ensures !Newer(x.timestampNanos, x.txId, b[j].timestampNanos, b[j].txId)
      {
      }
      if j :| 0 <= j < |b| && RecentTx(b[j]) == RecentTx(x) && KeyLeq(RecentKey(b[j]), RecentKey(x)) {
        assert b[j].txId == x.txId;
      }
    }
  }

  /** The same for the invalid commitments, of which all count and 100 are kept. */
  lemma InvalidKeepsNewest(items: seq<InvalidCommitment>)
    ensures var b := InvalidBucket(items);
            && |b| <= 100
            && (forall i, j :: 0 <= i < j < |b| ==>
                  b[i].txId != b[j].txId && Newer(b[i].timestampNanos, b[i].txId, b[j].timestampNanos, b[j].txId))
            && (forall x :: x in b ==> x in items)
            && (forall x :: x in items ==>
                  || (exists j :: 0 <= j < |b| && b[j].txId == x.txId
                       && !Newer(x.timestampNanos, x.txId, b[j].timestampNanos, b[j].txId))
                  || (|b| == 100
                      && forall j :: 0 <= j < |b| ==> !Newer(x.timestampNanos, x.txId, b[j].timestampNanos, b[j].txId)))
  {
    hide Feed;
    var b := InvalidBucket(items);
    FeedEstablishes(items, InvalidKey, InvalidTx, MAX_RECENT_INVALID);
    forall i, j | 0 <= i < j < |b|
      ensures b[i].txId != b[j].txId && Newer(b[i].timestampNanos, b[i].txId, b[j].timestampNanos, b[j].txId)
    {
      assert KeyLess(InvalidKey(b[i]), InvalidKey(b[j])) && InvalidTx(b[i]) != InvalidTx(b[j]);
    }
    forall x | x in items
      ensures || (exists j :: 0 <= j < |b| && b[j].txId == x.txId
                   && !Newer(x.timestampNanos, x.txId, b[j].timestampNanos, b[j].txId))
              || (|b| == 100
                  && forall j :: 0 <= j < |b| ==> !Newer(x.timestampNanos, x.txId, b[j].timestampNanos, b[j].txId))
    {
      FeedKeepsNewest(items, InvalidKey, InvalidTx, MAX_RECENT_INVALID, x);
      forall j | 0 <= j < |b| && KeyLeq(InvalidKey(b[j]), InvalidKey(x))
        ensures !Newer(x.timestampNanos, x.txId, b[j].timestampNanos, b[j].txId)
      {
      }
      if j :| 0 <= j < |b| && InvalidTx(b[j]) == InvalidTx(x) && KeyLeq(InvalidKey(b[j]), InvalidKey(x)) {
        assert b[j].txId == x.txId;
      }
    }
  }

  /** Normalising a bucket establishes its invariant, and a bucket that has it is left alone. */
  lemma BucketNormalForm(items: seq<RecentCommitment>, flag: bool, cap: nat)
    ensures IsCommitmentBucket(CommitmentBucket(items, flag, cap), flag, cap)
    ensures IsCommitmentBucket(items, flag, cap) ==> CommitmentBucket(items, flag, cap) == items
  {
    FilterMembers(items, CountsAs(flag));
    FeedEstablishes(Filter(items, CountsAs(flag)), RecentKey, RecentTx, cap);
    if IsCommitmentBucket(items, flag, cap) {
      FilterAll(items, CountsAs(flag));
      FeedIdentity(items, RecentKey, RecentTx, cap);
    }
  }

  lemma InvalidNormalForm(items: seq<InvalidCommitment>)
    ensures IsFeed(InvalidBucket(items), InvalidKey, InvalidTx, MAX_RECENT_INVALID)
    ensures IsFeed(items, InvalidKey, InvalidTx, MAX_RECENT_INVALID) ==> InvalidBucket(items) == items
  {
    FeedEstablishes(items, InvalidKey, InvalidTx, MAX_RECENT_INVALID);
    if IsFeed(items, InvalidKey, InvalidTx, MAX_RECENT_INVALID) {
      FeedIdentity(items, InvalidKey, InvalidTx, MAX_RECENT_INVALID);
    }
  }

  method NormalizeRecentCommitmentBucket(items: seq<RecentCommitment>, flag: bool, cap: nat)
    returns (bucket: seq<RecentCommitment>)
    ensures bucket == CommitmentBucket(items, flag, cap)
  {
    bucket := Filter(items, CountsAs(flag));
    bucket := Sort(bucket, RecentKey);
    bucket := RetainFirst(bucket, RecentTx);
    bucket := Truncate(bucket, cap);
  }

  method NormalizeRecentInvalidCommitments(items: seq<InvalidCommitment>) returns (bucket: seq<InvalidCommitment>)
    ensures bucket == InvalidBucket(items)
  {
    bucket := Sort(items, InvalidKey);
    bucket := RetainFirst(bucket, InvalidTx);
    bucket := Truncate(bucket, MAX_RECENT_INVALID);
  }
}
