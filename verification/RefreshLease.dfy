/**
 The module-hash refresh lease (canisters/historian/src/read_model.rs): an expiring lock taken before an
 asynchronous load, and a cache that only the current holder may write.
 */
module RefreshLease {
  import opened Machine

  const CACHE_TTL_SECONDS := 60 * 60
  const LEASE_SECONDS := 5 * 60

  /** The hashes are opaque here. */
  type Hashes = seq<nat>

  datatype Lease = Lease(cacheUpdatedTs: Option<U64>, lockTs: Option<U64>, cache: Hashes)

  predicate CacheIsStale(s: Lease, now: U64) {
    s.cacheUpdatedTs.None? || SatSub(now, s.cacheUpdatedTs.value) >= CACHE_TTL_SECONDS
  }

  predicate LockIsLive(s: Lease, now: U64) {
    s.lockTs.Some? && SatSub(now, s.lockTs.value) < LEASE_SECONDS
  }

  predicate CanAcquire(s: Lease, now: U64) {
    CacheIsStale(s, now) && !LockIsLive(s, now)
  }

  function Acquired(s: Lease, now: U64): Lease {
    if CanAcquire(s, now) then s.(lockTs := Some(now)) else s
  }

  function Finished(s: Lease, token: U64, completed: U64, hashes: Hashes): Lease {
    if s.lockTs == Some(token) then Lease(Some(completed), None, hashes) else s
  }

  function Released(s: Lease, token: U64): Lease {
    if s.lockTs == Some(token) then s.(lockTs := None) else s
  }

  class HashCache {
    var cache: Hashes
    var updatedTs: Option<U64>
    var lockTs: Option<U64>

    function State(): Lease
      reads this
    {
      Lease(updatedTs, lockTs, cache)
    }

    constructor ()
      ensures State() == Lease(None, None, [])
    {
      cache, updatedTs, lockTs := [], None, None;
    }

    method Acquire(now: U64) returns (acquired: bool)
      modifies this
      ensures acquired <==> CanAcquire(old(State()), now)
      ensures acquired <==>
                && (old(updatedTs).Some? ==> now >= old(updatedTs).value + 3_600)
                && (old(lockTs).Some? ==> now >= old(lockTs).value + 300)
      ensures lockTs == (if acquired then Some(now) else old(lockTs))
      ensures cache == old(cache) && updatedTs == old(updatedTs)
      ensures State() == Acquired(old(State()), now)
    {
      var stale := updatedTs.None? || SatSub(now, updatedTs.value) >= CACHE_TTL_SECONDS;
      if !stale {
        return false;
      }
      if lockTs.Some? && SatSub(now, lockTs.value) < LEASE_SECONDS {
        return false;
      }
      lockTs := Some(now);
      acquired := true;
    }

    method Finish(token: U64, completed: U64, hashes: Hashes)
      modifies this
      ensures State() == Finished(old(State()), token, completed, hashes)
      ensures old(lockTs) == Some(token) ==> cache == hashes && updatedTs == Some(completed) && lockTs.None?
      ensures old(lockTs) != Some(token) ==> unchanged(this)
    {
      if lockTs != Some(token) {
        return;
      }
      cache := hashes;
      updatedTs := Some(completed);
      lockTs := None;
    }

    method Release(token: U64)
      modifies this
      ensures State() == Released(old(State()), token)
      ensures lockTs == (if old(lockTs) == Some(token) then None else old(lockTs))
      ensures cache == old(cache) && updatedTs == old(updatedTs)
    {
      if lockTs == Some(token) {
        lockTs := None;
      }
    }
  }

  /** A refresh may start once the cache is an hour old and any lock five minutes old, and not before. */
  lemma AcquiresWhenDue(s: Lease, now: U64)
    ensures CanAcquire(s, now)
            <==> (s.cacheUpdatedTs.Some? ==> now >= s.cacheUpdatedTs.value + 3_600)
                 && (s.lockTs.Some? ==> now >= s.lockTs.value + 300)
  {
  }

  // ---- interleaved refreshes ----

  /** The shared lease, the clock, and the tokens of the refreshes still awaiting their load. */
  datatype World = World(lease: Lease, clock: U64, inFlight: seq<U64>)

  datatype Event =
    | Start(now: U64)
    | Complete(index: nat, now: U64, hashes: Hashes)
    | Fail(index: nat, now: U64)
    | Crash(index: nat, now: U64)

  ghost predicate Enabled(w: World, e: Event) {
    e.now >= w.clock && (!e.Start? ==> e.index < |w.inFlight|)
  }

  function Without(tokens: seq<U64>, i: nat): seq<U64>
    requires i < |tokens|
  {
    tokens[..i] + tokens[i + 1..]
  }

  /** A crash ends a refresh without touching the lease, as a trapped callback does. */
  ghost function Next(w: World, e: Event): World
    requires Enabled(w, e)
  {
    match e
    case Start(now) =>
      World(Acquired(w.lease, now), now, if CanAcquire(w.lease, now) then w.inFlight + [now] else w.inFlight)
    case Complete(i, now, hashes) => World(Finished(w.lease, w.inFlight[i], now, hashes), now, Without(w.inFlight, i))
    case Fail(i, now) => World(Released(w.lease, w.inFlight[i]), now, Without(w.inFlight, i))
    case Crash(i, now) => World(w.lease, now, Without(w.inFlight, i))
  }

  ghost predicate Run(worlds: seq<World>, events: seq<Event>) {
    && |worlds| == |events| + 1
    && worlds[0].lease == Lease(None, None, []) && worlds[0].inFlight == []
    && forall i :: 0 <= i < |events| ==> Enabled(worlds[i], events[i]) && worlds[i + 1] == Next(worlds[i], events[i])
  }

  ghost predicate Spaced(tokens: seq<U64>) {
    forall i, j :: 0 <= i < j < |tokens| ==> tokens[i] + LEASE_SECONDS <= tokens[j]
  }

  /**
   Tokens in flight are a full lease apart, oldest first; a lock is the newest token issued; with no lock
   every token in flight has outlived its lease; the cache is not newer than the clock.
   */
  ghost predicate Safe(w: World) {
    && Spaced(w.inFlight)
    && (w.lease.lockTs.Some? ==>
          w.lease.lockTs.value <= w.clock
          && forall i :: 0 <= i < |w.inFlight| ==>
               w.inFlight[i] == w.lease.lockTs.value || w.inFlight[i] + LEASE_SECONDS <= w.lease.lockTs.value)
    && (w.lease.lockTs.None? ==> forall i :: 0 <= i < |w.inFlight| ==> w.inFlight[i] + LEASE_SECONDS <= w.clock)
    && (w.lease.cacheUpdatedTs.Some? ==> w.lease.cacheUpdatedTs.value <= w.clock)
  }

  lemma StartIsSafe(w: World, now: U64)
    requires Safe(w) && w.clock <= now
    ensures Safe(Next(w, Start(now)))
  {
    var next := Next(w, Start(now));
    if CanAcquire(w.lease, now) {
      forall i | 0 <= i < |w.inFlight|
        ensures w.inFlight[i] + LEASE_SECONDS <= now
      {
      }
    }
  }

  lemma WithoutSpaced(tokens: seq<U64>, e: nat)
    requires Spaced(tokens) && e < |tokens|
    ensures Spaced(Without(tokens, e))
  {
  }

  lemma WithoutAt(tokens: seq<U64>, e: nat, i: nat)
    requires Spaced(tokens) && e < |tokens| && i < |tokens| - 1
    ensures |Without(tokens, e)| == |tokens| - 1
    ensures Without(tokens, e)[i] == (if i < e then tokens[i] else tokens[i + 1])
    ensures Without(tokens, e)[i] != tokens[e]
  {
  }

  lemma EndIsSafe(w: World, e: Event)
    requires Safe(w) && Enabled(w, e) && !e.Start?
    ensures Safe(Next(w, e))
  {
    hide Spaced, Without;
    WithoutSpaced(w.inFlight, e.index);
    WithoutLength(w.inFlight, e.index);
    var rest := Without(w.inFlight, e.index);
    forall i | 0 <= i < |rest|
      ensures w.lease.lockTs.None? ==> rest[i] + LEASE_SECONDS <= w.clock
      ensures w.lease.lockTs.Some? ==>
                rest[i] == w.lease.lockTs.value || rest[i] + LEASE_SECONDS <= w.lease.lockTs.value
      ensures rest[i] != w.inFlight[e.index]
    {
      var q := if i < e.index then i else i + 1;
      WithoutAt(w.inFlight, e.index, i);
      assert rest[i] == w.inFlight[q];
    }
  }

  lemma WithoutLength(tokens: seq<U64>, e: nat)
    requires e < |tokens|
    ensures |Without(tokens, e)| == |tokens| - 1
  {
  }

  /** In every reachable world the invariant holds; in particular tokens in flight are pairwise distinct. */
  lemma {:induction false} RunIsSafe(worlds: seq<World>, events: seq<Event>, i: nat)
    requires Run(worlds, events) && i <= |events|
    ensures Safe(worlds[i])
  {
    if i > 0 {
      RunIsSafe(worlds, events, i - 1);
      assert worlds[i] == Next(worlds[i - 1], events[i - 1]) && Enabled(worlds[i - 1], events[i - 1]);
      if events[i - 1].Start? {
        StartIsSafe(worlds[i - 1], events[i - 1].now);
      } else {
        EndIsSafe(worlds[i - 1], events[i - 1]);
      }
    }
  }

  /** The refresh still runs but no longer holds the lock. */
  ghost predicate Overtaken(w: World, token: U64) {
    token in w.inFlight && w.lease.lockTs != Some(token)
  }

  /** An overtaken refresh can neither write the cache nor clear the lock. */
  lemma OvertakenIsHarmless(w: World, e: Event)
    requires Enabled(w, e) && !e.Start? && Overtaken(w, w.inFlight[e.index])
    ensures Next(w, e).lease == w.lease
  {
  }

  /** One step keeps an overtaken refresh overtaken, unless it ends. */
  lemma OvertakenStep(w: World, e: Event, token: U64)
    requires Safe(w) && Enabled(w, e) && Overtaken(w, token) && token in Next(w, e).inFlight
    ensures Overtaken(Next(w, e), token)
  {
    hide Without;
    var p :| 0 <= p < |w.inFlight| && w.inFlight[p] == token;
    assert w.lease.lockTs.None? ==> w.inFlight[p] + LEASE_SECONDS <= w.clock;
    assert w.lease.lockTs.Some? ==> w.inFlight[p] + LEASE_SECONDS <= w.lease.lockTs.value;
  }

  /** A refresh that was overtaken stays so until it ends: its token is never issued again meanwhile. */
  lemma {:induction false} OvertakenForever(worlds: seq<World>, events: seq<Event>, i: nat, j: nat, token: U64)
    requires Run(worlds, events) && i <= j <= |events|
    requires Overtaken(worlds[i], token)
    requires forall k :: i <= k <= j ==> token in worlds[k].inFlight
    ensures Overtaken(worlds[j], token)
  {
    hide Overtaken, Safe;
    if i < j {
      OvertakenForever(worlds, events, i, j - 1, token);
      RunIsSafe(worlds, events, j - 1);
      assert worlds[j] == Next(worlds[j - 1], events[j - 1]) && Enabled(worlds[j - 1], events[j - 1]);
      OvertakenStep(worlds[j - 1], events[j - 1], token);
    }
  }

  /** Only the lock holder writes, with the current clock, so the cache timestamp never goes backwards. */
  lemma {:induction false} TimestampMonotone(worlds: seq<World>, events: seq<Event>, i: nat, j: nat)
    requires Run(worlds, events) && i <= j <= |events|
    ensures worlds[i].lease.cacheUpdatedTs.Some? ==>
              worlds[j].lease.cacheUpdatedTs.Some?
              && worlds[i].lease.cacheUpdatedTs.value <= worlds[j].lease.cacheUpdatedTs.value
  {
    if i < j {
      TimestampMonotone(worlds, events, i, j - 1);
      RunIsSafe(worlds, events, j - 1);
      assert worlds[j] == Next(worlds[j - 1], events[j - 1]) && Enabled(worlds[j - 1], events[j - 1]);
    }
  }

  /**
   In every run a refresh starts only when the cache is an hour old, and every token in flight, the lock's
   included, is then at least five minutes old.
   */
  lemma StartsAreSpaced(worlds: seq<World>, events: seq<Event>, i: nat)
    requires Run(worlds, events) && i < |events|
    requires events[i].Start? && |worlds[i + 1].inFlight| > |worlds[i].inFlight|
    ensures worlds[i].lease.cacheUpdatedTs.Some? ==> events[i].now >= worlds[i].lease.cacheUpdatedTs.value + 3_600
    ensures forall k :: 0 <= k < |worlds[i].inFlight| ==> events[i].now >= worlds[i].inFlight[k] as int + 300
    ensures worlds[i + 1].lease.lockTs == Some(events[i].now)
  {
    RunIsSafe(worlds, events, i);
    assert worlds[i + 1] == Next(worlds[i], events[i]) && Enabled(worlds[i], events[i]);
    AcquiresWhenDue(worlds[i].lease, events[i].now);
  }

  /** Every change of the cache comes from the refresh holding the lock. */
  lemma OnlyHolderWrites(worlds: seq<World>, events: seq<Event>, i: nat)
    requires Run(worlds, events) && i < |events|
    requires worlds[i + 1].lease.cache != worlds[i].lease.cache
             || worlds[i + 1].lease.cacheUpdatedTs != worlds[i].lease.cacheUpdatedTs
    ensures events[i].Complete? && worlds[i].lease.lockTs == Some(worlds[i].inFlight[events[i].index])
    ensures worlds[i + 1].lease == Lease(Some(events[i].now), None, events[i].hashes)
  {
    assert worlds[i + 1] == Next(worlds[i], events[i]) && Enabled(worlds[i], events[i]);
  }
}
