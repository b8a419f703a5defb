/**
 The Faucet's skip-range cache (canisters/faucet/src/state.rs): an ordered map of inclusive intervals,
 merged on overlap or adjacency, that inspects one predecessor and at most three successors.
 */
module SkipRanges {
  import opened Machine
  import opened Ordering
  import opened OrderedSets

  datatype SkipRange = SkipRange(start: U64, end: U64)

  datatype InsertOutcome = Inserted | InvalidRange

  datatype LookupOutcome = Found(range: Option<SkipRange>) | InvalidEntry

  /** Low endpoint to high endpoint, both inclusive. */
  type Ranges = map<U64, U64>

  /** Every entry is a non-empty interval, and no two entries overlap or are adjacent. */
  ghost predicate WellFormed(m: Ranges) {
    && (forall k: U64 :: k in m ==> k <= m[k])
    && (forall a: U64, b: U64 :: a in m && b in m && a < b ==> m[a] + 1 < b)
  }

  ghost predicate Covers(m: Ranges, id: int) {
    exists k: U64 :: k in m && k <= id <= m[k]
  }

  ghost predicate InRange(r: SkipRange, id: int) {
    r.start <= id <= r.end
  }

  /** The entries that overlap the range or are adjacent to it. */
  function Touched(m: Ranges, r: SkipRange): set<U64> {
    set k: U64 | k in m && k as int <= r.end as int + 1 && r.start as int <= m[k] as int + 1
  }

  /** Insertion absorbs at most two entries and otherwise leaves the map alone. */
  ghost predicate IsInsertion(m: Ranges, r: SkipRange, m': Ranges) {
    if |Touched(m, r)| > 2 then m' == m
    else WellFormed(m') && forall id :: Covers(m', id) <==> Covers(m, id) || InRange(r, id)
  }

  /** A well-formed map is determined by the ids it covers, so IsInsertion determines its result. */
  lemma CoverageDetermines(m: Ranges, n: Ranges)
    requires WellFormed(m) && WellFormed(n)
    requires forall id :: Covers(m, id) <==> Covers(n, id)
    ensures m == n
  {
    forall k: U64 | k in m
      ensures k in n && n[k] == m[k]
    {
      SameEntry(m, n, k);
    }
    forall k: U64 | k in n
      ensures k in m
    {
      SameEntry(n, m, k);
    }
  }

  lemma SameEntry(m: Ranges, n: Ranges, k: U64)
    requires WellFormed(m) && WellFormed(n) && k in m
    requires forall id :: Covers(m, id) <==> Covers(n, id)
    ensures k in n && n[k] == m[k]
  {
    assert Covers(m, k);
    var j :| j in n && j <= k <= n[j];
    NoNeighbour(m, k);
    assert !Covers(n, k - 1);
    assert j == k;
    NoNeighbour(n, k);
    assert !Covers(n, m[k] as int + 1) && !Covers(m, n[k] as int + 1);
  }

  /** The ids next to an entry are uncovered. */
  lemma NoNeighbour(m: Ranges, k: U64)
    requires WellFormed(m) && k in m
    ensures !Covers(m, k - 1) && !Covers(m, m[k] as int + 1)
  {
    forall i: U64 | i in m
      ensures !(i <= k - 1 <= m[i]) && !(i <= m[k] as int + 1 <= m[i])
    {
      assert i < k || i == k || k < i;
    }
  }

  /** The range and the touched entries have the hull lo..hi. */
  ghost predicate IsHull(m: Ranges, r: SkipRange, lo: U64, hi: U64) {
    && r.start <= r.end && lo <= r.start && r.end <= hi
    && (forall k: U64 :: k in Touched(m, r) ==> lo <= k && m[k] <= hi)
    && (lo == r.start || lo in Touched(m, r))
    && (hi == r.end || exists k: U64 :: k in Touched(m, r) && m[k] == hi)
  }

  /** Replacing the touched entries by their hull with the range keeps the map well formed. */
  lemma MergeIsWellFormed(m: Ranges, r: SkipRange, lo: U64, hi: U64)
    requires WellFormed(m) && IsHull(m, r, lo, hi)
    ensures WellFormed((m - Touched(m, r))[lo := hi])
  {
    var kept := m - Touched(m, r);
    forall k: U64 | k in kept
      ensures k > hi + 1 || m[k] + 1 < lo
    {
      assert k !in Touched(m, r);
    }
  }

  /** ... and covers exactly the old ids and the range. */
  lemma MergeIsExact(m: Ranges, r: SkipRange, lo: U64, hi: U64, id: int)
    requires IsHull(m, r, lo, hi)
    ensures Covers((m - Touched(m, r))[lo := hi], id) <==> Covers(m, id) || InRange(r, id)
  {
    var merged := (m - Touched(m, r))[lo := hi];
    assert lo in merged && merged[lo] == hi;
    if Covers(m, id) {
      var k: U64 :| k in m && k <= id <= m[k];
      if k !in Touched(m, r) && k != lo {
        assert k in merged && merged[k] == m[k];
      } else {
        InsideHull(m, r, lo, hi, k);
      }
    }
    if lo <= id <= hi && !InRange(r, id) {
      HullIsOld(m, r, lo, hi, id);
    }
    if Covers(merged, id) {
      var k: U64 :| k in merged && k <= id <= merged[k];
      assert k == lo || (k in m && m[k] == merged[k]);
    }
  }

  lemma InsideHull(m: Ranges, r: SkipRange, lo: U64, hi: U64, k: U64)
    requires IsHull(m, r, lo, hi) && k in m && (k in Touched(m, r) || k == lo)
    ensures lo <= k && m[k] <= hi
  {
    // An untouched entry at lo would start at r.start, and an entry there is touched.
    assert k in Touched(m, r) || m[k] < r.start;
  }

  lemma HullIsOld(m: Ranges, r: SkipRange, lo: U64, hi: U64, id: int)
    requires lo == r.start || lo in Touched(m, r)
    requires hi == r.end || exists k: U64 :: k in Touched(m, r) && m[k] == hi
    requires lo <= id <= hi && !InRange(r, id)
    ensures Covers(m, id)
  {
    if id < r.start {
      assert lo in m && lo <= id <= m[lo];
    } else {
      var k: U64 :| k in Touched(m, r) && m[k] == hi;
      assert k in m && k <= id <= m[k];
    }
  }

  /** A range that touches more than two entries contains uncovered ids. */
  lemma GapInside(m: Ranges, r: SkipRange)
    requires WellFormed(m) && r.start <= r.end && |Touched(m, r)| > 2
    ensures exists id :: InRange(r, id) && !Covers(m, id)
  {
    var touched := Touched(m, r);
    var a :| a in touched;
    assert |touched - {a}| == |touched| - 1;
    var b :| b in touched - {a};
    var low, high := Min(a, b), Max(a, b);
    assert low in touched && high in touched && m[low] + 1 < high;
    var id := m[low] + 1;
    forall k: U64 | k in m
      ensures !(k <= id <= m[k])
    {
      assert k == low || k < low || low < k;
    }
    assert InRange(r, id) && !Covers(m, id);
  }

  /** New ids stay uncovered exactly when the range touches more than two entries. */
  lemma GivesUpExactly(m: Ranges, r: SkipRange, m': Ranges)
    requires WellFormed(m) && r.start <= r.end && IsInsertion(m, r, m')
    ensures WellFormed(m')
    ensures (exists id :: InRange(r, id) && !Covers(m', id)) <==> |Touched(m, r)| > 2
    ensures forall id :: Covers(m, id) ==> Covers(m', id)
    ensures forall id :: Covers(m', id) ==> Covers(m, id) || InRange(r, id)
  {
    if |Touched(m, r)| > 2 {
      GapInside(m, r);
    }
  }

  // ---- ordered-map navigation ----

  function AtMost(m: Ranges, id: U64): set<nat> {
    set k | k in m && k <= id
  }

  function Above(m: Ranges, id: U64): set<nat> {
    set k | k in m && k > id
  }

  /** The last entry whose key is at most id. */
  function Predecessor(m: Ranges, id: U64): (p: Option<U64>)
    ensures p.None? ==> forall k: U64 :: k in m ==> k > id
    ensures p.Some? ==> p.value in m && p.value <= id && forall k: U64 :: k in m && k <= id ==> k <= p.value
  {
    var order := Ascending(AtMost(m, id));
    AscendingProperties(AtMost(m, id));
    assert forall k: U64 :: k in m && k <= id ==> k in AtMost(m, id);
    if order == [] then
      NoMembers(order, AtMost(m, id));
      None
    else
      assert order[|order| - 1] in order;
      LastIsGreatest(order);
      Some(order[|order| - 1])
  }

  /** The first entry whose key exceeds id. */
  function Successor(m: Ranges, id: U64): (s: Option<U64>)
    ensures s.None? ==> forall k: U64 :: k in m ==> k <= id
    ensures s.Some? ==> s.value in m && s.value > id && forall k: U64 :: k in m && k > id ==> k >= s.value
  {
    var order := Ascending(Above(m, id));
    AscendingProperties(Above(m, id));
    assert forall k: U64 :: k in m && k > id ==> k in Above(m, id);
    if order == [] then
      NoMembers(order, Above(m, id));
      None
    else
      assert order[0] in order;
      FirstIsLeast(order);
      Some(order[0])
  }

  lemma NoMembers(order: seq<nat>, ids: set<nat>)
    requires order == [] && forall id :: id in order <==> id in ids
    ensures ids == {}
  {
  }

  lemma LastIsGreatest(order: seq<nat>)
    requires order != [] && StrictlySorted(order, IdKey)
    ensures forall k :: k in order ==> k <= order[|order| - 1]
  {
    forall k | k in order
      ensures k <= order[|order| - 1]
    {
      var i :| 0 <= i < |order| && order[i] == k;
      assert i == |order| - 1 || KeyLess(IdKey(order[i]), IdKey(order[|order| - 1]));
    }
  }

  lemma FirstIsLeast(order: seq<nat>)
    requires order != [] && StrictlySorted(order, IdKey)
    ensures forall k :: k in order ==> order[0] <= k
  {
    forall k | k in order
      ensures order[0] <= k
    {
      HeadLeast(order, IdKey, k);
    }
  }

  /** The scan state after the predecessor step and each absorbed successor. */
  ghost predicate Scanned(m: Ranges, r: SkipRange, lo: U64, hi: U64, cursor: U64, removed: set<U64>) {
    && lo <= r.start && r.end <= hi && lo <= cursor
    && (lo == r.start || lo in removed)
    && (forall k: U64 :: k in removed ==> k in m && lo <= k <= cursor && m[k] <= hi)
    && (hi == r.end || exists k: U64 :: k in removed && m[k] == hi)
    && (forall k: U64 :: k in m && k <= cursor ==> (k in Touched(m, r) <==> k in removed))
    && (forall k: U64 :: k in m && k > cursor ==> (k in Touched(m, r) <==> k <= hi + 1))
  }

  lemma Absorb(m: Ranges, r: SkipRange, lo: U64, hi: U64, cursor: U64, removed: set<U64>, low: U64)
    requires WellFormed(m) && Scanned(m, r, lo, hi, cursor, removed)
    requires low in m && low > cursor && low <= hi + 1
    requires forall k: U64 :: k in m && k > cursor ==> k >= low
    ensures low !in removed
    ensures Scanned(m, r, lo, Max(hi, m[low]), low, removed + {low})
  {
    hide WellFormed, Touched;
    var hi' := Max(hi, m[low]);
    assert low !in removed && low in Touched(m, r);
    assert hi' == r.end || exists k: U64 :: k in removed + {low} && m[k] == hi' by {
      if hi' == m[low] {
        assert low in removed + {low} && m[low] == hi';
      } else {
        assert forall k: U64 :: k in removed ==> k in removed + {low};
      }
    }
    forall k: U64 | k in m && k > low
      ensures k in Touched(m, r) <==> k <= hi' + 1
    {
      Apart(m, low, k);
    }
  }

  lemma Apart(m: Ranges, a: U64, b: U64)
    requires WellFormed(m) && a in m && b in m && a < b
    ensures m[a] + 1 < b
  {
  }

  lemma ScanComplete(m: Ranges, r: SkipRange, lo: U64, hi: U64, cursor: U64, removed: set<U64>)
    requires WellFormed(m) && r.start <= r.end && Scanned(m, r, lo, hi, cursor, removed)
    requires forall k: U64 :: k in m && k > cursor ==> k > hi + 1
    requires |removed| <= 2
    ensures |Touched(m, r)| <= 2
    ensures IsInsertion(m, r, (m - removed)[lo := hi])
  {
    assert removed == Touched(m, r);
    MergeIsWellFormed(m, r, lo, hi);
    forall id
      ensures Covers((m - removed)[lo := hi], id) <==> Covers(m, id) || InRange(r, id)
    {
      MergeIsExact(m, r, lo, hi, id);
    }
  }

  lemma ThirdTouched(m: Ranges, r: SkipRange, lo: U64, hi: U64, cursor: U64, removed: set<U64>, low: U64)
    requires Scanned(m, r, lo, hi, cursor, removed) && |removed| == 2
    requires low in m && low > cursor && low <= hi + 1
    ensures |Touched(m, r)| > 2
  {
    assert removed + {low} <= Touched(m, r);
    assert |removed + {low}| == 3;
    SubsetSize(removed + {low}, Touched(m, r));
  }

  lemma SubsetSize<T>(a: set<T>, b: set<T>)
    requires a <= b
    ensures |a| <= |b|
  {
    assert b == a + (b - a);
  }

  /** A range inside its predecessor is already covered and touches nothing else. */
  lemma AlreadyCovered(m: Ranges, r: SkipRange, low: U64)
    requires WellFormed(m) && r.start <= r.end
    requires low in m && low <= r.start && m[low] >= r.end
    ensures IsInsertion(m, r, m)
  {
    forall k: U64 | k in Touched(m, r)
      ensures k == low
    {
      assert k < low || low < k || k == low;
    }
    assert Touched(m, r) <= {low};
    SubsetSize(Touched(m, r), {low});
    forall id | InRange(r, id)
      ensures Covers(m, id)
    {
      assert low in m && low <= id <= m[low];
    }
  }

  lemma InsertionKeepsEvidence(m: Ranges, r: SkipRange, m': Ranges)
    requires WellFormed(m) && r.start <= r.end
    ensures IsInsertion(m, r, m') ==>
              WellFormed(m') && forall id :: Covers(m', id) ==> Covers(m, id) || InRange(r, id)
  {
    if IsInsertion(m, r, m') {
      GivesUpExactly(m, r, m');
    }
  }

  datatype ScanOutcome = Merge(hi: U64, removed: set<U64>) | TooMany | Malformed

  /** Walks at most three successors of the cursor, absorbing what the grown range touches. */
  method ScanSuccessors(m: Ranges, ghost r: SkipRange, ghost lo: U64, hi0: U64, cursor0: U64, removed0: set<U64>)
    returns (outcome: ScanOutcome)
    requires WellFormed(m) ==> r.start <= r.end && Scanned(m, r, lo, hi0, cursor0, removed0)
    requires |removed0| <= 2
    ensures WellFormed(m) ==> outcome != Malformed
    ensures WellFormed(m) && outcome.TooMany? ==> |Touched(m, r)| > 2
    ensures WellFormed(m) && outcome.Merge? ==>
              |Touched(m, r)| <= 2 && IsInsertion(m, r, (m - outcome.removed)[lo := outcome.hi])
  {
    hide Touched, IsInsertion, Scanned;
    var hi: U64, cursor: U64, removed: set<U64> := hi0, cursor0, removed0;
    var inspected := 0;
    while inspected < 3
      invariant inspected <= 3 && |removed| <= 2
      invariant WellFormed(m) ==> inspected <= |removed|
      invariant WellFormed(m) ==> Scanned(m, r, lo, hi, cursor, removed)
    {
      var next := Successor(m, cursor);
      if next.None? {
        break;
      }
      var low := next.value;
      var high := m[low];
      if low > high {
        return Malformed;
      }
      if low > SatAdd64(hi, 1) {
        break;
      }
      if |removed| == 2 {
        if WellFormed(m) {
          ThirdTouched(m, r, lo, hi, cursor, removed, low);
        }
        return TooMany;
      }
      if WellFormed(m) {
        Absorb(m, r, lo, hi, cursor, removed, low);
      }
      hi, removed, cursor, inspected := Max(hi, high), removed + {low}, low, inspected + 1;
    }
    if WellFormed(m) {
      ScanComplete(m, r, lo, hi, cursor, removed);
    }
    outcome := Merge(hi, removed);
  }

  /** After the predecessor step: nothing absorbed, or the predecessor alone. */
  lemma ScanStart(m: Ranges, r: SkipRange, p: Option<U64>)
    requires WellFormed(m) && r.start <= r.end && p == Predecessor(m, r.start)
    requires p.Some? ==> m[p.value] < r.end
    ensures p.Some? && m[p.value] + 1 >= r.start ==> Scanned(m, r, p.value, r.end, p.value, {p.value})
    ensures !(p.Some? && m[p.value] + 1 >= r.start) ==> Scanned(m, r, r.start, r.end, r.start, {})
  {
    hide WellFormed, Touched;
    forall k: U64 | k in m
      ensures k > r.start ==> (k in Touched(m, r) <==> k <= r.end + 1)
      ensures k <= r.start ==> (k in Touched(m, r) <==> Some(k) == p && m[k] + 1 >= r.start)
    {
      TouchedMeans(m, r, k);
      if k <= r.start && Some(k) != p {
        Apart(m, k, p.value);
      }
    }
  }

  lemma TouchedMeans(m: Ranges, r: SkipRange, k: U64)
    requires WellFormed(m) && k in m && r.start <= r.end
    ensures k <= m[k]
    ensures k in Touched(m, r) <==> k as int <= r.end + 1 && r.start <= m[k] as int + 1
  {
  }

  class SkipRangeCache {
    var entries: Ranges
    /** Ids of the ranges inserted since the cache was last cleared. */
    ghost var evidence: iset<int>

    /** Well formed, and covering nothing that was not inserted. */
    ghost predicate Valid()
      reads this
    {
      WellFormed(entries) && forall id :: Covers(entries, id) ==> id in evidence
    }

    constructor ()
      ensures Valid() && entries == map[] && evidence == iset{}
    {
      entries, evidence := map[], iset{};
    }

    method Containing(id: U64) returns (outcome: LookupOutcome)
      ensures WellFormed(entries) ==> outcome.Found?
      ensures WellFormed(entries) ==> (outcome.range.Some? <==> Covers(entries, id))
      ensures WellFormed(entries) && outcome.range.Some? ==>
                var r := outcome.range.value;
                InRange(r, id) && r.start in entries && entries[r.start] == r.end
                && forall j :: InRange(r, j) ==> Covers(entries, j)
    {
      match Predecessor(entries, id)
      case None => outcome := Found(None);
      case Some(low) =>
        var high := entries[low];
        if low > high {
          return InvalidEntry;
        }
        outcome := Found(if id <= high then Some(SkipRange(low, high)) else None);
        if WellFormed(entries) {
          assert forall k: U64 :: k in entries && k < low ==> entries[k] < id;
        }
    }

    method Insert(range: SkipRange) returns (outcome: InsertOutcome)
      modifies this
      ensures outcome == InvalidRange ==> entries == old(entries)
      ensures range.start > range.end ==> outcome == InvalidRange
      ensures old(WellFormed(entries)) && range.start <= range.end ==>
                outcome == Inserted && IsInsertion(old(entries), range, entries)
      ensures evidence == old(evidence) + (iset id | InRange(range, id))
      ensures old(Valid()) ==> Valid()
    {
      hide Touched, Scanned;
      evidence := evidence + (iset id | InRange(range, id));
      if range.start > range.end {
        return InvalidRange;
      }
      var lo: U64, hi: U64 := range.start, range.end;
      var remove: set<U64> := {};
      var predecessor := Predecessor(entries, range.start);
      if predecessor.Some? {
        var low := predecessor.value;
        var high := entries[low];
        if low > high {
          return InvalidRange;
        }
        if high >= range.end {
          if WellFormed(entries) {
            AlreadyCovered(entries, range, low);
            InsertionKeepsEvidence(entries, range, entries);
          }
          return Inserted;
        }
        if SatAdd64(high, 1) >= range.start {
          lo, hi, remove := low, Max(range.end, high), {low};
        }
      }
      if WellFormed(entries) {
        ScanStart(entries, range, predecessor);
      }
      var scan := ScanSuccessors(entries, range, lo, hi, lo, remove);
      if WellFormed(entries) {
        InsertionKeepsEvidence(entries, range, if scan.Merge? then (entries - scan.removed)[lo := scan.hi] else entries);
      }
      match scan {
        case Malformed => return InvalidRange;
        case TooMany => return Inserted;
        case Merge(top, removed) =>
          entries := (entries - removed)[lo := top];
          outcome := Inserted;
      }
    }

    method Clear()
      modifies this
      ensures Valid() && entries == map[] && evidence == iset{}
    {
      entries, evidence := map[], iset{};
    }
  }

  // ---- runs ----

  datatype Operation = Insert(range: SkipRange) | Lookup(id: U64) | Clear

  ghost predicate Step(m: Ranges, op: Operation, m': Ranges) {
    match op
    case Insert(r) => if r.start > r.end then m' == m else IsInsertion(m, r, m')
    case Lookup(_) => m' == m
    case Clear => m' == map[]
  }

  ghost predicate Run(states: seq<Ranges>, ops: seq<Operation>) {
    && |states| == |ops| + 1
    && states[0] == map[]
    && forall i :: 0 <= i < |ops| ==> Step(states[i], ops[i], states[i + 1])
  }

  /** Some insertion after the last clear contained the id. */
  ghost predicate Evidenced(ops: seq<Operation>, id: int) {
    exists i :: 0 <= i < |ops| && ops[i].Insert? && InRange(ops[i].range, id) && !(Clear in ops[i..])
  }

  /** No insertion of the run touched more than two entries. */
  ghost predicate NeverGaveUp(states: seq<Ranges>, ops: seq<Operation>)
    requires |states| == |ops| + 1
  {
    forall i :: 0 <= i < |ops| && ops[i].Insert? ==> |Touched(states[i], ops[i].range)| <= 2
  }

  lemma EvidenceStep(ops: seq<Operation>, op: Operation, id: int)
    ensures Evidenced(ops + [op], id) <==>
            !op.Clear? && (Evidenced(ops, id) || (op.Insert? && InRange(op.range, id)))
  {
    var all := ops + [op];
    forall i | 0 <= i < |ops|
      ensures (Clear in all[i..]) <==> (Clear in ops[i..] || op.Clear?)
    {
      assert all[i..] == ops[i..] + [op];
    }
    assert all[|ops|..] == [op];
    if Evidenced(ops, id) && !op.Clear? {
      var i :| 0 <= i < |ops| && ops[i].Insert? && InRange(ops[i].range, id) && !(Clear in ops[i..]);
      assert all[i] == ops[i];
      assert Evidenced(all, id);
    }
    if op.Insert? && InRange(op.range, id) {
      assert all[|ops|] == op;
      assert Evidenced(all, id);
    }
    if Evidenced(all, id) {
      var i :| 0 <= i < |all| && all[i].Insert? && InRange(all[i].range, id) && !(Clear in all[i..]);
      assert op in all[i..] by {
        assert all[i..][|all| - 1 - i] == op;
      }
      if i < |ops| {
        assert ops[i] == all[i];
      }
    }
  }

  /**
   Over every run the map stays well formed and covers only evidenced ids; it covers all of them as
   long as no insertion gave up.
   */
  lemma {:induction false} RunIsSound(states: seq<Ranges>, ops: seq<Operation>)
    requires Run(states, ops)
    ensures WellFormed(states[|ops|])
    ensures forall id :: Covers(states[|ops|], id) ==> Evidenced(ops, id)
    ensures NeverGaveUp(states, ops) ==> forall id :: Evidenced(ops, id) ==> Covers(states[|ops|], id)
    decreases |ops|
  {
    if |ops| > 0 {
      var n := |ops| - 1;
      var before, op := ops[..n], ops[n];
      assert before + [op] == ops;
      RunIsSound(states[..n + 1], before);
      assert NeverGaveUp(states, ops) ==> NeverGaveUp(states[..n + 1], before);
      if op.Insert? && op.range.start <= op.range.end {
        GivesUpExactly(states[n], op.range, states[n + 1]);
      }
      forall id
        ensures Covers(states[n + 1], id) ==> Evidenced(ops, id)
        ensures NeverGaveUp(states, ops) && Evidenced(ops, id) ==> Covers(states[n + 1], id)
      {
        EvidenceStep(before, op, id);
      }
    }
  }
}
