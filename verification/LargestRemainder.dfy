/**
 Sharing an under-funded round (canisters/relay/src/logic.rs, proportional_topup_gross_allocations):
 floor shares, a sort by descending remainder, then a top-up loop.
 */
module LargestRemainder {
  import opened Machine
  import opened Arithmetic
  import opened Ordering

  /** One entry of the vector that is sorted: a position and the remainder of its floor division. */
  datatype Candidate = Candidate(index: nat, remainder: nat)

  function RemainderKey(c: Candidate): Key {
    var descending: int := c.remainder;
    (-descending, c.index)
  }

  /** The saturating fold over amounts. */
  function SaturatingFold(s: seq<U64>, acc: U64): U64 {
    if s == [] then acc else SaturatingFold(s[1..], SatAdd64(acc, s[0]))
  }

  lemma {:induction false} SaturatingFoldIsSum(s: seq<U64>, acc: U64)
    ensures SaturatingFold(s, acc) == Min(acc + Sum(s), U64_MAX)
  {
    if s != [] {
      SaturatingFoldIsSum(s[1..], SatAdd64(acc, s[0]));
      SumNonNegative(s[1..]);
    }
  }

  function FloorShare(gross: U64, total: U64, available: U64): U64
    requires total > 0
  {
    if gross == 0 then 0
    else
      var product := SatMul128(available, gross);
      DivMod(product, total);
      Min(product / total, gross)
  }

  function QuotaRemainder(gross: U64, total: U64, available: U64): nat
    requires total > 0
  {
    if gross == 0 then 0 else SatMul128(available, gross) % total
  }

  /** What the caller passes: a positive saturating total that exceeds the balance. */
  ghost predicate UnderFunded(desired: seq<U64>, total: U64, available: U64) {
    total == SaturatingFold(desired, 0) && available < total
  }

  function Floors(desired: seq<U64>, total: U64, available: U64): (floors: seq<U64>)
    requires total > 0
    ensures |floors| == |desired|
  {
    seq(|desired|, i requires 0 <= i < |desired| => FloorShare(desired[i], total, available))
  }

  function Candidates(desired: seq<U64>, total: U64, available: U64): seq<Candidate>
    requires total > 0
  {
    seq(|desired|, i requires 0 <= i < |desired| => Candidate(i, QuotaRemainder(desired[i], total, available)))
  }

  function TopUpOrder(desired: seq<U64>, total: U64, available: U64): seq<Candidate>
    requires total > 0
  {
    Sort(Candidates(desired, total, available), RemainderKey)
  }

  ghost predicate IsOrder(order: seq<Candidate>, n: nat) {
    && |order| == n
    && (forall k :: 0 <= k < n ==> order[k].index < n)
    && (forall j, k :: 0 <= j < k < n ==> order[j].index != order[k].index)
  }

  /** Add one unit to each of the first k candidates in the order. */
  ghost function AddOnes(shares: seq<nat>, order: seq<Candidate>, k: nat): (r: seq<nat>)
    requires IsOrder(order, |shares|) && k <= |order|
    ensures |r| == |shares|
  {
    if k == 0 then shares
    else
      var prev := AddOnes(shares, order, k - 1);
      prev[order[k - 1].index := prev[order[k - 1].index] + 1]
  }

  /** What the floor shares leave of the balance. */
  function Leftover(desired: seq<U64>, total: U64, available: U64): nat
    requires total > 0
  {
    Max(available - Sum(Floors(desired, total, available)), 0)
  }

  /** The specification of the whole computation. */
  ghost function Shares(desired: seq<U64>, total: U64, available: U64): (r: seq<nat>)
    requires UnderFunded(desired, total, available)
    ensures |r| == |desired|
  {
    OrderIsOrder(desired, total, available);
    LeftoverIsSmall(desired, total, available);
    AddOnes(Floors(desired, total, available), TopUpOrder(desired, total, available),
            Leftover(desired, total, available))
  }

  lemma ProductFits(gross: U64, total: U64, available: U64)
    requires 0 < total && available < total
    ensures available * gross <= U128_MAX && SatMul128(available, gross) == available * gross
    ensures FloorShare(gross, total, available) == available * gross / total
    ensures QuotaRemainder(gross, total, available) == available * gross % total
    ensures available * gross == total * FloorShare(gross, total, available) + QuotaRemainder(gross, total, available)
    ensures QuotaRemainder(gross, total, available) < total
    ensures gross > 0 ==> FloorShare(gross, total, available) < gross
  {
    MulLeq(available, U64_MAX, gross);
    MulLeq(gross, U64_MAX, U64_MAX);
    DivMod(available * gross, total);
    if gross > 0 {
      MulLess(available, total, gross);
      CancelLess(available * gross / total, gross, total);
    }
  }

  lemma OrderIsOrder(desired: seq<U64>, total: U64, available: U64)
    requires total > 0
    ensures IsOrder(TopUpOrder(desired, total, available), |desired|)
    ensures StrictlySorted(TopUpOrder(desired, total, available), RemainderKey)
    ensures forall c :: c in TopUpOrder(desired, total, available) ==>
              c.index < |desired| && c.remainder == QuotaRemainder(desired[c.index], total, available)
  {
    var items := Candidates(desired, total, available);
    var order := TopUpOrder(desired, total, available);
    SortProperties(items, RemainderKey);
    SortMembers(items, RemainderKey);
    DistinctSurvives(items, order, RemainderKey);
    forall c | c in order
      ensures c.index < |desired| && c.remainder == QuotaRemainder(desired[c.index], total, available)
    {
      assert c in items;
    }
    forall j, k | 0 <= j < k < |order|
      ensures order[j].index != order[k].index
    {
      assert order[j] in order && order[k] in order;
      assert KeyLess(RemainderKey(order[j]), RemainderKey(order[k]));
    }
  }

  function RemainderSum(s: seq<Candidate>): nat {
    if s == [] then 0 else s[0].remainder + RemainderSum(s[1..])
  }

  lemma {:induction false} InsertRemainder(x: Candidate, s: seq<Candidate>)
    ensures RemainderSum(Insert(x, s, RemainderKey)) == x.remainder + RemainderSum(s)
  {
    if !(s == [] || KeyLeq(RemainderKey(x), RemainderKey(s[0]))) {
      InsertRemainder(x, s[1..]);
      assert ([s[0]] + Insert(x, s[1..], RemainderKey))[1..] == Insert(x, s[1..], RemainderKey);
    } else {
      assert ([x] + s)[1..] == s;
    }
  }

  lemma {:induction false} SortRemainder(s: seq<Candidate>)
    ensures RemainderSum(Sort(s, RemainderKey)) == RemainderSum(s)
  {
    if s != [] {
      SortRemainder(s[1..]);
      InsertRemainder(s[0], Sort(s[1..], RemainderKey));
    }
  }

  lemma {:induction false} RemainderSumIs(s: seq<Candidate>, r: seq<int>)
    requires |r| == |s| && forall i :: 0 <= i < |s| ==> r[i] == s[i].remainder
    ensures RemainderSum(s) == Sum(r)
  {
    if s != [] {
      RemainderSumIs(s[1..], r[1..]);
    }
  }

  /** The floor divisions, summed over the canisters. */
  lemma SummedDivision(desired: seq<U64>, total: U64, available: U64)
    requires total > 0 && available < total
    ensures available * Sum(desired)
            == total * Sum(Floors(desired, total, available)) + RemainderSum(TopUpOrder(desired, total, available))
  {
    var n := |desired|;
    var floors := Floors(desired, total, available);
    var items := Candidates(desired, total, available);
    var remainders := seq(n, i requires 0 <= i < n => items[i].remainder);
    var products := seq(n, i requires 0 <= i < n => available * desired[i]);
    var scaled := seq(n, i requires 0 <= i < n => total * floors[i]);
    forall i | 0 <= i < n
      ensures products[i] == scaled[i] + remainders[i]
    {
      ProductFits(desired[i], total, available);
    }
    SumScale(desired, available, products);
    SumScale(floors, total, scaled);
    SumPair(scaled, remainders, products);
    RemainderSumIs(items, remainders);
    SortRemainder(items);
  }

  /** total * (available - floors) is the sum of the remainders, less what a saturated total hides. */
  lemma RemaindersCover(desired: seq<U64>, total: U64, available: U64) returns (gap: int, hidden: nat)
    requires UnderFunded(desired, total, available)
    ensures gap == available - Sum(Floors(desired, total, available))
    ensures total * gap == RemainderSum(TopUpOrder(desired, total, available)) - hidden
    ensures Sum(desired) <= U64_MAX ==> hidden == 0
  {
    var floors := Floors(desired, total, available);
    SummedDivision(desired, total, available);
    SaturatingFoldIsSum(desired, 0);
    gap, hidden := Distribute(total, available, Sum(floors), Sum(desired),
                              RemainderSum(TopUpOrder(desired, total, available)));
  }

  lemma Distribute(total: nat, available: nat, floors: int, sum: int, remainders: int)
    returns (gap: int, hidden: nat)
    requires sum >= total
    requires available * sum == total * floors + remainders
    ensures gap == available - floors
    ensures total * gap == remainders - hidden
    ensures sum == total ==> hidden == 0
  {
    gap := available - floors;
    assert total * gap == total * available - total * floors;
    MulLeq(total, sum, available);
    hidden := available * sum - total * available;
  }

  lemma {:induction false} SumOfPrefix(s: seq<Candidate>, k: nat, bound: nat)
    requires k <= |s|
    requires forall i :: 0 <= i < k ==> s[i].remainder <= bound
    requires forall i :: k <= i < |s| ==> s[i].remainder == 0
    ensures RemainderSum(s) <= k * bound
  {
    if s != [] {
      if k == 0 {
        SumOfPrefix(s[1..], 0, bound);
      } else {
        SumOfPrefix(s[1..], k - 1, bound);
        assert k * bound == bound + (k - 1) * bound;
      }
    }
  }

  lemma RemaindersExceed(desired: seq<U64>, total: U64, available: U64, k: nat)
    requires UnderFunded(desired, total, available)
    requires k < Leftover(desired, total, available)
    ensures RemainderSum(TopUpOrder(desired, total, available)) > k * (total - 1)
  {
    hide FloorShare, QuotaRemainder, TopUpOrder, RemainderSum, Floors;
    var gap, hidden := RemaindersCover(desired, total, available);
    ProductExceeds(total, gap, k);
  }

  lemma ProductExceeds(total: nat, gap: nat, k: nat)
    requires total > 0 && k < gap
    ensures total * gap > k * (total - 1)
  {
    MulLeq(k + 1, gap, total);
    assert (k + 1) * total == k * (total - 1) + k + total;
  }

  lemma RemaindersBounded(desired: seq<U64>, total: U64, available: U64, i: nat)
    requires UnderFunded(desired, total, available) && i < |TopUpOrder(desired, total, available)|
    ensures TopUpOrder(desired, total, available)[i].remainder <= total - 1
  {
    var order := TopUpOrder(desired, total, available);
    OrderIsOrder(desired, total, available);
    assert order[i] in order;
    ProductFits(desired[order[i].index], total, available);
  }

  lemma LeftoverIsSmall(desired: seq<U64>, total: U64, available: U64)
    requires UnderFunded(desired, total, available)
    ensures Leftover(desired, total, available) <= |desired|
  {
    hide FloorShare, QuotaRemainder, Floors, Candidates, TopUpOrder, Leftover, Sum, RemainderSum;
    var order := TopUpOrder(desired, total, available);
    var n := |desired|;
    OrderIsOrder(desired, total, available);
    forall i | 0 <= i < n
      ensures order[i].remainder <= total - 1
    {
      RemaindersBounded(desired, total, available, i);
    }
    SumOfPrefix(order, n, total - 1);
    if n < Leftover(desired, total, available) {
      RemaindersExceed(desired, total, available, n);
    }
  }

  /** Every candidate that the leftover reaches has a positive remainder. */
  lemma LeftoverReaches(desired: seq<U64>, total: U64, available: U64, k: nat)
    requires UnderFunded(desired, total, available)
    requires k < Leftover(desired, total, available)
    ensures k < |TopUpOrder(desired, total, available)| == |desired|
    ensures TopUpOrder(desired, total, available)[k].remainder > 0
  {
    hide FloorShare, QuotaRemainder, Floors, Candidates, TopUpOrder, Leftover, Sum, RemainderSum;
    var order := TopUpOrder(desired, total, available);
    LeftoverIsSmall(desired, total, available);
    OrderIsOrder(desired, total, available);
    RemaindersExceed(desired, total, available, k);
    forall i | 0 <= i < k
      ensures order[i].remainder <= total - 1
    {
      RemaindersBounded(desired, total, available, i);
    }
    PositiveAt(order, k, total - 1);
  }

  lemma PositiveAt(order: seq<Candidate>, k: nat, bound: nat)
    requires StrictlySorted(order, RemainderKey) && k < |order|
    requires forall i :: 0 <= i < k ==> order[i].remainder <= bound
    requires RemainderSum(order) > k * bound
    ensures order[k].remainder > 0
  {
    forall i | k < i < |order|
      ensures order[i].remainder <= order[k].remainder
    {
      assert KeyLess(RemainderKey(order[k]), RemainderKey(order[i]));
    }
    if order[k].remainder == 0 {
      SumOfPrefix(order, k, bound);
      assert false;
    }
  }

  ghost predicate Reached(order: seq<Candidate>, k: nat, i: nat)
    requires k <= |order|
  {
    exists j :: 0 <= j < k && order[j].index == i
  }

  lemma {:induction false} AddOnesAt(shares: seq<nat>, order: seq<Candidate>, k: nat, i: nat)
    requires IsOrder(order, |shares|) && k <= |order| && i < |shares|
    ensures AddOnes(shares, order, k)[i] == shares[i] + if Reached(order, k, i) then 1 else 0
  {
    if k > 0 {
      AddOnesAt(shares, order, k - 1, i);
      if order[k - 1].index == i {
        assert Reached(order, k, i);
      } else {
        assert Reached(order, k, i) <==> Reached(order, k - 1, i);
      }
    }
  }

  lemma {:induction false} AddOnesSum(shares: seq<nat>, order: seq<Candidate>, k: nat)
    requires IsOrder(order, |shares|) && k <= |order|
    ensures Sum(AddOnes(shares, order, k)) == Sum(shares) + k
  {
    if k > 0 {
      AddOnesSum(shares, order, k - 1);
      var prev := AddOnes(shares, order, k - 1);
      SumUpdate(prev, order[k - 1].index, prev[order[k - 1].index] + 1);
    }
  }

  /** Whether position i is topped up. */
  ghost predicate ToppedUp(desired: seq<U64>, total: U64, available: U64, i: nat)
    requires UnderFunded(desired, total, available)
  {
    LeftoverIsSmall(desired, total, available);
    OrderIsOrder(desired, total, available);
    Reached(TopUpOrder(desired, total, available), Leftover(desired, total, available), i)
  }

  /** A topped-up position precedes every other one: larger remainder first, then smaller index. */
  lemma ToppedUpFirst(desired: seq<U64>, total: U64, available: U64, i: nat, j: nat)
    requires UnderFunded(desired, total, available) && i < |desired| && j < |desired|
    requires ToppedUp(desired, total, available, i) && !ToppedUp(desired, total, available, j)
    ensures var ri := available * desired[i] % total;
            var rj := available * desired[j] % total;
            ri > 0 && (ri > rj || (ri == rj && i < j))
  {
    var order := TopUpOrder(desired, total, available);
    var items := Candidates(desired, total, available);
    var left := Leftover(desired, total, available);
    LeftoverIsSmall(desired, total, available);
    OrderIsOrder(desired, total, available);
    SortMembers(items, RemainderKey);
    var p :| 0 <= p < left && order[p].index == i;
    assert items[j] in items && items[j] in order;
    var q :| 0 <= q < |order| && order[q] == items[j];
    assert q >= left;
    LeftoverReaches(desired, total, available, p);
    assert order[p] in order;
    assert KeyLess(RemainderKey(order[p]), RemainderKey(order[q]));
    ProductFits(desired[i], total, available);
    ProductFits(desired[j], total, available);
  }

  /** A true total leaves the floor shares within the balance. */
  lemma FloorsWithin(desired: seq<U64>, total: U64, available: U64)
    requires UnderFunded(desired, total, available)
    requires Sum(desired) <= U64_MAX
    ensures Sum(Floors(desired, total, available)) <= available
  {
    var gap, hidden := RemaindersCover(desired, total, available);
    NonNegativeFactor(total, gap);
  }

  /**
   The shares sum to the balance exactly when the floor shares alone do not exceed it, and they never
   do when the total is the true sum of the desired amounts.
   */
  lemma Exactness(desired: seq<U64>, total: U64, available: U64)
    requires UnderFunded(desired, total, available)
    ensures Sum(Shares(desired, total, available)) == Max(available, Sum(Floors(desired, total, available)))
    ensures Sum(Shares(desired, total, available)) == available
            <==> Sum(Floors(desired, total, available)) <= available
    ensures Sum(desired) <= U64_MAX ==> Sum(Shares(desired, total, available)) == available
  {
    hide FloorShare, QuotaRemainder, Floors, TopUpOrder, Sum, SaturatingFold;
    OrderIsOrder(desired, total, available);
    LeftoverIsSmall(desired, total, available);
    AddOnesSum(Floors(desired, total, available), TopUpOrder(desired, total, available),
               Leftover(desired, total, available));
    if Sum(desired) <= U64_MAX {
      FloorsWithin(desired, total, available);
    }
  }

  /** i precedes j: larger remainder first, then smaller index. */
  ghost predicate Precedes(desired: seq<U64>, total: U64, available: U64, i: nat, j: nat)
    requires total > 0 && i < |desired| && j < |desired|
  {
    var ri, rj := available * desired[i] % total, available * desired[j] % total;
    ri > rj || (ri == rj && i < j)
  }

  /**
   The largest-remainder rule, without reference to any loop: floor quotas or one more, summing to the
   balance, where those that got one more precede those that did not.
   */
  ghost predicate IsLargestRemainder(shares: seq<nat>, desired: seq<U64>, total: U64, available: U64)
    requires total > 0
  {
    && |shares| == |desired|
    && (forall i :: 0 <= i < |shares| ==>
          shares[i] == available * desired[i] / total || shares[i] == available * desired[i] / total + 1)
    && (forall i, j | 0 <= i < |shares| && 0 <= j < |shares| ::
          shares[i] > available * desired[i] / total && shares[j] == available * desired[j] / total
          ==> Precedes(desired, total, available, i, j))
    && Sum(shares) == available
  }

  lemma SharesSatisfyRule(desired: seq<U64>, total: U64, available: U64)
    requires UnderFunded(desired, total, available) && Sum(desired) <= U64_MAX
    ensures IsLargestRemainder(Shares(desired, total, available), desired, total, available)
  {
    hide Shares, ToppedUp, Sum, SaturatingFold;
    var shares := Shares(desired, total, available);
    Exactness(desired, total, available);
    forall i | 0 <= i < |shares|
      ensures shares[i] == available * desired[i] / total + (if ToppedUp(desired, total, available, i) then 1 else 0)
    {
      Quota(desired, total, available, i);
    }
    forall i, j | 0 <= i < |shares| && 0 <= j < |shares|
      && shares[i] > available * desired[i] / total && shares[j] == available * desired[j] / total
      ensures Precedes(desired, total, available, i, j)
    {
      ToppedUpFirst(desired, total, available, i, j);
    }
  }

  lemma {:induction false} SumStrict(a: seq<int>, b: seq<int>, i: nat)
    requires |a| == |b| && i < |a| && a[i] < b[i]
    requires forall k :: 0 <= k < |a| ==> a[k] <= b[k]
    ensures Sum(a) < Sum(b)
  {
    if i == 0 {
      SumPointwiseLeq(a[1..], b[1..]);
    } else {
      SumStrict(a[1..], b[1..], i - 1);
    }
  }

  /** At most one vector satisfies the rule, so it pins the shares down. */
  lemma RuleIsUnique(s: seq<nat>, t: seq<nat>, desired: seq<U64>, total: U64, available: U64)
    requires total > 0
    requires IsLargestRemainder(s, desired, total, available)
    requires IsLargestRemainder(t, desired, total, available)
    ensures s == t
  {
    hide Sum;
    forall i | 0 <= i < |s|
      ensures s[i] <= t[i]
    {
      NotGreater(s, t, desired, total, available, i);
    }
    forall i | 0 <= i < |s|
      ensures t[i] <= s[i]
    {
      NotGreater(t, s, desired, total, available, i);
    }
  }

  lemma NotGreater(s: seq<nat>, t: seq<nat>, desired: seq<U64>, total: U64, available: U64, i: nat)
    requires total > 0 && i < |s|
    requires IsLargestRemainder(s, desired, total, available)
    requires IsLargestRemainder(t, desired, total, available)
    ensures s[i] <= t[i]
  {
    hide Sum, Precedes;
    if s[i] > t[i] {
      if j :| 0 <= j < |s| && s[j] < t[j] {
        assert Precedes(desired, total, available, i, j) && Precedes(desired, total, available, j, i);
        NoCycle(desired, total, available, i, j);
      } else {
        SumStrict(t, s, i);
      }
      assert false;
    }
  }

  lemma NoCycle(desired: seq<U64>, total: U64, available: U64, i: nat, j: nat)
    requires total > 0 && i < |desired| && j < |desired|
    ensures !(Precedes(desired, total, available, i, j) && Precedes(desired, total, available, j, i))
  {
  }

  lemma NonNegativeFactor(a: int, b: int)
    requires a > 0 && a * b >= 0
    ensures b >= 0
  {
  }

  /** Quota: each share is the floor of the exact quota or that plus one, and never exceeds the desire. */
  lemma Quota(desired: seq<U64>, total: U64, available: U64, i: nat)
    requires UnderFunded(desired, total, available) && i < |desired|
    ensures var quota := available * desired[i] / total;
            var share := Shares(desired, total, available)[i];
            && share == quota + (if ToppedUp(desired, total, available, i) then 1 else 0)
            && share <= desired[i]
            && (available * desired[i] % total == 0 ==> share == quota)
  {
    OrderIsOrder(desired, total, available);
    LeftoverIsSmall(desired, total, available);
    ProductFits(desired[i], total, available);
    var order := TopUpOrder(desired, total, available);
    var left := Leftover(desired, total, available);
    AddOnesAt(Floors(desired, total, available), order, left, i);
    if Reached(order, left, i) {
      var p :| 0 <= p < left && order[p].index == i;
      LeftoverReaches(desired, total, available, p);
      assert order[p] in order;
      assert desired[i] > 0;
    }
  }

  lemma WithinDesire(desired: seq<U64>, total: U64, available: U64)
    requires UnderFunded(desired, total, available)
    ensures forall i :: 0 <= i < |desired| ==> Shares(desired, total, available)[i] <= desired[i]
  {
    hide Shares, ToppedUp, SaturatingFold;
    forall i | 0 <= i < |desired|
      ensures Shares(desired, total, available)[i] <= desired[i]
    {
      Quota(desired, total, available, i);
    }
  }

  /** A remainder order on equal quotas is the order of the desires. */
  lemma SameQuota(a: nat, gi: nat, gj: nat, total: nat)
    requires total > 0 && gi >= gj
    requires a * gi / total == a * gj / total
    ensures a * gi % total >= a * gj % total
    ensures gi > gj && a > 0 ==> a * gi % total > a * gj % total
  {
    DivMod(a * gi, total);
    DivMod(a * gj, total);
    MulLeq(gj, gi, a);
    if gi > gj && a > 0 {
      MulLess(gj, gi, a);
    }
  }

  lemma ZeroRemainder(g: nat, total: nat)
    requires total > 0
    ensures 0 * g % total == 0
  {
  }

  /** Fairness: a larger desire, or an equal one listed earlier, never gets a smaller share. */
  lemma Fairness(desired: seq<U64>, total: U64, available: U64, i: nat, j: nat)
    requires UnderFunded(desired, total, available) && i < |desired| && j < |desired|
    requires desired[i] > desired[j] || (desired[i] == desired[j] && i <= j)
    ensures Shares(desired, total, available)[i] >= Shares(desired, total, available)[j]
  {
    hide FloorShare, QuotaRemainder, Shares, ToppedUp, SaturatingFold;
    Quota(desired, total, available, i);
    Quota(desired, total, available, j);
    MulLeq(desired[j], desired[i], available);
    FloorMonotone(available * desired[j], available * desired[i], total);
    if ToppedUp(desired, total, available, j) && !ToppedUp(desired, total, available, i) {
      ToppedUpFirst(desired, total, available, j, i);
      QuotaDiffers(desired, total, available, i, j);
    }
  }

  lemma QuotaDiffers(desired: seq<U64>, total: U64, available: U64, i: nat, j: nat)
    requires total > 0 && i < |desired| && j < |desired|
    requires desired[i] > desired[j] || (desired[i] == desired[j] && i <= j)
    requires var ri := available * desired[i] % total;
             var rj := available * desired[j] % total;
             rj > 0 && (rj > ri || (rj == ri && j < i))
    ensures available * desired[i] / total != available * desired[j] / total
  {
    ZeroRemainder(desired[j], total);
    if available * desired[i] / total == available * desired[j] / total {
      SameQuota(available, desired[i], desired[j], total);
      assert false;
    }
  }

  /** With a saturated total the floor shares alone can exceed the balance. */
  lemma SaturatedTotalOverspends()
    ensures UnderFunded([U64_MAX, U64_MAX], U64_MAX, U64_MAX - 1)
    ensures Sum(Shares([U64_MAX, U64_MAX], U64_MAX, U64_MAX - 1)) == 2 * (U64_MAX - 1)
  {
    var desired: seq<U64> := [U64_MAX, U64_MAX];
    SaturatingFoldIsSum(desired, 0);
    assert Sum(desired) == U64_MAX + Sum(desired[1..]);
    Exactness(desired, U64_MAX, U64_MAX - 1);
    var floors := Floors(desired, U64_MAX, U64_MAX - 1);
    ProductFits(U64_MAX, U64_MAX, U64_MAX - 1);
    assert floors == [U64_MAX - 1, U64_MAX - 1];
    assert Sum(floors) == floors[0] + Sum(floors[1..]);
  }

  /** The library sort, whose only promise is a sorted rearrangement. */
  method SortByRemainder(items: seq<Candidate>) returns (order: seq<Candidate>)
    ensures Sorted(order, RemainderKey) && multiset(order) == multiset(items)
  {
    order := Sort(items, RemainderKey);
    SortProperties(items, RemainderKey);
  }

  /** While units are left, the next candidate has room for one more. */
  lemma TopUpStep(desired: seq<U64>, total: U64, available: U64, k: nat)
    requires UnderFunded(desired, total, available) && k < Leftover(desired, total, available)
    ensures IsOrder(TopUpOrder(desired, total, available), |desired|) && k < |desired|
    ensures var floors := Floors(desired, total, available);
            var order := TopUpOrder(desired, total, available);
            var index := order[k].index;
            && AddOnes(floors, order, k)[index] == floors[index] < desired[index]
            && AddOnes(floors, order, k + 1) == AddOnes(floors, order, k)[index := floors[index] + 1]
  {
    OrderIsOrder(desired, total, available);
    LeftoverReaches(desired, total, available, k);
    var order := TopUpOrder(desired, total, available);
    AddOnesAt(Floors(desired, total, available), order, k, order[k].index);
    assert order[k] in order;
    ProductFits(desired[order[k].index], total, available);
  }

  /** One pass of the top-up loop over the whole order. */
  method TopUpPass(desired: seq<U64>, ghost total: U64, available: U64, order: seq<Candidate>,
                   floors: seq<U64>, alreadyUsed: U64)
    returns (allocations: seq<U64>, used: U64, advanced: bool)
    requires UnderFunded(desired, total, available)
    requires order == TopUpOrder(desired, total, available)
    requires floors == Floors(desired, total, available)
    requires 0 < Leftover(desired, total, available) == available - alreadyUsed
    ensures used == available
    ensures allocations == Shares(desired, total, available)
  {
    hide FloorShare, QuotaRemainder, Floors, TopUpOrder, Sum;
    allocations, used, advanced := floors, alreadyUsed, false;
    OrderIsOrder(desired, total, available);
    LeftoverIsSmall(desired, total, available);
    ghost var left := Leftover(desired, total, available);
    var k := 0;
    while k < |order|
      invariant k <= left <= |order|
      invariant used == available - left + k
      invariant |allocations| == |desired|
      invariant allocations == AddOnes(floors, order, k)
    {
      if used >= available {
        break;
      }
      var index := order[k].index;
      TopUpStep(desired, total, available, k);
      if allocations[index] < desired[index] {
        allocations := allocations[index := SatAdd64(allocations[index], 1)];
        used := SatAdd64(used, 1);
        advanced := true;
      }
      k := k + 1;
    }
  }

  lemma NothingLeft(desired: seq<U64>, total: U64, available: U64)
    requires UnderFunded(desired, total, available)
    ensures Leftover(desired, total, available) == 0 ==>
              Shares(desired, total, available) == Floors(desired, total, available)
  {
  }

  method ProportionalTopupGrossAllocations(desired: seq<U64>, total: U64, available: U64)
    returns (shares: seq<U64>, ghost passes: nat)
    requires UnderFunded(desired, total, available)
    ensures shares == Shares(desired, total, available)
    ensures passes <= 1
  {
    shares := Floors(desired, total, available);
    ghost var floors := shares;
    var used := SaturatingFold(shares, 0);
    SaturatingFoldIsSum(shares, 0);
    var order := SortByRemainder(Candidates(desired, total, available));
    OrderOfCandidates(desired, total, available, order);
    NothingLeft(desired, total, available);
    passes := 0;
    while used < available
      invariant passes <= 1
      invariant passes == 0 ==> shares == floors && used == Min(Sum(floors), U64_MAX)
      invariant passes == 1 ==> used == available && shares == Shares(desired, total, available)
      decreases 1 - passes
    {
      var advanced: bool;
      shares, used, advanced := TopUpPass(desired, total, available, order, shares, used);
      passes := passes + 1;
      if !advanced {
        break;
      }
    }
  }

  lemma OrderOfCandidates(desired: seq<U64>, total: U64, available: U64, order: seq<Candidate>)
    requires total > 0
    requires Sorted(order, RemainderKey) && multiset(order) == multiset(Candidates(desired, total, available))
    ensures order == TopUpOrder(desired, total, available)
  {
    UnstableSortUnique(Candidates(desired, total, available), order, RemainderKey);
  }
}
