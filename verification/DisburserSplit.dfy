/** The age-bonus split of the Disburser (canisters/disburser/src/logic.rs). */
module DisburserSplit {
  import opened Machine
  import opened Arithmetic

  const SECS_PER_YEAR := 365 * 86_400
  const MAX_AGE_FOR_BONUS_SECS := 4 * SECS_PER_YEAR
  const MULTIPLIER_DENOMINATOR := 16 * SECS_PER_YEAR
  const BONUS_RECIPIENT_1_PCT := 95

  datatype GrossSplit = GrossSplit(baseE8s: U64, bonus1E8s: U64, bonus2E8s: U64)

  /** The age multiplier is this numerator over the fixed denominator. */
  function MultiplierNumerator(age: U64): nat {
    MULTIPLIER_DENOMINATOR + Min(age, MAX_AGE_FOR_BONUS_SECS)
  }

  /** The bonus is a quarter of the base after four years of 365 days, and proportional to age before that. */
  lemma MultiplierIsProRata(age: U64)
    ensures var bonus := MultiplierNumerator(age) - MULTIPLIER_DENOMINATOR;
            && (age >= 126_144_000 ==> 4 * bonus == MULTIPLIER_DENOMINATOR)
            && (age <= 126_144_000 ==> 4 * bonus * 126_144_000 == MULTIPLIER_DENOMINATOR * age)
  {
  }

  function BaseShare(total: U64, age: U64): U64 {
    BaseFits(total, age);
    total * MULTIPLIER_DENOMINATOR / MultiplierNumerator(age)
  }

  lemma BaseFits(total: U64, age: U64)
    ensures 0 <= total * MULTIPLIER_DENOMINATOR / MultiplierNumerator(age) <= total
    ensures total * MULTIPLIER_DENOMINATOR <= U128_MAX
  {
    MulLeq(MULTIPLIER_DENOMINATOR, MultiplierNumerator(age), total);
    FloorAtMost(total * MULTIPLIER_DENOMINATOR, MultiplierNumerator(age), total);
    DivMod(total * MULTIPLIER_DENOMINATOR, MultiplierNumerator(age));
  }

  function GrossSplitOf(total: U64, age: U64): GrossSplit {
    if total == 0 then GrossSplit(0, 0, 0)
    else
      var base := BaseShare(total, age);
      BaseFits(total, age);
      var bonus := total - base;
      var bonus1 := (bonus * BONUS_RECIPIENT_1_PCT + 99) / 100;
      GrossSplit(base, bonus1, bonus - bonus1)
  }

  /** The three parts sum to the total, and the bonus is split 95 to 5 with the odd e8s going to the first recipient. */
  lemma SplitConserves(total: U64, age: U64)
    ensures var g := GrossSplitOf(total, age);
            && g.baseE8s + g.bonus1E8s + g.bonus2E8s == total
            && 0 <= 100 * g.bonus1E8s - 95 * (total - g.baseE8s) < 100
            && (age == 0 ==> g == GrossSplit(total, 0, 0))
            && 5 * g.baseE8s >= 4 * total - 4
  {
    hide BaseShare;
    AgeZero(total);
    BaseIsFloor(total, age);
    BaseFloorBound(total, BaseShare(total, age), MultiplierNumerator(age));
  }

  lemma AgeZero(total: U64)
    ensures BaseShare(total, 0) == total
  {
    FloorIs(total * MULTIPLIER_DENOMINATOR, MULTIPLIER_DENOMINATOR, total);
  }

  lemma BaseIsFloor(total: U64, age: U64)
    ensures BaseShare(total, age) * MultiplierNumerator(age) <= total * MULTIPLIER_DENOMINATOR
            < BaseShare(total, age) * MultiplierNumerator(age) + MultiplierNumerator(age)
    ensures BaseShare(total, age) <= total
  {
    BaseFits(total, age);
    DivMod(total * MULTIPLIER_DENOMINATOR, MultiplierNumerator(age));
  }

  lemma BaseFloorBound(total: nat, base: nat, numerator: nat)
    requires MULTIPLIER_DENOMINATOR <= numerator <= MULTIPLIER_DENOMINATOR / 4 * 5
    requires total * MULTIPLIER_DENOMINATOR < base * numerator + numerator
    ensures 5 * base >= 4 * total - 4
  {
    MulLeq(numerator, MULTIPLIER_DENOMINATOR / 4 * 5, base + 1);
    assert base * numerator + numerator == numerator * (base + 1);
  }

  /** The base never grows with age. */
  lemma BaseShrinksWithAge(total: U64, younger: U64, older: U64)
    requires younger <= older
    ensures GrossSplitOf(total, older).baseE8s <= GrossSplitOf(total, younger).baseE8s
  {
    hide BaseShare;
    var n, m := MultiplierNumerator(younger), MultiplierNumerator(older);
    BaseIsFloor(total, younger);
    BaseIsFloor(total, older);
    var b: int, c: int := BaseShare(total, younger), BaseShare(total, older);
    MulLeq(n, m, c);
    assert c * n < (b + 1) * n by {
      assert (b + 1) * n == b * n + n;
    }
    CancelLess(c, b + 1, n);
  }

  /** The yield of a base at an age: the base times the multiplier, floored. */
  function Scaled(base: nat, age: U64): nat {
    DivMod(base * MultiplierNumerator(age), MULTIPLIER_DENOMINATOR);
    base * MultiplierNumerator(age) / MULTIPLIER_DENOMINATOR
  }

  /** The split inverts the multiplier: a scaled base is recovered as itself or one less. */
  lemma SplitInvertsMultiplier(base: U64, age: U64)
    requires Scaled(base, age) <= U64_MAX
    ensures base - 1 <= GrossSplitOf(Scaled(base, age), age).baseE8s <= base
    ensures base * MultiplierNumerator(age) % MULTIPLIER_DENOMINATOR == 0 ==>
              GrossSplitOf(Scaled(base, age), age).baseE8s == base
  {
    hide BaseShare;
    var n := MultiplierNumerator(age);
    var total := Scaled(base, age);
    DivMod(base * n, MULTIPLIER_DENOMINATOR);
    BaseIsFloor(total, age);
    Recovered(base, n, total, BaseShare(total, age));
    ScaledPositive(base, age);
  }

  lemma ScaledPositive(base: nat, age: U64)
    ensures Scaled(base, age) >= base
  {
    MulLeq(MULTIPLIER_DENOMINATOR, MultiplierNumerator(age), base);
    FloorAtLeast(base * MultiplierNumerator(age), MULTIPLIER_DENOMINATOR, base);
  }

  lemma Recovered(base: nat, n: nat, total: nat, recovered: nat)
    requires n >= MULTIPLIER_DENOMINATOR
    requires total * MULTIPLIER_DENOMINATOR <= base * n < total * MULTIPLIER_DENOMINATOR + MULTIPLIER_DENOMINATOR
    requires recovered * n <= total * MULTIPLIER_DENOMINATOR < recovered * n + n
    ensures base - 1 <= recovered <= base
    ensures total * MULTIPLIER_DENOMINATOR == base * n ==> recovered == base
  {
    assert (base + 1) * n == base * n + n;
    CancelLess(recovered, base + 1, n);
    assert (recovered + 2) * n == recovered * n + 2 * n;
    CancelLess(base, recovered + 2, n);
    if total * MULTIPLIER_DENOMINATOR == base * n {
      assert (recovered + 1) * n == recovered * n + n;
      CancelLess(base, recovered + 1, n);
    }
  }

  // ---- memos ----

  type Byte = x: int | 0 <= x < 256

  /** to_be_bytes of a number below 256^width */
  function BigEndian(n: nat, width: nat): (bytes: seq<Byte>)
    ensures |bytes| == width
  {
    if width == 0 then [] else BigEndian(n / 256, width - 1) + [n % 256]
  }

  function FromBigEndian(bytes: seq<Byte>): nat {
    if bytes == [] then 0 else 256 * FromBigEndian(bytes[..|bytes| - 1]) + bytes[|bytes| - 1]
  }

  function Pow256(width: nat): nat {
    if width == 0 then 1 else 256 * Pow256(width - 1)
  }

  lemma {:induction false} BigEndianRoundTrip(n: nat, width: nat)
    requires n < Pow256(width)
    ensures FromBigEndian(BigEndian(n, width)) == n
  {
    if width > 0 {
      BigEndianRoundTrip(n / 256, width - 1);
      var bytes := BigEndian(n, width);
      assert bytes[..width - 1] == BigEndian(n / 256, width - 1);
    }
  }

  lemma EightBytes()
    ensures Pow256(8) == U64_MAX + 1
  {
    assert Pow256(4) == 0x1_0000_0000;
    assert Pow256(8) == 256 * (256 * (256 * (256 * Pow256(4))));
  }

  /** build_memo: payout id and transfer index, big-endian, copied into a 16-byte buffer. */
  method BuildMemo(payoutId: U64, index: U64) returns (memo: array<Byte>)
    ensures fresh(memo) && memo[..] == MemoOf(payoutId, index)
  {
    memo := new Byte[16](i => 0);
    var id, ix := BigEndian(payoutId, 8), BigEndian(index, 8);
    for i := 0 to 8
      invariant memo[..i] == id[..i]
    {
      memo[i] := id[i];
      assert memo[..i + 1] == memo[..i] + [memo[i]];
    }
    for i := 0 to 8
      invariant memo[..8] == id && memo[8..8 + i] == ix[..i]
    {
      memo[8 + i] := ix[i];
      assert memo[8..8 + i + 1] == memo[8..8 + i] + [memo[8 + i]];
    }
    assert memo[..] == memo[..8] + memo[8..16];
  }

  function MemoOf(payoutId: U64, index: U64): seq<Byte> {
    BigEndian(payoutId, 8) + BigEndian(index, 8)
  }

  /** A memo determines its payout and its transfer. */
  lemma MemoIsInjective(payoutId: U64, index: U64)
    ensures |MemoOf(payoutId, index)| == 16
    ensures FromBigEndian(MemoOf(payoutId, index)[..8]) == payoutId
    ensures FromBigEndian(MemoOf(payoutId, index)[8..]) == index
  {
    EightBytes();
    BigEndianRoundTrip(payoutId, 8);
    BigEndianRoundTrip(index, 8);
    assert MemoOf(payoutId, index)[..8] == BigEndian(payoutId, 8);
    assert MemoOf(payoutId, index)[8..] == BigEndian(index, 8);
  }

  // ---- the payout plan ----

  /** Accounts are opaque identities here. */
  datatype Planned = Planned(to: nat, grossShareE8s: U64, amountE8s: U64, memo: seq<Byte>, createdAtNanos: U64)

  function PlanStep(out: seq<Planned>, payoutId: U64, base: U64, fee: U64, to: nat, share: U64): seq<Planned>
    requires |out| < 3
  {
    if share <= fee then out
    else out + [Planned(to, share, share - fee, MemoOf(payoutId, |out|), SatAdd64(base, |out|))]
  }

  /** A recipient's part of the plan: its share, unless a fee would use it up. */
  function Payable(to: nat, share: U64, fee: U64): seq<(nat, U64)> {
    if share > fee then [(to, share)] else []
  }

  /** Who gets which gross share, in order. */
  function Recipients(out: seq<Planned>): (r: seq<(nat, U64)>)
    ensures |r| == |out|
  {
    seq(|out|, i requires 0 <= i < |out| => (out[i].to, out[i].grossShareE8s))
  }

  lemma {:induction false} PrefixRecipients(payoutId: U64, base: U64, fee: U64, shares: seq<U64>, targets: seq<nat>, n: nat)
    requires |shares| == |targets| == 3 && n <= 3
    ensures Recipients(PlanPrefix(payoutId, base, fee, shares, targets, n))
            == (if n > 0 then Payable(targets[0], shares[0], fee) else [])
               + (if n > 1 then Payable(targets[1], shares[1], fee) else [])
               + (if n > 2 then Payable(targets[2], shares[2], fee) else [])
  {
    hide MemoOf;
    if n > 0 {
      PrefixRecipients(payoutId, base, fee, shares, targets, n - 1);
      var before := PlanPrefix(payoutId, base, fee, shares, targets, n - 1);
      assert Recipients(PlanPrefix(payoutId, base, fee, shares, targets, n))
          == Recipients(before) + Payable(targets[n - 1], shares[n - 1], fee);
    }
  }

  /** The base goes to the normal recipient, the larger bonus to the first and the rest to the second. */
  lemma PlanRecipients(payoutId: U64, base: U64, balance: U64, fee: U64, age: U64,
                       normalTo: nat, bonus1To: nat, bonus2To: nat)
    ensures var g := GrossSplitOf(balance, age);
            Recipients(PlanOf(payoutId, base, balance, fee, age, normalTo, bonus1To, bonus2To))
            == Payable(normalTo, g.baseE8s, fee) + Payable(bonus1To, g.bonus1E8s, fee) + Payable(bonus2To, g.bonus2E8s, fee)
  {
    hide PlanPrefix, GrossSplitOf, Payable, Recipients;
    var g := GrossSplitOf(balance, age);
    PrefixRecipients(payoutId, base, fee, [g.baseE8s, g.bonus1E8s, g.bonus2E8s], [normalTo, bonus1To, bonus2To], 3);
  }

  method PlanPayoutTransfers(payoutId: U64, createdAtBase: U64, balance: U64, fee: U64, age: U64,
                             normalTo: nat, bonus1To: nat, bonus2To: nat)
    returns (gross: GrossSplit, out: seq<Planned>)
    ensures gross == GrossSplitOf(balance, age)
    ensures out == PlanOf(payoutId, createdAtBase, balance, fee, age, normalTo, bonus1To, bonus2To)
    ensures Recipients(out)
            == Payable(normalTo, gross.baseE8s, fee) + Payable(bonus1To, gross.bonus1E8s, fee)
               + Payable(bonus2To, gross.bonus2E8s, fee)
  {
    hide GrossSplitOf, Recipients, Payable;
    gross := GrossSplitOf(balance, age);
    out := [];
    var idx: U64 := 0;
    var shares := [gross.baseE8s, gross.bonus1E8s, gross.bonus2E8s];
    var targets := [normalTo, bonus1To, bonus2To];
    for i := 0 to 3
      invariant idx == |out| <= i
      invariant out == PlanPrefix(payoutId, createdAtBase, fee, shares, targets, i)
    {
      if shares[i] > fee {
        var memo := BuildMemo(payoutId, idx);
        out := out + [Planned(targets[i], shares[i], shares[i] - fee, memo[..], SatAdd64(createdAtBase, idx))];
        idx := idx + 1;
      }
    }
    PlanRecipients(payoutId, createdAtBase, balance, fee, age, normalTo, bonus1To, bonus2To);
  }

  function PlanPrefix(payoutId: U64, base: U64, fee: U64, shares: seq<U64>, targets: seq<nat>, n: nat): (out: seq<Planned>)
    requires |shares| == |targets| == 3 && n <= 3
    ensures |out| <= n
  {
    if n == 0 then []
    else PlanStep(PlanPrefix(payoutId, base, fee, shares, targets, n - 1), payoutId, base, fee, targets[n - 1], shares[n - 1])
  }

  function PlanOf(payoutId: U64, base: U64, balance: U64, fee: U64, age: U64,
                  normalTo: nat, bonus1To: nat, bonus2To: nat): seq<Planned>
  {
    var g := GrossSplitOf(balance, age);
    PlanPrefix(payoutId, base, fee, [g.baseE8s, g.bonus1E8s, g.bonus2E8s], [normalTo, bonus1To, bonus2To], 3)
  }

  function NetOf(out: seq<Planned>): int {
    if out == [] then 0 else NetOf(out[..|out| - 1]) + out[|out| - 1].amountE8s
  }

  function GrossOf(out: seq<Planned>): int {
    if out == [] then 0 else GrossOf(out[..|out| - 1]) + out[|out| - 1].grossShareE8s
  }

  /** The part of the shares that stays in staging because it does not exceed the fee. */
  function Skipped(shares: seq<U64>, fee: U64, n: nat): nat
    requires n <= |shares|
  {
    if n == 0 then 0 else Skipped(shares, fee, n - 1) + if shares[n - 1] <= fee then shares[n - 1] else 0
  }

  /** An entry pays its share less the fee, under its position's memo and creation time. */
  ghost predicate EntryIsSound(out: seq<Planned>, payoutId: U64, base: U64, fee: U64, i: nat)
    requires i < |out|
  {
    && out[i].amountE8s > 0 && out[i].amountE8s + fee == out[i].grossShareE8s
    && i < 3 && out[i].memo == MemoOf(payoutId, i) && out[i].createdAtNanos == SatAdd64(base, i)
  }

  lemma {:induction false} PrefixSound(payoutId: U64, base: U64, fee: U64, shares: seq<U64>, targets: seq<nat>,
                                       n: nat, i: nat)
    requires |shares| == |targets| == 3 && n <= 3
    requires i < |PlanPrefix(payoutId, base, fee, shares, targets, n)|
    ensures EntryIsSound(PlanPrefix(payoutId, base, fee, shares, targets, n), payoutId, base, fee, i)
  {
    hide MemoOf;
    if n > 0 && i < |PlanPrefix(payoutId, base, fee, shares, targets, n - 1)| {
      PrefixSound(payoutId, base, fee, shares, targets, n - 1, i);
    }
  }

  lemma {:induction false} PrefixGross(payoutId: U64, base: U64, fee: U64, shares: seq<U64>, targets: seq<nat>, n: nat)
    requires |shares| == |targets| == 3 && n <= 3
    ensures GrossOf(PlanPrefix(payoutId, base, fee, shares, targets, n)) + Skipped(shares, fee, n) == Sum(shares[..n])
  {
    hide MemoOf, Sum;
    if n > 0 {
      PrefixGross(payoutId, base, fee, shares, targets, n - 1);
      var prev := PlanPrefix(payoutId, base, fee, shares, targets, n - 1);
      var out := PlanPrefix(payoutId, base, fee, shares, targets, n);
      assert shares[..n] == shares[..n - 1] + [shares[n - 1]];
      SumLast(shares[..n - 1], shares[n - 1]);
      assert shares[n - 1] > fee ==> out[..|out| - 1] == prev;
    } else {
      SumOfNothing(shares);
    }
  }

  lemma SumOfNothing(shares: seq<U64>)
    ensures Sum(shares[..0]) == 0
  {
  }

  lemma {:induction false} SkippedBound(payoutId: U64, base: U64, fee: U64, shares: seq<U64>, targets: seq<nat>, n: nat)
    requires |shares| == |targets| == 3 && n <= 3
    ensures Skipped(shares, fee, n) <= fee * (n - |PlanPrefix(payoutId, base, fee, shares, targets, n)|)
  {
    hide MemoOf;
    if n > 0 {
      SkippedBound(payoutId, base, fee, shares, targets, n - 1);
      SplitProduct(fee, n - 1 - |PlanPrefix(payoutId, base, fee, shares, targets, n - 1)|, 1);
    }
  }

  lemma {:induction false} GrossIsNetAndFees(out: seq<Planned>, fee: U64)
    requires forall i :: 0 <= i < |out| ==> out[i].amountE8s + fee == out[i].grossShareE8s
    ensures GrossOf(out) == NetOf(out) + fee * |out|
  {
    if out != [] {
      GrossIsNetAndFees(out[..|out| - 1], fee);
      SplitProduct(fee, |out| - 1, 1);
    }
  }

  /**
   Net amounts, fees and skipped shares add up to the staging balance, each skipped share is at most one
   fee, and the memos of a plan are pairwise distinct.
   */
  lemma PlanConserves(payoutId: U64, base: U64, balance: U64, fee: U64, age: U64,
                      normalTo: nat, bonus1To: nat, bonus2To: nat)
    ensures var out := PlanOf(payoutId, base, balance, fee, age, normalTo, bonus1To, bonus2To);
            var g := GrossSplitOf(balance, age);
            && |out| <= 3
            && NetOf(out) + fee * |out| + Skipped([g.baseE8s, g.bonus1E8s, g.bonus2E8s], fee, 3) == balance
            && Skipped([g.baseE8s, g.bonus1E8s, g.bonus2E8s], fee, 3) <= fee * (3 - |out|)
            && (forall i :: 0 <= i < |out| ==> EntryIsSound(out, payoutId, base, fee, i))
            && (forall i, j :: 0 <= i < j < |out| ==> out[i].memo != out[j].memo)
  {
    hide MemoOf, GrossSplitOf, PlanPrefix, GrossOf, NetOf, Skipped, Sum;
    var g := GrossSplitOf(balance, age);
    var shares := [g.baseE8s, g.bonus1E8s, g.bonus2E8s];
    var targets := [normalTo, bonus1To, bonus2To];
    var out := PlanOf(payoutId, base, balance, fee, age, normalTo, bonus1To, bonus2To);
    PrefixGross(payoutId, base, fee, shares, targets, 3);
    SkippedBound(payoutId, base, fee, shares, targets, 3);
    forall i | 0 <= i < |out|
      ensures EntryIsSound(out, payoutId, base, fee, i) && out[i].amountE8s + fee == out[i].grossShareE8s
    {
      PrefixSound(payoutId, base, fee, shares, targets, 3, i);
    }
    GrossIsNetAndFees(out, fee);
    SplitConserves(balance, age);
    ThreeShares(g.baseE8s, g.bonus1E8s, g.bonus2E8s);
    assert shares[..3] == shares;
    forall i, j | 0 <= i < j < |out|
      ensures out[i].memo != out[j].memo
    {
      assert EntryIsSound(out, payoutId, base, fee, i) && EntryIsSound(out, payoutId, base, fee, j);
      MemoIsInjective(payoutId, i);
      MemoIsInjective(payoutId, j);
    }
  }

  lemma ThreeShares(a: int, b: int, c: int)
    ensures Sum([a, b, c]) == a + b + c
  {
    assert [a, b, c] == [a] + [b] + [c];
    SumLast([a] + [b], c);
    SumLast([a], b);
    SumLast([], a);
    assert [] + [a] == [a];
  }
}
