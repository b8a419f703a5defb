/** Fixed-width integers of the source and the operations it applies to them. */
module Machine {
  const U32_MAX := 0xFFFF_FFFF
  const U64_MAX := 0xFFFF_FFFF_FFFF_FFFF
  const U128_MAX := 0xFFFF_FFFF_FFFF_FFFF_FFFF_FFFF_FFFF_FFFF

  type U32 = x: int | 0 <= x <= U32_MAX
  type U64 = x: int | 0 <= x <= U64_MAX
  type U128 = x: int | 0 <= x <= U128_MAX

  /** Canister principals, as their rank in the source's total order on principals. */
  type Principal = nat

  datatype Option<+T> = None | Some(value: T)

  function Min(a: int, b: int): int {
    if a <= b then a else b
  }

  function Max(a: int, b: int): int {
    if a >= b then a else b
  }

  // saturating_add, saturating_sub and saturating_mul
  function SatAdd64(a: U64, b: U64): U64 {
    if a + b > U64_MAX then U64_MAX else a + b
  }

  function SatSub(a: nat, b: nat): nat {
    if a <= b then 0 else a - b
  }

  function SatAdd128(a: U128, b: U128): U128 {
    if a + b > U128_MAX then U128_MAX else a + b
  }

  function SatMul128(a: U128, b: U128): U128 {
    if a * b > U128_MAX then U128_MAX else (assert a * b >= 0; a * b)
  }
}

/** Floor division facts and sums over sequences, used by every module that shares money out. */
module Arithmetic {

  lemma DivMod(n: nat, d: nat)
    requires d > 0
    ensures n / d * d <= n < n / d * d + d
    ensures n / d >= 0 && 0 <= n % d < d
    ensures n == n / d * d + n % d
  {
  }

  /** The floor is the only q with q*d <= n < (q+1)*d. */
  lemma FloorIs(n: nat, d: nat, q: int)
    requires d > 0
    requires q * d <= n < q * d + d
    ensures n / d == q
  {
    DivMod(n, d);
    var p := n / d;
    if p < q {
      MulLeq(p + 1, q, d);
      assert false;
    } else if p > q {
      MulLeq(q + 1, p, d);
      assert false;
    }
  }

  lemma MulLeq(a: int, b: int, c: nat)
    requires a <= b
    ensures a * c <= b * c
  {
    assert (b - a) * c >= 0;
  }

  lemma MulLess(a: int, b: int, c: int)
    requires a < b && c > 0
    ensures a * c < b * c
  {
    assert (b - a) * c > 0;
  }

  /** A factor can be cancelled from an inequality. */
  lemma CancelLess(a: int, b: int, c: nat)
    requires a * c < b * c
    ensures a < b
  {
    if b <= a {
      MulLeq(b, a, c);
    }
  }

  lemma PositiveFactor(a: int, b: nat)
    requires a * b > 0
    ensures a > 0
  {
  }

  lemma FloorAtLeast(n: nat, d: nat, q: nat)
    requires d > 0 && q * d <= n
    ensures n / d >= q
  {
    DivMod(n, d);
    if n / d + 1 <= q {
      MulLeq(n / d + 1, q, d);
      assert false;
    }
  }

  lemma FloorAtMost(n: nat, d: nat, q: nat)
    requires d > 0 && n <= q * d
    ensures n / d <= q
  {
    DivMod(n, d);
    if q + 1 <= n / d {
      MulLeq(q + 1, n / d, d);
      assert false;
    }
  }

  lemma FloorMonotone(a: nat, b: nat, d: nat)
    requires a <= b && d > 0
    ensures a / d <= b / d
  {
    DivMod(a, d);
    DivMod(b, d);
    if b / d < a / d {
      MulLeq(b / d + 1, a / d, d);
      assert false;
    }
  }

  function Sum(s: seq<int>): int {
    if s == [] then 0 else s[0] + Sum(s[1..])
  }

  lemma {:induction false} SumAppend(a: seq<int>, b: seq<int>)
    ensures Sum(a + b) == Sum(a) + Sum(b)
  {
    if a == [] {
      assert a + b == b;
    } else {
      assert (a + b)[1..] == a[1..] + b;
      SumAppend(a[1..], b);
    }
  }

  lemma SumLast(a: seq<int>, x: int)
    ensures Sum(a + [x]) == Sum(a) + x
  {
    SumAppend(a, [x]);
    assert Sum([x]) == x + Sum([]);
  }

  lemma {:induction false} SumUpdate(s: seq<int>, i: nat, x: int)
    requires i < |s|
    ensures Sum(s[i := x]) == Sum(s) - s[i] + x
  {
    assert s == s[..i] + [s[i]] + s[i + 1..];
    assert s[i := x] == s[..i] + [x] + s[i + 1..];
    SumAppend(s[..i] + [s[i]], s[i + 1..]);
    SumAppend(s[..i] + [x], s[i + 1..]);
    SumLast(s[..i], s[i]);
    SumLast(s[..i], x);
  }

  lemma {:induction false} SumNonNegative(s: seq<int>)
    requires forall i :: 0 <= i < |s| ==> s[i] >= 0
    ensures Sum(s) >= 0
  {
    if s != [] {
      SumNonNegative(s[1..]);
    }
  }

  lemma {:induction false} SumPointwiseLeq(a: seq<int>, b: seq<int>)
    requires |a| == |b|
    requires forall i :: 0 <= i < |a| ==> a[i] <= b[i]
    ensures Sum(a) <= Sum(b)
  {
    if a != [] {
      SumPointwiseLeq(a[1..], b[1..]);
    }
  }

  /** Multiplying every term multiplies the sum. */
  lemma {:induction false} SumScale(s: seq<int>, c: int, t: seq<int>)
    requires |t| == |s|
    requires forall i :: 0 <= i < |s| ==> t[i] == c * s[i]
    ensures Sum(t) == c * Sum(s)
  {
    if s != [] {
      SumScale(s[1..], c, t[1..]);
      assert Sum(t) == c * s[0] + c * Sum(s[1..]);
    }
  }

  lemma {:induction false} SumPair(a: seq<int>, b: seq<int>, c: seq<int>)
    requires |a| == |b| == |c|
    requires forall i :: 0 <= i < |a| ==> c[i] == a[i] + b[i]
    ensures Sum(c) == Sum(a) + Sum(b)
  {
    if a != [] {
      SumPair(a[1..], b[1..], c[1..]);
    }
  }

  lemma {:induction false} MemberWithinSum(s: seq<nat>, i: nat)
    requires i < |s|
    ensures s[i] <= Sum(s)
  {
    assert s == s[..i] + [s[i]] + s[i + 1..];
    SumAppend(s[..i] + [s[i]], s[i + 1..]);
    SumLast(s[..i], s[i]);
    SumNonNegative(s[..i]);
    SumNonNegative(s[i + 1..]);
  }

  lemma SplitProduct(c: int, a: int, b: int)
    ensures c * (a + b) == c * a + c * b
  {
  }

  /** A factor can be cancelled from a weak inequality. */
  lemma CancelAtMost(d: nat, a: int, b: nat)
    requires d > 0 && d * a <= b * d
    ensures a <= b
  {
    if b + 1 <= a {
      MulLeq(b + 1, a, d);
      assert false;
    }
  }
}
