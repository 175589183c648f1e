/**
  Splitting an amount by ratios: every part is rounded down to whole minor units, and
  the units left over go to the largest remainders.
 */
module Allocation {
  import opened Digits
  import opened Wrappers

  const TWO_TO_64 := 0x1_0000_0000_0000_0000
  const TWO_TO_128 := TWO_TO_64 * TWO_TO_64

  type u64 = n: nat | n < TWO_TO_64

  /** `rust_decimal::Decimal`: the number `mantissa` / 10^`scale`. */
  datatype Decimal = Decimal(mantissa: int, scale: nat)

  datatype MoneyError = AllocateRequiresRatios | AllocateZeroSumRatios | Overflow

  function Sum(s: seq<nat>): nat {
    if s == [] then 0 else Sum(s[..|s| - 1]) + s[|s| - 1]
  }

  // ----------------------------------------------------------------- rounding

  /** m / p, rounded to the nearest integer, halves to the even one. */
  function HalfEven(m: int, p: nat): int
    requires p > 0
  {
    var q, twice := m / p, 2 * (m % p);
    if twice < p || (twice == p && q % 2 == 0) then q else q + 1
  }

  /** Rounding moves by at most a half, to the even side when by a half, and keeps whole numbers. */
  lemma HalfEvenIsNearest(m: int, p: nat)
    requires p > 0
    ensures var h := HalfEven(m, p);
      2 * (h * p - m) <= p && 2 * (m - h * p) <= p && ((2 * (h * p - m) == p || 2 * (m - h * p) == p) ==> h % 2 == 0)
    ensures HalfEven(m, p) * p == m <==> m % p == 0
  {
    var q, r := m / p, m % p;
    assert m == q * p + r;
    assert (q + 1) * p == q * p + p;
  }

  // ------------------------------------------------------ the largest remainders

  /** The whole minor units of a part, and what is left of its exact share, in units of 1/sum. */
  function Base(total: nat, ratios: seq<nat>, i: nat): nat
    requires i < |ratios| && Sum(ratios) > 0
  {
    total * ratios[i] / Sum(ratios)
  }

  function Remainder(total: nat, ratios: seq<nat>, i: nat): (r: nat)
    requires i < |ratios| && Sum(ratios) > 0
    ensures r < Sum(ratios)
    ensures total * ratios[i] == Base(total, ratios, i) * Sum(ratios) + r
  {
    total * ratios[i] % Sum(ratios)
  }

  /** The comparison the parts are sorted by: larger remainders first, then the order given. */
  predicate Precedes(remainders: seq<nat>, a: nat, b: nat)
    requires a < |remainders| && b < |remainders|
  {
    remainders[a] > remainders[b] || (remainders[a] == remainders[b] && a < b)
  }

  ghost predicate IsSorted(order: seq<nat>, remainders: seq<nat>) {
    (forall i :: 0 <= i < |order| ==> order[i] < |remainders|) &&
    forall i, j :: 0 <= i < j < |order| ==> Precedes(remainders, order[i], order[j])
  }

  function Insert(order: seq<nat>, remainders: seq<nat>, x: nat): (r: seq<nat>)
    requires x < |remainders| && IsSorted(order, remainders)
    ensures |r| == |order| + 1
  {
    if order == [] then [x]
    else if Precedes(remainders, x, order[0]) then [x] + order
    else [order[0]] + Insert(order[1..], remainders, x)
  }

  lemma {:induction false} InsertKeepsSorted(order: seq<nat>, remainders: seq<nat>, x: nat)
    requires x < |remainders| && IsSorted(order, remainders) && x !in order
    ensures IsSorted(Insert(order, remainders, x), remainders)
    ensures forall k :: k in Insert(order, remainders, x) <==> k == x || k in order
  {
    if order != [] {
      if Precedes(remainders, x, order[0]) {
        assert forall k :: k in [x] + order <==> k == x || k in order;
      } else {
        var rest := Insert(order[1..], remainders, x);
        InsertKeepsSorted(order[1..], remainders, x);
        assert forall k :: k in order <==> k == order[0] || k in order[1..];
        forall j | 0 <= j < |rest| ensures Precedes(remainders, order[0], rest[j]) {
          assert rest[j] in rest;
          if rest[j] in order[1..] {
            var i :| 0 <= i < |order[1..]| && order[1..][i] == rest[j];
            assert order[i + 1] == rest[j];
          } else {
            assert rest[j] == x && x != order[0];
          }
        }
      }
    }
  }

  /** The first `n` indices, sorted. */
  function OrderOf(remainders: seq<nat>, n: nat): (order: seq<nat>)
    requires n <= |remainders|
    ensures IsSorted(order, remainders) && |order| == n && forall k: nat :: k in order <==> k < n
  {
    if n == 0 then [] else
    var order := OrderOf(remainders, n - 1);
    InsertKeepsSorted(order, remainders, n - 1);
    Insert(order, remainders, n - 1)
  }

  /** The parts, in minor units: whole units rounded down, and one more for the largest remainders. */
  ghost predicate IsAllocation(shares: seq<nat>, total: nat, ratios: seq<nat>)
    requires Sum(ratios) > 0
  {
    |shares| == |ratios| && Sum(shares) == total &&
    (forall i :: 0 <= i < |shares| ==> shares[i] == Base(total, ratios, i) || Raised(shares, total, ratios, i)) &&
    forall i, j :: 0 <= i < |shares| && 0 <= j < |shares| ==>
      Raised(shares, total, ratios, i) && !Raised(shares, total, ratios, j) ==> Before(total, ratios, i, j)
  }

  ghost predicate Raised(shares: seq<nat>, total: nat, ratios: seq<nat>, i: nat)
    requires Sum(ratios) > 0 && i < |shares| == |ratios|
  {
    shares[i] == Base(total, ratios, i) + 1
  }

  ghost predicate Before(total: nat, ratios: seq<nat>, i: nat, j: nat)
    requires Sum(ratios) > 0 && i < |ratios| && j < |ratios|
  {
    Remainder(total, ratios, i) > Remainder(total, ratios, j) ||
    (Remainder(total, ratios, i) == Remainder(total, ratios, j) && i < j)
  }

  // ---------------------------------------------------------------- allocating

  function Minor(product: Decimal): int {
    HalfEven(product.mantissa, Pow10(product.scale))
  }

  function Abs(n: int): nat {
    if n < 0 then -n else n
  }

  predicate FitsU128(total: nat, ratios: seq<u64>) {
    forall i :: 0 <= i < |ratios| ==> total * ratios[i] < TWO_TO_128
  }

  /** `checked_pow` and the checked multiplications succeed. */
  predicate NoOverflow(amount: Decimal, ratios: seq<u64>, dp: nat, times: (Decimal, nat) -> Option<Decimal>) {
    Pow10(dp) < TWO_TO_64 && times(amount, Pow10(dp)).Some? &&
    FitsU128(Abs(Minor(times(amount, Pow10(dp)).value)), ratios)
  }

  function Signed(total: int, share: nat): int {
    if total < 0 then -(share as int) else share
  }

  /** The parts of an amount of `total` minor units. */
  ghost predicate AreParts(parts: seq<Decimal>, total: int, ratios: seq<nat>, dp: nat)
    requires Sum(ratios) > 0
  {
    exists shares :: IsAllocation(shares, Abs(total), ratios) && parts == PartsOf(total, shares, dp)
  }

  /** `allocate`; `times` is the decimal multiplication, which may overflow. */
  method Allocate(amount: Decimal, ratios: seq<u64>, dp: nat, times: (Decimal, nat) -> Option<Decimal>)
      returns (r: Result<seq<Decimal>, MoneyError>)
    ensures ratios == [] ==> r == Err(AllocateRequiresRatios)
    ensures ratios != [] && Sum(ratios) == 0 ==> r == Err(AllocateZeroSumRatios)
    ensures Sum(ratios) > 0 && !NoOverflow(amount, ratios, dp, times) ==> r == Err(Overflow)
    ensures Sum(ratios) > 0 && NoOverflow(amount, ratios, dp, times) ==>
      r.Ok? && AreParts(r.value, Minor(times(amount, Pow10(dp)).value), ratios, dp)
  {
    if ratios == [] {
      return Err(AllocateRequiresRatios);
    }
    var sum := Sum(ratios);
    if sum == 0 {
      return Err(AllocateZeroSumRatios);
    }
    if Pow10(dp) >= TWO_TO_64 {
      return Err(Overflow);
    }
    var product := times(amount, Pow10(dp));
    if product.None? {
      return Err(Overflow);
    }
    var totalMinor := Minor(product.value);
    var shares := AllocateUnits(Abs(totalMinor), ratios, sum);
    if shares.None? {
      return Err(Overflow);
    }
    r := Ok(PartsOf(totalMinor, shares.value, dp));
  }

  function PartsOf(total: int, shares: seq<nat>, dp: nat): (parts: seq<Decimal>)
    ensures |parts| == |shares|
    ensures forall i :: 0 <= i < |parts| ==> parts[i] == Decimal(Signed(total, shares[i]), dp)
  {
    seq(|shares|, i requires 0 <= i < |shares| => Decimal(Signed(total, shares[i]), dp))
  }

  /** Whole shares and remainders, then the units left over. */
  method AllocateUnits(total: nat, ratios: seq<u64>, sum: nat) returns (r: Option<seq<nat>>)
    requires sum == Sum(ratios) > 0
    ensures r.Some? <==> FitsU128(total, ratios)
    ensures r.Some? ==> IsAllocation(r.value, total, ratios)
  {
    hide Base, Remainder, IsAllocation;
    var shares: seq<nat>, remainders: seq<nat>, distributed: nat := [], [], 0;
    for i := 0 to |ratios|
      invariant |shares| == |remainders| == i && distributed == Sum(shares)
      invariant forall k :: 0 <= k < i ==> total * ratios[k] < TWO_TO_128
      invariant forall k :: 0 <= k < i ==> shares[k] == Base(total, ratios, k)
      invariant forall k :: 0 <= k < i ==> remainders[k] == Remainder(total, ratios, k)
    {
      var num := total * ratios[i];
      if num >= TWO_TO_128 {
        return None;
      }
      ShareIs(total, ratios, i);
      var base, rem := num / sum, num % sum;
      assert (shares + [base])[..i] == shares;
      shares := shares + [base];
      remainders := remainders + [rem];
      distributed := distributed + base;
    }
    LeftoverBound(total, ratios, shares);
    var all := HandOut(shares, remainders, total - distributed);
    TakenIsAllocation(total, ratios, remainders, total - distributed, shares, all);
    return Some(all);
  }

  lemma ShareIs(total: nat, ratios: seq<nat>, i: nat)
    requires i < |ratios| && Sum(ratios) > 0
    ensures Base(total, ratios, i) == total * ratios[i] / Sum(ratios)
    ensures Remainder(total, ratios, i) == total * ratios[i] % Sum(ratios)
  {
  }

  /** One unit each to the parts with the largest remainders. */
  method HandOut(bases: seq<nat>, remainders: seq<nat>, leftover: nat) returns (shares: seq<nat>)
    requires |bases| == |remainders| && leftover <= |bases|
    ensures |shares| == |bases| && Sum(shares) == Sum(bases) + leftover
    ensures forall k :: 0 <= k < |shares| ==>
      shares[k] == bases[k] + if k in OrderOf(remainders, |remainders|)[..leftover] then 1 else 0
  {
    hide Precedes, Sum;
    shares := bases;
    var order := OrderOf(remainders, |remainders|);
    for t := 0 to leftover
      invariant |shares| == |bases| && Sum(shares) == Sum(bases) + t
      invariant forall k :: 0 <= k < |shares| ==> shares[k] == bases[k] + if k in order[..t] then 1 else 0
    {
      var idx := order[t];
      NextIsNew(order, remainders, t);
      SumRaise(shares, idx);
      shares := shares[idx := shares[idx] + 1];
    }
  }

  lemma {:induction false} SumRaise(s: seq<nat>, i: nat)
    requires i < |s|
    ensures Sum(s[i := s[i] + 1]) == Sum(s) + 1
  {
    var last := |s| - 1;
    if i < last {
      SumRaise(s[..last], i);
      assert s[i := s[i] + 1][..last] == s[..last][i := s[i] + 1];
    } else {
      assert s[i := s[i] + 1][..last] == s[..last];
    }
  }

  /** A sorted order never names an index twice. */
  lemma NextIsNew(order: seq<nat>, remainders: seq<nat>, t: nat)
    requires IsSorted(order, remainders) && t < |order|
    ensures order[t] < |remainders| && order[t] !in order[..t]
    ensures forall k :: k in order[..t + 1] <==> k in order[..t] || k == order[t]
  {
    assert order[..t + 1] == order[..t] + [order[t]];
  }

  lemma TakenIsAllocation(total: nat, ratios: seq<nat>, remainders: seq<nat>, leftover: nat, bases: seq<nat>,
                          shares: seq<nat>)
    requires Sum(ratios) > 0 && |bases| == |shares| == |remainders| == |ratios| && leftover <= |ratios|
    requires forall k :: 0 <= k < |ratios| ==> bases[k] == Base(total, ratios, k)
    requires forall k :: 0 <= k < |ratios| ==> remainders[k] == Remainder(total, ratios, k)
    requires forall k :: 0 <= k < |shares| ==>
      shares[k] == bases[k] + if k in OrderOf(remainders, |remainders|)[..leftover] then 1 else 0
    requires Sum(shares) == total
    ensures IsAllocation(shares, total, ratios)
  {
    hide Base, Remainder, Sum;
    var order := OrderOf(remainders, |remainders|);
    forall i, j | 0 <= i < |shares| && 0 <= j < |shares| &&
      Raised(shares, total, ratios, i) && !Raised(shares, total, ratios, j)
      ensures Before(total, ratios, i, j)
    {
      TakenComeFirst(order, remainders, leftover, i, j);
    }
  }

  lemma TakenComeFirst(order: seq<nat>, remainders: seq<nat>, taken: nat, i: nat, j: nat)
    requires IsSorted(order, remainders) && taken <= |order|
    requires i in order[..taken] && j in order && j !in order[..taken]
    ensures i < |remainders| && j < |remainders| && Precedes(remainders, i, j)
  {
    var a :| 0 <= a < taken && order[a] == i;
    var b :| 0 <= b < |order| && order[b] == j;
    assert forall c :: 0 <= c < taken ==> order[..taken][c] == order[c];
    assert a < b;
  }

  // -------------------------------------------------------------- sums of parts

  /** Pointwise at least as large, and larger somewhere. */
  lemma {:induction false} SumDominates(a: seq<nat>, b: seq<nat>)
    requires |a| == |b| && forall k :: 0 <= k < |a| ==> a[k] >= b[k]
    ensures Sum(a) >= Sum(b)
    ensures (exists k :: 0 <= k < |a| && a[k] > b[k]) ==> Sum(a) > Sum(b)
  {
    if a != [] {
      var n := |a| - 1;
      SumDominates(a[..n], b[..n]);
      if k :| 0 <= k < |a| && a[k] > b[k] {
        if k < n {
          assert a[..n][k] > b[..n][k];
        }
      }
    }
  }

  function Scaled(c: nat, s: seq<nat>): (r: seq<nat>)
    ensures |r| == |s| && forall i :: 0 <= i < |s| ==> r[i] == c * s[i]
  {
    seq(|s|, i requires 0 <= i < |s| => c * s[i])
  }

  lemma {:induction false} SumScaled(c: nat, s: seq<nat>)
    ensures Sum(Scaled(c, s)) == c * Sum(s)
  {
    if s != [] {
      var n := |s| - 1;
      SumScaled(c, s[..n]);
      assert Scaled(c, s)[..n] == Scaled(c, s[..n]);
      assert c * Sum(s) == c * Sum(s[..n]) + c * s[n];
    }
  }

  function Plus(s: seq<nat>, d: nat): (r: seq<nat>)
    ensures |r| == |s| && forall i :: 0 <= i < |s| ==> r[i] == s[i] + d
  {
    seq(|s|, i requires 0 <= i < |s| => s[i] + d)
  }

  lemma {:induction false} SumPlus(s: seq<nat>, d: nat)
    ensures Sum(Plus(s, d)) == Sum(s) + |s| * d
  {
    if s != [] {
      var n := |s| - 1;
      SumPlus(s[..n], d);
      assert Plus(s, d)[..n] == Plus(s[..n], d);
      assert |s| * d == n * d + d;
    }
  }

  lemma ScaledSums(total: nat, ratios: seq<nat>, shares: seq<nat>)
    requires Sum(ratios) > 0 && |shares| == |ratios|
    ensures Sum(Scaled(Sum(ratios), shares)) == Sum(ratios) * Sum(shares)
    ensures Sum(Scaled(total, ratios)) == total * Sum(ratios)
  {
    SumScaled(Sum(ratios), shares);
    SumScaled(total, ratios);
  }

  /** Rounding down leaves fewer units than there are parts. */
  lemma LeftoverBound(total: nat, ratios: seq<nat>, bases: seq<nat>)
    requires Sum(ratios) > 0 && |bases| == |ratios|
    requires forall k :: 0 <= k < |bases| ==> bases[k] == Base(total, ratios, k)
    ensures 0 <= total - Sum(bases) <= |ratios|
  {
    hide Sum, Base;
    var sum := Sum(ratios);
    ScaledSums(total, ratios, bases);
    var exact, down := Scaled(total, ratios), Scaled(sum, bases);
    forall k | 0 <= k < |bases| ensures down[k] <= exact[k] <= Plus(down, sum)[k] {
      RoundedDown(total, ratios, k);
    }
    SumDominates(exact, down);
    SumDominates(Plus(down, sum), exact);
    SumPlus(down, sum);
    CancelFactor(sum, Sum(bases), total, 0);
    CancelFactor(sum, total, Sum(bases), |ratios|);
  }

  lemma RoundedDown(total: nat, ratios: seq<nat>, k: nat)
    requires Sum(ratios) > 0 && k < |ratios|
    ensures var down := Sum(ratios) * Base(total, ratios, k);
      down <= total * ratios[k] <= down + Sum(ratios)
      && total * ratios[k] == down + Remainder(total, ratios, k)
      && Sum(ratios) * (Base(total, ratios, k) + 1) == down + Sum(ratios)
  {
    hide Sum, Base;
    Commutes(Sum(ratios), Base(total, ratios, k));
    Commutes(Sum(ratios), Base(total, ratios, k) + 1);
    OneMore(Base(total, ratios, k), Sum(ratios));
    assert Remainder(total, ratios, k) < Sum(ratios);
  }

  lemma Commutes(a: int, b: int)
    ensures a * b == b * a
  {
  }

  lemma OneMore(a: int, c: int)
    ensures (a + 1) * c == a * c + c
  {
  }

  lemma CancelFactor(c: nat, a: nat, b: nat, n: nat)
    requires c > 0 && (c * a <= b * c + n * c || a * c <= c * b + n * c)
    ensures a <= b + n
  {
    Commutes(a, c);
    Commutes(b, c);
    Distributes(b, n, c);
    if a > b + n {
      Steps(b + n, a, c);
    }
  }

  lemma Distributes(a: int, b: int, c: int)
    ensures (a + b) * c == a * c + b * c
  {
  }

  // -------------------------------------------------------------- main results

  /** Two allocations cannot each favour another part. */
  lemma NoCrossing(a: seq<nat>, b: seq<nat>, total: nat, ratios: seq<nat>, i: nat, j: nat)
    requires Sum(ratios) > 0 && IsAllocation(a, total, ratios) && IsAllocation(b, total, ratios)
    requires i < |ratios| && j < |ratios|
    ensures a[i] > b[i] ==> a[j] >= b[j]
  {
    hide Sum, Base, Remainder;
    assert Raised(a, total, ratios, i) && !Raised(a, total, ratios, j) ==> Before(total, ratios, i, j);
    assert Raised(b, total, ratios, j) && !Raised(b, total, ratios, i) ==> Before(total, ratios, j, i);
  }

  lemma NowhereMore(a: seq<nat>, b: seq<nat>, total: nat, ratios: seq<nat>)
    requires Sum(ratios) > 0 && IsAllocation(a, total, ratios) && IsAllocation(b, total, ratios)
    ensures forall i :: 0 <= i < |a| ==> a[i] <= b[i]
  {
    hide Sum, Base, Remainder;
    forall i | 0 <= i < |a| ensures a[i] <= b[i] {
      forall j | 0 <= j < |a| ensures a[i] > b[i] ==> a[j] >= b[j] {
        NoCrossing(a, b, total, ratios, i, j);
      }
      if a[i] > b[i] {
        SumDominates(a, b);
      }
    }
  }

  /** The rule leaves no choice: the parts are determined by the total and the ratios. */
  lemma AllocationUnique(a: seq<nat>, b: seq<nat>, total: nat, ratios: seq<nat>)
    requires Sum(ratios) > 0 && IsAllocation(a, total, ratios) && IsAllocation(b, total, ratios)
    ensures a == b
  {
    NowhereMore(a, b, total, ratios);
    NowhereMore(b, a, total, ratios);
  }

  /** Every part is less than one minor unit from its exact share, and a whole share is given exactly. */
  lemma PartIsNearExactShare(shares: seq<nat>, total: nat, ratios: seq<nat>, i: nat)
    requires Sum(ratios) > 0 && IsAllocation(shares, total, ratios) && i < |ratios|
    ensures -(Sum(ratios) as int) < shares[i] * Sum(ratios) - total * ratios[i] < Sum(ratios)
  {
    hide Sum, Base;
    var sum, base, rem := Sum(ratios), Base(total, ratios, i), Remainder(total, ratios, i);
    assert (base + 1) * sum == base * sum + sum;
    if Raised(shares, total, ratios, i) && rem == 0 {
      RaisedHasRemainder(shares, total, ratios, i);
    }
  }

  /** No unit goes to a part whose share is whole. */
  lemma RaisedHasRemainder(shares: seq<nat>, total: nat, ratios: seq<nat>, i: nat)
    requires Sum(ratios) > 0 && IsAllocation(shares, total, ratios) && i < |ratios|
    requires Raised(shares, total, ratios, i)
    ensures Remainder(total, ratios, i) > 0
  {
    hide Sum, Base;
    var sum := Sum(ratios);
    if Remainder(total, ratios, i) == 0 {
      ScaledSums(total, ratios, shares);
      var given, exact := Scaled(sum, shares), Scaled(total, ratios);
      forall k | 0 <= k < |shares| ensures given[k] >= exact[k] && (k == i ==> given[k] > exact[k]) {
        RoundedDown(total, ratios, k);
        assert Raised(shares, total, ratios, k) || Before(total, ratios, i, k);
      }
      Commutes(sum, total);
      SumDominates(given, exact);
    }
  }

  lemma TotalIsPositive(total: nat, ratios: seq<nat>, i: nat)
    requires Sum(ratios) > 0 && i < |ratios| && Remainder(total, ratios, i) > 0
    ensures total > 0
  {
  }

  lemma EqualRemainders(total: nat, ratios: seq<nat>, i: nat, j: nat)
    requires Sum(ratios) > 0 && i < |ratios| && j < |ratios| && total > 0
    ensures Base(total, ratios, i) == Base(total, ratios, j) && ratios[i] > ratios[j] ==>
      Remainder(total, ratios, i) > Remainder(total, ratios, j)
  {
    hide Sum, Base;
    if ratios[i] > ratios[j] {
      Steps(ratios[j], ratios[i], total);
    }
  }

  /** A larger ratio never gets less; of two equal ones the first never gets less. */
  lemma LargerRatioGetsNoLess(shares: seq<nat>, total: nat, ratios: seq<nat>, i: nat, j: nat)
    requires Sum(ratios) > 0 && IsAllocation(shares, total, ratios) && i < |ratios| && j < |ratios|
    requires ratios[i] > ratios[j] || (ratios[i] == ratios[j] && i < j)
    ensures shares[i] >= shares[j]
  {
    hide Sum, Base;
    var sum := Sum(ratios);
    var a, b := Base(total, ratios, i), Base(total, ratios, j);
    var x, y := Remainder(total, ratios, i), Remainder(total, ratios, j);
    Monotone(total, ratios[j], ratios[i]);
    BasesOrdered(sum, a, x, b, y);
    if a == b && Raised(shares, total, ratios, j) && !Raised(shares, total, ratios, i) {
      RaisedHasRemainder(shares, total, ratios, j);
      TotalIsPositive(total, ratios, j);
      EqualRemainders(total, ratios, i, j);
    }
  }

  /** One more factor is at least one more multiple. */
  lemma Steps(a: int, b: int, c: nat)
    requires a < b
    ensures a * c + c <= b * c && c * a + c <= c * b
  {
    var d := b - a - 1;
    assert d * c >= 0;
    assert b * c == (d + a + 1) * c == d * c + a * c + c;
    assert c * a == a * c && c * b == b * c;
  }

  lemma Monotone(c: nat, a: nat, b: nat)
    requires a <= b
    ensures c * a <= c * b
  {
    if a < b {
      Steps(a, b, c);
    }
  }

  lemma BasesOrdered(sum: nat, a: nat, x: nat, b: nat, y: nat)
    requires x < sum && y < sum && a * sum + x >= b * sum + y
    ensures a > b || (a == b && x >= y)
  {
    if a < b {
      Steps(a, b, sum);
    }
  }

  // --------------------------------------------------------- the whole amount

  /** The sum of the parts, in minor units. */
  function TotalOf(parts: seq<Decimal>): int {
    if parts == [] then 0 else TotalOf(parts[..|parts| - 1]) + parts[|parts| - 1].mantissa
  }

  lemma {:induction false} PartsAddUp(total: int, shares: seq<nat>, dp: nat)
    ensures TotalOf(PartsOf(total, shares, dp)) == Signed(total, Sum(shares))
  {
    if shares != [] {
      var n := |shares| - 1;
      PartsAddUp(total, shares[..n], dp);
      assert PartsOf(total, shares, dp)[..n] == PartsOf(total, shares[..n], dp);
    }
  }

  /** The parts of an amount add up to the amount rounded to minor units, halves to even. */
  lemma PartsSumToRoundedAmount(product: Decimal, shares: seq<nat>, ratios: seq<nat>, dp: nat)
    requires Sum(ratios) > 0 && IsAllocation(shares, Abs(Minor(product)), ratios)
    ensures TotalOf(PartsOf(Minor(product), shares, dp)) == Minor(product)
  {
    PartsAddUp(Minor(product), shares, dp);
  }

  /** The multiplication lost nothing: product == amount * 10^dp. */
  predicate Exact(amount: Decimal, dp: nat, product: Decimal) {
    product.mantissa * Pow10(amount.scale) == amount.mantissa * Pow10(dp) * Pow10(product.scale)
  }

  /**
    The parts add up to the original amount exactly when it is a whole number of minor
    units: an amount with more decimals is rounded first.
   */
  lemma PartsSumToAmountIff(amount: Decimal, product: Decimal, shares: seq<nat>, ratios: seq<nat>, dp: nat)
    requires Sum(ratios) > 0 && IsAllocation(shares, Abs(Minor(product)), ratios) && Exact(amount, dp, product)
    ensures TotalOf(PartsOf(Minor(product), shares, dp)) * Pow10(amount.scale) == amount.mantissa * Pow10(dp) <==>
      amount.mantissa * Pow10(dp) % Pow10(amount.scale) == 0
  {
    hide Pow10;
    PartsSumToRoundedAmount(product, shares, ratios, dp);
    WholeIff(amount.mantissa * Pow10(dp), Pow10(amount.scale), product.mantissa, Pow10(product.scale));
  }

  /** n/s and m/p are the same number: rounding keeps it exactly when it is whole. */
  lemma WholeIff(n: int, s: nat, m: int, p: nat)
    requires s > 0 && p > 0 && m * s == n * p
    ensures HalfEven(m, p) * s == n <==> n % s == 0
  {
    var h := HalfEven(m, p);
    HalfEvenIsNearest(m, p);
    if n % s == 0 {
      var q := n / s;
      assert n == q * s;
      assert m * s == (q * p) * s;
      CancelInt(s, m, q * p);
      MultipleIsWhole(q, p);
      assert h * p == q * p;
      CancelInt(p, h, q);
    }
    if h * s == n {
      MultipleIsWhole(h, s);
    }
  }

  lemma MultipleIsWhole(q: int, p: nat)
    requires p > 0
    ensures q * p % p == 0
  {
    var d, r := q * p / p, q * p % p;
    assert q * p == d * p + r;
    if d < q {
      Steps(d, q, p);
    } else if q < d {
      Steps(q, d, p);
    }
  }

  lemma CancelInt(c: nat, a: int, b: int)
    requires c > 0 && a * c == b * c
    ensures a == b
  {
    if a < b {
      Steps(a, b, c);
    } else if b < a {
      Steps(b, a, c);
    }
  }

  /** It happens: 1.005 split in one part at two decimals is 1.00. */
  lemma HalfUnitIsLost()
    ensures var amount, product := Decimal(1005, 3), Decimal(100500, 3);
      Exact(amount, 2, product) && Sum([1]) == 1 && IsAllocation([100], Abs(Minor(product)), [1]) &&
      TotalOf(PartsOf(Minor(product), [100], 2)) == 100
  {
    assert Pow10(1) == 10 && Pow10(2) == 100 && Pow10(3) == 1000;
    assert Minor(Decimal(100500, 3)) == 100;
    assert [1][..0] == [] && [100][..0] == [];
    assert Sum([1]) == 1 && Sum([100]) == 100;
    assert Base(100, [1], 0) == 100;
    PartsAddUp(100, [100], 2);
  }

  /** The parts as they are given out: in minor units at the working scale, with the sign of the amount. */
  lemma PartsAre(total: int, shares: seq<nat>, dp: nat, i: nat)
    requires i < |shares|
    ensures PartsOf(total, shares, dp)[i].scale == dp
    ensures PartsOf(total, shares, dp)[i].mantissa == if total >= 0 then shares[i] as int else -(shares[i] as int)
  {
  }

  /** The scale factor fits 64 bits for up to nineteen digits. */
  lemma ScaleFits(dp: nat)
    ensures Pow10(dp) < TWO_TO_64 <==> dp <= 19
  {
    assert Pow10(4) == 10_000;
    assert Pow10(8) == 1_0000_0000;
    assert Pow10(12) == 1_0000_0000_0000;
    assert Pow10(16) == 1_0000_0000_0000_0000;
    assert Pow10(19) == 1000_0000_0000_0000_0000;
    if dp > 19 {
      PowGrows(20, dp);
    } else {
      PowGrows(dp, 19);
    }
  }

  lemma {:induction false} PowGrows(m: nat, n: nat)
    requires m <= n
    ensures Pow10(m) <= Pow10(n)
    decreases n - m
  {
    if m < n {
      PowGrows(m, n - 1);
    }
  }
}
