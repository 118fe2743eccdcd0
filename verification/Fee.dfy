/** Protocol fee and proportional payout, in saturating 64- and 128-bit arithmetic. */
module Fee {
  import opened Bytes
  import opened Numbers

  const MAX_PROTOCOL_FEE_BPS: nat := 5_000
  const BPS_DENOMINATOR: nat := 10_000

  const U64_MAX: nat := 0xFFFF_FFFF_FFFF_FFFF
  const U128_MAX: nat := 0xFFFF_FFFF_FFFF_FFFF_FFFF_FFFF_FFFF_FFFF

  /** `(fee, payout)`; the source panics above the maximum rate. */
  function CalculateFee(amount: u64, feeBps: u64): (r: (u64, u64))
    requires feeBps <= MAX_PROTOCOL_FEE_BPS
    ensures r.0 + r.1 == amount
  {
    FeeAtMostAmount(amount, feeBps);
    var fee := Least(amount * feeBps, U64_MAX) / BPS_DENOMINATOR;
    (fee, if fee < amount then amount - fee else 0)
  }

  lemma FeeAtMostAmount(amount: u64, feeBps: u64)
    requires feeBps <= MAX_PROTOCOL_FEE_BPS
    ensures Least(amount * feeBps, U64_MAX) / BPS_DENOMINATOR <= amount
  {
    ProductBound(amount, feeBps, BPS_DENOMINATOR);
  }

  lemma ProductBound(a: nat, b: nat, c: nat)
    requires b <= c
    ensures a * b <= a * c
  {}

  /** The share is `balance * weight / total` in 128 bits, cut to 64, and then charged the fee. */
  function CalculateProportionalPayout(balance: u64, weight: u64, total: u64, feeBps: u64): (r: (u64, u64))
    requires feeBps <= MAX_PROTOCOL_FEE_BPS
  {
    if total == 0 || weight == 0 || balance == 0 then (0, 0)
    else CalculateFee(Least(Least(balance * weight, U128_MAX) / total, U64_MAX), feeBps)
  }

  // ---------- What the arithmetic means ----------

  lemma QuotientBounds(x: nat, d: nat, q: nat)
    requires d > 0
    ensures q == x / d <==> q * d <= x < q * d + d
  {
    var q' := x / d;
    assert x == q' * d + x % d;
    if q * d <= x < q * d + d {
      if q < q' {
        ProductBound(d, q + 1, q');
      } else if q > q' {
        ProductBound(d, q' + 1, q);
      }
    }
  }

  lemma QuotientMonotone(x: nat, y: nat, d: nat)
    requires d > 0 && x <= y
    ensures x / d <= y / d
  {
    QuotientBounds(x, d, x / d);
    QuotientBounds(y, d, y / d);
    if x / d > y / d {
      ProductBound(d, y / d + 1, x / d);
    }
  }

  /** The 128-bit product never saturates. */
  lemma NoSaturation128(balance: u64, weight: u64)
    ensures balance * weight <= U128_MAX
  {
    ProductBound(balance, weight, U64_MAX);
    ProductBound(U64_MAX, balance, U64_MAX);
  }

  /** A fee grows by no more than the amount it is charged on. */
  lemma FeeGrowsSlowly(a: u64, b: u64, feeBps: u64)
    requires feeBps <= MAX_PROTOCOL_FEE_BPS && a <= b
    ensures CalculateFee(a, feeBps).0 <= CalculateFee(b, feeBps).0 <= CalculateFee(a, feeBps).0 + (b - a)
  {
    var x, y := Least(a * feeBps, U64_MAX), Least(b * feeBps, U64_MAX);
    ProductBound(feeBps, a, b);
    ProductBound(b - a, feeBps, BPS_DENOMINATOR);
    assert b * feeBps == a * feeBps + (b - a) * feeBps;
    assert x <= y <= x + (b - a) * BPS_DENOMINATOR;
    assert (x + (b - a) * BPS_DENOMINATOR) / BPS_DENOMINATOR == x / BPS_DENOMINATOR + (b - a);
  }

  lemma CutQuotient(x: nat)
    ensures Least(x, U64_MAX) / BPS_DENOMINATOR <= x / BPS_DENOMINATOR
    ensures Least(x, U64_MAX) / BPS_DENOMINATOR == x / BPS_DENOMINATOR
      <==> x / BPS_DENOMINATOR <= U64_MAX / BPS_DENOMINATOR
  {
    QuotientMonotone(Least(x, U64_MAX), x, BPS_DENOMINATOR);
  }

  /** The fee is the exact floor of the rate exactly when that floor is within the saturation bound;
      past it, the fee only gets smaller. */
  lemma FeeExactIffNoSaturation(amount: u64, feeBps: u64)
    requires feeBps <= 5_000
    ensures CalculateFee(amount, feeBps).0 == amount * feeBps / 10_000
      <==> amount * feeBps / 10_000 <= 0xFFFF_FFFF_FFFF_FFFF / 10_000
    ensures CalculateFee(amount, feeBps).0 <= amount * feeBps / 10_000
  {
    CutQuotient(amount * feeBps);
  }

  /** At every admissible rate the fee is at most half of the amount. */
  lemma FeeAtMostHalf(amount: u64, feeBps: u64)
    requires feeBps <= MAX_PROTOCOL_FEE_BPS
    ensures 2 * CalculateFee(amount, feeBps).0 <= amount
  {
    ProductBound(amount, feeBps, MAX_PROTOCOL_FEE_BPS);
    QuotientParts(Least(amount * feeBps, U64_MAX), BPS_DENOMINATOR);
  }

  /** The amount a weight is entitled to before the fee. */
  function Share(balance: nat, weight: nat, total: nat): nat
    requires total > 0
  {
    balance * weight / total
  }

  /** The share of a pool, cut to 64 bits. */
  function CutShare(balance: u64, weight: u64, total: u64): u64
    requires total > 0
  {
    Least(Share(balance, weight, total), 0xFFFF_FFFF_FFFF_FFFF)
  }

  /** How the share is split: the fee is the floor of the rate on the share, saturated at 64 bits, it is
      never the larger part, and the payout is all the rest. Nothing is paid without any weight. */
  lemma PayoutSplit(balance: u64, weight: u64, total: u64, feeBps: u64)
    requires feeBps <= 5_000
    ensures var (fee, payout) := CalculateProportionalPayout(balance, weight, total, feeBps);
      && (total == 0 ==> fee == 0 && payout == 0)
      && (total > 0 ==>
            var share := CutShare(balance, weight, total);
            && fee + payout == share && fee <= payout
            && (share * feeBps <= 0xFFFF_FFFF_FFFF_FFFF ==> fee * 10_000 <= share * feeBps < (fee + 1) * 10_000)
            && (share * feeBps > 0xFFFF_FFFF_FFFF_FFFF ==>
                  fee * 10_000 <= 0xFFFF_FFFF_FFFF_FFFF < (fee + 1) * 10_000)
            && (feeBps == 0 ==> payout == share))
  {
    if total > 0 {
      var share := CutShare(balance, weight, total);
      ShareIsCharged(balance, weight, total, feeBps);
      QuotientParts(Least(share * feeBps, U64_MAX), BPS_DENOMINATOR);
      FeeAtMostHalf(share, feeBps);
    }
  }

  lemma ShareIsCharged(balance: u64, weight: u64, total: u64, feeBps: u64)
    requires feeBps <= MAX_PROTOCOL_FEE_BPS && total > 0
    ensures CalculateProportionalPayout(balance, weight, total, feeBps)
      == CalculateFee(CutShare(balance, weight, total), feeBps)
  {
    NoSaturation128(balance, weight);
    if balance == 0 || weight == 0 {
      assert balance * weight == 0;
    }
  }

  /** Fee and payout together are the exact floored share, whatever the fee. */
  lemma PayoutIsShare(balance: u64, weight: u64, total: u64, feeBps: u64)
    requires feeBps <= MAX_PROTOCOL_FEE_BPS && 0 < total && weight <= total
    ensures var (fee, payout) := CalculateProportionalPayout(balance, weight, total, feeBps);
            fee + payout == Share(balance, weight, total) <= balance
  {
    ShareWithinBalance(balance, weight, total);
    ShareIsCharged(balance, weight, total, feeBps);
  }

  lemma ShareWithinBalance(balance: nat, weight: nat, total: nat)
    requires 0 < total && weight <= total
    ensures Share(balance, weight, total) <= balance
  {
    var share := Share(balance, weight, total);
    QuotientParts(balance * weight, total);
    ProductBound(balance, weight, total);
    assert (balance + 1) * total == balance * total + total;
    if share > balance {
      MultipleMonotone(balance + 1, share, total);
    }
  }

  /** A heavier operator is never paid less, despite flooring and saturation. */
  lemma HeavierIsPaidNoLess(balance: u64, light: u64, heavy: u64, total: u64, feeBps: u64)
    requires feeBps <= MAX_PROTOCOL_FEE_BPS && light <= heavy
    ensures CalculateProportionalPayout(balance, light, total, feeBps).1
         <= CalculateProportionalPayout(balance, heavy, total, feeBps).1
    ensures CalculateProportionalPayout(balance, light, total, feeBps).0
         <= CalculateProportionalPayout(balance, heavy, total, feeBps).0
  {
    if total != 0 && light != 0 && balance != 0 {
      NoSaturation128(balance, light);
      NoSaturation128(balance, heavy);
      ProductBound(balance, light, heavy);
      QuotientMonotone(balance * light, balance * heavy, total);
      FeeGrowsSlowly(Least(balance * light / total, U64_MAX), Least(balance * heavy / total, U64_MAX), feeBps);
    }
  }

  // ---------- Distribution over all operators ----------

  function Sum(weights: seq<nat>): nat {
    if |weights| == 0 then 0 else Sum(weights[..|weights| - 1]) + weights[|weights| - 1]
  }

  lemma {:induction false} EachAtMostSum(weights: seq<nat>, i: nat)
    requires i < |weights|
    ensures weights[i] <= Sum(weights)
  {
    if i < |weights| - 1 {
      EachAtMostSum(weights[..|weights| - 1], i);
    }
  }

  /** Everything that leaves the pool: fees and payouts of all operators. */
  function TotalPaid(balance: u64, weights: seq<nat>, total: u64, feeBps: u64): nat
    requires feeBps <= MAX_PROTOCOL_FEE_BPS && forall i :: 0 <= i < |weights| ==> weights[i] <= U64_MAX
  {
    if |weights| == 0 then 0
    else
      var (fee, payout) := CalculateProportionalPayout(balance, weights[|weights| - 1], total, feeBps);
      TotalPaid(balance, weights[..|weights| - 1], total, feeBps) + fee + payout
  }

  lemma RoundingStep(balance: nat, sum: nat, w: nat, total: nat, before: nat, share: nat, n: nat)
    requires before * total <= balance * sum <= before * total + n * (total - 1)
    requires share * total <= balance * w <= share * total + (total - 1)
    ensures (before + share) * total <= balance * (sum + w) <= (before + share) * total + (n + 1) * (total - 1)
  {
    assert balance * (sum + w) == balance * sum + balance * w;
    assert (before + share) * total == before * total + share * total;
    assert (n + 1) * (total - 1) == n * (total - 1) + (total - 1);
  }

  /** Multiplied by the total weight, what is paid lags what is owed by less than one total per operator. */
  lemma {:induction false} PaidWithinRounding(balance: u64, weights: seq<nat>, total: u64, feeBps: u64)
    requires feeBps <= MAX_PROTOCOL_FEE_BPS && total > 0
    requires forall i :: 0 <= i < |weights| ==> weights[i] <= total
    ensures var paid := TotalPaid(balance, weights, total, feeBps);
            paid * total <= balance * Sum(weights) <= paid * total + |weights| * (total - 1)
    decreases |weights|
  {
    if |weights| > 0 {
      var init, w := weights[..|weights| - 1], weights[|weights| - 1];
      PaidWithinRounding(balance, init, total, feeBps);
      PayoutIsShare(balance, w, total, feeBps);
      QuotientBounds(balance * w, total, Share(balance, w, total));
      RoundingStep(balance, Sum(init), w, total, TotalPaid(balance, init, total, feeBps),
                   Share(balance, w, total), |init|);
    }
  }

  lemma WithinPool(balance: nat, paid: nat, total: nat, n: nat)
    requires paid * total <= balance * total <= paid * total + n * (total - 1)
    requires total > 0 && n > 0
    ensures paid <= balance < paid + n
  {
    assert total * (paid + n) == paid * total + n * (total - 1) + n;
    if paid > balance {
      ProductBound(total, balance + 1, paid);
    } else if balance >= paid + n {
      ProductBound(total, paid + n, balance);
    }
  }

  /** No overpayment: all fees and payouts fit into the pool and leave less than one unit an operator. */
  lemma NoOverpayment(balance: u64, weights: seq<nat>, total: u64, feeBps: u64)
    requires feeBps <= MAX_PROTOCOL_FEE_BPS && total == Sum(weights) > 0
    ensures forall i :: 0 <= i < |weights| ==> weights[i] <= U64_MAX
    ensures var paid := TotalPaid(balance, weights, total, feeBps);
            paid <= balance < paid + |weights|
  {
    forall i | 0 <= i < |weights| ensures weights[i] <= total { EachAtMostSum(weights, i); }
    PaidWithinRounding(balance, weights, total, feeBps);
    WithinPool(balance, TotalPaid(balance, weights, total, feeBps), total, |weights|);
  }
}
