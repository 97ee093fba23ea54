/** Best time to buy and sell a stock once: one pass that keeps the lowest
    price seen so far and the best profit found so far. */
module BuyAndSell {

  function Max(a: int, b: int): int { if a < b then b else a }

  /** The lowest price in a non-empty list of prices. */
  function Min(s: seq<int>): (m: int)
    requires |s| > 0
    ensures exists k :: 0 <= k < |s| && s[k] == m
    ensures forall k :: 0 <= k < |s| ==> m <= s[k]
  {
    if |s| == 1 then s[0]
    else
      var m' := Min(s[..|s| - 1]);
      assert forall k :: 0 <= k < |s| - 1 ==> s[..|s| - 1][k] == s[k];
      if s[|s| - 1] < m' then s[|s| - 1] else m'
  }

  /** The closed form of the answer: r is at least 0, no buy-then-sell pair
      earns more than r, and a positive r is earned by some pair. */
  ghost predicate IsMaxProfit(p: seq<int>, r: int) {
    && r >= 0
    && (forall i, j :: 0 <= i < j < |p| ==> p[j] - p[i] <= r)
    && (r > 0 ==> exists i, j :: 0 <= i < j < |p| && p[j] - p[i] == r)
  }

  /** The best profit of a price list, built up one selling day at a time:
      the best sale on the last day buys at the lowest earlier price. */
  function BestProfit(p: seq<int>): (r: int)
    ensures r >= 0
  {
    if |p| < 2 then 0
    else Max(BestProfit(p[..|p| - 1]), p[|p| - 1] - Min(p[..|p| - 1]))
  }

  /** No buy-then-sell pair earns more than BestProfit. */
  lemma {:induction false} BestProfitBoundsPairs(p: seq<int>, i: int, j: int)
    requires 0 <= i < j < |p|
    ensures p[j] - p[i] <= BestProfit(p)
  {
    var n := |p| - 1;
    var q := p[..n];
    assert BestProfit(p) == Max(BestProfit(q), p[n] - Min(q));
    if j < n {
      BestProfitBoundsPairs(q, i, j);
      assert q[j] == p[j] && q[i] == p[i];
    } else {
      assert Min(q) <= q[i];
    }
  }

  /** A positive BestProfit is earned exactly by some buy-then-sell pair. */
  lemma {:induction false} BestProfitIsEarned(p: seq<int>)
    requires BestProfit(p) > 0
    ensures exists i, j :: 0 <= i < j < |p| && p[j] - p[i] == BestProfit(p)
  {
    var n := |p| - 1;
    var q := p[..n];
    var r := BestProfit(p);
    assert r == Max(BestProfit(q), p[n] - Min(q));
    if r == BestProfit(q) {
      BestProfitIsEarned(q);
      var i, j :| 0 <= i < j < n && q[j] - q[i] == r;
      assert p[j] - p[i] == r;
    } else {
      var k :| 0 <= k < n && q[k] == Min(q);
      assert p[n] - p[k] == r;
    }
  }

  /** BestProfit meets the closed form, so it is the maximum over all pairs. */
  lemma BestProfitIsMaxProfit(p: seq<int>)
    ensures IsMaxProfit(p, BestProfit(p))
  {
    forall i, j | 0 <= i < j < |p| ensures p[j] - p[i] <= BestProfit(p) {
      BestProfitBoundsPairs(p, i, j);
    }
    if BestProfit(p) > 0 {
      BestProfitIsEarned(p);
    }
  }

  /** The closed form fixes the answer: two values that both meet it agree. */
  lemma MaxProfitUnique(p: seq<int>, r1: int, r2: int)
    requires IsMaxProfit(p, r1) && IsMaxProfit(p, r2)
    ensures r1 == r2
  {
    if r1 > 0 {
      var i, j :| 0 <= i < j < |p| && p[j] - p[i] == r1;
    }
    if r2 > 0 {
      var i, j :| 0 <= i < j < |p| && p[j] - p[i] == r2;
    }
  }

  /** A day whose price is a new minimum cannot be a profitable selling
      day, so skipping the profit check on it leaves the best profit as it
      was. */
  lemma {:induction false} NewMinimumKeepsBestProfit(p: seq<int>, i: nat)
    requires 0 < i < |p| && p[i] < Min(p[..i])
    ensures forall a :: 0 <= a < i ==> p[i] - p[a] < 0
    ensures BestProfit(p[..i + 1]) == BestProfit(p[..i])
  {
    assert p[..i + 1][..i] == p[..i];
    forall a | 0 <= a < i ensures p[i] - p[a] < 0 {
      assert p[..i][a] == p[a];
    }
    assert BestProfit(p[..i + 1]) == Max(BestProfit(p[..i]), p[i] - Min(p[..i]));
  }

  /** maxProfit: fewer than two prices earn nothing; otherwise a single
      pass keeps minBuy, the lowest price so far, and maxPro, the best
      profit so far. */
  method MaxProfit(prices: array<int>, pricesSize: int) returns (maxPro: int)
    requires pricesSize <= prices.Length
    ensures pricesSize < 2 ==> maxPro == 0
    ensures pricesSize >= 2 ==> maxPro == BestProfit(prices[..pricesSize])
    ensures IsMaxProfit(prices[..if pricesSize < 0 then 0 else pricesSize], maxPro)
  {
    if pricesSize < 2 {
      return 0;
    }
    maxPro := 0;
    // Stands in for INFINITY: a value above prices[0] makes the first
    // comparison take the new-minimum branch, as INFINITY does.
    var minBuy := prices[0] + 1;
    for i := 0 to pricesSize
      invariant i == 0 ==> minBuy > prices[0]
      invariant i > 0 ==> minBuy == Min(prices[..i])
      invariant maxPro == BestProfit(prices[..i])
    {
      assert prices[..i + 1][..i] == prices[..i];
      if prices[i] < minBuy {
        if i > 0 {
          NewMinimumKeepsBestProfit(prices[..pricesSize], i);
          assert prices[..pricesSize][..i] == prices[..i];
          assert prices[..pricesSize][..i + 1] == prices[..i + 1];
        }
        minBuy := prices[i];
      } else if prices[i] - minBuy > maxPro {
        maxPro := prices[i] - minBuy;
      }
    }
    BestProfitIsMaxProfit(prices[..pricesSize]);
  }

  /** The case from the repository's test driver: buy at 1, sell at 6. */
  lemma SampleDayPrices()
    ensures BestProfit([7, 1, 5, 3, 6, 4]) == 5
  {
    var p := [7, 1, 5, 3, 6, 4];
    assert p[..2] == [7, 1] && p[..3] == [7, 1, 5] && p[..4] == [7, 1, 5, 3] && p[..5] == [7, 1, 5, 3, 6];
    assert [7, 1][..1] == [7];
    assert [7, 1, 5][..2] == [7, 1];
    assert [7, 1, 5, 3][..3] == [7, 1, 5];
    assert [7, 1, 5, 3, 6][..4] == [7, 1, 5, 3];
    assert Min([7, 1]) == 1;
    assert Min([7, 1, 5]) == 1;
    assert Min([7, 1, 5, 3]) == 1;
    assert Min([7, 1, 5, 3, 6]) == 1;
    assert BestProfit([7, 1]) == 0;
    assert BestProfit([7, 1, 5]) == 4;
    assert BestProfit([7, 1, 5, 3]) == 4;
    assert BestProfit([7, 1, 5, 3, 6]) == 5;
  }
}
