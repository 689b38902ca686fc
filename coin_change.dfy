/** `dp_rec_mc` (exercises/normal/solution4/src/rec_mc.rs): the fewest coins of
    the denominations 1, 2, 5, 10, 20, 50 and 100 that add up to an amount,
    by a bottom-up table. */
module CoinChange {
  import Arith

  const Coins: seq<nat> := [1, 2, 5, 10, 20, 50, 100]

  /** The optimum, defined by recursion on the amount: no coins for 0, else
      one coin plus the best of the amounts left after each usable coin. */
  function MinCoins(a: nat): nat
    decreases a, |Coins| + 1
  {
    if a == 0 then 0 else 1 + MinRest(a, |Coins|)
  }

  /** The fewest coins for `a - c`, over the first `k` coins c that fit in `a`
      (coin 1 always fits). */
  function MinRest(a: nat, k: nat): nat
    requires 1 <= a && 1 <= k <= |Coins|
    decreases a, k
  {
    if k == 1 then MinCoins(a - 1)
    else
      var m := MinRest(a, k - 1);
      if Coins[k - 1] <= a && MinCoins(a - Coins[k - 1]) < m then MinCoins(a - Coins[k - 1]) else m
  }

  /** Fills `min_coins[0..=amount]`, starting every entry at the sentinel
      `amount + 1` and lowering entry `current` through each coin. */
  method DpRecMc(amount: nat) returns (r: nat)
    requires amount < Arith.U32_MAX
    ensures r == MinCoins(amount)
    ensures r <= amount
  {
    var minCoins := new nat[amount + 1](_ => amount + 1);
    minCoins[0] := 0;
    var current := 1;
    while current <= amount
      invariant 1 <= current <= amount + 1
      invariant forall b :: 0 <= b < current ==> minCoins[b] == MinCoins(b)
      invariant forall b :: current <= b <= amount ==> minCoins[b] == amount + 1
    {
      MinCoinsAtMost(current - 1);
      Relax(minCoins, amount, current);
      current := current + 1;
    }
    r := minCoins[amount];
    MinCoinsAtMost(amount);
  }

  /** The inner loop: lower entry `current` through each coin that fits,
      which makes it the optimum once the smaller entries are. */
  method Relax(minCoins: array<nat>, amount: nat, current: nat)
    requires minCoins.Length == amount + 1 && 1 <= current <= amount
    requires forall b :: 0 <= b < current ==> minCoins[b] == MinCoins(b)
    requires minCoins[current] == amount + 1 && MinCoins(current - 1) <= current - 1
    modifies minCoins
    ensures minCoins[current] == MinCoins(current)
    ensures forall b :: 0 <= b <= amount && b != current ==> minCoins[b] == old(minCoins[b])
  {
    for j := 0 to |Coins|
      invariant forall b :: 0 <= b <= amount && b != current ==> minCoins[b] == old(minCoins[b])
      invariant j == 0 ==> minCoins[current] == amount + 1
      invariant j > 0 ==> minCoins[current] == 1 + MinRest(current, j)
      invariant minCoins[current] <= amount + 1
    {
      var coin := Coins[j];
      if coin <= current {
        var remaining := current - coin;
        if minCoins[remaining] + 1 < minCoins[current] {
          minCoins[current] := minCoins[remaining] + 1;
        }
      }
    }
  }

  /** Paying only with coins of 1 is always possible, so the optimum never
      exceeds the amount and the sentinel `amount + 1` never survives. */
  lemma {:induction false} MinCoinsAtMost(a: nat)
    ensures MinCoins(a) <= a
  {
    if a > 0 {
      MinCoinsAtMost(a - 1);
      MinRestAtMost(a, |Coins|, 0);
    }
  }

  /** The table's recurrence: for every coin c <= a, the optimum for a is at
      most one more than the optimum for a - c. */
  lemma {:induction false} MinRestAtMost(a: nat, k: nat, j: nat)
    requires 1 <= a && 1 <= k <= |Coins| && j < k && Coins[j] <= a
    ensures MinRest(a, k) <= MinCoins(a - Coins[j])
    decreases k
  {
    if k > 1 && j < k - 1 {
      MinRestAtMost(a, k - 1, j);
    }
  }

  lemma MinCoinsStep(a: nat, c: nat)
    requires c in Coins && c <= a
    ensures MinCoins(a) <= MinCoins(a - c) + 1
  {
    var j :| 0 <= j < |Coins| && Coins[j] == c;
    if a > 0 {
      MinRestAtMost(a, |Coins|, j);
    }
  }

  /** The value of a list of coins. */
  function Total(coins: seq<nat>): nat
  {
    if |coins| == 0 then 0 else coins[0] + Total(coins[1..])
  }

  predicate AllCoins(coins: seq<nat>)
  {
    forall i :: 0 <= i < |coins| ==> coins[i] in Coins
  }

  /** No list of coins paying `a` is shorter than MinCoins(a). */
  lemma {:induction false} MinCoinsOptimal(a: nat, coins: seq<nat>)
    requires AllCoins(coins) && Total(coins) == a
    ensures MinCoins(a) <= |coins|
    decreases |coins|
  {
    if |coins| > 0 {
      var c := coins[0];
      assert AllCoins(coins[1..]) by {
        forall i | 0 <= i < |coins[1..]| ensures coins[1..][i] in Coins {
          assert coins[1..][i] == coins[i + 1];
        }
      }
      MinCoinsOptimal(a - c, coins[1..]);
      MinCoinsStep(a, c);
    }
  }

  /** The coin that attains MinRest(a, k). */
  function BestCoin(a: nat, k: nat): (j: nat)
    requires 1 <= a && 1 <= k <= |Coins|
    ensures j < k && Coins[j] <= a && MinRest(a, k) == MinCoins(a - Coins[j])
    decreases k
  {
    if k == 1 then 0
    else if Coins[k - 1] <= a && MinCoins(a - Coins[k - 1]) < MinRest(a, k - 1) then k - 1
    else BestCoin(a, k - 1)
  }

  /** A list of MinCoins(a) coins paying exactly `a`: the optimum is attained. */
  function Change(a: nat): (coins: seq<nat>)
    ensures AllCoins(coins) && Total(coins) == a && |coins| == MinCoins(a)
    decreases a
  {
    if a == 0 then []
    else
      var c := Coins[BestCoin(a, |Coins|)];
      var rest := Change(a - c);
      assert ([c] + rest)[1..] == rest;
      [c] + rest
  }

  /** An amount that is not itself a coin needs at least two coins. */
  lemma NotACoin(a: nat)
    requires a > 0 && a !in Coins
    ensures MinCoins(a) >= 2
  {
    var coins := Change(a);
  }

  /** An amount paid by two coins that is not itself a coin takes
      exactly two. */
  lemma TwoCoins(a: nat, c0: nat, c1: nat)
    requires c0 in Coins && c1 in Coins && a == c0 + c1 && a !in Coins
    ensures MinCoins(a) == 2
  {
    var coins := [c0, c1];
    assert coins[1..] == [c1];
    assert Total([c1]) == c1 + Total([]);
    MinCoinsOptimal(a, coins);
    NotACoin(a);
  }

  /** Three and seven take two coins each (2 + 1 and 5 + 2). */
  lemma Examples()
    ensures MinCoins(3) == 2 && MinCoins(7) == 2
  {
    TwoCoins(3, 2, 1);
    TwoCoins(7, 5, 2);
  }
}
