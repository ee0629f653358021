/**
 * The change-counting program: read an amount of change owed, insisting on
 * a non-negative one, then count coins greedily, taking as many of each
 * coin as fit, largest coin first.
 */
module Change {
  import opened Wrappers

  /** Quarters, dimes, nickels and pennies, in the order the loop takes them. */
  const Coins: seq<int> := [25, 10, 5, 1]

  predicate Positive(coins: seq<int>) {
    forall k :: 0 <= k < |coins| ==> coins[k] > 0
  }

  /** The cents left after the loop has taken as many as fit of each of the first `i` coins. */
  function Rest(cents: int, coins: seq<int>, i: nat): int
    requires i <= |coins| && Positive(coins)
  {
    if i == 0 then cents else Rest(cents, coins, i - 1) % coins[i - 1]
  }

  /** How many of each of the first `i` coins the loop takes (`cents // coin` for each coin in turn). */
  function Taken(cents: int, coins: seq<int>, i: nat): (q: seq<int>)
    requires i <= |coins| && Positive(coins)
    ensures |q| == i
  {
    if i == 0 then [] else Taken(cents, coins, i - 1) + [Rest(cents, coins, i - 1) / coins[i - 1]]
  }

  function Sum(s: seq<int>): int {
    if s == [] then 0 else Sum(s[..|s| - 1]) + s[|s| - 1]
  }

  /** The value of `counts[k]` coins of each value `coins[k]`. */
  function Value(counts: seq<int>, coins: seq<int>): int
    requires |counts| == |coins|
  {
    if counts == [] then 0
    else Value(counts[..|counts| - 1], coins[..|coins| - 1]) + counts[|counts| - 1] * coins[|coins| - 1]
  }

  /** A way of paying exactly `cents` with a non-negative number of each coin. */
  predicate MakesChange(counts: seq<int>, cents: int) {
    |counts| == |Coins| && (forall k :: 0 <= k < |counts| ==> counts[k] >= 0) && Value(counts, Coins) == cents
  }

  /** No exact payment of `cents` uses fewer than `count` coins. */
  ghost predicate NoFewerCoins(count: int, cents: int) {
    forall counts :: MakesChange(counts, cents) ==> count <= Sum(counts)
  }

  lemma ValueAppend(counts: seq<int>, coins: seq<int>, n: int, coin: int)
    requires |counts| == |coins|
    ensures Value(counts + [n], coins + [coin]) == Value(counts, coins) + n * coin
  {
    assert (counts + [n])[..|counts|] == counts;
    assert (coins + [coin])[..|coins|] == coins;
  }

  lemma DivMod(r: int, k: int)
    requires k > 0
    ensures (r / k) * k + r % k == r
  {
  }

  /**
   * The coins taken so far and the cents still left always add back up to
   * the amount the loop started from.
   */
  lemma {:induction false} Recompose(cents: int, coins: seq<int>, i: nat)
    requires i <= |coins| && Positive(coins)
    ensures Value(Taken(cents, coins, i), coins[..i]) + Rest(cents, coins, i) == cents
  {
    if i > 0 {
      Recompose(cents, coins, i - 1);
      var before := Taken(cents, coins, i - 1);
      var r := Rest(cents, coins, i - 1);
      var k := coins[i - 1];
      assert coins[..i] == coins[..i - 1] + [k];
      ValueAppend(before, coins[..i - 1], r / k, k);
      DivMod(r, k);
    }
  }

  /** After each coin, the cents left are fewer than that coin and never negative. */
  lemma RestBelowCoin(cents: int, coins: seq<int>, i: nat)
    requires 0 < i <= |coins| && Positive(coins)
    ensures 0 <= Rest(cents, coins, i) < coins[i - 1]
  {
  }

  /** One turn of the loop: the count grows by the coins taken, the rest shrinks to the remainder. */
  lemma TakeOneCoin(cents: int, coins: seq<int>, i: nat)
    requires i < |coins| && Positive(coins)
    ensures Rest(cents, coins, i + 1) == Rest(cents, coins, i) % coins[i]
    ensures Sum(Taken(cents, coins, i + 1)) == Sum(Taken(cents, coins, i)) + Rest(cents, coins, i) / coins[i]
    ensures 0 <= Rest(cents, coins, i + 1) < coins[i]
  {
    var q := Taken(cents, coins, i + 1);
    assert q[..i] == Taken(cents, coins, i);
  }

  /** The loop takes `Rest(cents, coins, k) / coins[k]` of the coin at position `k`. */
  lemma {:induction false} TakenAt(cents: int, coins: seq<int>, i: nat, k: nat)
    requires k < i <= |coins| && Positive(coins)
    ensures Taken(cents, coins, i)[k] == Rest(cents, coins, k) / coins[k]
  {
    if k < i - 1 {
      TakenAt(cents, coins, i - 1, k);
    }
  }

  lemma {:induction false} SumNonNegative(s: seq<int>)
    requires forall k :: 0 <= k < |s| ==> s[k] >= 0
    ensures Sum(s) >= 0
  {
    if s != [] {
      SumNonNegative(s[..|s| - 1]);
    }
  }

  /** From a non-negative amount the loop never takes a negative number of a coin. */
  lemma TakenNonNegative(cents: int, coins: seq<int>, i: nat)
    requires cents >= 0 && i <= |coins| && Positive(coins)
    ensures forall k :: 0 <= k < i ==> Taken(cents, coins, i)[k] >= 0
    ensures Sum(Taken(cents, coins, i)) >= 0
  {
    forall k | 0 <= k < i
      ensures Taken(cents, coins, i)[k] >= 0
    {
      TakenAt(cents, coins, i, k);
      assert Rest(cents, coins, k) >= 0;
    }
    SumNonNegative(Taken(cents, coins, i));
  }

  /** With the four coins, what the loop takes is this, coin by coin. */
  lemma TakenWithCoins(cents: int)
    ensures Taken(cents, Coins, 4) == [cents / 25, cents % 25 / 10, cents % 25 % 10 / 5, cents % 25 % 10 % 5]
    ensures Rest(cents, Coins, 4) == 0
  {
    assert Coins[0] == 25 && Coins[1] == 10 && Coins[2] == 5 && Coins[3] == 1;
    assert Rest(cents, Coins, 1) == cents % 25;
    assert Rest(cents, Coins, 2) == cents % 25 % 10;
    assert Rest(cents, Coins, 3) == cents % 25 % 10 % 5;
    assert Taken(cents, Coins, 1) == [cents / 25];
    assert Taken(cents, Coins, 2) == [cents / 25, cents % 25 / 10];
    assert Taken(cents, Coins, 3) == [cents / 25, cents % 25 / 10, cents % 25 % 10 / 5];
  }

  lemma SumOfFour(q: int, d: int, n: int, p: int)
    ensures Sum([q, d, n, p]) == q + d + n + p
  {
    assert [q][..0] == [];
    assert Sum([q]) == q;
    assert [q, d][..1] == [q];
    assert Sum([q, d]) == q + d;
    assert [q, d, n][..2] == [q, d];
    assert Sum([q, d, n]) == q + d + n;
    assert [q, d, n, p][..3] == [q, d, n];
  }

  lemma ValueOfFour(q: int, d: int, n: int, p: int)
    ensures Value([q, d, n, p], Coins) == 25 * q + 10 * d + 5 * n + p
  {
    assert [q][..0] == [] && [25][..0] == [];
    assert Value([q], [25]) == 25 * q;
    assert [q, d][..1] == [q] && [25, 10][..1] == [25];
    assert Value([q, d], [25, 10]) == 25 * q + 10 * d;
    assert [q, d, n][..2] == [q, d] && [25, 10, 5][..2] == [25, 10];
    assert Value([q, d, n], [25, 10, 5]) == 25 * q + 10 * d + 5 * n;
    assert [q, d, n, p][..3] == [q, d, n] && Coins[..3] == [25, 10, 5];
  }

  /** The number of coins the loop counts for `cents`, written out for the four coins. */
  function GreedyCount(cents: int): int {
    cents / 25 + cents % 25 / 10 + cents % 25 % 10 / 5 + cents % 25 % 10 % 5
  }

  /**
   * No way of paying `25q + 10d + 5n + p` cents uses fewer coins than the
   * greedy count. Five pennies, two nickels, three dimes or two dimes and a
   * nickel can each be exchanged for fewer coins of the same value; a
   * combination where none of these applies is the greedy one.
   */
  lemma {:induction false} GreedyBeatsAll(q: int, d: int, n: int, p: int)
    requires q >= 0 && d >= 0 && n >= 0 && p >= 0
    ensures GreedyCount(25 * q + 10 * d + 5 * n + p) <= q + d + n + p
    decreases q + d + n + p
  {
    if p >= 5 {
      GreedyBeatsAll(q, d, n + 1, p - 5);
    } else if n >= 2 {
      GreedyBeatsAll(q, d + 1, n - 2, p);
    } else if d >= 3 {
      GreedyBeatsAll(q + 1, d - 3, n + 1, p);
    } else if d >= 2 && n >= 1 {
      GreedyBeatsAll(q + 1, d - 2, n - 1, p);
    } else {
      var c := 25 * q + 10 * d + 5 * n + p;
      var r := 10 * d + 5 * n + p;
      assert c / 25 == q && c % 25 == r;
      assert r / 10 == d && r % 10 == 5 * n + p;
      assert (5 * n + p) / 5 == n && (5 * n + p) % 5 == p;
    }
  }

  /** The greedy count for a non-negative amount is the least number of coins that pays it exactly. */
  lemma GreedyIsMinimal(cents: int, counts: seq<int>)
    requires MakesChange(counts, cents)
    ensures GreedyCount(cents) <= Sum(counts)
  {
    var q, d, n, p := counts[0], counts[1], counts[2], counts[3];
    assert counts == [q, d, n, p];
    ValueOfFour(q, d, n, p);
    SumOfFour(q, d, n, p);
    GreedyBeatsAll(q, d, n, p);
  }

  /**
   * What the greedy loop over the four coins takes pays the amount exactly
   * with nothing left over, takes no negative count from a non-negative
   * amount, and uses no more coins than any exact payment.
   */
  lemma GreedyCorrect(cents: int)
    ensures Value(Taken(cents, Coins, |Coins|), Coins) == cents && Rest(cents, Coins, |Coins|) == 0
    ensures cents >= 0 ==> MakesChange(Taken(cents, Coins, |Coins|), cents) && Sum(Taken(cents, Coins, |Coins|)) >= 0
    ensures NoFewerCoins(Sum(Taken(cents, Coins, |Coins|)), cents)
  {
    Recompose(cents, Coins, |Coins|);
    assert Coins[..|Coins|] == Coins;
    TakenWithCoins(cents);
    SumOfFour(cents / 25, cents % 25 / 10, cents % 25 % 10 / 5, cents % 25 % 10 % 5);
    if cents >= 0 {
      TakenNonNegative(cents, Coins, |Coins|);
    }
    forall counts | MakesChange(counts, cents)
      ensures Sum(Taken(cents, Coins, |Coins|)) <= Sum(counts)
    {
      GreedyIsMinimal(cents, counts);
    }
  }

  /**
   * The `for coin in coins` loop of `main`, for any list of positive coin
   * values: add `cents // coin` to the count and keep `cents % coin`. The
   * count is the number of coins taken, and the coins taken plus the cents
   * left add back up to the amount.
   */
  method TakeCoins(coins: seq<int>, cents: int) returns (coinCount: int, left: int)
    requires Positive(coins)
    ensures coinCount == Sum(Taken(cents, coins, |coins|)) && left == Rest(cents, coins, |coins|)
    ensures Value(Taken(cents, coins, |coins|), coins) + left == cents
    ensures |coins| > 0 ==> 0 <= left < coins[|coins| - 1]
  {
    coinCount, left := 0, cents;
    for i := 0 to |coins|
      invariant left == Rest(cents, coins, i)
      invariant coinCount == Sum(Taken(cents, coins, i))
    {
      var coin := coins[i];
      TakeOneCoin(cents, coins, i);
      coinCount := coinCount + left / coin;
      left := left % coin;
    }
    Recompose(cents, coins, |coins|);
    assert coins[..|coins|] == coins;
    if |coins| > 0 {
      RestBelowCoin(cents, coins, |coins|);
    }
  }

  /**
   * `main`'s count with quarters, dimes, nickels and pennies: the coins
   * taken pay the amount exactly, nothing is left over, and no exact
   * payment uses fewer coins.
   */
  method CountCoins(cents: int) returns (coinCount: int, left: int)
    ensures coinCount == Sum(Taken(cents, Coins, |Coins|)) && left == Rest(cents, Coins, |Coins|)
    ensures Value(Taken(cents, Coins, |Coins|), Coins) == cents && left == 0
    ensures cents >= 0 ==> MakesChange(Taken(cents, Coins, |Coins|), cents) && coinCount >= 0
    ensures NoFewerCoins(coinCount, cents)
  {
    coinCount, left := TakeCoins(Coins, cents);
    GreedyCorrect(cents);
  }

  /**
   * The prompt loop of `main`, over the lines typed in (`None` for a line
   * that is not a number, which `get_float` asks again for): the first
   * number that is not negative is the amount, after `used` lines. If no
   * line qualifies there is no amount.
   */
  method ReadChange(inputs: seq<Option<real>>) returns (amount: Option<real>, used: nat)
    ensures used <= |inputs|
    ensures forall k :: 0 <= k < used - (if amount.Some? then 1 else 0) ==> inputs[k].None? || inputs[k].value < 0.0
    ensures amount.Some? ==> used > 0 && inputs[used - 1] == amount && amount.value >= 0.0
    ensures amount.None? ==> used == |inputs|
  {
    used := 0;
    while used < |inputs|
      invariant used <= |inputs|
      invariant forall k :: 0 <= k < used ==> inputs[k].None? || inputs[k].value < 0.0
    {
      var line := inputs[used];
      used := used + 1;
      if line.Some? && line.value >= 0.0 {
        return line, used;
      }
    }
    amount := None;
  }
}
