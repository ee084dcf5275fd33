/**
 * InventorySystem: the two dynamic-programming routines of ArcadiaEngine.cpp
 * that have a body (maximizeCarryValue is an unimplemented stub).
 *
 * optimizeLootSplit divides coins into two groups with the smallest
 * difference of sums, through an in-place 0/1 subset-sum table.
 * countStringPossibilities counts the readings of a string in which each
 * adjacent "uu" or "nn" may stand for one merged letter, modulo 10^9 + 7.
 */
module Inventory {

  // ---------------------------------------------------------------------
  // optimizeLootSplit
  // ---------------------------------------------------------------------

  function Sum(s: seq<int>): int {
    if s == [] then 0 else Sum(s[..|s| - 1]) + s[|s| - 1]
  }

  predicate NonNegative(s: seq<int>) {
    forall i :: 0 <= i < |s| ==> s[i] >= 0
  }

  function Abs(x: int): nat {
    if x < 0 then -x else x
  }

  /** Some sub-collection of s adds up to exactly t (the meaning of dp[t]). */
  predicate Reachable(s: seq<int>, t: int) {
    if s == [] then t == 0
    else Reachable(s[..|s| - 1], t) || Reachable(s[..|s| - 1], t - s[|s| - 1])
  }

  /** The sum of the coins that a mask puts into the first group. */
  function SubsetSum(s: seq<int>, mask: seq<bool>): int
    requires |mask| == |s|
  {
    if s == [] then 0
    else SubsetSum(s[..|s| - 1], mask[..|s| - 1]) + (if mask[|s| - 1] then s[|s| - 1] else 0)
  }

  /** |sum(A) - sum(B)| for the split of s into A (mask true) and B (mask false). */
  function SplitDiff(s: seq<int>, mask: seq<bool>): nat
    requires |mask| == |s|
  {
    Abs(Sum(s) - 2 * SubsetSum(s, mask))
  }

  /** The largest reachable sum in 0..j (0 is always reachable). */
  function BestUpTo(s: seq<int>, j: int): int
    decreases if j < 0 then 0 else j
  {
    if j <= 0 then 0 else if Reachable(s, j) then j else BestUpTo(s, j - 1)
  }

  /** What optimizeLootSplit returns. */
  function LootSplit(n: int, coins: seq<int>): int {
    if n <= 0 || coins == [] then 0
    else
      var total := Sum(coins);
      var best := BestUpTo(coins, total / 2);
      Abs((total - best) - best)
  }

  lemma {:induction false} ReachableZero(s: seq<int>)
    ensures Reachable(s, 0)
  {
    if s != [] {
      ReachableZero(s[..|s| - 1]);
    }
  }

  /** With non-negative coins only sums in 0..Sum(s) are reachable. */
  lemma {:induction false} ReachableBounds(s: seq<int>, t: int)
    requires NonNegative(s) && Reachable(s, t)
    ensures 0 <= t <= Sum(s)
  {
    if s != [] {
      var p := s[..|s| - 1];
      assert NonNegative(p);
      if Reachable(p, t) {
        ReachableBounds(p, t);
      } else {
        ReachableBounds(p, t - s[|s| - 1]);
      }
    }
  }

  lemma {:induction false} BestUpToSpec(s: seq<int>, j: int)
    requires j >= 0
    ensures 0 <= BestUpTo(s, j) <= j && Reachable(s, BestUpTo(s, j))
    ensures forall t :: BestUpTo(s, j) < t <= j ==> !Reachable(s, t)
    decreases j
  {
    if j == 0 {
      ReachableZero(s);
    } else if !Reachable(s, j) {
      BestUpToSpec(s, j - 1);
    }
  }

  /** Every mask's sum is reachable. */
  lemma {:induction false} MaskReachable(s: seq<int>, mask: seq<bool>)
    requires |mask| == |s|
    ensures Reachable(s, SubsetSum(s, mask))
  {
    if s != [] {
      MaskReachable(s[..|s| - 1], mask[..|s| - 1]);
    }
  }

  /** Every reachable sum is the sum of some mask. */
  lemma {:induction false} ReachableMask(s: seq<int>, t: int) returns (mask: seq<bool>)
    requires Reachable(s, t)
    ensures |mask| == |s| && SubsetSum(s, mask) == t
  {
    if s == [] {
      mask := [];
    } else {
      var p := s[..|s| - 1];
      var pm;
      if Reachable(p, t) {
        pm := ReachableMask(p, t);
        mask := pm + [false];
      } else {
        pm := ReachableMask(p, t - s[|s| - 1]);
        mask := pm + [true];
      }
      assert mask[..|s| - 1] == pm;
    }
  }

  function Complement(mask: seq<bool>): (c: seq<bool>)
    ensures |c| == |mask| && forall i :: 0 <= i < |mask| ==> c[i] == !mask[i]
  {
    seq(|mask|, i requires 0 <= i < |mask| => !mask[i])
  }

  lemma {:induction false} ComplementSum(s: seq<int>, mask: seq<bool>)
    requires |mask| == |s|
    ensures SubsetSum(s, Complement(mask)) == Sum(s) - SubsetSum(s, mask)
  {
    if s != [] {
      var k := |s| - 1;
      assert Complement(mask)[..k] == Complement(mask[..k]);
      ComplementSum(s[..k], mask[..k]);
    }
  }

  /**
   * For non-negative coins the value returned is the smallest difference of
   * sums over all two-way splits, and some split attains it.
   */
  lemma LootSplitOptimal(n: int, coins: seq<int>)
    requires n > 0 && coins != [] && NonNegative(coins)
    ensures forall mask :: |mask| == |coins| ==> LootSplit(n, coins) <= SplitDiff(coins, mask)
    ensures exists mask :: |mask| == |coins| && LootSplit(n, coins) == SplitDiff(coins, mask)
  {
    var total := Sum(coins);
    var half := total / 2;
    ReachableZero(coins);
    ReachableBounds(coins, 0);
    BestUpToSpec(coins, half);
    var best := BestUpTo(coins, half);
    assert LootSplit(n, coins) == total - 2 * best;
    forall mask | |mask| == |coins| ensures LootSplit(n, coins) <= SplitDiff(coins, mask) {
      var sub := SubsetSum(coins, mask);
      MaskReachable(coins, mask);
      if sub > half {
        ComplementSum(coins, mask);
        MaskReachable(coins, Complement(mask));
        ReachableBounds(coins, total - sub);
      }
    }
    var m := ReachableMask(coins, best);
    assert LootSplit(n, coins) == SplitDiff(coins, m);
  }

  method OptimizeLootSplit(n: int, coins: seq<int>) returns (r: int)
    requires NonNegative(coins)
    ensures r == LootSplit(n, coins)
  {
    if n <= 0 || |coins| == 0 {
      return 0;
    }
    var total := 0;
    for k := 0 to |coins|
      invariant total == Sum(coins[..k])
    {
      assert coins[..k + 1][..k] == coins[..k];
      total := total + coins[k];
    }
    assert coins[..|coins|] == coins;
    ReachableZero(coins);
    ReachableBounds(coins, 0);

    var half := total / 2;
    var dp := new bool[half + 1](_ => false);
    dp[0] := true;
    assert forall t :: 0 <= t <= half ==> dp[t] == Reachable(coins[..0], t);

    for c := 0 to |coins|
      invariant forall t :: 0 <= t <= half ==> dp[t] == Reachable(coins[..c], t)
    {
      var val := coins[c];
      assert coins[..c + 1][..c] == coins[..c];
      assert NonNegative(coins[..c]);
      var j := half;
      while j >= val
        invariant -1 <= j <= half && (j < half ==> j >= val - 1)
        invariant forall t :: j < t <= half ==> dp[t] == Reachable(coins[..c + 1], t)
        invariant forall t :: 0 <= t <= j ==> dp[t] == Reachable(coins[..c], t)
      {
        if dp[j - val] {
          dp[j] := true;
        }
        j := j - 1;
      }
      forall t | 0 <= t <= j ensures dp[t] == Reachable(coins[..c + 1], t) {
        if Reachable(coins[..c], t - val) {
          ReachableBounds(coins[..c], t - val);
        }
      }
    }
    assert coins[..|coins|] == coins;

    var best := 0;
    var j := half;
    while j >= 0
      invariant -1 <= j <= half
      invariant BestUpTo(coins, half) == BestUpTo(coins, j)
      decreases j
    {
      if dp[j] {
        best := j;
        break;
      }
      j := j - 1;
    }
    var other := total - best;
    r := Abs(other - best);
  }

  /** The driver's optimizeLootSplit example: {1, 2, 4} splits as {4} against {1, 2}. */
  lemma LootSplitExample()
    ensures LootSplit(3, [1, 2, 4]) == 1
  {
    var coins := [1, 2, 4];
    assert Sum(coins) == 7;
    assert Reachable(coins, 3) by {
      assert coins[..2] == [1, 2] && [1, 2][..1] == [1];
      assert Reachable([1], 1);
    }
  }

  // ---------------------------------------------------------------------
  // countStringPossibilities
  // ---------------------------------------------------------------------

  // Counts are kept modulo 1000000007 (10^9 + 7). The modulus is written as a literal
  // so that the solver reads every `%` below as linear arithmetic.

  /** The letters at i and i + 1 are "uu" or "nn", the two pairs that may merge. */
  predicate MergeAt(s: string, i: nat)
    requires i + 2 <= |s|
  {
    s[i] == s[i + 1] && (s[i] == 'u' || s[i] == 'n')
  }

  /** countStringPossibilities' table: dp[0] = 1 and dp[i] = (dp[i-1] + (merge ? dp[i-2] : 0)) mod 10^9+7. */
  function Ways(s: string, i: nat): (w: int)
    requires i <= |s|
    ensures 0 <= w < 1000000007
  {
    if i == 0 then 1
    else
      var single := Ways(s, i - 1) % 1000000007;
      if i >= 2 && MergeAt(s, i - 2) then (single + Ways(s, i - 2)) % 1000000007 else single
  }

  /**
   * The number of readings of s[lo..hi]: its first letter stands alone, or
   * its first two letters form a merged "uu" or "nn".
   */
  function ReadingsIn(s: string, lo: nat, hi: nat): nat
    requires lo <= hi <= |s|
    decreases hi - lo
  {
    if lo == hi then 1
    else ReadingsIn(s, lo + 1, hi) + (if hi - lo >= 2 && MergeAt(s, lo) then ReadingsIn(s, lo + 2, hi) else 0)
  }

  function Readings(s: string): nat {
    ReadingsIn(s, 0, |s|)
  }

  /** Readings can also be counted from the end, as the table does. */
  lemma {:induction false} ReadingsFromEnd(s: string, lo: nat, hi: nat)
    requires lo < hi <= |s|
    ensures ReadingsIn(s, lo, hi) == ReadingsIn(s, lo, hi - 1)
        + (if hi - lo >= 2 && MergeAt(s, hi - 2) then ReadingsIn(s, lo, hi - 2) else 0)
    decreases hi - lo
  {
    if hi - lo == 1 {
      assert ReadingsIn(s, lo, hi) == ReadingsIn(s, hi, hi) == 1;
    } else if hi - lo == 2 {
      assert hi - 1 == lo + 1 && hi - 2 == lo;
      assert ReadingsIn(s, lo + 1, lo + 1) == 1 && ReadingsIn(s, lo + 2, lo + 2) == 1 && ReadingsIn(s, lo, lo) == 1;
      assert ReadingsIn(s, lo, lo + 1) == 1 && ReadingsIn(s, lo + 1, lo + 2) == 1;
    } else {
      var first, last := MergeAt(s, lo), MergeAt(s, hi - 2);
      // Unfold at the front: the first letter alone, or the first two merged.
      var r11, r21 := ReadingsIn(s, lo + 1, hi - 1), ReadingsIn(s, lo + 2, hi - 1);
      var r12 := ReadingsIn(s, lo + 1, hi - 2);
      assert ReadingsIn(s, lo, hi) == ReadingsIn(s, lo + 1, hi) + (if first then ReadingsIn(s, lo + 2, hi) else 0);
      assert ReadingsIn(s, lo, hi - 1) == r11 + (if first then r21 else 0);
      ReadingsFromEnd(s, lo + 1, hi);
      assert ReadingsIn(s, lo + 1, hi) == r11 + (if last then r12 else 0);
      if hi - lo >= 4 {
        var r22 := ReadingsIn(s, lo + 2, hi - 2);
        ReadingsFromEnd(s, lo + 2, hi);
        assert ReadingsIn(s, lo + 2, hi) == r21 + (if last then r22 else 0);
        assert ReadingsIn(s, lo, hi - 2) == r12 + (if first then r22 else 0);
      } else {
        assert ReadingsIn(s, lo + 2, hi) == 1 && r21 == 1 && r12 == 1;
        assert ReadingsIn(s, lo, hi - 2) == 1;
      }
    }
  }

  /** Reducing the count once more keeps it the same residue. */
  lemma ModOnce(w: int, w1: int, r: int, r1: int)
    requires w1 == r1 % 1000000007 && w == w1 % 1000000007 && r == r1
    ensures w == r % 1000000007
  {
  }

  /** Adding two reduced counts and reducing gives the residue of the sum. */
  lemma ModAdd(w: int, w1: int, w2: int, r: int, r1: int, r2: int)
    requires w1 == r1 % 1000000007 && w2 == r2 % 1000000007
    requires w == (w1 % 1000000007 + w2) % 1000000007 && r == r1 + r2
    ensures w == r % 1000000007
  {
    var q1, q2 := r1 / 1000000007, r2 / 1000000007;
    assert r1 == 1000000007 * q1 + w1 && r2 == 1000000007 * q2 + w2;
    assert w1 % 1000000007 == w1;
    ModShift(w1 + w2, q1 + q2);
  }

  lemma ModShift(x: int, k: int)
    ensures (x + 1000000007 * k) % 1000000007 == x % 1000000007
  {
  }

  /** The table holds the number of readings of each prefix, modulo 10^9 + 7. */
  lemma {:induction false} WaysCountsReadings(s: string, i: nat)
    requires i <= |s|
    ensures Ways(s, i) == ReadingsIn(s, 0, i) % 1000000007
  {
    if i > 0 {
      WaysCountsReadings(s, i - 1);
      ReadingsFromEnd(s, 0, i);
      var w, r := Ways(s, i), ReadingsIn(s, 0, i);
      var w1, r1 := Ways(s, i - 1), ReadingsIn(s, 0, i - 1);
      if i >= 2 && MergeAt(s, i - 2) {
        WaysCountsReadings(s, i - 2);
        var w2, r2 := Ways(s, i - 2), ReadingsIn(s, 0, i - 2);
        ModAdd(w, w1, w2, r, r1, r2);
      } else {
        ModOnce(w, w1, r, r1);
      }
    }
  }

  /** countStringPossibilities' test `pair == "uu" || pair == "nn"` on the two-letter substring agrees with MergeAt. */
  lemma PairIsMerge(s: string, i: nat)
    requires i + 2 <= |s|
    ensures (s[i..i + 2] == "uu" || s[i..i + 2] == "nn") <==> MergeAt(s, i)
  {
    var pair := s[i..i + 2];
    assert pair[0] == s[i] && pair[1] == s[i + 1];
    if MergeAt(s, i) {
      assert pair == [s[i], s[i]];
    }
  }

  /** One entry of the table, in the terms the loop uses: the last two letters compared with "uu" and "nn". */
  lemma WaysStep(s: string, i: nat, w1: int, w2: int)
    requires 1 <= i <= |s| && w1 == Ways(s, i - 1) && (i >= 2 ==> w2 == Ways(s, i - 2))
    ensures i < 2 ==> Ways(s, i) == w1 % 1000000007
    ensures i >= 2 && (s[i - 2..i] == "uu" || s[i - 2..i] == "nn") ==> Ways(s, i) == (w1 % 1000000007 + w2) % 1000000007
    ensures i >= 2 && !(s[i - 2..i] == "uu" || s[i - 2..i] == "nn") ==> Ways(s, i) == w1 % 1000000007
  {
    if i >= 2 {
      PairIsMerge(s, i - 2);
    }
  }

  method CountStringPossibilities(s: string) returns (r: int)
    ensures r == Readings(s) % 1000000007
    ensures 0 <= r < 1000000007
  {
    var n := |s|;
    var dp := new int[n + 1];
    dp[0] := 1;
    for i := 1 to n + 1
      invariant forall k :: 0 <= k < i ==> dp[k] == Ways(s, k)
    {
      WaysStep(s, i, dp[i - 1], if i >= 2 then dp[i - 2] else 0);
      var ways := dp[i - 1] % 1000000007;
      if i >= 2 {
        var pair := s[i - 2..i];
        if pair == "uu" || pair == "nn" {
          ways := (ways + dp[i - 2]) % 1000000007;
        }
      }
      dp[i] := ways;
    }
    r := dp[n];
    WaysCountsReadings(s, n);
  }

  /**
   * Reading counts: "" -> 1 and "uu" -> 2, as the drivers print them; "uunu" -> 2, as
   * worked through beside countStringPossibilities; and "m" -> 1, which is what the code
   * computes, although one driver expects 0 for it.
   */
  lemma ReadingsExamples()
    ensures Readings("") == 1
    ensures Readings("uu") == 2
    ensures Readings("uunu") == 2
    ensures Readings("m") == 1
  {
  }
}
