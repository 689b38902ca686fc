/** `find_missing_number` (exercises/easy/algorithm11.rs): given the numbers
    1..n with one of them missing, in any order, return the missing one by
    subtracting their sum from n(n+1)/2. The arithmetic is on `i32`. */
module MissingNumber {
  import Arith

  /** `nums.iter().sum()`, summed from the left. */
  function Sum(s: seq<int>): (total: int)
    ensures (forall i :: 0 <= i < |s| ==> 0 <= s[i]) ==> 0 <= total
    ensures (forall i :: 0 <= i < |s| ==> s[i] <= 0) ==> total <= 0
  {
    if |s| == 0 then 0 else Sum(s[..|s| - 1]) + s[|s| - 1]
  }

  /** The `i32` arithmetic of `find_missing_number` does not overflow: the
      product n(n+1), every running total of the sum and the final
      difference fit in 32 bits. */
  predicate NoOverflow(nums: seq<int>)
  {
    var n := |nums| + 1;
    && Arith.InI32(n * (n + 1))
    && (forall k :: 0 <= k <= |nums| ==> Arith.InI32(Sum(nums[..k])))
    && Arith.InI32(n * (n + 1) / 2 - Sum(nums))
  }

  /** n(n+1)/2 - sum(nums), with n = len + 1. */
  function FindMissingNumber(nums: seq<int>): (missing: int)
    requires NoOverflow(nums)
    ensures missing + Sum(nums) == Sum(OneTo(|nums| + 1))
  {
    var n := |nums| + 1;
    GaussSum(n);
    n * (n + 1) / 2 - Sum(nums)
  }

  /** The sequence 1, 2, ..., n. */
  function OneTo(n: nat): (s: seq<int>)
    ensures |s| == n && forall i :: 0 <= i < n ==> s[i] == i + 1
  {
    if n == 0 then [] else OneTo(n - 1) + [n]
  }

  lemma {:induction false} GaussSum(n: nat)
    ensures Sum(OneTo(n)) == n * (n + 1) / 2
  {
    if n > 0 {
      GaussSum(n - 1);
      assert OneTo(n)[..n - 1] == OneTo(n - 1);
      GaussStep(n);
    }
  }

  lemma GaussStep(n: nat)
    requires n > 0
    ensures n * (n + 1) / 2 == (n - 1) * n / 2 + n
  {
    assert n * (n + 1) == (n - 1) * n + 2 * n;
  }

  /** The sum depends only on the multiset of elements. */
  lemma {:induction false} SumPermutation(a: seq<int>, b: seq<int>)
    requires multiset(a) == multiset(b)
    ensures Sum(a) == Sum(b)
    decreases |a|
  {
    if |a| > 0 {
      var x := a[|a| - 1];
      assert x in multiset(b);
      var j :| 0 <= j < |b| && b[j] == x;
      var b' := b[..j] + b[j + 1..];
      assert b == b[..j] + [x] + b[j + 1..];
      assert multiset(b') == multiset(b) - multiset{x};
      assert a == a[..|a| - 1] + [x];
      assert multiset(a[..|a| - 1]) == multiset(a) - multiset{x};
      SumPermutation(a[..|a| - 1], b');
      SumRemove(b, j);
    }
  }

  /** Taking out the element at j lowers the sum by exactly that element. */
  lemma {:induction false} SumRemove(s: seq<int>, j: nat)
    requires j < |s|
    ensures Sum(s) == Sum(s[..j] + s[j + 1..]) + s[j]
    decreases |s|
  {
    var t := s[..j] + s[j + 1..];
    if j < |s| - 1 {
      SumRemove(s[..|s| - 1], j);
      assert s[..|s| - 1][..j] + s[..|s| - 1][j + 1..] == t[..|t| - 1];
      assert t[|t| - 1] == s[|s| - 1];
    } else {
      assert t == s[..|s| - 1];
    }
  }

  /** The answer does not depend on the order of the numbers. */
  lemma OrderIndependent(a: seq<int>, b: seq<int>)
    requires NoOverflow(a) && NoOverflow(b)
    requires multiset(a) == multiset(b)
    ensures FindMissingNumber(a) == FindMissingNumber(b)
  {
    SumPermutation(a, b);
    assert |a| == |multiset(a)| == |b|;
  }

  /** When `nums` holds every number of 1..n except `m`, once each, the
      result is `m`. */
  lemma FindsMissing(nums: seq<int>, m: int)
    requires NoOverflow(nums)
    requires multiset(nums) + multiset{m} == multiset(OneTo(|nums| + 1))
    ensures FindMissingNumber(nums) == m
  {
    SumWithMissing(nums, m);
  }

  /** Under the same premise the running totals stay within 0..n(n+1)/2, so
      only the product n(n+1) can overflow. */
  lemma PartialSumsBounded(nums: seq<int>, m: int, k: nat)
    requires multiset(nums) + multiset{m} == multiset(OneTo(|nums| + 1))
    requires k <= |nums|
    ensures 0 <= Sum(nums[..k]) <= Sum(OneTo(|nums| + 1))
  {
    ElementsPositive(nums, m);
    SumWithMissing(nums, m);
    PrefixSumNonNegative(nums, k);
    PrefixAtMostTotal(nums, k);
  }

  /** On the inputs the exercise is about, 1..n with one number missing,
      only the product n(n+1) can overflow: the running totals and the
      answer lie between 0 and n(n+1)/2. */
  lemma PremiseNoOverflow(nums: seq<int>, m: int)
    requires multiset(nums) + multiset{m} == multiset(OneTo(|nums| + 1))
    requires var n := |nums| + 1; Arith.InI32(n * (n + 1))
    ensures NoOverflow(nums)
  {
    var n := |nums| + 1;
    var t := n * (n + 1);
    GaussSum(n);
    forall k | 0 <= k <= |nums| ensures 0 <= Sum(nums[..k]) <= t / 2 {
      PartialSumsBounded(nums, m, k);
    }
    assert nums[..|nums|] == nums;
    ElementsPositive(nums, m);
    SumWithMissing(nums, m);
    HalfBounds(t, Sum(nums), m);
  }

  /** The arithmetic of the bound: with s + m = t/2, s >= 0 and m >= 1,
      both t/2 and t/2 - s fit in 32 bits once t does. */
  lemma HalfBounds(t: int, s: int, m: int)
    requires 0 <= t <= Arith.I32_MAX && s + m == t / 2 && 0 <= s && 1 <= m
    ensures 0 <= t / 2 <= Arith.I32_MAX && Arith.InI32(t / 2 - s)
  {
  }

  lemma ElementsPositive(nums: seq<int>, m: int)
    requires multiset(nums) + multiset{m} == multiset(OneTo(|nums| + 1))
    ensures m >= 1 && forall i :: 0 <= i < |nums| ==> nums[i] >= 1
  {
    var all := OneTo(|nums| + 1);
    forall i | 0 <= i < |nums| ensures nums[i] >= 1 {
      assert nums[i] in multiset(all);
    }
    assert m in multiset(all);
  }

  lemma SumWithMissing(nums: seq<int>, m: int)
    requires multiset(nums) + multiset{m} == multiset(OneTo(|nums| + 1))
    ensures Sum(nums) + m == Sum(OneTo(|nums| + 1))
  {
    assert multiset(nums + [m]) == multiset(nums) + multiset{m};
    SumPermutation(nums + [m], OneTo(|nums| + 1));
    assert (nums + [m])[..|nums|] == nums;
  }

  /** With positive elements, no running total exceeds the whole sum. */
  lemma {:induction false} PrefixAtMostTotal(s: seq<int>, k: nat)
    requires k <= |s|
    requires forall i :: 0 <= i < |s| ==> s[i] >= 1
    ensures Sum(s[..k]) <= Sum(s)
    decreases |s| - k
  {
    if k == |s| {
      assert s[..k] == s;
    } else {
      PrefixAtMostTotal(s, k + 1);
      PrefixStep(s, k);
    }
  }

  lemma {:induction false} PrefixSumNonNegative(s: seq<int>, k: nat)
    requires k <= |s|
    requires forall i :: 0 <= i < |s| ==> s[i] >= 1
    ensures Sum(s[..k]) >= 0
  {
    if k > 0 {
      PrefixSumNonNegative(s, k - 1);
      assert s[..k][..k - 1] == s[..k - 1];
    }
  }

  lemma PrefixStep(s: seq<int>, k: nat)
    requires k < |s|
    ensures Sum(s[..k + 1]) == Sum(s[..k]) + s[k]
  {
    assert s[..k + 1][..k] == s[..k];
  }

  /** The examples [3,7,1,2,8,4,5] -> 6 and [2,...,9] -> 1. */
  lemma Examples()
    ensures NoOverflow([3, 7, 1, 2, 8, 4, 5]) && FindMissingNumber([3, 7, 1, 2, 8, 4, 5]) == 6
    ensures NoOverflow([2, 3, 4, 5, 6, 7, 8, 9]) && FindMissingNumber([2, 3, 4, 5, 6, 7, 8, 9]) == 1
  {
    FirstExample();
    SecondExample();
  }

  lemma FirstExample()
    ensures NoOverflow([3, 7, 1, 2, 8, 4, 5]) && Sum([3, 7, 1, 2, 8, 4, 5]) == 30
  {
    var a := [3, 7, 1, 2, 8, 4, 5];
    assert a[..0] == [];
    PrefixStep(a, 0); PrefixStep(a, 1); PrefixStep(a, 2); PrefixStep(a, 3);
    PrefixStep(a, 4); PrefixStep(a, 5); PrefixStep(a, 6);
    assert a[..7] == a;
  }

  lemma SecondExample()
    ensures NoOverflow([2, 3, 4, 5, 6, 7, 8, 9]) && Sum([2, 3, 4, 5, 6, 7, 8, 9]) == 44
  {
    var b := [2, 3, 4, 5, 6, 7, 8, 9];
    assert b[..0] == [];
    PrefixStep(b, 0); PrefixStep(b, 1); PrefixStep(b, 2); PrefixStep(b, 3);
    PrefixStep(b, 4); PrefixStep(b, 5); PrefixStep(b, 6); PrefixStep(b, 7);
    assert b[..8] == b;
  }
}
