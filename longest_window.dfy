/** `longest_substring_without_repeating_chars` (exercises/easy/algorithm15.rs):
    the length of the longest run of consecutive characters that are
    pairwise different, by a sliding window [start, end] and the set of the
    characters inside it. */
module LongestWindow {

  /** s[i..j] has no character twice. */
  predicate Distinct(s: seq<char>, i: int, j: int)
    requires 0 <= i <= j <= |s|
  {
    forall p, q :: i <= p < q < j ==> s[p] != s[q]
  }

  /** The characters of s[i..j]. */
  function Window(s: seq<char>, i: int, j: int): set<char>
    requires 0 <= i <= j <= |s|
  {
    set k | i <= k < j :: s[k]
  }

  /** Slides the window over the string: before `end` joins, the window
      drops characters from its front until `s[end]` is no longer inside it. */
  method LongestSubstring(s: seq<char>) returns (maxLen: nat)
    ensures maxLen <= |s|
    ensures exists i, j :: 0 <= i <= j <= |s| && j - i == maxLen && Distinct(s, i, j)
    ensures forall i, j :: 0 <= i <= j <= |s| && Distinct(s, i, j) ==> j - i <= maxLen
    ensures Distinct(s, 0, |s|) ==> maxLen == |s|
  {
    maxLen := 0;
    var start := 0;
    var seen: set<char> := {};
    ghost var bestStart := 0;
    for end := 0 to |s|
      invariant 0 <= start <= end
      invariant seen == Window(s, start, end)
      invariant Distinct(s, start, end)
      invariant forall i :: 0 <= i < start ==> !Distinct(s, i, end)
      invariant maxLen <= end && 0 <= bestStart <= end - maxLen
      invariant Distinct(s, bestStart, bestStart + maxLen)
      invariant forall i, j :: 0 <= i <= j <= end && Distinct(s, i, j) ==> j - i <= maxLen
    {
      var next := end + 1;
      forall i | 0 <= i < start ensures !Distinct(s, i, next) {
        if Distinct(s, i, next) {
          Shrink(s, i, end);
        }
      }
      while s[end] in seen
        invariant 0 <= start <= end
        invariant seen == Window(s, start, end)
        invariant Distinct(s, start, end)
        invariant forall i :: 0 <= i < start ==> !Distinct(s, i, next)
        decreases end - start
      {
        var k :| start <= k < end && s[k] == s[end];
        assert !Distinct(s, start, next);
        DropFront(s, start, end);
        seen := seen - {s[start]};
        start := start + 1;
      }
      NotInWindow(s, start, end);
      seen := seen + {s[end]};
      if end - start + 1 > maxLen {
        maxLen := end - start + 1;
        bestStart := start;
      }
      forall i, j | 0 <= i <= j <= end + 1 && Distinct(s, i, j)
        ensures j - i <= maxLen
      {
        if j == next && i < start {
          assert false;
        }
      }
    }
  }

  /** A window without repeats stays so when its last character is dropped. */
  lemma Shrink(s: seq<char>, i: int, j: int)
    requires 0 <= i <= j < |s| && Distinct(s, i, j + 1)
    ensures Distinct(s, i, j)
  {
  }

  /** In a window without repeats, the first character occurs only at the
      front, so dropping it removes it from the set. */
  lemma DropFront(s: seq<char>, start: int, end: int)
    requires 0 <= start < end <= |s| && Distinct(s, start, end)
    ensures Window(s, start, end) - {s[start]} == Window(s, start + 1, end)
    ensures Distinct(s, start + 1, end)
  {
  }

  /** A character outside the window extends it without a repeat. */
  lemma NotInWindow(s: seq<char>, start: int, end: int)
    requires 0 <= start <= end < |s| && Distinct(s, start, end)
    requires s[end] !in Window(s, start, end)
    ensures Distinct(s, start, end + 1)
    ensures Window(s, start, end + 1) == Window(s, start, end) + {s[end]}
  {
    forall p | start <= p < end ensures s[p] != s[end] {
      assert s[p] in Window(s, start, end);
    }
  }
}
