/** `merge_intervals` (exercises/easy/algorithm18.rs): sort closed intervals
    [lo, hi] by their start, then fold them left to right, widening the last
    output interval while the next one starts inside it. */
module MergeIntervals {

  datatype Interval = Interval(lo: int, hi: int)

  predicate SortedByStart(s: seq<Interval>)
  {
    forall i, j :: 0 <= i < j < |s| ==> s[i].lo <= s[j].lo
  }

  /** `sort_by(|a, b| a[0].cmp(&b[0]))`: a permutation ordered by start. */
  function SortByStart(s: seq<Interval>): (r: seq<Interval>)
    ensures multiset(r) == multiset(s) && |r| == |s|
    ensures SortedByStart(r)
  {
    if |s| == 0 then []
    else
      var rest := SortByStart(s[..|s| - 1]);
      assert s == s[..|s| - 1] + [s[|s| - 1]];
      InsertByStart(s[|s| - 1], rest)
  }

  /** Puts `x` after every interval that starts no later than it. */
  function InsertByStart(x: Interval, s: seq<Interval>): (r: seq<Interval>)
    requires SortedByStart(s)
    ensures multiset(r) == multiset(s) + multiset{x} && |r| == |s| + 1
    ensures SortedByStart(r)
  {
    if |s| == 0 then [x]
    else if x.lo < s[0].lo then
      ConsSorted(x, s);
      [x] + s
    else
      var rest := InsertByStart(x, s[1..]);
      InsertStep(x, s, rest);
      [s[0]] + rest
  }

  /** A head starting no later than every interval of a sorted tail keeps
      the sequence sorted. */
  lemma ConsSorted(h: Interval, rest: seq<Interval>)
    requires SortedByStart(rest) && forall k :: 0 <= k < |rest| ==> h.lo <= rest[k].lo
    ensures SortedByStart([h] + rest)
  {
  }

  /** Keeping the first interval in front of the tail with x inserted. */
  lemma InsertStep(x: Interval, s: seq<Interval>, rest: seq<Interval>)
    requires SortedByStart(s) && |s| > 0 && s[0].lo <= x.lo
    requires multiset(rest) == multiset(s[1..]) + multiset{x} && SortedByStart(rest)
    ensures multiset([s[0]] + rest) == multiset(s) + multiset{x}
    ensures SortedByStart([s[0]] + rest)
  {
    assert s == [s[0]] + s[1..];
    forall k | 0 <= k < |rest| ensures s[0].lo <= rest[k].lo {
      assert rest[k] in multiset(rest);
    }
    ConsSorted(s[0], rest);
  }

  /** The closed interval `iv` holds the point x. */
  predicate Holds(iv: Interval, x: int)
  {
    iv.lo <= x <= iv.hi
  }

  /** Point x lies in some interval of s. */
  predicate Covered(s: seq<Interval>, x: int)
  {
    exists iv :: iv in s && Holds(iv, x)
  }

  /** `inner` lies within `outer`. */
  predicate Within(inner: Interval, outer: Interval)
  {
    outer.lo <= inner.lo && inner.hi <= outer.hi
  }

  /** Interval `iv` lies inside some interval of s. */
  predicate Inside(iv: Interval, s: seq<Interval>)
  {
    exists o :: o in s && Within(iv, o)
  }

  /** No interval of s is empty (start after end). */
  predicate WellFormed(s: seq<Interval>)
  {
    forall iv :: iv in s ==> iv.lo <= iv.hi
  }

  /** The shape of the merged list: at most one output per folded interval,
      a gap before each output, starts in order, none after the last folded
      start. */
  predicate Shape(merged: seq<Interval>, done: seq<Interval>)
  {
    && 1 <= |merged| <= |done|
    && (forall i, j :: 0 <= i < j < |merged| ==> merged[i].hi < merged[j].lo)
    && (forall i, j :: 0 <= i < j < |merged| ==> merged[i].lo <= merged[j].lo)
    && (forall k :: 0 <= k < |merged| ==> merged[k].lo <= done[|done| - 1].lo)
  }

  /** Every folded interval lies inside an output. (The trigger keeps this
      from firing on every member of `done`, which together with FromEnds
      would chase members back and forth without end.) */
  predicate AllInside(done: seq<Interval>, merged: seq<Interval>)
  {
    forall iv {:trigger Inside(iv, merged)} :: iv in done ==> Inside(iv, merged)
  }

  /** Every output starts at a folded start and ends at a folded end. */
  predicate FromEnds(merged: seq<Interval>, done: seq<Interval>)
  {
    forall o :: o in merged ==> StartOf(o, done) && EndOf(o, done)
  }

  predicate StartOf(o: Interval, s: seq<Interval>)
  {
    exists iv :: iv in s && iv.lo == o.lo
  }

  predicate EndOf(o: Interval, s: seq<Interval>)
  {
    exists iv :: iv in s && iv.hi == o.hi
  }

  /** The outputs cover no point the folded intervals do not. */
  ghost predicate NoNewPoints(merged: seq<Interval>, done: seq<Interval>)
  {
    forall x :: Covered(merged, x) ==> Covered(done, x)
  }

  /** The unit segment from x to x + 1 lies in `iv`: with integer ends,
      the intervals that hold it are the ones that overlap across it. */
  predicate Spans(iv: Interval, x: int)
  {
    iv.lo <= x < iv.hi
  }

  /** The unit segment from x to x + 1 lies in some interval of s. */
  predicate Spanned(s: seq<Interval>, x: int)
  {
    exists iv :: iv in s && Spans(iv, x)
  }

  /** No output joins intervals that do not overlap: every unit segment
      inside an output lies inside a folded interval, so [1, 2] and [3, 4]
      stay apart while [1, 2] and [2, 3] may become [1, 3]. */
  ghost predicate NoNewSpans(merged: seq<Interval>, done: seq<Interval>)
  {
    forall x :: Spanned(merged, x) ==> Spanned(done, x)
  }

  /** The last output stretched to cover `iv`, which starts inside it. */
  function Widen(merged: seq<Interval>, iv: Interval): seq<Interval>
    requires |merged| >= 1
  {
    var last := merged[|merged| - 1];
    merged[..|merged| - 1] + [Interval(last.lo, if last.hi < iv.hi then iv.hi else last.hi)]
  }

  /** Sorts the intervals by start, then merges them. */
  method Merge(intervals: seq<Interval>) returns (merged: seq<Interval>)
    ensures |intervals| == 0 <==> |merged| == 0
    ensures |merged| <= |intervals|
    ensures forall i, j :: 0 <= i < j < |merged| ==> merged[i].hi < merged[j].lo
    ensures forall i, j :: 0 <= i < j < |merged| ==> merged[i].lo <= merged[j].lo
    ensures WellFormed(intervals) ==> WellFormed(merged)
    ensures AllInside(intervals, merged)
    ensures FromEnds(merged, intervals)
    ensures forall x :: Covered(merged, x) <==> Covered(intervals, x)
    ensures forall x :: Spanned(merged, x) <==> Spanned(intervals, x)
  {
    if |intervals| == 0 {
      return [];
    }
    var sorted := SortByStart(intervals);
    merged := MergeSorted(sorted);
    assert |sorted| == |multiset(sorted)| == |intervals|;
    SameMembers(sorted, intervals);
    ConcludeInside(merged, sorted, intervals);
    ConcludeFromEnds(merged, sorted, intervals);
    ConcludeWellFormed(merged, sorted, intervals);
    ConcludeCover(merged, sorted, intervals);
    ConcludeSpans(merged, sorted, intervals);
    InsideCovers(intervals, merged);
    InsideSpans(intervals, merged);
  }

  /** Keeps the first interval, then for each further one either stretches
      the last output's end to cover it (when it starts at or before that
      end) or appends it. */
  method MergeSorted(sorted: seq<Interval>) returns (merged: seq<Interval>)
    requires |sorted| >= 1 && SortedByStart(sorted)
    ensures Shape(merged, sorted)
    ensures AllInside(sorted, merged)
    ensures FromEnds(merged, sorted)
    ensures NoNewPoints(merged, sorted) && NoNewSpans(merged, sorted)
    ensures WellFormed(sorted) ==> WellFormed(merged)
  {
    merged := [sorted[0]];
    ghost var done := sorted[..1];
    FirstStep(sorted);
    for i := 1 to |sorted|
      invariant done == sorted[..i]
      invariant Shape(merged, done)
      invariant AllInside(done, merged)
      invariant FromEnds(merged, done)
      invariant NoNewPoints(merged, done) && NoNewSpans(merged, done)
      invariant WellFormed(done) ==> WellFormed(merged)
    {
      var iv := sorted[i];
      assert sorted[..i + 1] == done + [iv];
      if iv.lo <= merged[|merged| - 1].hi {
        WidenStep(merged, done, iv);
        merged := Widen(merged, iv);
      } else {
        AppendStep(merged, done, iv);
        merged := merged + [iv];
      }
      done := done + [iv];
    }
    Whole(sorted);
  }

  /** One widening step keeps every invariant of the fold. */
  lemma WidenStep(merged: seq<Interval>, done: seq<Interval>, iv: Interval)
    requires Shape(merged, done) && AllInside(done, merged) && FromEnds(merged, done)
    requires NoNewPoints(merged, done) && NoNewSpans(merged, done) && (WellFormed(done) ==> WellFormed(merged))
    requires done[|done| - 1].lo <= iv.lo <= merged[|merged| - 1].hi
    ensures var next := Widen(merged, iv);
      && Shape(next, done + [iv]) && AllInside(done + [iv], next) && FromEnds(next, done + [iv])
      && NoNewPoints(next, done + [iv]) && NoNewSpans(next, done + [iv])
      && (WellFormed(done + [iv]) ==> WellFormed(next))
  {
    assert merged[|merged| - 1].lo <= done[|done| - 1].lo;
    WidenShape(merged, done, iv);
    WidenInside(merged, done, iv);
    WidenFromEnds(merged, done, iv);
    WidenNoNewPoints(merged, done, iv);
    WidenNoNewSpans(merged, done, iv);
    WidenWellFormed(merged, done, iv);
  }

  /** One appending step keeps every invariant of the fold. */
  lemma AppendStep(merged: seq<Interval>, done: seq<Interval>, iv: Interval)
    requires Shape(merged, done) && AllInside(done, merged) && FromEnds(merged, done)
    requires NoNewPoints(merged, done) && NoNewSpans(merged, done) && (WellFormed(done) ==> WellFormed(merged))
    requires done[|done| - 1].lo <= iv.lo && merged[|merged| - 1].hi < iv.lo
    ensures var next := merged + [iv];
      && Shape(next, done + [iv]) && AllInside(done + [iv], next) && FromEnds(next, done + [iv])
      && NoNewPoints(next, done + [iv]) && NoNewSpans(next, done + [iv])
      && (WellFormed(done + [iv]) ==> WellFormed(next))
  {
    AppendShape(merged, done, iv);
    AppendInside(merged, done, iv);
    AppendFromEnds(merged, done, iv);
    AppendNoNewPoints(merged, done, iv);
    AppendNoNewSpans(merged, done, iv);
    AppendWellFormed(merged, done, iv);
  }

  lemma Whole(s: seq<Interval>)
    ensures s[..|s|] == s
  {
  }

  lemma FirstStep(sorted: seq<Interval>)
    requires |sorted| >= 1
    ensures Shape([sorted[0]], sorted[..1])
    ensures AllInside(sorted[..1], [sorted[0]])
    ensures FromEnds([sorted[0]], sorted[..1])
    ensures NoNewPoints([sorted[0]], sorted[..1])
    ensures NoNewSpans([sorted[0]], sorted[..1])
  {
    var m := [sorted[0]];
    assert sorted[..1] == m;
    assert Within(sorted[0], sorted[0]);
  }

  /** The members of the widened list: the untouched outputs and the
      stretched last one. */
  lemma WidenMembers(merged: seq<Interval>, iv: Interval, o: Interval)
    requires |merged| >= 1 && o in Widen(merged, iv)
    ensures o == Widen(merged, iv)[|merged| - 1] || o in merged[..|merged| - 1]
  {
  }

  lemma WidenShape(merged: seq<Interval>, done: seq<Interval>, iv: Interval)
    requires Shape(merged, done)
    requires done[|done| - 1].lo <= iv.lo <= merged[|merged| - 1].hi
    ensures Shape(Widen(merged, iv), done + [iv])
  {
    var next := Widen(merged, iv);
    assert forall k :: 0 <= k < |merged| - 1 ==> next[k] == merged[k];
  }

  lemma AppendShape(merged: seq<Interval>, done: seq<Interval>, iv: Interval)
    requires Shape(merged, done)
    requires done[|done| - 1].lo <= iv.lo && merged[|merged| - 1].hi < iv.lo
    ensures Shape(merged + [iv], done + [iv])
  {
  }

  lemma WidenInside(merged: seq<Interval>, done: seq<Interval>, iv: Interval)
    requires |merged| >= 1 && AllInside(done, merged)
    requires merged[|merged| - 1].lo <= iv.lo <= merged[|merged| - 1].hi
    ensures AllInside(done + [iv], Widen(merged, iv))
  {
    var next := Widen(merged, iv);
    var last := merged[|merged| - 1];
    var widened := next[|merged| - 1];
    assert merged == merged[..|merged| - 1] + [last];
    forall d | d in done + [iv] ensures Inside(d, next) {
      if d in done {
        assert Inside(d, merged);
        var o :| o in merged && Within(d, o);
        if o == last {
          assert Within(d, widened);
        } else {
          assert o in merged[..|merged| - 1];
        }
      } else {
        assert Within(iv, widened);
      }
    }
  }

  lemma AppendInside(merged: seq<Interval>, done: seq<Interval>, iv: Interval)
    requires AllInside(done, merged)
    ensures AllInside(done + [iv], merged + [iv])
  {
    forall d | d in done + [iv] ensures Inside(d, merged + [iv]) {
      if d in done {
        assert Inside(d, merged);
        var o :| o in merged && Within(d, o);
      } else {
        assert Within(iv, iv);
      }
    }
  }

  lemma WidenFromEnds(merged: seq<Interval>, done: seq<Interval>, iv: Interval)
    requires |merged| >= 1 && FromEnds(merged, done)
    ensures FromEnds(Widen(merged, iv), done + [iv])
  {
    var last := merged[|merged| - 1];
    forall o | o in Widen(merged, iv) ensures StartOf(o, done + [iv]) && EndOf(o, done + [iv]) {
      WidenMembers(merged, iv, o);
      if o in merged[..|merged| - 1] {
        assert o in merged;
      } else {
        assert last in merged;
      }
    }
  }

  lemma AppendFromEnds(merged: seq<Interval>, done: seq<Interval>, iv: Interval)
    requires FromEnds(merged, done)
    ensures FromEnds(merged + [iv], done + [iv])
  {
    forall o | o in merged + [iv] ensures StartOf(o, done + [iv]) && EndOf(o, done + [iv]) {
      if o in merged {
      } else {
        assert iv in done + [iv];
      }
    }
  }

  lemma WidenNoNewPoints(merged: seq<Interval>, done: seq<Interval>, iv: Interval)
    requires |merged| >= 1 && NoNewPoints(merged, done)
    requires merged[|merged| - 1].lo <= iv.lo <= merged[|merged| - 1].hi
    ensures NoNewPoints(Widen(merged, iv), done + [iv])
  {
    var last := merged[|merged| - 1];
    forall x | Covered(Widen(merged, iv), x) ensures Covered(done + [iv], x) {
      var o :| o in Widen(merged, iv) && Holds(o, x);
      WidenMembers(merged, iv, o);
      if o in merged[..|merged| - 1] {
        assert o in merged && Covered(merged, x);
      } else if x <= last.hi {
        assert last in merged && Holds(last, x) && Covered(merged, x);
      } else {
        assert iv in done + [iv] && Holds(iv, x);
      }
    }
  }

  lemma AppendNoNewPoints(merged: seq<Interval>, done: seq<Interval>, iv: Interval)
    requires NoNewPoints(merged, done)
    ensures NoNewPoints(merged + [iv], done + [iv])
  {
    forall x | Covered(merged + [iv], x) ensures Covered(done + [iv], x) {
      var o :| o in merged + [iv] && Holds(o, x);
      if o in merged {
        assert Covered(merged, x);
      } else {
        assert iv in done + [iv];
      }
    }
  }

  /** Stretching the last output spans only what it spanned or what `iv`
      spans beyond its old end, since `iv` starts at or before that end. */
  lemma WidenNoNewSpans(merged: seq<Interval>, done: seq<Interval>, iv: Interval)
    requires |merged| >= 1 && NoNewSpans(merged, done)
    requires iv.lo <= merged[|merged| - 1].hi
    ensures NoNewSpans(Widen(merged, iv), done + [iv])
  {
    var last := merged[|merged| - 1];
    forall x | Spanned(Widen(merged, iv), x) ensures Spanned(done + [iv], x) {
      var o :| o in Widen(merged, iv) && Spans(o, x);
      WidenMembers(merged, iv, o);
      if o in merged[..|merged| - 1] {
        assert o in merged && Spanned(merged, x);
      } else if x < last.hi {
        assert last in merged && Spans(last, x) && Spanned(merged, x);
      } else {
        assert iv in done + [iv] && Spans(iv, x);
      }
    }
  }

  lemma AppendNoNewSpans(merged: seq<Interval>, done: seq<Interval>, iv: Interval)
    requires NoNewSpans(merged, done)
    ensures NoNewSpans(merged + [iv], done + [iv])
  {
    forall x | Spanned(merged + [iv], x) ensures Spanned(done + [iv], x) {
      var o :| o in merged + [iv] && Spans(o, x);
      if o in merged {
        assert Spanned(merged, x);
      } else {
        assert iv in done + [iv];
      }
    }
  }

  lemma WidenWellFormed(merged: seq<Interval>, done: seq<Interval>, iv: Interval)
    requires |merged| >= 1 && (WellFormed(done) ==> WellFormed(merged))
    ensures WellFormed(done + [iv]) ==> WellFormed(Widen(merged, iv))
  {
    if WellFormed(done + [iv]) {
      assert WellFormed(done);
      forall o | o in Widen(merged, iv) ensures o.lo <= o.hi {
        WidenMembers(merged, iv, o);
        assert merged[|merged| - 1] in merged;
        if o in merged[..|merged| - 1] {
          assert o in merged;
        }
      }
    }
  }

  lemma AppendWellFormed(merged: seq<Interval>, done: seq<Interval>, iv: Interval)
    requires WellFormed(done) ==> WellFormed(merged)
    ensures WellFormed(done + [iv]) ==> WellFormed(merged + [iv])
  {
    if WellFormed(done + [iv]) {
      assert WellFormed(done);
      assert iv in done + [iv];
    }
  }

  /** Carries the invariants over the sorted list back to the input, which
      holds the same intervals in another order. */
  lemma ConcludeInside(merged: seq<Interval>, sorted: seq<Interval>, intervals: seq<Interval>)
    requires AllInside(sorted, merged)
    requires forall iv :: iv in intervals ==> iv in sorted
    ensures AllInside(intervals, merged)
  {
  }

  lemma ConcludeFromEnds(merged: seq<Interval>, sorted: seq<Interval>, intervals: seq<Interval>)
    requires FromEnds(merged, sorted)
    requires forall iv :: iv in sorted ==> iv in intervals
    ensures FromEnds(merged, intervals)
  {
    forall o | o in merged ensures StartOf(o, intervals) && EndOf(o, intervals) {
      var s :| s in sorted && s.lo == o.lo;
      var e :| e in sorted && e.hi == o.hi;
    }
  }

  lemma ConcludeWellFormed(merged: seq<Interval>, sorted: seq<Interval>, intervals: seq<Interval>)
    requires WellFormed(sorted) ==> WellFormed(merged)
    requires forall iv :: iv in sorted ==> iv in intervals
    ensures WellFormed(intervals) ==> WellFormed(merged)
  {
  }

  lemma ConcludeCover(merged: seq<Interval>, sorted: seq<Interval>, intervals: seq<Interval>)
    requires NoNewPoints(merged, sorted)
    requires forall iv :: iv in sorted ==> iv in intervals
    ensures forall x :: Covered(merged, x) ==> Covered(intervals, x)
  {
    forall x | Covered(merged, x) ensures Covered(intervals, x) {
      var iv :| iv in sorted && Holds(iv, x);
    }
  }

  lemma ConcludeSpans(merged: seq<Interval>, sorted: seq<Interval>, intervals: seq<Interval>)
    requires NoNewSpans(merged, sorted)
    requires forall iv :: iv in sorted ==> iv in intervals
    ensures forall x :: Spanned(merged, x) ==> Spanned(intervals, x)
  {
    forall x | Spanned(merged, x) ensures Spanned(intervals, x) {
      var iv :| iv in sorted && Spans(iv, x);
    }
  }

  /** Sequences with the same multiset have the same members. */
  lemma SameMembers(a: seq<Interval>, b: seq<Interval>)
    requires multiset(a) == multiset(b)
    ensures forall iv :: iv in a <==> iv in b
  {
    forall iv ensures iv in a <==> iv in b {
      assert iv in a <==> iv in multiset(a);
      assert iv in b <==> iv in multiset(b);
    }
  }

  /** Every covered point of the input is covered by the interval that
      contains its input interval. */
  lemma InsideCovers(intervals: seq<Interval>, merged: seq<Interval>)
    requires AllInside(intervals, merged)
    ensures forall x :: Covered(intervals, x) ==> Covered(merged, x)
  {
    forall x | Covered(intervals, x) ensures Covered(merged, x) {
      var iv :| iv in intervals && Holds(iv, x);
      assert Inside(iv, merged);
      var o :| o in merged && Within(iv, o);
      assert Holds(o, x);
    }
  }

  /** Every unit segment an input interval spans, the output interval
      containing it spans too. */
  lemma InsideSpans(intervals: seq<Interval>, merged: seq<Interval>)
    requires AllInside(intervals, merged)
    ensures forall x :: Spanned(intervals, x) ==> Spanned(merged, x)
  {
    forall x | Spanned(intervals, x) ensures Spanned(merged, x) {
      var iv :| iv in intervals && Spans(iv, x);
      assert Inside(iv, merged);
      var o :| o in merged && Within(iv, o);
      assert Spans(o, x);
    }
  }

  /** The first test's neighbours that only touch at a gap of one stay
      apart: [1, 2] and [3, 4] cannot be reported as [1, 4]. */
  lemma TouchingStayApart()
    ensures !(forall x :: Spanned([Interval(1, 4)], x) ==> Spanned([Interval(1, 2), Interval(3, 4)], x))
  {
    assert Spans(Interval(1, 4), 2);
    assert !Spanned([Interval(1, 2), Interval(3, 4)], 2);
  }
}
