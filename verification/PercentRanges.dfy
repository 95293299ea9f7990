/** Percent ranges of a feature rule: half-open intervals within 0..100 that must not overlap. */
module PercentRanges {
  import opened Basics
  import opened PriorityOrder

  datatype Range = Range(start: real, end: real)

  datatype Verdict = Accepted | BadStart | BadEnd | NotAscending | Overlap

  predicate Covers(r: Range, x: real) {
    r.start <= x < r.end
  }

  predicate InBounds(r: Range) {
    0.0 <= r.start < r.end <= 100.0
  }

  /** Some point lies in both ranges. */
  ghost predicate Meet(a: Range, b: Range) {
    exists x :: Covers(a, x) && Covers(b, x)
  }

  /** What the checks are meant to accept. Repeating a range is allowed. */
  ghost predicate WellFormed(ranges: seq<Range>) {
    (forall r | r in ranges :: InBounds(r)) && (forall a, b | a in ranges && b in ranges && a != b :: !Meet(a, b))
  }

  /** The test the nested loop makes for each ordered pair. */
  predicate StartsInside(b: Range, a: Range) {
    a != b && a.start <= b.start < a.end
  }

  /** Testing starting points in both directions decides whether two ranges meet. */
  lemma MeetIsStartInside(a: Range, b: Range)
    requires InBounds(a) && InBounds(b) && a != b
    ensures Meet(a, b) <==> StartsInside(b, a) || StartsInside(a, b)
  {
    if x :| Covers(a, x) && Covers(b, x) {
      assert a.start <= b.start || b.start <= a.start;
    }
    if StartsInside(b, a) {
      assert Covers(a, b.start) && Covers(b, b.start);
    }
    if StartsInside(a, b) {
      assert Covers(a, a.start) && Covers(b, a.start);
    }
  }

  method FindOverlap(ranges: seq<Range>, r: Range) returns (found: bool)
    ensures found <==> exists b | b in ranges :: StartsInside(b, r)
  {
    for m := 0 to |ranges|
      invariant forall j | 0 <= j < m :: !StartsInside(ranges[j], r)
    {
      if ranges[m] != r && r.start <= ranges[m].start && ranges[m].start < r.end {
        assert StartsInside(ranges[m], r);
        return true;
      }
    }
    return false;
  }

  /** Sorts by start and runs the four checks range by range. */
  method ValidateRanges(given: seq<Range>) returns (v: Verdict)
    ensures v.Accepted? <==> WellFormed(given)
    ensures v.BadStart? ==> exists r | r in given :: r.start < 0.0 || r.start >= 100.0
    ensures v.BadEnd? ==> exists r | r in given :: r.end < 0.0 || r.end > 100.0
    ensures v.NotAscending? ==> exists r | r in given :: r.start >= r.end
    ensures v.Overlap? ==> exists a, b | a in given && b in given :: StartsInside(b, a)
  {
    hide StartsInside, NoDup, Ordered;
    var key := map r | r in given :: r.start;
    var ranges := SortSlice(given, key);
    for n := 0 to |ranges|
      invariant forall i | 0 <= i < n :: InBounds(ranges[i])
      invariant forall i | 0 <= i < n :: forall b | b in ranges :: !StartsInside(b, ranges[i])
    {
      var r := ranges[n];
      assert r in given;
      if r.start < 0.0 || r.start >= 100.0 {
        return BadStart;
      }
      if r.end < 0.0 || r.end > 100.0 {
        return BadEnd;
      }
      if r.start >= r.end {
        return NotAscending;
      }
      var overlap := FindOverlap(ranges, r);
      if overlap {
        ghost var b :| b in ranges && StartsInside(b, r);
        Refute(given, r, b);
        return Overlap;
      }
    }
    AllPairsApart(given, ranges);
    return Accepted;
  }

  lemma Refute(given: seq<Range>, a: Range, b: Range)
    requires a in given && b in given && StartsInside(b, a)
    ensures !WellFormed(given)
  {
    if WellFormed(given) {
      MeetIsStartInside(a, b);
    }
  }

  lemma AllPairsApart(given: seq<Range>, ranges: seq<Range>)
    requires forall r :: r in ranges <==> r in given
    requires forall i | 0 <= i < |ranges| :: InBounds(ranges[i])
    requires forall i | 0 <= i < |ranges| :: forall b | b in ranges :: !StartsInside(b, ranges[i])
    ensures WellFormed(given)
  {
    forall a, b | a in given && b in given && a != b ensures !Meet(a, b) {
      assert a in ranges && b in ranges;
      MeetIsStartInside(a, b);
    }
  }

  /** In an accepted list every point belongs to at most one range. */
  lemma PointInOneRange(ranges: seq<Range>, a: Range, b: Range, x: real)
    requires WellFormed(ranges) && a in ranges && b in ranges && Covers(a, x) && Covers(b, x)
    ensures a == b
  {
    assert Meet(a, b);
  }

  // ---- total length

  function Total(ranges: seq<Range>): real {
    if ranges == [] then 0.0 else Total(ranges[..|ranges| - 1]) + ranges[|ranges| - 1].end - ranges[|ranges| - 1].start
  }

  lemma {:induction false} TotalWithout(s: seq<Range>, i: nat)
    requires i < |s|
    ensures Total(s) == Total(RemoveAt(s, i)) + s[i].end - s[i].start
  {
    var n := |s| - 1;
    if i == n {
      assert RemoveAt(s, i) == s[..n];
    } else {
      TotalWithout(s[..n], i);
      assert RemoveAt(s, i) == RemoveAt(s[..n], i) + [s[n]];
      assert RemoveAt(s, i)[..n - 1] == RemoveAt(s[..n], i);
    }
  }

  function LastStarting(s: seq<Range>): (i: nat)
    requires s != []
    ensures i < |s| && forall k | 0 <= k < |s| :: s[k].start <= s[i].start
  {
    if |s| == 1 then 0
    else
      var i := LastStarting(s[..|s| - 1]);
      assert forall k | 0 <= k < |s| - 1 :: s[k] == s[..|s| - 1][k];
      if s[i].start <= s[|s| - 1].start then |s| - 1 else i
  }

  /** However the distinct ranges are listed, their lengths add up to no more than the interval they lie in. */
  lemma {:induction false} DistinctRangesFit(s: seq<Range>, hi: real)
    requires NoDup(s) && 0.0 <= hi
    requires forall k | 0 <= k < |s| :: 0.0 <= s[k].start < s[k].end <= hi && s[k].end <= 100.0
    requires forall j, k | 0 <= j < |s| && 0 <= k < |s| && j != k :: !Meet(s[j], s[k])
    ensures Total(s) <= hi
    decreases |s|
  {
    if s != [] {
      var i := LastStarting(s);
      var r, rest := s[i], RemoveAt(s, i);
      forall k | 0 <= k < |s| && k != i ensures s[k].end <= r.start {
        MeetIsStartInside(s[k], r);
      }
      assert forall k | 0 <= k < |rest| :: rest[k] == s[if k < i then k else k + 1];
      DistinctRangesFit(rest, r.start);
      TotalWithout(s, i);
    }
  }

  /** The distinct ranges of an accepted list cover at most 100 percent. */
  lemma AcceptedRangesFit(given: seq<Range>, distinct: seq<Range>)
    requires WellFormed(given) && NoDup(distinct) && forall r :: r in distinct <==> r in given
    ensures Total(distinct) <= 100.0
  {
    assert forall k | 0 <= k < |distinct| :: distinct[k] in given;
    DistinctRangesFit(distinct, 100.0);
  }
}
