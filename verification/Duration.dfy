/** Years of experience as the measure of a union of date intervals, and the verdict built on it. */
module Duration {
  import opened Rounding
  import opened Sorting
  import opened Wrappers

  /** Half-open: from a start day up to, and without, an end day. */
  type Interval = (int, int)

  // ----- days covered

  predicate Covers(i: Interval, d: int) {
    i.0 <= d < i.1
  }

  function Span(i: Interval): set<int> {
    set d | i.0 <= d < i.1 && Covers(i, d)
  }

  function Days(intervals: seq<Interval>): set<int> {
    if intervals == [] then {} else
      Days(intervals[..|intervals| - 1]) + Span(intervals[|intervals| - 1])
  }

  lemma {:induction false} DaysMember(intervals: seq<Interval>, d: int)
    ensures d in Days(intervals) <==> exists k :: 0 <= k < |intervals| && Covers(intervals[k], d)
  {
    if intervals == [] {
    } else {
      var n := |intervals| - 1;
      DaysMember(intervals[..n], d);
      assert forall k :: 0 <= k < n ==> intervals[..n][k] == intervals[k];
    }
  }

  /** Only which intervals there are matters. */
  lemma DaysOfSubset(intervals: seq<Interval>, more: seq<Interval>)
    requires forall i :: i in intervals ==> i in more
    ensures Days(intervals) <= Days(more)
  {
    forall d | d in Days(intervals) ensures d in Days(more) {
      DaysMember(intervals, d);
      DaysMember(more, d);
      var k :| 0 <= k < |intervals| && Covers(intervals[k], d);
      assert intervals[k] in more;
    }
  }

  lemma {:induction false} SpanSize(i: Interval)
    requires i.0 <= i.1
    ensures |Span(i)| == i.1 - i.0
    decreases i.1 - i.0
  {
    if i.0 == i.1 {
      assert Span(i) == {};
    } else {
      var shorter := (i.0, i.1 - 1);
      SpanSize(shorter);
      assert Span(i) == Span(shorter) + {i.1 - 1};
    }
  }

  // ----- merging

  predicate Forward(intervals: seq<Interval>) {
    forall k :: 0 <= k < |intervals| ==> intervals[k].0 <= intervals[k].1
  }

  /** Each interval ends strictly before the next one starts. */
  predicate Separated(intervals: seq<Interval>) {
    forall k :: 0 <= k < |intervals| - 1 ==> intervals[k].1 < intervals[k + 1].0
  }

  function Total(intervals: seq<Interval>): int {
    if intervals == [] then 0 else
      var last := intervals[|intervals| - 1];
      Total(intervals[..|intervals| - 1]) + last.1 - last.0
  }

  method MergeIntervals(intervals: seq<Interval>) returns (merged: seq<Interval>)
    ensures Days(merged) == Days(intervals)
    ensures Separated(merged)
    ensures Forward(intervals) ==> Forward(merged)
  {
    if intervals == [] {
      return [];
    }
    var key := (i: Interval) => i.0 as real;
    var sorted := SortBy(intervals, key);
    SortBySorts(intervals, key);
    SortedIntervals(intervals, sorted);
    merged := [sorted[0]];
    assert sorted[..1] == [sorted[0]];
    for n := 1 to |sorted|
      invariant MergedFrom(sorted[..n], merged)
    {
      var (start, end) := sorted[n];
      var last := merged[|merged| - 1];
      assert sorted[..n + 1] == sorted[..n] + [sorted[n]];
      assert key(sorted[n - 1]) <= key(sorted[n]);
      if start <= last.1 {
        var longer := (last.0, if last.1 >= end then last.1 else end);
        MergeLonger(sorted[..n], merged, sorted[n], longer);
        merged := merged[..|merged| - 1] + [longer];
      } else {
        MergeApart(sorted[..n], merged, sorted[n]);
        merged := merged + [sorted[n]];
      }
    }
    assert sorted[..|sorted|] == sorted;
  }

  ghost predicate MergedFrom(done: seq<Interval>, merged: seq<Interval>) {
    && merged != [] && done != [] && Days(merged) == Days(done) && Separated(merged)
    && (Forward(done) ==> Forward(merged))
    && merged[|merged| - 1].0 <= done[|done| - 1].0
  }

  lemma MergeApart(done: seq<Interval>, merged: seq<Interval>, i: Interval)
    requires MergedFrom(done, merged) && i.0 > merged[|merged| - 1].1
    ensures MergedFrom(done + [i], merged + [i])
  {
    DaysAppend(merged, i);
    DaysAppend(done, i);
    assert Forward(done + [i]) ==> Forward(done) && i.0 <= i.1 by {
      assert (done + [i])[|done|] == i;
      assert forall k :: 0 <= k < |done| ==> (done + [i])[k] == done[k];
    }
  }

  lemma MergeLonger(done: seq<Interval>, merged: seq<Interval>, i: Interval, longer: Interval)
    requires MergedFrom(done, merged) && done[|done| - 1].0 <= i.0 <= merged[|merged| - 1].1
    requires longer == (merged[|merged| - 1].0, if merged[|merged| - 1].1 >= i.1 then merged[|merged| - 1].1 else i.1)
    ensures MergedFrom(done + [i], merged[..|merged| - 1] + [longer])
  {
    DaysReplaceLast(merged, longer, i);
    DaysAppend(done, i);
    assert Forward(done + [i]) ==> Forward(done) by {
      assert forall k :: 0 <= k < |done| ==> (done + [i])[k] == done[k];
    }
  }

  lemma SortedIntervals(intervals: seq<Interval>, sorted: seq<Interval>)
    requires multiset(sorted) == multiset(intervals)
    ensures Days(sorted) == Days(intervals)
    ensures Forward(intervals) ==> Forward(sorted)
  {
    forall i ensures i in sorted <==> i in intervals {
      assert i in sorted <==> i in multiset(sorted);
      assert i in intervals <==> i in multiset(intervals);
    }
    DaysOfSubset(sorted, intervals);
    DaysOfSubset(intervals, sorted);
    forall k | 0 <= k < |sorted| && Forward(intervals) ensures sorted[k].0 <= sorted[k].1 {
      assert sorted[k] in intervals;
    }
  }

  lemma DaysAppend(intervals: seq<Interval>, i: Interval)
    ensures Days(intervals + [i]) == Days(intervals) + Span(i)
  {
    assert (intervals + [i])[..|intervals|] == intervals;
  }

  lemma DaysReplaceLast(merged: seq<Interval>, longer: Interval, i: Interval)
    requires merged != [] && merged[|merged| - 1].0 <= i.0 <= merged[|merged| - 1].1
    requires longer == (merged[|merged| - 1].0, if merged[|merged| - 1].1 >= i.1 then merged[|merged| - 1].1 else i.1)
    ensures Days(merged[..|merged| - 1] + [longer]) == Days(merged) + Span(i)
  {
    var last := merged[|merged| - 1];
    DaysAppend(merged[..|merged| - 1], longer);
    assert Span(longer) == Span(last) + Span(i);
  }

  /** The summed length of separated intervals is the number of days they cover. */
  lemma {:induction false} TotalCountsDays(merged: seq<Interval>)
    requires Forward(merged) && Separated(merged)
    ensures Total(merged) == |Days(merged)|
    ensures forall d :: d in Days(merged) ==> merged != [] && d < merged[|merged| - 1].1
  {
    if merged == [] {
    } else {
      var n := |merged| - 1;
      TotalCountsDays(merged[..n]);
      SpanSize(merged[n]);
      assert Days(merged[..n]) !! Span(merged[n]) by {
        forall d | d in Days(merged[..n]) ensures d < merged[n].0 {
          assert n > 0 ==> merged[n - 1].1 < merged[n - 1 + 1].0;
        }
      }
    }
  }

  // ----- the verdict

  datatype Experience = Experience(skill: string, started: int, ended: Option<int>, evidence: Option<string>)

  datatype Status = Unknown | InsufficientEvidence | Partial | Matched

  datatype DurationResult = DurationResult(actual: real, status: Status, sources: seq<Experience>, confidence: real)

  function EndOf(e: Experience, reference: int): int {
    match e.ended case Some(day) => day case None => reference
  }

  /** The intervals that do not end before they start. */
  function Kept(intervals: seq<Experience>, reference: int): seq<Experience> {
    if intervals == [] then [] else
      var last := intervals[|intervals| - 1];
      Kept(intervals[..|intervals| - 1], reference) + (if EndOf(last, reference) < last.started then [] else [last])
  }

  function Raw(intervals: seq<Experience>, reference: int): seq<Interval> {
    seq(|intervals|, k requires 0 <= k < |intervals| => (intervals[k].started, EndOf(intervals[k], reference)))
  }

  function Years(days: int): real {
    Round(Over(days as real, 365.25), 100)
  }

  function MinOne(x: real): real {
    if x <= 1.0 then x else 1.0
  }

  function Confidence(actual: real, required: real): real
    requires required > 0.0
  {
    if actual >= required then MinOne(0.7 + 0.3 * Over(actual, required))
    else if actual >= required * 0.5 then 0.5 + 0.3 * Over(actual, required)
    else 0.3 + 0.2 * Over(actual, required)
  }

  /** The verdict as a function of the number of covered days; the order of the intervals is gone. */
  function Verdict(required: real, reference: int, intervals: seq<Experience>): DurationResult {
    var kept := Kept(intervals, reference);
    if required <= 0.0 then DurationResult(0.0, Unknown, [], 0.0)
    else if kept == [] then DurationResult(0.0, InsufficientEvidence, [], 0.0)
    else
      var actual := Years(|Days(Raw(kept, reference))|);
      DurationResult(actual, if actual >= required then Matched else Partial, kept,
        Round(Confidence(actual, required), 1000))
  }

  method EvaluateDuration(required: real, intervals: seq<Experience>, reference: int) returns (r: DurationResult)
    ensures r == Verdict(required, reference, intervals)
  {
    if required <= 0.0 {
      return DurationResult(0.0, Unknown, [], 0.0);
    }
    if intervals == [] {
      return DurationResult(0.0, InsufficientEvidence, [], 0.0);
    }
    var raw, details := CollectIntervals(intervals, reference);
    if raw == [] {
      return DurationResult(0.0, InsufficientEvidence, [], 0.0);
    }
    var merged := MergeIntervals(raw);
    TotalCountsDays(merged);
    var actual := Years(Total(merged));
    var status, confidence := Grade(actual, required);
    r := DurationResult(actual, status, details, Round(confidence, 1000));
  }

  method Grade(actual: real, required: real) returns (status: Status, confidence: real)
    requires required > 0.0
    ensures status == (if actual >= required then Matched else Partial) && confidence == Confidence(actual, required)
  {
    if actual >= required {
      status, confidence := Matched, MinOne(0.7 + 0.3 * Over(actual, required));
    } else if actual >= required * 0.5 {
      status, confidence := Partial, 0.5 + 0.3 * Over(actual, required);
    } else {
      status, confidence := Partial, 0.3 + 0.2 * Over(actual, required);
    }
  }

  method CollectIntervals(intervals: seq<Experience>, reference: int)
      returns (raw: seq<Interval>, details: seq<Experience>)
    ensures details == Kept(intervals, reference) && raw == Raw(details, reference) && Forward(raw)
  {
    raw, details := [], [];
    for n := 0 to |intervals|
      invariant details == Kept(intervals[..n], reference) && raw == Raw(details, reference) && Forward(raw)
    {
      var interval := intervals[n];
      assert intervals[..n + 1][..n] == intervals[..n];
      var end := if interval.ended.Some? then interval.ended.value else reference;
      if end < interval.started {
        continue;
      }
      raw := raw + [(interval.started, end)];
      details := details + [interval];
    }
    assert intervals[..|intervals|] == intervals;
  }

  function Rank(status: Status): nat {
    match status case Unknown => 0 case InsufficientEvidence => 0 case Partial => 1 case Matched => 2
  }

  lemma {:induction false} KeptMember(intervals: seq<Experience>, reference: int, e: Experience)
    ensures e in Kept(intervals, reference) <==> e in intervals && EndOf(e, reference) >= e.started
  {
    if intervals == [] {
    } else {
      var n := |intervals| - 1;
      KeptMember(intervals[..n], reference, e);
      assert intervals == intervals[..n] + [intervals[n]];
    }
  }

  ghost predicate WorkedOn(e: Experience, reference: int, d: int) {
    e.started <= d && match e.ended case Some(day) => d < day case None => d < reference
  }

  /** A day counts iff some experience had started by then and had not ended, an ongoing one at the reference date. */
  lemma DayCountsIff(intervals: seq<Experience>, reference: int, d: int)
    ensures d in Days(Raw(Kept(intervals, reference), reference))
       <==> exists e :: e in intervals && WorkedOn(e, reference, d)
  {
    var kept := Kept(intervals, reference);
    var raw := Raw(kept, reference);
    DaysMember(raw, d);
    if k :| 0 <= k < |raw| && Covers(raw[k], d) {
      assert kept[k] in kept;
      KeptMember(intervals, reference, kept[k]);
      assert WorkedOn(kept[k], reference, d);
    }
    if e :| e in intervals && WorkedOn(e, reference, d) {
      KeptMember(intervals, reference, e);
      var k :| 0 <= k < |kept| && kept[k] == e;
      assert Covers(raw[k], d);
    }
  }

  lemma RatioAtLeast(a: real, q: real, r: real)
    requires q > 0.0
    ensures a >= q * r <==> Over(a, q) >= r
  {
    var ratio := a / q;
    assert ratio * q == a;
    assert ratio >= r ==> (ratio - r) * q >= 0.0;
    assert ratio < r ==> (r - ratio) * q > 0.0;
  }

  lemma ConfidenceMonotone(a: real, b: real, required: real)
    requires 0.0 <= a <= b && required > 0.0
    ensures 0.0 <= Confidence(a, required) <= Confidence(b, required)
  {
    OverMonotone(0.0, a, required);
    OverMonotone(a, b, required);
    RatioAtLeast(a, required, 1.0);
    RatioAtLeast(a, required, 0.5);
    RatioAtLeast(b, required, 1.0);
    RatioAtLeast(b, required, 0.5);
  }

  /** Before rounding, the confidence says which branch it came from. */
  lemma ConfidenceGrades(actual: real, required: real)
    requires 0.0 <= actual && required > 0.0
    ensures actual >= required <==> Confidence(actual, required) == 1.0
    ensures required * 0.5 <= actual < required <==> 0.65 <= Confidence(actual, required) < 0.8
    ensures actual < required * 0.5 <==> 0.3 <= Confidence(actual, required) < 0.4
  {
    RatioAtLeast(actual, required, 1.0);
    RatioAtLeast(actual, required, 0.5);
    RatioAtLeast(actual, required, 0.0);
  }

  /** Between no experience, half the years and all of them, the confidence is interpolated. */
  lemma ConfidenceInterpolates(actual: real, required: real)
    requires 0.0 <= actual < required
    ensures var half := required * 0.5;
      if actual < half then (Confidence(actual, required) - 0.3) * half == 0.1 * actual
      else (Confidence(actual, required) - 0.65) * half == 0.15 * (actual - half)
  {
    var ratio := Over(actual, required);
    assert ratio * required == actual;
  }

  lemma RoundedGrades(confidence: real)
    ensures confidence == 1.0 ==> Round(confidence, 1000) == 1.0
    ensures 0.65 <= confidence < 0.8 ==> 0.65 <= Round(confidence, 1000) <= 0.8
    ensures 0.3 <= confidence < 0.4 ==> 0.3 <= Round(confidence, 1000) <= 0.4
  {
    RoundExact(1.0, 1000, 1000);
    RoundExact(0.65, 650, 1000);
    RoundExact(0.8, 800, 1000);
    RoundExact(0.3, 300, 1000);
    RoundExact(0.4, 400, 1000);
    if 0.65 <= confidence < 0.8 {
      RoundMonotone(0.65, confidence, 1000);
      RoundMonotone(confidence, 0.8, 1000);
    } else if 0.3 <= confidence < 0.4 {
      RoundMonotone(0.3, confidence, 1000);
      RoundMonotone(confidence, 0.4, 1000);
    }
  }

  /**
   * A caller can read the verdict off the reported confidence, rounding included: 1 means matched, 0
   * no evidence, and at least half the years is told from less.
   */
  lemma VerdictGrades(required: real, reference: int, intervals: seq<Experience>)
    requires required > 0.0
    ensures
      var v := Verdict(required, reference, intervals);
      && (v.status == Matched <==> v.confidence == 1.0)
      && (v.status == InsufficientEvidence <==> v.confidence == 0.0)
      && (v.status == Partial <==> 0.3 <= v.confidence <= 0.8)
      && (v.status == Partial ==> (v.actual >= required * 0.5 <==> v.confidence >= 0.65))
  {
    var kept := Kept(intervals, reference);
    if kept != [] {
      var days := |Days(Raw(kept, reference))|;
      var actual := Years(days);
      YearsMonotone(0, days);
      ConfidenceGrades(actual, required);
      RoundedGrades(Confidence(actual, required));
    }
  }

  /** The years are the days over 365.25 to the nearest hundredth, so four of them are a whole cycle of 1461 days. */
  lemma YearsOfDays(days: int, k: int)
    ensures Distance(days as real / 365.25, Years(days)) <= 0.005
    ensures Distance(days as real / 365.25, Years(days)) <= Distance(days as real / 365.25, k as real / 100.0)
    ensures Years(1461 * k) == 4.0 * k as real
  {
    var exact := Over(days as real, 365.25);
    RoundIsNearest(exact, 100, k);
    var cycles := Over((1461 * k) as real, 365.25);
    assert cycles * 365.25 == 1461.0 * k as real;
    RoundExact(cycles, 400 * k, 100);
  }

  lemma DaysOfYears(days: int)
    ensures Distance(days as real, Years(days) * 365.25) <= 1.82625
  {
    YearsOfDays(days, 0);
    var exact := days as real / 365.25;
    assert exact * 365.25 == days as real;
    ScaledBy(exact, Years(days));
  }

  lemma ScaledBy(x: real, y: real)
    ensures Distance(x * 365.25, y * 365.25) == Distance(x, y) * 365.25
  {
  }

  /** The verdict is about days: two more than the required years hold is enough, two fewer never is. */
  lemma MatchedByDays(required: real, reference: int, intervals: seq<Experience>)
    requires required > 0.0 && exists e :: e in intervals && EndOf(e, reference) >= e.started
    ensures
      var days := |Days(Raw(Kept(intervals, reference), reference))| as real;
      var status := Verdict(required, reference, intervals).status;
      && (days >= required * 365.25 + 2.0 ==> status == Matched)
      && (days <= required * 365.25 - 2.0 ==> status == Partial)
  {
    var kept := Kept(intervals, reference);
    var e :| e in intervals && EndOf(e, reference) >= e.started;
    KeptMember(intervals, reference, e);
    var days := |Days(Raw(kept, reference))|;
    DaysOfYears(days);
    var actual := Years(days);
    assert actual >= required ==> (actual - required) * 365.25 >= 0.0;
    assert actual < required ==> (required - actual) * 365.25 > 0.0;
  }

  lemma YearsMonotone(days: int, more: int)
    requires 0 <= days <= more
    ensures 0.0 <= Years(days) <= Years(more)
  {
    RoundZero(100);
    OverMonotone(0.0, days as real, 365.25);
    OverMonotone(days as real, more as real, 365.25);
    RoundMonotone(0.0, Over(days as real, 365.25), 100);
    RoundMonotone(Over(days as real, 365.25), Over(more as real, 365.25), 100);
  }

  /** More evidence, in any order and with any overlap, never lowers years, status or confidence. */
  lemma MoreExperienceNeverHurts(required: real, reference: int, some: seq<Experience>, more: seq<Experience>)
    requires required > 0.0
    requires forall e :: e in some ==> e in more
    ensures Verdict(required, reference, some).actual <= Verdict(required, reference, more).actual
    ensures Rank(Verdict(required, reference, some).status) <= Rank(Verdict(required, reference, more).status)
    ensures Verdict(required, reference, some).confidence <= Verdict(required, reference, more).confidence
  {
    var kept, keptMore := Kept(some, reference), Kept(more, reference);
    forall e | e in kept ensures e in keptMore {
      KeptMember(some, reference, e);
      KeptMember(more, reference, e);
    }
    assert kept != [] ==> kept[0] in keptMore;
    if keptMore != [] {
      var days, daysMore := Days(Raw(kept, reference)), Days(Raw(keptMore, reference));
      RawSubset(kept, keptMore, reference);
      DaysOfSubset(Raw(kept, reference), Raw(keptMore, reference));
      SubsetSize(days, daysMore);
      YearsMonotone(|days|, |daysMore|);
      ConfidenceMonotone(Years(|days|), Years(|daysMore|), required);
      RoundMonotone(Confidence(Years(|days|), required), Confidence(Years(|daysMore|), required), 1000);
      RoundZero(1000);
      RoundMonotone(0.0, Confidence(Years(|daysMore|), required), 1000);
    }
  }

  lemma RawSubset(some: seq<Experience>, more: seq<Experience>, reference: int)
    requires forall e :: e in some ==> e in more
    ensures forall i :: i in Raw(some, reference) ==> i in Raw(more, reference)
  {
    forall i | i in Raw(some, reference) ensures i in Raw(more, reference) {
      var k :| 0 <= k < |some| && Raw(some, reference)[k] == i;
      assert some[k] in more;
      var j :| 0 <= j < |more| && more[j] == some[k];
      assert Raw(more, reference)[j] == i;
    }
  }

  lemma SubsetSize<T>(some: set<T>, more: set<T>)
    requires some <= more
    ensures |some| <= |more|
  {
    assert more == some + (more - some);
  }
}
