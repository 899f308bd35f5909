/** Annotation rules: one identity per judged pair, and a review queue no company can fill. */
module Annotation {
  import opened TextOrder
  import opened Wrappers

  // ----- pairwise judgements

  const A_BETTER := "a_better"
  const B_BETTER := "b_better"
  const BOTH_EQUAL := "both_equal"
  const NEITHER := "neither"

  datatype InvalidAnnotation = InvalidLabel | SameVacancy

  datatype CanonicalPair = CanonicalPair(
    first: string, second: string, verdict: string, firstReasons: seq<string>, secondReasons: seq<string>)

  predicate IsLabel(verdict: string) {
    verdict == A_BETTER || verdict == B_BETTER || verdict == BOTH_EQUAL || verdict == NEITHER
  }

  function Flip(verdict: string): string {
    if verdict == A_BETTER then B_BETTER else if verdict == B_BETTER then A_BETTER else verdict
  }

  function CanonicalizePair(a: string, b: string, preference: string, aReasons: seq<string>, bReasons: seq<string>)
    : Result<CanonicalPair, InvalidAnnotation>
  {
    if !IsLabel(preference) then Err(InvalidLabel)
    else if a == b then Err(SameVacancy)
    else if Lt(a, b) then Ok(CanonicalPair(a, b, preference, aReasons, bReasons))
    else Ok(CanonicalPair(b, a, Flip(preference), bReasons, aReasons))
  }

  /** (winner, loser), when the label states an order. */
  function TrainingPair(first: Option<string>, second: Option<string>, verdict: string): Option<(string, string)> {
    if first.None? || second.None? || !(verdict == A_BETTER || verdict == B_BETTER) then None
    else if verdict == A_BETTER then Some((first.value, second.value))
    else Some((second.value, first.value))
  }

  /** A judgement has one identity, whichever vacancy was shown first. */
  lemma ShownOrderIsIrrelevant(a: string, b: string, preference: string, aReasons: seq<string>, bReasons: seq<string>)
    ensures CanonicalizePair(a, b, preference, aReasons, bReasons)
         == CanonicalizePair(b, a, Flip(preference), bReasons, aReasons)
  {
    LeqTotal(a, b);
    if a != b && Leq(a, b) && Leq(b, a) {
      LeqAntisymmetric(a, b);
    }
  }

  /** The stored pair trains on exactly the vacancy the person preferred, and keeps its reasons with it. */
  lemma PreferenceSurvives(a: string, b: string, preference: string, aReasons: seq<string>, bReasons: seq<string>)
    requires IsLabel(preference) && a != b
    ensures
      var r := CanonicalizePair(a, b, preference, aReasons, bReasons);
      && r.Ok? && Lt(r.value.first, r.value.second) && {r.value.first, r.value.second} == {a, b}
      && TrainingPair(Some(r.value.first), Some(r.value.second), r.value.verdict)
         == (if preference == A_BETTER then Some((a, b)) else if preference == B_BETTER then Some((b, a)) else None)
      && (if r.value.first == a then r.value.firstReasons == aReasons && r.value.secondReasons == bReasons
          else r.value.firstReasons == bReasons && r.value.secondReasons == aReasons)
  {
    LeqTotal(a, b);
  }

  /** A pair is refused for an unknown label first, then for naming one vacancy twice. */
  lemma PairRefusedIff(a: string, b: string, preference: string, aReasons: seq<string>, bReasons: seq<string>)
    ensures
      var r := CanonicalizePair(a, b, preference, aReasons, bReasons);
      && (r == Err(InvalidLabel) <==> preference !in {A_BETTER, B_BETTER, BOTH_EQUAL, NEITHER})
      && (r == Err(SameVacancy) <==> (preference in {A_BETTER, B_BETTER, BOTH_EQUAL, NEITHER} && a == b))
  {
  }

  // ----- the diversity-limited queue

  datatype ShareError = ShareError

  function Ceil(x: real): int {
    if x == x.Floor as real then x.Floor else x.Floor + 1
  }

  /** `int(x)`: towards zero. */
  function Truncate(x: real): int {
    if x >= 0.0 then x.Floor else -(-x).Floor
  }

  function Cap(limit: int, maxShare: real): (cap: nat)
    ensures cap >= 1 && limit as real * maxShare < cap as real + 1.0
    ensures cap == 1 || cap as real <= limit as real * maxShare
  {
    var share := Truncate(limit as real * maxShare);
    if share >= 1 then share else 1
  }

  /** `items[:limit]`, with Python's meaning of a negative bound. */
  function Slice<T>(items: seq<T>, limit: int): seq<T> {
    if limit >= |items| then items
    else if limit >= 0 then items[..limit]
    else if |items| + limit >= 0 then items[..|items| + limit]
    else []
  }

  /** Positions in the queue, in order. */
  ghost predicate Selection<T>(items: seq<T>, chosen: seq<nat>) {
    && (forall k :: 0 <= k < |chosen| ==> chosen[k] < |items|)
    && (forall j, k :: 0 <= j < k < |chosen| ==> chosen[j] < chosen[k])
  }

  ghost function Picked<T>(items: seq<T>, chosen: seq<nat>): seq<T>
    requires Selection(items, chosen)
  {
    seq(|chosen|, k requires 0 <= k < |chosen| => items[chosen[k]])
  }

  /** How often each bucket occurs. */
  ghost function Buckets<T>(items: seq<T>, bucket: T -> string): multiset<string> {
    if items == [] then multiset{} else
      Buckets(items[..|items| - 1], bucket) + multiset{bucket(items[|items| - 1])}
  }

  ghost predicate Capped(buckets: multiset<string>, cap: nat) {
    forall b :: buckets[b] <= cap
  }

  /** A selection that respects the cap and the limit. */
  ghost predicate Admissible<T>(items: seq<T>, bucket: T -> string, cap: nat, limit: nat, chosen: seq<nat>) {
    Selection(items, chosen) && Capped(Buckets(Picked(items, chosen), bucket), cap) && |chosen| <= limit
  }

  predicate Diversifiable<T>(items: seq<T>, bucket: T -> string, maxShare: real)
    requires maxShare > 0.0
  {
    |set k | 0 <= k < |items| :: bucket(items[k])| >= Ceil(1.0 / maxShare)
  }

  /** The buckets suffice when, each filled with its share, they would fill the whole queue. */
  lemma DiversifiableIff<T>(items: seq<T>, bucket: T -> string, maxShare: real)
    requires 0.0 < maxShare <= 1.0
    ensures Diversifiable(items, bucket, maxShare)
       <==> |set k | 0 <= k < |items| :: bucket(items[k])| as real * maxShare >= 1.0
  {
    EnoughShares(|set k | 0 <= k < |items| :: bucket(items[k])|, maxShare);
  }

  lemma EnoughShares(n: int, share: real)
    requires share > 0.0
    ensures n >= Ceil(1.0 / share) <==> n as real * share >= 1.0
  {
    var whole := 1.0 / share;
    assert whole * share == 1.0;
    assert (n as real - whole) * share == n as real * share - 1.0;
    assert n >= Ceil(whole) <==> n as real >= whole;
    SameSign(n as real - whole, share);
  }

  lemma SameSign(d: real, share: real)
    requires share > 0.0
    ensures d >= 0.0 <==> d * share >= 0.0
  {
    assert d < 0.0 ==> (-d) * share > 0.0;
  }

  /** A plain slice keeps the front: `limit` items, or all but as many as a negative limit says. */
  lemma SliceIsFront<T>(items: seq<T>, limit: int)
    ensures Slice(items, limit) <= items
    ensures limit >= 0 ==> |Slice(items, limit)| == Smaller(limit, |items|)
    ensures limit < 0 ==> |Slice(items, limit)| == if -limit <= |items| then |items| + limit else 0
  {
  }

  function AtLeastOne(limit: int): nat {
    if limit >= 1 then limit else 1
  }

  /**
   * In the diversified branch the result is a selection in queue order that respects the cap. Its
   * length is the limit or, if that is less, the sum over the buckets of their size up to the cap;
   * so no other selection that respects both is longer. An item is left out
   * only because its bucket was full before it or the limit was reached before it. A limit below
   * one still lets one item through there.
   */
  method LimitBucketDominance<T>(items: seq<T>, bucket: T -> string, limit: int, maxShare: real)
    returns (r: Result<seq<T>, ShareError>, ghost chosen: seq<nat>)
    ensures r.Err? <==> !(0.0 < maxShare <= 1.0)
    ensures r.Ok? && !Diversifiable(items, bucket, maxShare) ==> r.value == Slice(items, limit)
    ensures r.Ok? && Diversifiable(items, bucket, maxShare) ==>
      && Selection(items, chosen) && r.value == Picked(items, chosen)
      && |chosen| <= AtLeastOne(limit) && Capped(Buckets(r.value, bucket), Cap(limit, maxShare))
    ensures r.Ok? && Diversifiable(items, bucket, maxShare) ==>
      |r.value| == Smaller(AtLeastOne(limit), |Trimmed(Buckets(items, bucket), Cap(limit, maxShare))|)
    ensures r.Ok? && Diversifiable(items, bucket, maxShare) ==>
      forall other :: Admissible(items, bucket, Cap(limit, maxShare), AtLeastOne(limit), other) ==> |other| <= |chosen|
    ensures r.Ok? && Diversifiable(items, bucket, maxShare) ==>
      forall n :: 0 <= n < |items| && n !in chosen ==>
        LeftOut(items, bucket, Cap(limit, maxShare), limit, chosen, r.value, n)
  {
    chosen := [];
    if !(0.0 < maxShare <= 1.0) {
      return Err(ShareError), chosen;
    }
    if !Diversifiable(items, bucket, maxShare) {
      return Ok(Slice(items, limit)), chosen;
    }
    var cap := Cap(limit, maxShare);
    var kept;
    kept, chosen := TakeGreedily(items, bucket, limit, cap);
    GreedyLength(items, bucket, cap, limit, chosen, kept);
    r := Ok(kept);
    forall other | Admissible(items, bucket, cap, AtLeastOne(limit), other) ensures |other| <= |chosen| {
      if |chosen| < AtLeastOne(limit) {
        GreedyIsLongest(items, bucket, cap, chosen, other);
      }
    }
  }

  /** The bucket of item `n` was already full with kept items that come before it. */
  ghost predicate BucketFull<T>(items: seq<T>, bucket: T -> string, cap: nat, chosen: seq<nat>, kept: seq<T>, n: nat)
    requires |kept| == |chosen| && n < |items|
  {
    exists j :: FullAt(items, bucket, cap, chosen, kept, n, j)
  }

  ghost predicate FullAt<T>(items: seq<T>, bucket: T -> string, cap: nat, chosen: seq<nat>, kept: seq<T>, n: nat,
      j: int)
    requires |kept| == |chosen| && n < |items|
  {
    0 <= j <= |chosen| && (forall k :: 0 <= k < j ==> chosen[k] < n)
      && Buckets(kept[..j], bucket)[bucket(items[n])] >= cap
  }

  ghost predicate LeftOut<T>(items: seq<T>, bucket: T -> string, cap: nat, limit: int, chosen: seq<nat>, kept: seq<T>,
      n: nat)
    requires |kept| == |chosen| && n < |items|
  {
    || BucketFull(items, bucket, cap, chosen, kept, n)
    || (|chosen| == AtLeastOne(limit) && forall k :: 0 <= k < |chosen| ==> chosen[k] < n)
  }

  ghost predicate PassedOver<T>(items: seq<T>, bucket: T -> string, cap: nat, chosen: seq<nat>, kept: seq<T>, n: nat)
    requires |kept| == |chosen| && n <= |items|
  {
    forall m: nat :: m < n && m !in chosen ==> BucketFull(items, bucket, cap, chosen, kept, m)
  }

  lemma PassedOverOneMore<T>(items: seq<T>, bucket: T -> string, cap: nat, chosen: seq<nat>, kept: seq<T>, n: nat)
    requires |kept| == |chosen| && n < |items| && PassedOver(items, bucket, cap, chosen, kept, n)
    requires Buckets(kept, bucket)[bucket(items[n])] >= cap && forall k :: 0 <= k < |chosen| ==> chosen[k] < n
    ensures PassedOver(items, bucket, cap, chosen, kept, n + 1)
  {
    assert kept[..|chosen|] == kept;
    assert FullAt(items, bucket, cap, chosen, kept, n, |chosen|);
  }

  lemma PassedOverTaken<T>(items: seq<T>, bucket: T -> string, cap: nat, chosen: seq<nat>, kept: seq<T>, n: nat)
    requires |kept| == |chosen| && n < |items| && PassedOver(items, bucket, cap, chosen, kept, n)
    ensures PassedOver(items, bucket, cap, chosen + [n], kept + [items[n]], n + 1)
  {
    forall m: nat | m < n + 1 && m !in chosen + [n]
      ensures BucketFull(items, bucket, cap, chosen + [n], kept + [items[n]], m) {
      assert (chosen + [n])[|chosen|] == n;
      var j :| FullAt(items, bucket, cap, chosen, kept, m, j);
      assert (kept + [items[n]])[..j] == kept[..j];
      assert FullAt(items, bucket, cap, chosen + [n], kept + [items[n]], m, j);
    }
  }

  /** What was kept after the first `n` items: of each bucket as many as there were, up to the cap. */
  ghost predicate Filled<T>(items: seq<T>, bucket: T -> string, cap: nat, kept: seq<T>) {
    FilledUp(Buckets(items, bucket), Buckets(kept, bucket), cap)
  }

  ghost predicate FilledUp(all: multiset<string>, mine: multiset<string>, cap: nat) {
    forall b :: mine[b] == if all[b] <= cap then all[b] else cap
  }

  ghost predicate CountedBy(taken: map<string, nat>, buckets: multiset<string>) {
    forall b :: buckets[b] == Get(taken, b)
  }

  function Get(taken: map<string, nat>, key: string): nat {
    if key in taken then taken[key] else 0
  }

  lemma CountedStep(taken: map<string, nat>, buckets: multiset<string>, key: string)
    requires CountedBy(taken, buckets)
    ensures CountedBy(taken[key := Get(taken, key) + 1], buckets + multiset{key})
  {
  }

  /** The state of the loop after the first `n` items. */
  ghost predicate Took<T>(
      items: seq<T>, bucket: T -> string, cap: nat, n: nat, chosen: seq<nat>, kept: seq<T>, taken: map<string, nat>)
    requires n <= |items|
  {
    && Selection(items[..n], chosen) && kept == Picked(items[..n], chosen)
    && CountedBy(taken, Buckets(kept, bucket)) && Filled(items[..n], bucket, cap, kept)
    && PassedOver(items, bucket, cap, chosen, kept, n)
  }

  /**
   * In queue order, within cap and limit, every bucket filled unless the limit was reached, nothing
   * skipped without need.
   */
  ghost predicate Greedy<T>(items: seq<T>, bucket: T -> string, cap: nat, limit: int, chosen: seq<nat>, kept: seq<T>) {
    && Selection(items, chosen) && kept == Picked(items, chosen)
    && |chosen| <= AtLeastOne(limit) && Capped(Buckets(kept, bucket), cap)
    && (|chosen| < AtLeastOne(limit) ==> Filled(items, bucket, cap, kept))
    && forall n :: 0 <= n < |items| && n !in chosen ==> LeftOut(items, bucket, cap, limit, chosen, kept, n)
  }

  method TakeGreedily<T>(items: seq<T>, bucket: T -> string, limit: int, cap: nat)
      returns (kept: seq<T>, ghost chosen: seq<nat>)
    requires cap >= 1
    ensures Greedy(items, bucket, cap, limit, chosen, kept)
    ensures |kept| <= AtLeastOne(limit) && Capped(Buckets(kept, bucket), cap)
  {
    var taken: map<string, nat> := map[];
    kept, chosen := [], [];
    TookNothing(items, bucket, cap);
    for n := 0 to |items|
      invariant Took(items, bucket, cap, n, chosen, kept, taken)
      invariant |chosen| == |kept| < AtLeastOne(limit)
    {
      var took;
      took, kept, taken, chosen := TakeOrSkip(items, bucket, cap, n, kept, taken, chosen);
      if took && |kept| >= limit {
        TookAll(items, bucket, cap, limit, n + 1, chosen, kept, taken);
        return;
      }
    }
    TookAll(items, bucket, cap, limit, |items|, chosen, kept, taken);
  }

  /** One turn of the loop up to the limit check. */
  method TakeOrSkip<T>(
      items: seq<T>, bucket: T -> string, cap: nat, n: nat, before: seq<T>, counts: map<string, nat>,
      ghost positions: seq<nat>)
    returns (took: bool, kept: seq<T>, taken: map<string, nat>, ghost chosen: seq<nat>)
    requires n < |items| && Took(items, bucket, cap, n, positions, before, counts)
    ensures Took(items, bucket, cap, n + 1, chosen, kept, taken)
    ensures took <==> Get(counts, bucket(items[n])) < cap
    ensures chosen == (if took then positions + [n] else positions)
      && kept == if took then before + [items[n]] else before
  {
    kept, taken, chosen := before, counts, positions;
    var key := bucket(items[n]);
    took := Get(taken, key) < cap;
    if took {
      TookOne(items, bucket, cap, n, chosen, kept, taken);
      taken := taken[key := Get(taken, key) + 1];
      kept, chosen := kept + [items[n]], chosen + [n];
    } else {
      TookSkip(items, bucket, cap, n, chosen, kept, taken);
    }
  }

  lemma TookNothing<T>(items: seq<T>, bucket: T -> string, cap: nat)
    ensures Took(items, bucket, cap, 0, [], [], map[])
  {
  }

  lemma TookSkip<T>(
      items: seq<T>, bucket: T -> string, cap: nat, n: nat, chosen: seq<nat>, kept: seq<T>, taken: map<string, nat>)
    requires n < |items| && Took(items, bucket, cap, n, chosen, kept, taken) && Get(taken, bucket(items[n])) >= cap
    ensures Took(items, bucket, cap, n + 1, chosen, kept, taken)
  {
    SelectionGrows(items, chosen, n);
    assert Buckets(kept, bucket)[bucket(items[n])] == Get(taken, bucket(items[n]));
    FilledSkip(items, bucket, cap, kept, n);
    PassedOverOneMore(items, bucket, cap, chosen, kept, n);
  }

  lemma TookOne<T>(
      items: seq<T>, bucket: T -> string, cap: nat, n: nat, chosen: seq<nat>, kept: seq<T>, taken: map<string, nat>)
    requires n < |items| && Took(items, bucket, cap, n, chosen, kept, taken) && Get(taken, bucket(items[n])) < cap
    ensures Took(items, bucket, cap, n + 1, chosen + [n], kept + [items[n]],
                 taken[bucket(items[n]) := Get(taken, bucket(items[n])) + 1])
  {
    var key := bucket(items[n]);
    SelectionGrows(items, chosen, n);
    assert Buckets(kept, bucket)[key] == Get(taken, key);
    FilledTake(items, bucket, cap, kept, n);
    BucketsAppend(kept, items[n], bucket);
    CountedStep(taken, Buckets(kept, bucket), key);
    PassedOverTaken(items, bucket, cap, chosen, kept, n);
  }

  lemma TookAll<T>(
      items: seq<T>, bucket: T -> string, cap: nat, limit: int, n: nat, chosen: seq<nat>, kept: seq<T>,
      taken: map<string, nat>)
    requires n <= |items| && Took(items, bucket, cap, n, chosen, kept, taken)
    requires n == |items| || |chosen| == AtLeastOne(limit)
    requires |chosen| <= AtLeastOne(limit)
    ensures Greedy(items, bucket, cap, limit, chosen, kept)
  {
    assert items[..|items|] == items;
    PickedPrefix(items, n, chosen);
    FilledIsCapped(items[..n], bucket, cap, kept);
  }

  lemma FilledIsCapped<T>(items: seq<T>, bucket: T -> string, cap: nat, kept: seq<T>)
    requires Filled(items, bucket, cap, kept)
    ensures Capped(Buckets(kept, bucket), cap)
  {
  }

  lemma BucketsAppend<T>(items: seq<T>, item: T, bucket: T -> string)
    ensures Buckets(items + [item], bucket) == Buckets(items, bucket) + multiset{bucket(item)}
  {
    assert (items + [item])[..|items|] == items;
  }

  lemma FilledSkip<T>(items: seq<T>, bucket: T -> string, cap: nat, kept: seq<T>, n: nat)
    requires n < |items| && Filled(items[..n], bucket, cap, kept)
    requires Buckets(kept, bucket)[bucket(items[n])] >= cap
    ensures Filled(items[..n + 1], bucket, cap, kept)
  {
    assert items[..n + 1] == items[..n] + [items[n]];
    BucketsAppend(items[..n], items[n], bucket);
  }

  lemma FilledTake<T>(items: seq<T>, bucket: T -> string, cap: nat, kept: seq<T>, n: nat)
    requires n < |items| && Filled(items[..n], bucket, cap, kept)
    requires Buckets(kept, bucket)[bucket(items[n])] < cap
    ensures Filled(items[..n + 1], bucket, cap, kept + [items[n]])
  {
    assert items[..n + 1] == items[..n] + [items[n]];
    BucketsAppend(items[..n], items[n], bucket);
    BucketsAppend(kept, items[n], bucket);
    FillOne(Buckets(items[..n], bucket), Buckets(kept, bucket), cap, bucket(items[n]));
  }

  lemma FillOne(all: multiset<string>, mine: multiset<string>, cap: nat, key: string)
    requires mine[key] < cap && FilledUp(all, mine, cap)
    ensures FilledUp(all + multiset{key}, mine + multiset{key}, cap)
  {
    var more, taken := all + multiset{key}, mine + multiset{key};
    forall b ensures taken[b] == if more[b] <= cap then more[b] else cap {
      assert mine[b] == if all[b] <= cap then all[b] else cap;
    }
  }

  lemma SelectionGrows<T>(items: seq<T>, chosen: seq<nat>, n: nat)
    requires n < |items| && Selection(items[..n], chosen)
    ensures Selection(items[..n + 1], chosen) && Picked(items[..n + 1], chosen) == Picked(items[..n], chosen)
    ensures Selection(items[..n + 1], chosen + [n])
    ensures Picked(items[..n + 1], chosen + [n]) == Picked(items[..n], chosen) + [items[n]]
  {
  }

  lemma PickedPrefix<T>(items: seq<T>, n: nat, chosen: seq<nat>)
    requires n <= |items| && Selection(items[..n], chosen)
    ensures Selection(items, chosen) && Picked(items, chosen) == Picked(items[..n], chosen)
  {
  }

  lemma PickedLast<T>(items: seq<T>, bucket: T -> string, other: seq<nat>)
    requires Selection(items, other) && other != [] && other[|other| - 1] == |items| - 1
    ensures Selection(items[..|items| - 1], other[..|other| - 1])
    ensures Buckets(Picked(items, other), bucket)
         == Buckets(Picked(items[..|items| - 1], other[..|other| - 1]), bucket) + multiset{bucket(items[|items| - 1])}
  {
    var n, before := |items| - 1, other[..|other| - 1];
    assert Picked(items, other) == Picked(items[..n], before) + [items[n]];
    BucketsAppend(Picked(items[..n], before), items[n], bucket);
  }

  lemma AddBoth(some: multiset<string>, more: multiset<string>, b: string)
    requires some <= more
    ensures some + multiset{b} <= more + multiset{b} && some <= more + multiset{b}
  {
  }

  /** A selection takes from each bucket at most what is there. */
  lemma {:induction false} SelectionWithin<T>(items: seq<T>, bucket: T -> string, other: seq<nat>)
    requires Selection(items, other)
    ensures Buckets(Picked(items, other), bucket) <= Buckets(items, bucket)
    decreases |items|
  {
    if other == [] {
      assert Picked(items, other) == [];
    } else {
      var n := |items| - 1;
      if other[|other| - 1] == n {
        var before := other[..|other| - 1];
        PickedLast(items, bucket, other);
        SelectionWithin(items[..n], bucket, before);
        AddBoth(Buckets(Picked(items[..n], before), bucket), Buckets(items[..n], bucket), bucket(items[n]));
      } else {
        assert forall k :: 0 <= k < |other| ==> other[k] <= other[|other| - 1];
        SelectionWithin(items[..n], bucket, other);
        PickedPrefix(items, n, other);
        AddBoth(Buckets(Picked(items, other), bucket), Buckets(items[..n], bucket), bucket(items[n]));
      }
    }
  }

  lemma {:induction false} BucketsSize<T>(items: seq<T>, bucket: T -> string)
    ensures |Buckets(items, bucket)| == |items|
  {
    if items == [] {
    } else {
      BucketsSize(items[..|items| - 1], bucket);
    }
  }

  function Smaller(a: nat, b: nat): nat {
    if a <= b then a else b
  }

  /** Every bucket cut down to the cap; the size is the sum of min(cap, count). */
  ghost function Trimmed(buckets: multiset<string>, cap: nat): multiset<string>
    decreases |buckets|
  {
    if buckets == multiset{} then multiset{} else
      var b :| b in buckets;
      assert |buckets[b := 0]| < |buckets|;
      Trimmed(buckets[b := 0], cap)[b := Smaller(cap, buckets[b])]
  }

  lemma {:induction false} TrimmedCounts(buckets: multiset<string>, cap: nat, key: string)
    ensures Trimmed(buckets, cap)[key] == Smaller(cap, buckets[key])
    decreases |buckets|
  {
    if buckets == multiset{} {
      var none: multiset<string> := multiset{};
      assert Trimmed(buckets, cap) == none && buckets[key] == none[key] == 0;
    } else {
      var b :| b in buckets && Trimmed(buckets, cap) == Trimmed(buckets[b := 0], cap)[b := Smaller(cap, buckets[b])];
      assert |buckets[b := 0]| < |buckets|;
      TrimmedCounts(buckets[b := 0], cap, key);
      var rest, count := Trimmed(buckets[b := 0], cap), Smaller(cap, buckets[b]);
      if key == b {
        assert rest[b := count][key] == count;
      } else {
        assert buckets[b := 0][key] == buckets[key] && rest[b := count][key] == rest[key];
      }
    }
  }

  /** The greedy loop keeps min(limit, sum over the buckets of min(cap, count)) items. */
  lemma GreedyLength<T>(items: seq<T>, bucket: T -> string, cap: nat, limit: int, chosen: seq<nat>, kept: seq<T>)
    requires Greedy(items, bucket, cap, limit, chosen, kept)
    ensures |kept| == Smaller(AtLeastOne(limit), |Trimmed(Buckets(items, bucket), cap)|)
  {
    SelectionWithin(items, bucket, chosen);
    BucketsSize(kept, bucket);
    TrimmedBounds(Buckets(kept, bucket), Buckets(items, bucket), cap);
  }

  /** Capped buckets are no more than the trimmed ones, and as many once they are filled. */
  lemma TrimmedBounds(mine: multiset<string>, all: multiset<string>, cap: nat)
    requires mine <= all && Capped(mine, cap)
    ensures |mine| <= |Trimmed(all, cap)|
    ensures (forall b :: mine[b] == Smaller(cap, all[b])) ==> |mine| == |Trimmed(all, cap)|
  {
    var trimmed := Trimmed(all, cap);
    forall b ensures mine[b] <= trimmed[b] == Smaller(cap, all[b]) {
      TrimmedCounts(all, cap, b);
      assert mine[b] <= cap;
    }
    assert trimmed == mine + (trimmed - mine);
    if forall b :: mine[b] == Smaller(cap, all[b]) {
      assert mine == trimmed;
    }
  }

  /** Filling every bucket up to the cap cannot be beaten. */
  lemma GreedyIsLongest<T>(items: seq<T>, bucket: T -> string, cap: nat, chosen: seq<nat>, other: seq<nat>)
    requires Selection(items, chosen) && Filled(items, bucket, cap, Picked(items, chosen))
    requires Selection(items, other) && Capped(Buckets(Picked(items, other), bucket), cap)
    ensures |other| <= |chosen|
  {
    var mine, theirs := Buckets(Picked(items, chosen), bucket), Buckets(Picked(items, other), bucket);
    SelectionWithin(items, bucket, other);
    assert theirs <= mine;
    assert mine == theirs + (mine - theirs);
    BucketsSize(Picked(items, chosen), bucket);
    BucketsSize(Picked(items, other), bucket);
  }
}
