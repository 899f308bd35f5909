/** Rescheduling stale results of one owner page by page, with an application cursor. */
module Backfill {
  import opened TextOrder
  import opened Wrappers

  /** What the page finds for one application: its result row, and how the scheduling call would end. */
  datatype Attempt = Scheduled | NotReady | Raised(code: string)

  datatype ResultRow = ResultRow(status: string, versionIsCurrent: bool)

  /** The owner's applications in id order, their result rows, and the outcome of scheduling each. */
  datatype Owner = Owner(ids: seq<string>, results: map<string, ResultRow>, attempt: string -> Attempt)

  datatype Counters = Counters(
    scheduled: nat, skippedCurrent: nat, skippedWithoutResult: nat, skippedNotReady: nat,
    failed: nat, failureCodes: map<string, nat>)

  datatype Page = Page(scanned: seq<string>, counters: Counters, next: Option<string>, hasMore: bool)

  datatype BatchError = BadBatchSize | UserNotFound

  ghost predicate Ordered(ids: seq<string>) {
    forall i, j :: 0 <= i < j < |ids| ==> Lt(ids[i], ids[j])
  }

  predicate Beyond(cursor: Option<string>, id: string) {
    cursor.Some? ==> Lt(cursor.value, id)
  }

  /** `where id > cursor order by id`: of ordered ids, a suffix. */
  function After(ids: seq<string>, cursor: Option<string>): (r: seq<string>)
  {
    if ids == [] || Beyond(cursor, ids[0]) then ids else After(ids[1..], cursor)
  }

  lemma {:induction false} AfterIsQuery(ids: seq<string>, cursor: Option<string>, id: string)
    requires Ordered(ids)
    ensures id in After(ids, cursor) <==> id in ids && Beyond(cursor, id)
  {
    if ids == [] {
    } else {
      if Beyond(cursor, ids[0]) {
        if id in ids && cursor.Some? {
          var k :| 0 <= k < |ids| && ids[k] == id;
          if k > 0 {
            assert Lt(ids[0], ids[k]);
            LtTransitive(cursor.value, ids[0], id);
          }
        }
      } else {
        AfterIsQuery(ids[1..], cursor, id);
        assert id in ids <==> id == ids[0] || id in ids[1..];
      }
    }
  }

  // ----- one page

  predicate IsCurrent(r: ResultRow) {
    r.status != "stale" && r.status != "failed" && r.versionIsCurrent
  }

  datatype Kind = Done | Current | WithoutResult | Unready | Failure(code: string)

  /** Why an application was scheduled or not. */
  function KindOf(o: Owner, id: string): Kind {
    if id !in o.results then WithoutResult
    else if IsCurrent(o.results[id]) then Current
    else match o.attempt(id)
      case Scheduled => Done
      case NotReady => Unready
      case Raised(code) => Failure(code)
  }

  /** Scheduling is tried exactly for results that are stale, failed or of another source version. */
  lemma AttemptedIff(o: Owner, id: string)
    ensures
      var kind := KindOf(o, id);
      && (kind in {WithoutResult, Current}
          <==> id !in o.results || (o.results[id].versionIsCurrent && o.results[id].status !in {"stale", "failed"}))
      && (kind == WithoutResult <==> id !in o.results)
      && (kind !in {WithoutResult, Current} ==>
           && (kind == Done <==> o.attempt(id) == Scheduled) && (kind == Unready <==> o.attempt(id) == NotReady)
           && forall code :: kind == Failure(code) <==> o.attempt(id) == Raised(code))
  {
  }

  function CountKind(o: Owner, ids: seq<string>, kind: Kind): nat {
    if ids == [] then 0
    else CountKind(o, ids[..|ids| - 1], kind) + if KindOf(o, ids[|ids| - 1]) == kind then 1 else 0
  }

  function CountFailures(o: Owner, ids: seq<string>): nat {
    if ids == [] then 0
    else CountFailures(o, ids[..|ids| - 1]) + if KindOf(o, ids[|ids| - 1]).Failure? then 1 else 0
  }

  ghost predicate CodesOk(o: Owner, ids: seq<string>, codes: map<string, nat>) {
    forall code :: Get(codes, code) == CountKind(o, ids, Failure(code))
  }

  function Get(codes: map<string, nat>, code: string): nat {
    if code in codes then codes[code] else 0
  }

  lemma CountsGrow(o: Owner, ids: seq<string>, id: string)
    ensures forall kind ::
      CountKind(o, ids + [id], kind) == CountKind(o, ids, kind) + if KindOf(o, id) == kind then 1 else 0
    ensures CountFailures(o, ids + [id]) == CountFailures(o, ids) + if KindOf(o, id).Failure? then 1 else 0
  {
    assert (ids + [id])[..|ids|] == ids;
  }

  /** The counters say how often each kind occurs among the applications. */
  ghost predicate Counted(o: Owner, ids: seq<string>, c: Counters) {
    && c.scheduled == CountKind(o, ids, Done)
    && c.skippedCurrent == CountKind(o, ids, Current)
    && c.skippedWithoutResult == CountKind(o, ids, WithoutResult)
    && c.skippedNotReady == CountKind(o, ids, Unready)
    && c.failed == CountFailures(o, ids)
    && CodesOk(o, ids, c.failureCodes)
  }

  function Min(a: int, b: int): int {
    if a <= b then a else b
  }

  /** `owner` is None for an unknown user. */
  method ScheduleStaleOwnerResults(owner: Option<Owner>, batch: int, cursor: Option<string>)
      returns (r: Result<Page, BatchError>)
    ensures r == Err(BadBatchSize) <==> !(1 <= batch <= 100)
    ensures r == Err(UserNotFound) <==> 1 <= batch <= 100 && owner.None?
    ensures r.Ok? ==> owner.Some? && IsPage(After(owner.value.ids, cursor), batch, cursor, r.value)
    ensures r.Ok? ==> Counted(owner.value, r.value.scanned, r.value.counters)
  {
    if batch < 1 || batch > 100 {
      return Err(BadBatchSize);
    }
    if owner.None? {
      return Err(UserNotFound);
    }
    var rest := After(owner.value.ids, cursor);
    var rows := rest[..Min(batch + 1, |rest|)];
    var scanned := rows[..Min(batch, |rows|)];
    assert scanned == rest[..Min(batch, |rest|)];
    var counters := CountOutcomes(owner.value, scanned);
    r := Ok(Page(scanned, counters, if scanned == [] then cursor else Some(scanned[|scanned| - 1]), |rows| > batch));
  }

  /** The next applications, the cursor behind them, and whether any are left. */
  ghost predicate IsPage(rest: seq<string>, batch: int, cursor: Option<string>, p: Page) {
    && batch >= 1 && p.scanned == rest[..Min(batch, |rest|)]
    && p.next == (if p.scanned == [] then cursor else Some(p.scanned[|p.scanned| - 1]))
    && p.hasMore == (|rest| > batch)
  }

  /** One application's contribution. */
  function Add(c: Counters, kind: Kind): Counters {
    match kind
    case Done => c.(scheduled := c.scheduled + 1)
    case Current => c.(skippedCurrent := c.skippedCurrent + 1)
    case WithoutResult => c.(skippedWithoutResult := c.skippedWithoutResult + 1)
    case Unready => c.(skippedNotReady := c.skippedNotReady + 1)
    case Failure(code) =>
      c.(failed := c.failed + 1, failureCodes := c.failureCodes[code := Get(c.failureCodes, code) + 1])
  }

  lemma AddCounts(o: Owner, ids: seq<string>, c: Counters, id: string)
    requires Counted(o, ids, c)
    ensures Counted(o, ids + [id], Add(c, KindOf(o, id)))
  {
    CountsGrow(o, ids, id);
    var codes := Add(c, KindOf(o, id)).failureCodes;
    forall code ensures Get(codes, code) == CountKind(o, ids + [id], Failure(code)) {
      assert Get(c.failureCodes, code) == CountKind(o, ids, Failure(code));
    }
  }

  method CountOutcomes(o: Owner, scanned: seq<string>) returns (c: Counters)
    ensures Counted(o, scanned, c)
  {
    c := Counters(0, 0, 0, 0, 0, map[]);
    for n := 0 to |scanned|
      invariant Counted(o, scanned[..n], c)
    {
      var id := scanned[n];
      assert scanned[..n + 1] == scanned[..n] + [id];
      AddCounts(o, scanned[..n], c, id);
      if id !in o.results {
        c := c.(skippedWithoutResult := c.skippedWithoutResult + 1);
        continue;
      }
      if IsCurrent(o.results[id]) {
        c := c.(skippedCurrent := c.skippedCurrent + 1);
        continue;
      }
      match o.attempt(id)
      case Scheduled => c := c.(scheduled := c.scheduled + 1);
      case NotReady => c := c.(skippedNotReady := c.skippedNotReady + 1);
      case Raised(code) =>
        c := c.(failed := c.failed + 1, failureCodes := c.failureCodes[code := Get(c.failureCodes, code) + 1]);
    }
    assert scanned[..|scanned|] == scanned;
  }

  /** Every scanned application lands in exactly one counter. */
  lemma {:induction false} CountersCoverPage(o: Owner, ids: seq<string>)
    ensures |ids| == CountKind(o, ids, Done) + CountKind(o, ids, Current) + CountKind(o, ids, WithoutResult)
                     + CountKind(o, ids, Unready) + CountFailures(o, ids)
  {
    if ids == [] {
    } else {
      CountersCoverPage(o, ids[..|ids| - 1]);
    }
  }

  ghost function SumOf(codes: map<string, nat>, keys: set<string>): nat
    requires keys <= codes.Keys
  {
    if keys == {} then 0 else
      var code :| code in keys;
      codes[code] + SumOf(codes, keys - {code})
  }

  function CountIn(o: Owner, ids: seq<string>, codes: set<string>): nat {
    if ids == [] then 0
    else
      var kind := KindOf(o, ids[|ids| - 1]);
      CountIn(o, ids[..|ids| - 1], codes) + if kind.Failure? && kind.code in codes then 1 else 0
  }

  lemma {:induction false} CountInSplit(o: Owner, ids: seq<string>, codes: set<string>, code: string)
    requires code in codes
    ensures CountIn(o, ids, codes) == CountKind(o, ids, Failure(code)) + CountIn(o, ids, codes - {code})
  {
    if ids == [] {
    } else {
      CountInSplit(o, ids[..|ids| - 1], codes, code);
    }
  }

  lemma {:induction false} CountInNothing(o: Owner, ids: seq<string>)
    ensures CountIn(o, ids, {}) == 0
  {
    if ids == [] {
    } else {
      CountInNothing(o, ids[..|ids| - 1]);
    }
  }

  lemma {:induction false} CountInAll(o: Owner, ids: seq<string>, codes: set<string>)
    requires forall k :: 0 <= k < |ids| && KindOf(o, ids[k]).Failure? ==> KindOf(o, ids[k]).code in codes
    ensures CountIn(o, ids, codes) == CountFailures(o, ids)
  {
    if ids == [] {
    } else {
      CountInAll(o, ids[..|ids| - 1], codes);
    }
  }

  lemma {:induction false} SumIsCountIn(o: Owner, ids: seq<string>, codes: map<string, nat>, keys: set<string>)
    requires CodesOk(o, ids, codes) && keys <= codes.Keys
    ensures SumOf(codes, keys) == CountIn(o, ids, keys)
    decreases keys
  {
    if keys == {} {
      CountInNothing(o, ids);
    } else {
      var code :| code in keys && SumOf(codes, keys) == codes[code] + SumOf(codes, keys - {code});
      SumIsCountIn(o, ids, codes, keys - {code});
      CountInSplit(o, ids, keys, code);
      assert Get(codes, code) == codes[code];
    }
  }

  lemma {:induction false} CountAtLeastOne(o: Owner, ids: seq<string>, k: nat)
    requires k < |ids|
    ensures CountKind(o, ids, KindOf(o, ids[k])) > 0
  {
    if k >= |ids| - 1 {
    } else {
      CountAtLeastOne(o, ids[..|ids| - 1], k);
    }
  }

  /** On every page: scanned = scheduled + skipped + failed, and the failure codes sum to failed. */
  lemma PageAddsUp(o: Owner, ids: seq<string>, c: Counters)
    requires Counted(o, ids, c)
    ensures |ids| == c.scheduled + c.skippedCurrent + c.skippedWithoutResult + c.skippedNotReady + c.failed
    ensures SumOf(c.failureCodes, c.failureCodes.Keys) == c.failed
  {
    CountersCoverPage(o, ids);
    SumIsCountIn(o, ids, c.failureCodes, c.failureCodes.Keys);
    forall k | 0 <= k < |ids| && KindOf(o, ids[k]).Failure? ensures KindOf(o, ids[k]).code in c.failureCodes {
      CountAtLeastOne(o, ids, k);
      assert Get(c.failureCodes, KindOf(o, ids[k]).code) > 0;
    }
    CountInAll(o, ids, c.failureCodes.Keys);
  }

  // ----- following the cursor

  /** Calls the page operation until it reports no more; the batch size may change from call to call. */
  method FollowCursor(o: Owner, batches: nat -> int) returns (visited: seq<string>, calls: nat)
    requires Ordered(o.ids) && forall n :: 1 <= batches(n) <= 100
    ensures visited == o.ids
    ensures calls <= 1 + |o.ids|
  {
    visited, calls := [], 0;
    var cursor := None;
    var more := true;
    assert After(o.ids, None) == o.ids;
    while more
      invariant visited + After(o.ids, cursor) == o.ids
      invariant !more ==> After(o.ids, cursor) == []
      invariant calls <= |visited| + (if more then 0 else 1)
      decreases more, |After(o.ids, cursor)|
    {
      assert 1 <= batches(calls) <= 100;
      var r := ScheduleStaleOwnerResults(Some(o), batches(calls), cursor);
      assert r.Ok? by {
        match r
        case Err(BadBatchSize) =>
        case Err(UserNotFound) =>
        case Ok(_) =>
      }
      var page := r.value;
      PageAdvances(o.ids, visited, cursor, batches(calls), page);
      visited := visited + page.scanned;
      calls := calls + 1;
      cursor, more := page.next, page.hasMore;
    }
    assert visited + [] == visited;
  }

  lemma PageAdvances(ids: seq<string>, visited: seq<string>, cursor: Option<string>, batch: int, page: Page)
    requires Ordered(ids) && visited + After(ids, cursor) == ids
    requires IsPage(After(ids, cursor), batch, cursor, page)
    ensures Advanced(ids, visited, After(ids, cursor), page, After(ids, page.next))
  {
    PageTakes(ids, visited, After(ids, cursor), batch, cursor, page);
    NextPage(ids, visited, cursor, page);
    TakeAdvances(ids, visited, After(ids, cursor), batch, cursor, page, After(ids, page.next));
  }

  lemma NextPage(ids: seq<string>, visited: seq<string>, cursor: Option<string>, page: Page)
    requires Ordered(ids) && |visited| + |page.scanned| <= |ids|
    requires page.scanned == [] ==> page.next == cursor
    requires page.scanned != [] ==> page.next == Some(ids[|visited| + |page.scanned| - 1])
    ensures page.scanned == [] ==> After(ids, page.next) == After(ids, cursor)
    ensures page.scanned != [] ==> After(ids, page.next) == ids[|visited| + |page.scanned|..]
  {
    if page.scanned != [] {
      AfterAdvances(ids, |visited|, |page.scanned|, page.next.value);
    }
  }

  /** One page moves its applications from what is left to what was visited. */
  ghost predicate Advanced(ids: seq<string>, visited: seq<string>, before: seq<string>, page: Page,
      later: seq<string>) {
    && visited + page.scanned + later == ids
    && (page.hasMore ==> page.scanned != [])
    && (!page.hasMore ==> later == [])
    && |later| == |before| - |page.scanned|
  }

  lemma PageTakes(ids: seq<string>, visited: seq<string>, rest: seq<string>, batch: int, cursor: Option<string>,
      page: Page)
    requires visited + rest == ids && IsPage(rest, batch, cursor, page)
    ensures |visited| + |page.scanned| <= |ids|
    ensures page.scanned == [] ==> rest == [] && page.next == cursor
    ensures page.scanned != [] ==> page.next == Some(ids[|visited| + |page.scanned| - 1])
  {
    var n := |page.scanned|;
    if n > 0 {
      assert page.scanned[n - 1] == rest[n - 1] == ids[|visited| + n - 1];
    }
  }

  lemma TakeAdvances(ids: seq<string>, visited: seq<string>, rest: seq<string>, batch: int, cursor: Option<string>,
                     page: Page, later: seq<string>)
    requires visited + rest == ids && IsPage(rest, batch, cursor, page)
    requires later == if page.scanned == [] then rest else ids[|visited| + |page.scanned|..]
    ensures Advanced(ids, visited, rest, page, later)
  {
    var n := |page.scanned|;
    assert later == rest[n..];
    assert rest[..n] + rest[n..] == rest;
    assert visited + rest[..n] + rest[n..] == visited + (rest[..n] + rest[n..]);
  }

  /** The ids after the last one of a page are the ones that follow it. */
  lemma AfterAdvances(ids: seq<string>, start: nat, n: nat, last: string)
    requires Ordered(ids) && n > 0 && start + n <= |ids| && last == ids[start + n - 1]
    ensures After(ids, Some(last)) == ids[start + n..]
  {
    AfterAt(ids, start + n - 1, 0);
    assert ids[0..] == ids;
  }

  lemma {:induction false} AfterAt(ids: seq<string>, last: nat, from: nat)
    requires Ordered(ids) && last < |ids| && from <= last + 1
    ensures After(ids[from..], Some(ids[last])) == ids[last + 1..]
    decreases last + 1 - from
  {
    if from <= last {
      assert ids[from..][0] == ids[from] && ids[from..][1..] == ids[from + 1..];
      assert !Lt(ids[last], ids[from]) by {
        if from < last {
          assert Lt(ids[from], ids[last]);
          if Leq(ids[last], ids[from]) {
            LeqAntisymmetric(ids[last], ids[from]);
          }
        }
      }
      AfterAt(ids, last, from + 1);
    } else if from < |ids| {
      assert ids[from..][0] == ids[from] && Lt(ids[last], ids[from]);
    }
  }
}
