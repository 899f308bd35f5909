/** What every run of the discovery stream keeps, and what holds when it completes. */
module StreamProofs {
  import opened DiscoveryStream
  import opened Sorting
  import opened Wrappers

  // ----- projections of event sequences

  function Of(events: seq<Event>, source: nat): seq<Body> {
    if events == [] then [] else
      var last := events[|events| - 1];
      Of(events[..|events| - 1], source) + (if last.source == source then [last.body] else [])
  }

  lemma OfAppend(events: seq<Event>, e: Event, source: nat)
    ensures e.source == source ==> Of(events + [e], source) == Of(events, source) + [e.body]
    ensures e.source != source ==> Of(events + [e], source) == Of(events, source)
  {
    assert (events + [e])[..|events|] == events;
  }

  lemma {:induction false} OfConcat(events: seq<Event>, more: seq<Event>, source: nat)
    ensures Of(events + more, source) == Of(events, source) + Of(more, source)
    decreases |more|
  {
    if more == [] {
      assert events + more == events;
    } else {
      var n := |more| - 1;
      OfConcat(events, more[..n], source);
      assert events + more == (events + more[..n]) + [more[n]];
      OfAppend(events + more[..n], more[n], source);
    }
  }

  lemma {:induction false} OfMember(events: seq<Event>, e: Event)
    ensures e in events <==> e.body in Of(events, e.source)
  {
    if events == [] {
    } else {
      var n := |events| - 1;
      OfMember(events[..n], e);
      assert events == events[..n] + [events[n]];
    }
  }

  /** The lines for the client: everything but the internal markers. */
  function Visible(events: seq<Event>): seq<Outgoing> {
    if events == [] then [] else
      var last := events[|events| - 1];
      Visible(events[..|events| - 1]) + (if last.body.SourceFinished? then [] else [Delivered(last)])
  }

  lemma VisibleAppend(events: seq<Event>, e: Event)
    ensures Visible(events + [e]) == Visible(events) + if e.body.SourceFinished? then [] else [Delivered(e)]
  {
    assert (events + [e])[..|events|] == events;
  }

  function Vacancies(bodies: seq<Body>): seq<(int, real)> {
    if bodies == [] then [] else
      var last := bodies[|bodies| - 1];
      Vacancies(bodies[..|bodies| - 1]) + (if last.Vacancy? then [(last.application, last.score)] else [])
  }

  lemma VacanciesAppend(bodies: seq<Body>, b: Body)
    ensures Vacancies(bodies + [b]) == Vacancies(bodies) + if b.Vacancy? then [(b.application, b.score)] else []
  {
    assert (bodies + [b])[..|bodies|] == bodies;
  }

  function Times(bodies: seq<Body>, b: Body): nat {
    if bodies == [] then 0
    else Times(bodies[..|bodies| - 1], b) + if bodies[|bodies| - 1] == b then 1 else 0
  }

  lemma TimesAppend(bodies: seq<Body>, last: Body, b: Body)
    ensures Times(bodies + [last], b) == Times(bodies, b) + if last == b then 1 else 0
  {
    assert (bodies + [last])[..|bodies|] == bodies;
  }

  // ----- the invariant

  ghost predicate NonIncreasing(results: seq<(int, real)>) {
    forall j, k :: 0 <= j < k < |results| ==> results[j].1 >= results[k].1
  }

  /** What direct mode has published for a source in this phase. */
  ghost predicate DirectOutput(cfg: Config, vacancies: seq<(int, real)>, phase: SourcePhase) {
    match phase
    case Discovering => vacancies == []
    case Gathering => vacancies == []
    case Publishing(results, next) =>
      NonIncreasing(results) && next <= |results| && next <= cfg.limit && vacancies == results[..next]
    case _ => |vacancies| <= cfg.limit && NonIncreasing(vacancies)
  }

  /** The events of one source, given how far its task is: completion once, the internal marker once and last. */
  ghost predicate SourceLog(cfg: Config, bodies: seq<Body>, phase: SourcePhase) {
    && Times(bodies, SourceComplete) == (if phase.Draining? || phase.Finished? then 1 else 0)
    && (if phase.Finished?
        then bodies != [] && bodies[|bodies| - 1] == SourceFinished && SourceFinished !in bodies[..|bodies| - 1]
        else SourceFinished !in bodies)
    && (cfg.direct ==> DirectOutput(cfg, Vacancies(bodies), phase))
  }

  ghost predicate SourcesOk(cfg: Config, s: State) {
    && |s.sources| == cfg.sources
    && (forall k :: 0 <= k < |s.put| ==> s.put[k].source < cfg.sources)
    && (forall i: nat :: i < cfg.sources ==> SourceLog(cfg, Of(s.put, i), s.sources[i]))
  }

  /** A child still at work belongs to a source that is not finished. */
  ghost predicate ChildOk(cfg: Config, sources: seq<SourcePhase>, child: Child) {
    && child.source < |sources|
    && (!Ended(child.phase) ==> !sources[child.source].Finished?)
    && (HoldsLock(child.phase) || child.phase.Locking? ==> cfg.ragEnabled)
  }

  ghost predicate ChildrenOk(cfg: Config, s: State) {
    forall c :: 0 <= c < |s.children| ==> ChildOk(cfg, s.sources, s.children[c])
  }

  ghost predicate SemaphoreOk(cfg: Config, s: State) {
    && |s.running| <= cfg.concurrency
    && (forall c :: c in s.running ==> c < |s.children|)
    && (forall c: nat :: c < |s.children| ==>
         (c in s.running <==> !s.children[c].phase.Waiting? && !Ended(s.children[c].phase)))
  }

  ghost predicate LockOk(s: State) {
    && (s.lock.Some? ==> s.lock.value < |s.children|)
    && (forall c: nat :: c < |s.children| ==> (HoldsLock(s.children[c].phase) <==> s.lock == Some(c)))
    && (forall c: nat :: c < |s.children| && s.children[c].phase.Creating? ==> s.children[c].cv !in s.ingestions)
  }

  ghost predicate StartsOk(s: State) {
    && (forall cv :: cv in s.ingestionStarts <==> cv in s.ingestions)
    && (forall j, k :: 0 <= j < k < |s.ingestionStarts| ==> s.ingestionStarts[j] != s.ingestionStarts[k])
  }

  ghost predicate ProfileOk(s: State) {
    LockOk(s) && StartsOk(s)
  }

  ghost function Marked(cfg: Config, events: seq<Event>): set<nat> {
    set i: nat | i < cfg.sources && Event(i, SourceFinished) in events
  }

  ghost predicate ConsumerOk(cfg: Config, s: State) {
    && s.put == s.taken + s.queue
    && s.finished == |Marked(cfg, s.taken)|
    && s.out == Visible(s.taken) + (if s.completed then [Complete(s.finished)] else [])
    && (s.completed ==> s.finished == cfg.sources)
  }

  ghost predicate Inv(cfg: Config, s: State) {
    SourcesOk(cfg, s) && ChildrenOk(cfg, s) && SemaphoreOk(cfg, s) && ProfileOk(s) && ConsumerOk(cfg, s)
  }

  lemma InitInv(cfg: Config)
    ensures Inv(cfg, Init(cfg))
  {
    var s := Init(cfg);
    forall i: nat | i < cfg.sources ensures SourceLog(cfg, Of(s.put, i), s.sources[i]) {
      assert Of([], i) == [];
    }
    assert Marked(cfg, []) == {};
  }

  // ----- sources

  lemma LogAfterPut(cfg: Config, events: seq<Event>, e: Event, j: nat, phase: SourcePhase, next: SourcePhase)
    requires e.source == j ==> SourceLog(cfg, Of(events, j) + [e.body], next)
    requires e.source != j ==> SourceLog(cfg, Of(events, j), phase) && next == phase
    ensures SourceLog(cfg, Of(events + [e], j), next)
  {
    OfAppend(events, e, j);
  }

  lemma SourcesAfterPut(events: seq<Event>, e: Event, n: nat)
    requires e.source < n && forall k :: 0 <= k < |events| ==> events[k].source < n
    ensures forall k :: 0 <= k < |events + [e]| ==> (events + [e])[k].source < n
  {
  }

  /** One more event of a source, with its new phase, keeps the logs. */
  lemma PutKeepsLogs(cfg: Config, s: State, t: State, i: nat, b: Body)
    requires SourcesOk(cfg, s) && i < cfg.sources
    requires t.put == s.put + [Event(i, b)] && |t.sources| == |s.sources|
    requires forall j :: 0 <= j < |s.sources| && j != i ==> t.sources[j] == s.sources[j]
    requires SourceLog(cfg, Of(s.put, i) + [b], t.sources[i])
    ensures SourcesOk(cfg, t)
  {
    SourcesAfterPut(s.put, Event(i, b), cfg.sources);
    forall j: nat | j < cfg.sources ensures SourceLog(cfg, Of(t.put, j), t.sources[j]) {
      LogAfterPut(cfg, s.put, Event(i, b), j, s.sources[j], t.sources[j]);
    }
  }

  lemma AppendLog(cfg: Config, bodies: seq<Body>, phase: SourcePhase, b: Body)
    requires SourceLog(cfg, bodies, phase) && !phase.Finished?
    ensures b.Enrichment? ==> SourceLog(cfg, bodies + [b], phase)
    ensures b.Vacancy? && !cfg.direct ==> SourceLog(cfg, bodies + [b], phase)
    ensures b.SourceError? && !phase.Draining? && !phase.Completing? ==> SourceLog(cfg, bodies + [b], Completing)
    ensures b.SourceComplete? && phase.Completing? ==> SourceLog(cfg, bodies + [b], Draining)
    ensures b.SourceFinished? && phase.Draining? ==> SourceLog(cfg, bodies + [b], Finished)
    ensures phase.Publishing? && phase.next < |phase.results| && phase.next < cfg.limit && cfg.direct
            && b == Vacancy(phase.results[phase.next].0, phase.results[phase.next].1)
            ==> SourceLog(cfg, bodies + [b], phase.(next := phase.next + 1))
  {
    TimesAppend(bodies, b, SourceComplete);
    VacanciesAppend(bodies, b);
    assert (bodies + [b])[..|bodies|] == bodies;
    if phase.Publishing? && phase.next < |phase.results| {
      assert phase.results[..phase.next + 1] == phase.results[..phase.next] + [phase.results[phase.next]];
    }
  }

  lemma RankedIsNonIncreasing(results: seq<(int, real)>)
    ensures NonIncreasing(Ranked(results))
    ensures multiset(Ranked(results)) == multiset(results)
  {
    var key := (r: (int, real)) => -r.1;
    SortBySorts(results, key);
    var ranked := Ranked(results);
    forall j, k | 0 <= j < k < |ranked| ensures ranked[j].1 >= ranked[k].1 {
      assert key(ranked[j]) <= key(ranked[k]);
    }
  }

  /** The results with this score, in their order. */
  function WithScore(results: seq<(int, real)>, score: real): seq<(int, real)> {
    if results == [] then []
    else (if results[0].1 == score then [results[0]] else []) + WithScore(results[1..], score)
  }

  lemma {:induction false} WithScoreIsWithKey(results: seq<(int, real)>, key: ((int, real)) -> real, score: real)
    requires forall r :: key(r) == -r.1
    ensures WithScore(results, score) == WithKey(results, key, -score)
  {
    if results == [] {
    } else {
      WithScoreIsWithKey(results[1..], key, score);
    }
  }

  /** Results with equal scores stay in the order in which they were discovered. */
  lemma RankedKeepsTies(results: seq<(int, real)>, score: real)
    ensures WithScore(Ranked(results), score) == WithScore(results, score)
  {
    var key := (r: (int, real)) => -r.1;
    SortByIsStable(results, key, -score);
    WithScoreIsWithKey(results, key, score);
    WithScoreIsWithKey(Ranked(results), key, score);
  }

  predicate IsSourceStep(step: Step) {
    || step.Outcome? || step.EndDiscovery? || step.Gather? || step.Publish? || step.EndPublishing?
    || step.SourceFails? || step.SourceCompletes? || step.SourceFinishes?
  }

  /** Publishing happens in direct mode only. */
  ghost predicate ModeOk(cfg: Config, s: State) {
    forall i :: 0 <= i < |s.sources| && (s.sources[i].Gathering? || s.sources[i].Publishing?) ==> cfg.direct
  }

  predicate IsPutStep(cfg: Config, step: Step) {
    || step.Publish? || step.SourceFails? || step.SourceCompletes? || step.SourceFinishes?
    || (step.Outcome? && !cfg.direct)
  }

  /** What a source's step puts. */
  function PutBody(cfg: Config, s: State, step: Step): Body
    requires IsPutStep(cfg, step) && Enabled(cfg, s, step)
  {
    match step
    case Outcome(_, application, score, _) => Vacancy(application, score)
    case Publish(i) =>
      var result := s.sources[i].results[s.sources[i].next];
      Vacancy(result.0, result.1)
    case SourceFails(_) => SourceError
    case SourceCompletes(_) => SourceComplete
    case _ => SourceFinished
  }

  lemma PutStepPuts(cfg: Config, s: State, step: Step)
    requires IsPutStep(cfg, step) && Enabled(cfg, s, step)
    ensures Apply(cfg, s, step).put == s.put + [Event(step.source, PutBody(cfg, s, step))]
    ensures |Apply(cfg, s, step).sources| == |s.sources| && step.source < |s.sources|
    ensures forall j :: 0 <= j < |s.sources| && j != step.source ==> Apply(cfg, s, step).sources[j] == s.sources[j]
  {
  }

  /** What a source's step puts fits the phase that it leads to. */
  lemma PutStepLog(cfg: Config, s: State, step: Step, bodies: seq<Body>)
    requires IsPutStep(cfg, step) && Enabled(cfg, s, step) && ModeOk(cfg, s)
    requires SourceLog(cfg, bodies, s.sources[step.source])
    requires |Apply(cfg, s, step).sources| == |s.sources|
    ensures SourceLog(cfg, bodies + [PutBody(cfg, s, step)], Apply(cfg, s, step).sources[step.source])
  {
    AppendLog(cfg, bodies, s.sources[step.source], PutBody(cfg, s, step));
  }

  lemma SourceStepKeepsMode(cfg: Config, s: State, step: Step)
    requires ModeOk(cfg, s) && IsSourceStep(step) && Enabled(cfg, s, step)
    ensures ModeOk(cfg, Apply(cfg, s, step))
  {
  }

  lemma SourceStepKeepsSources(cfg: Config, s: State, step: Step)
    requires SourcesOk(cfg, s) && ModeOk(cfg, s) && IsSourceStep(step) && Enabled(cfg, s, step)
    ensures SourcesOk(cfg, Apply(cfg, s, step)) && ModeOk(cfg, Apply(cfg, s, step))
  {
    SourceStepKeepsMode(cfg, s, step);
    if step.Gather? || step.EndDiscovery? || step.EndPublishing? || (step.Outcome? && cfg.direct) {
      QuietStepKeepsSources(cfg, s, step);
    } else {
      PutStepPuts(cfg, s, step);
      PutStepLog(cfg, s, step, Of(s.put, step.source));
      PutKeepsLogs(cfg, s, Apply(cfg, s, step), step.source, PutBody(cfg, s, step));
    }
  }

  lemma QuietStepKeepsSources(cfg: Config, s: State, step: Step)
    requires SourcesOk(cfg, s) && ModeOk(cfg, s) && Enabled(cfg, s, step)
    requires step.Gather? || step.EndDiscovery? || step.EndPublishing? || (step.Outcome? && cfg.direct)
    ensures SourcesOk(cfg, Apply(cfg, s, step)) && ModeOk(cfg, Apply(cfg, s, step))
  {
    var i, t := step.source, Apply(cfg, s, step);
    if step.Gather? {
      RankedIsNonIncreasing(Results(s.children, i));
    }
    QuietLog(cfg, Of(s.put, i), s.sources[i], t.sources[i]);
    PhaseKeepsLogs(cfg, s, t, i);
  }

  /** The phase changes of a source that put no event. */
  lemma QuietLog(cfg: Config, bodies: seq<Body>, phase: SourcePhase, next: SourcePhase)
    requires SourceLog(cfg, bodies, phase)
    requires
      || next == phase
      || (phase.Discovering? && next == if cfg.direct then Gathering else Completing)
      || (phase.Gathering? && next.Publishing? && next.next == 0 && NonIncreasing(next.results))
      || (phase.Publishing? && next.Completing?)
    ensures SourceLog(cfg, bodies, next)
  {
  }

  lemma PhaseKeepsLogs(cfg: Config, s: State, t: State, i: nat)
    requires SourcesOk(cfg, s) && i < cfg.sources
    requires t.put == s.put && |t.sources| == |s.sources|
    requires forall j :: 0 <= j < |s.sources| && j != i ==> t.sources[j] == s.sources[j]
    requires SourceLog(cfg, Of(s.put, i), t.sources[i])
    ensures SourcesOk(cfg, t)
  {
    forall j: nat | j < cfg.sources ensures SourceLog(cfg, Of(t.put, j), t.sources[j]) {
      assert SourceLog(cfg, Of(s.put, j), s.sources[j]);
    }
  }

  lemma OtherStepKeepsSources(cfg: Config, s: State, step: Step)
    requires SourcesOk(cfg, s) && ModeOk(cfg, s) && ChildrenOk(cfg, s) && !IsSourceStep(step) && Enabled(cfg, s, step)
    ensures SourcesOk(cfg, Apply(cfg, s, step)) && ModeOk(cfg, Apply(cfg, s, step))
  {
    var t := Apply(cfg, s, step);
    assert t.sources == s.sources;
    if t.put != s.put {
      var e := t.put[|s.put|];
      assert t.put == s.put + [e];
      assert SourceLog(cfg, Of(s.put, e.source), s.sources[e.source]);
      AppendLog(cfg, Of(s.put, e.source), s.sources[e.source], e.body);
      PutKeepsLogs(cfg, s, t, e.source, e.body);
    }
  }

  // ----- children, semaphore, profile lock

  lemma SourceStepKeepsChildren(cfg: Config, s: State, step: Step)
    requires ChildrenOk(cfg, s) && IsSourceStep(step) && Enabled(cfg, s, step)
    ensures ChildrenOk(cfg, Apply(cfg, s, step))
  {
    var t := Apply(cfg, s, step);
    forall c | 0 <= c < |t.children| ensures ChildOk(cfg, t.sources, t.children[c]) {
      if c < |s.children| {
        assert ChildOk(cfg, s.sources, s.children[c]);
      }
    }
  }

  lemma OtherStepKeepsChildren(cfg: Config, s: State, step: Step)
    requires ChildrenOk(cfg, s) && !IsSourceStep(step) && Enabled(cfg, s, step)
    ensures ChildrenOk(cfg, Apply(cfg, s, step))
  {
    var t := Apply(cfg, s, step);
    if step.Take? || step.CompleteStream? {
      assert t.children == s.children && t.sources == s.sources;
    } else {
      ChildStepIsLocal(cfg, s, step);
      ChildStepKeepsChild(cfg, s, step);
      forall c | 0 <= c < |t.children| ensures ChildOk(cfg, t.sources, t.children[c]) {
        assert ChildOk(cfg, s.sources, s.children[c]);
      }
    }
  }

  lemma ChildStepKeepsChild(cfg: Config, s: State, step: Step)
    requires Enabled(cfg, s, step) && !IsSourceStep(step) && !step.Take? && !step.CompleteStream?
    requires step.child < |s.children| == |Apply(cfg, s, step).children|
    requires ChildOk(cfg, s.sources, s.children[step.child])
    ensures Apply(cfg, s, step).sources == s.sources
    ensures ChildOk(cfg, s.sources, Apply(cfg, s, step).children[step.child])
  {
  }

  predicate Inside(phase: ChildPhase) {
    !phase.Waiting? && !Ended(phase)
  }

  lemma StepKeepsSemaphore(cfg: Config, s: State, step: Step)
    requires SemaphoreOk(cfg, s) && Enabled(cfg, s, step)
    ensures SemaphoreOk(cfg, Apply(cfg, s, step))
  {
    var t := Apply(cfg, s, step);
    if IsSourceStep(step) || step.Take? || step.CompleteStream? {
      assert t.running == s.running;
      forall c: nat | c < |t.children| ensures c in t.running <==> Inside(t.children[c].phase) {
        assert c < |s.children| ==> t.children[c] == s.children[c];
      }
    } else {
      ChildStepIsLocal(cfg, s, step);
      forall c: nat | c < |t.children| ensures c in t.running <==> Inside(t.children[c].phase) {
        assert c in s.running <==> Inside(s.children[c].phase);
      }
    }
  }

  /** A child's step changes that child alone, and enters or leaves the semaphore as its phase says. */
  lemma ChildStepIsLocal(cfg: Config, s: State, step: Step)
    requires Enabled(cfg, s, step) && !IsSourceStep(step) && !step.Take? && !step.CompleteStream?
    ensures step.child < |s.children| == |Apply(cfg, s, step).children|
    ensures forall c :: 0 <= c < |s.children| && c != step.child ==> Apply(cfg, s, step).children[c] == s.children[c]
    ensures Apply(cfg, s, step).running
         == if step.Acquire? then s.running + {step.child}
            else if step.Poll? || step.ChildFails? then s.running - {step.child} else s.running
    ensures Inside(Apply(cfg, s, step).children[step.child].phase)
       <==> step.Acquire? || (Inside(s.children[step.child].phase) && !step.Poll? && !step.ChildFails?)
    ensures step.Acquire? ==> !Inside(s.children[step.child].phase)
  {
  }

  lemma StepKeepsLock(cfg: Config, s: State, step: Step)
    requires LockOk(s) && Enabled(cfg, s, step)
    ensures LockOk(Apply(cfg, s, step))
  {
    var t := Apply(cfg, s, step);
    if IsSourceStep(step) || step.Take? || step.CompleteStream? {
      assert t.lock == s.lock && t.ingestions == s.ingestions;
      assert forall c :: 0 <= c < |s.children| ==> t.children[c] == s.children[c];
    } else {
      ChildStepIsLocal(cfg, s, step);
      ChildStepKeepsLock(cfg, s, step);
    }
  }

  lemma ChildStepKeepsLock(cfg: Config, s: State, step: Step)
    requires LockOk(s) && Enabled(cfg, s, step) && !IsSourceStep(step) && !step.Take? && !step.CompleteStream?
    requires step.child < |s.children| == |Apply(cfg, s, step).children|
    requires forall c :: 0 <= c < |s.children| && c != step.child ==> Apply(cfg, s, step).children[c] == s.children[c]
    ensures LockOk(Apply(cfg, s, step))
  {
    var t := Apply(cfg, s, step);
    forall c: nat | c < |t.children|
      ensures HoldsLock(t.children[c].phase) <==> t.lock == Some(c)
      ensures t.children[c].phase.Creating? ==> t.children[c].cv !in t.ingestions
    {
      assert HoldsLock(s.children[c].phase) <==> s.lock == Some(c);
      assert HoldsLock(s.children[step.child].phase) <==> s.lock == Some(step.child);
    }
  }

  lemma StepKeepsStarts(cfg: Config, s: State, step: Step)
    requires ProfileOk(s) && Enabled(cfg, s, step)
    ensures StartsOk(Apply(cfg, s, step))
  {
  }

  // ----- the consumer

  lemma OnlyAtEnd(bodies: seq<Body>)
    requires bodies != [] && SourceFinished !in bodies[..|bodies| - 1]
    ensures forall k :: 0 <= k < |bodies| - 1 ==> bodies[k] != SourceFinished
  {
    forall k | 0 <= k < |bodies| - 1 ensures bodies[k] != SourceFinished {
      assert bodies[..|bodies| - 1][k] == bodies[k];
    }
  }

  /** Once the marker of a source was taken, nothing of that source is left in the queue. */
  lemma MarkerIsLast(cfg: Config, s: State, i: nat)
    requires SourcesOk(cfg, s) && s.put == s.taken + s.queue && i < cfg.sources
    requires Event(i, SourceFinished) in s.taken
    ensures Of(s.queue, i) == [] && s.sources[i].Finished?
  {
    var before, after, all := Of(s.taken, i), Of(s.queue, i), Of(s.put, i);
    OfConcat(s.taken, s.queue, i);
    OfMember(s.taken, Event(i, SourceFinished));
    assert SourceLog(cfg, all, s.sources[i]);
    var k :| 0 <= k < |before| && before[k] == SourceFinished;
    assert all[k] == SourceFinished;
    assert s.sources[i].Finished?;
    OnlyAtEnd(all);
  }

  /** The consumer never takes the marker of a source twice. */
  lemma MarkerTakenOnce(cfg: Config, s: State)
    requires SourcesOk(cfg, s) && s.put == s.taken + s.queue && s.queue != [] && s.queue[0].body.SourceFinished?
    ensures s.queue[0].source < cfg.sources && s.queue[0] !in s.taken
  {
    var e := s.queue[0];
    assert s.put[|s.taken|] == e;
    assert e == Event(e.source, SourceFinished);
    if e in s.taken {
      MarkerIsLast(cfg, s, e.source);
      OfMember(s.queue, e);
    }
  }

  lemma MarkedGrows(cfg: Config, taken: seq<Event>, e: Event)
    ensures e.body.SourceFinished? && e.source < cfg.sources ==>
      Marked(cfg, taken + [e]) == Marked(cfg, taken) + {e.source}
    ensures !e.body.SourceFinished? ==> Marked(cfg, taken + [e]) == Marked(cfg, taken)
  {
    forall i: nat
      ensures Event(i, SourceFinished) in taken + [e]
      <==> Event(i, SourceFinished) in taken || e == Event(i, SourceFinished) {
    }
  }

  lemma TakeKeepsConsumer(cfg: Config, s: State)
    requires SourcesOk(cfg, s) && ConsumerOk(cfg, s) && Enabled(cfg, s, Take)
    ensures ConsumerOk(cfg, Apply(cfg, s, Take))
  {
    var e := s.queue[0];
    if e.body.SourceFinished? {
      MarkerTakenOnce(cfg, s);
    }
    TakenKeepsConsumer(cfg, s, Apply(cfg, s, Take), e);
  }

  lemma TakenKeepsConsumer(cfg: Config, s: State, t: State, e: Event)
    requires ConsumerOk(cfg, s) && !s.completed && s.queue != [] && e == s.queue[0]
    requires e.body.SourceFinished? ==> e.source < cfg.sources && e !in s.taken
    requires t.put == s.put && t.taken == s.taken + [e] && t.queue == s.queue[1..] && !t.completed
    requires t.finished == s.finished + if e.body.SourceFinished? then 1 else 0
    requires t.out == if e.body.SourceFinished? then s.out else s.out + [Delivered(e)]
    ensures ConsumerOk(cfg, t)
  {
    VisibleAppend(s.taken, e);
    MarkedGrows(cfg, s.taken, e);
    if e.body.SourceFinished? {
      assert e == Event(e.source, SourceFinished);
      assert e.source !in Marked(cfg, s.taken);
    }
    TakeMoves(s.taken, s.queue);
  }

  lemma TakeMoves(taken: seq<Event>, queue: seq<Event>)
    requires queue != []
    ensures taken + queue == (taken + [queue[0]]) + queue[1..]
  {
  }

  /** Nothing the consumer keeps changes, and at most one event is put. */
  ghost predicate OnlyPuts(s: State, t: State) {
    && t.taken == s.taken && t.out == s.out && t.finished == s.finished && t.completed == s.completed
    && ((t.put == s.put && t.queue == s.queue) || PutsOne(s, t))
  }

  ghost predicate PutsOne(s: State, t: State) {
    |t.put| > |s.put| && t.put == s.put + [t.put[|s.put|]] && t.queue == s.queue + [t.put[|s.put|]]
  }

  lemma SourcesOnlyPut(cfg: Config, s: State, step: Step)
    requires Enabled(cfg, s, step) && IsSourceStep(step)
    ensures OnlyPuts(s, Apply(cfg, s, step))
  {
  }

  lemma ChildrenOnlyPut(cfg: Config, s: State, step: Step)
    requires Enabled(cfg, s, step) && !IsSourceStep(step) && !step.Take? && !step.CompleteStream?
    ensures OnlyPuts(s, Apply(cfg, s, step))
  {
  }

  lemma PutsKeepConsumer(cfg: Config, s: State, t: State)
    requires ConsumerOk(cfg, s) && OnlyPuts(s, t)
    ensures ConsumerOk(cfg, t)
  {
    if PutsOne(s, t) {
      var e := t.put[|s.put|];
      assert (s.taken + s.queue) + [e] == s.taken + (s.queue + [e]);
    }
  }

  lemma StepKeepsConsumer(cfg: Config, s: State, step: Step)
    requires SourcesOk(cfg, s) && ConsumerOk(cfg, s) && Enabled(cfg, s, step)
    ensures ConsumerOk(cfg, Apply(cfg, s, step))
  {
    if step.Take? {
      TakeKeepsConsumer(cfg, s);
    } else if !step.CompleteStream? {
      if IsSourceStep(step) {
        SourcesOnlyPut(cfg, s, step);
      } else {
        ChildrenOnlyPut(cfg, s, step);
      }
      PutsKeepConsumer(cfg, s, Apply(cfg, s, step));
    }
  }

  lemma StepKeepsInv(cfg: Config, s: State, step: Step)
    requires Inv(cfg, s) && ModeOk(cfg, s) && Enabled(cfg, s, step)
    ensures Inv(cfg, Apply(cfg, s, step)) && ModeOk(cfg, Apply(cfg, s, step))
  {
    if IsSourceStep(step) {
      SourceStepKeepsSources(cfg, s, step);
      SourceStepKeepsChildren(cfg, s, step);
    } else {
      OtherStepKeepsSources(cfg, s, step);
      OtherStepKeepsChildren(cfg, s, step);
    }
    StepKeepsSemaphore(cfg, s, step);
    StepKeepsLock(cfg, s, step);
    StepKeepsStarts(cfg, s, step);
    StepKeepsConsumer(cfg, s, step);
  }

  // ----- runs

  ghost predicate Next(cfg: Config, s: State, t: State) {
    exists step :: Enabled(cfg, s, step) && t == Apply(cfg, s, step)
  }

  /** Some interleaving of the tasks that starts with the request and has come to `s`. */
  ghost predicate Run(cfg: Config, states: seq<State>, s: State) {
    && states != [] && states[0] == Init(cfg) && states[|states| - 1] == s
    && forall k :: 0 <= k < |states| - 1 ==> Next(cfg, states[k], states[k + 1])
  }

  /** Every interleaving keeps the invariant. */
  lemma {:induction false} RunsKeepInv(cfg: Config, states: seq<State>, s: State)
    requires Run(cfg, states, s)
    ensures Inv(cfg, s) && ModeOk(cfg, s)
    decreases |states|
  {
    var n := |states| - 1;
    if n == 0 {
      InitInv(cfg);
    } else {
      RunsKeepInv(cfg, states[..n], states[n - 1]);
      assert Next(cfg, states[n - 1], states[n - 1 + 1]);
      var step :| Enabled(cfg, states[n - 1], step) && s == Apply(cfg, states[n - 1], step);
      StepKeepsInv(cfg, states[n - 1], step);
    }
  }

  // ----- what a completed stream delivered

  lemma RangeSize(n: nat, some: set<nat>)
    requires forall i :: i in some ==> i < n
    ensures |some| <= n
    ensures |some| == n ==> forall i: nat :: i < n ==> i in some
  {
    if n == 0 {
    } else {
      RangeSize(n - 1, some - {n - 1});
      if n - 1 !in some {
        assert some - {n - 1} == some;
      } else {
        assert |some - {n - 1}| == |some| - 1;
        forall i: nat | i < n && |some| == n ensures i in some {
          assert i < n - 1 ==> i in some - {n - 1};
        }
      }
    }
  }

  /** When the last marker was counted, every source finished and the queue is empty: nothing is lost. */
  lemma AllMarkedMeansDrained(cfg: Config, s: State)
    requires Inv(cfg, s) && s.finished == cfg.sources
    ensures s.queue == [] && s.taken == s.put
    ensures forall i :: 0 <= i < cfg.sources ==> s.sources[i].Finished?
  {
    RangeSize(cfg.sources, Marked(cfg, s.taken));
    forall i: nat | i < cfg.sources ensures s.sources[i].Finished? {
      assert i in Marked(cfg, s.taken);
      MarkerIsLast(cfg, s, i);
    }
    if s.queue != [] {
      var e := s.queue[0];
      assert s.put[|s.taken|] == e;
      assert e.source in Marked(cfg, s.taken);
      MarkerIsLast(cfg, s, e.source);
      OfMember(s.queue, e);
    }
  }

  /**
   * Completion, over all interleavings: `complete` is the last line and the only one of its kind,
   * it reports all sources, every other event ever put was delivered before it and in the order
   * it was put, and no task is left.
   */
  lemma CompletedStream(cfg: Config, states: seq<State>, s: State)
    requires Run(cfg, states, s) && s.completed
    ensures s.out == Visible(s.put) + [Complete(cfg.sources)]
    ensures forall k :: 0 <= k < |s.out| - 1 ==> s.out[k].Delivered? && !s.out[k].event.body.SourceFinished?
    ensures s.queue == [] && |s.sources| == cfg.sources && forall i :: 0 <= i < cfg.sources ==> s.sources[i].Finished?
    ensures forall c :: 0 <= c < |s.children| ==> Ended(s.children[c].phase)
  {
    RunsKeepInv(cfg, states, s);
    AllMarkedMeansDrained(cfg, s);
    VisibleIsDelivered(s.put);
    forall c | 0 <= c < |s.children| ensures Ended(s.children[c].phase) {
      assert ChildOk(cfg, s.sources, s.children[c]);
    }
  }

  lemma {:induction false} VisibleIsDelivered(events: seq<Event>)
    ensures forall k :: 0 <= k < |Visible(events)| ==>
      Visible(events)[k].Delivered? && !Visible(events)[k].event.body.SourceFinished?
  {
    if events == [] {
    } else {
      VisibleIsDelivered(events[..|events| - 1]);
    }
  }

  /** Before completion no `complete` line exists. */
  lemma NoEarlyComplete(cfg: Config, states: seq<State>, s: State, k: nat)
    requires Run(cfg, states, s) && k < |s.out| && s.out[k].Complete?
    ensures s.completed && k == |s.out| - 1 && s.out[k] == Complete(cfg.sources)
  {
    RunsKeepInv(cfg, states, s);
    VisibleIsDelivered(s.taken);
  }

  /** Each source reports its completion exactly once, counted over the delivered lines. */
  lemma OneSourceCompleteEach(cfg: Config, states: seq<State>, s: State, i: nat)
    requires Run(cfg, states, s) && s.completed && i < cfg.sources
    ensures Lines(s.out, Event(i, SourceComplete)) == 1
  {
    RunsKeepInv(cfg, states, s);
    AllMarkedMeansDrained(cfg, s);
    assert SourceLog(cfg, Of(s.put, i), s.sources[i]);
    LinesOfVisible(s.put, Event(i, SourceComplete));
    assert s.out[..|s.out| - 1] == Visible(s.put);
  }

  function Lines(out: seq<Outgoing>, e: Event): nat {
    if out == [] then 0
    else Lines(out[..|out| - 1], e) + if out[|out| - 1] == Delivered(e) then 1 else 0
  }

  lemma {:induction false} LinesOfVisible(events: seq<Event>, e: Event)
    requires !e.body.SourceFinished?
    ensures Lines(Visible(events), e) == Times(Of(events, e.source), e.body)
  {
    if events == [] {
    } else {
      var before, last := events[..|events| - 1], events[|events| - 1];
      LinesOfVisible(before, e);
      if last.source == e.source {
        TimesAppend(Of(before, e.source), last.body, e.body);
      } else {
        assert Of(events, e.source) == Of(before, e.source);
      }
      if last.body.SourceFinished? {
        assert Visible(events) == Visible(before);
      } else {
        assert Visible(events) == Visible(before) + [Delivered(last)];
        assert Visible(events)[..|Visible(events)| - 1] == Visible(before);
      }
    }
  }

  /** In every interleaving the marker of a source follows everything the source and its enrichments ever put. */
  lemma MarkerFollowsEverything(cfg: Config, states: seq<State>, s: State, j: nat, k: nat)
    requires Run(cfg, states, s) && j < |s.put| && k < |s.put|
    requires s.put[j].body.SourceFinished? && s.put[k].source == s.put[j].source
    ensures k <= j
  {
    RunsKeepInv(cfg, states, s);
    if j < k {
      var i := s.put[j].source;
      var before, after := s.put[..j + 1], s.put[j + 1..];
      assert s.put == before + after && before[j] == s.put[j] && after[k - j - 1] == s.put[k];
      OfConcat(before, after, i);
      OfMember(before, s.put[j]);
      OfMember(after, s.put[k]);
      MarkerInFront(cfg, Of(before, i), Of(after, i), s.sources[i]);
    }
  }

  lemma MarkerInFront(cfg: Config, before: seq<Body>, after: seq<Body>, phase: SourcePhase)
    requires SourceLog(cfg, before + after, phase) && SourceFinished in before
    ensures after == []
  {
    var all := before + after;
    var k :| 0 <= k < |before| && before[k] == SourceFinished;
    assert all[k] == SourceFinished;
    OnlyAtEnd(all);
  }

  /** Direct mode publishes at most `limit` vacancies per source, best score first. */
  lemma DirectModeIsRankedAndLimited(cfg: Config, states: seq<State>, s: State, i: nat)
    requires Run(cfg, states, s) && cfg.direct && i < cfg.sources
    ensures |Vacancies(Of(s.put, i))| <= cfg.limit
    ensures NonIncreasing(Vacancies(Of(s.put, i)))
  {
    RunsKeepInv(cfg, states, s);
    assert SourceLog(cfg, Of(s.put, i), s.sources[i]);
    assert DirectOutput(cfg, Vacancies(Of(s.put, i)), s.sources[i]);
  }

  /** Profile ingestion starts at most once per CV, and at most `concurrency` enrichments run at a time. */
  lemma SharedWorkIsBounded(cfg: Config, states: seq<State>, s: State)
    requires Run(cfg, states, s)
    ensures forall j, k :: 0 <= j < k < |s.ingestionStarts| ==> s.ingestionStarts[j] != s.ingestionStarts[k]
    ensures
      |set c: nat | c < |s.children| && !s.children[c].phase.Waiting? && !Ended(s.children[c].phase)|
        <= cfg.concurrency
  {
    RunsKeepInv(cfg, states, s);
    assert s.running == set c: nat | c < |s.children| && !s.children[c].phase.Waiting? && !Ended(s.children[c].phase);
  }

  // ----- no deadlock

  /** Some task can do more than discover yet another vacancy. */
  ghost predicate CanAdvance(cfg: Config, s: State) {
    exists step: Step :: !step.Outcome? && Enabled(cfg, s, step)
  }

  /** Work inside the semaphore never waits for more than the holder of the profile lock. */
  lemma RunningChildAdvances(cfg: Config, s: State, c: nat)
    requires LockOk(s) && c < |s.children|
    requires !s.children[c].phase.Waiting? && !Ended(s.children[c].phase)
    ensures CanAdvance(cfg, s)
  {
    match s.children[c].phase
    case Scheduling => assert Enabled(cfg, s, Schedule(c, false, false));
    case Deciding => assert Enabled(cfg, s, SkipIngestion(c));
    case Locking =>
      if s.lock.None? {
        assert Enabled(cfg, s, TakeLock(c));
      } else {
        LockHolderAdvances(cfg, s);
      }
    case Looking => assert Enabled(cfg, s, LookUp(c));
    case Creating => assert Enabled(cfg, s, Create(c));
    case Releasing => assert Enabled(cfg, s, Release(c));
    case Ingesting => assert Enabled(cfg, s, EndIngestion(c));
    case Materials => assert Enabled(cfg, s, DraftMaterials(c, true));
    case Polling => assert Enabled(cfg, s, Poll(c, true, 0.0));
  }

  lemma LockHolderAdvances(cfg: Config, s: State)
    requires LockOk(s) && s.lock.Some?
    ensures CanAdvance(cfg, s)
  {
    var c := s.lock.value;
    match s.children[c].phase
    case Looking => assert Enabled(cfg, s, LookUp(c));
    case Creating => assert Enabled(cfg, s, Create(c));
    case Releasing => assert Enabled(cfg, s, Release(c));
  }

  lemma UnendedChildAdvances(cfg: Config, s: State, c: nat)
    requires SemaphoreOk(cfg, s) && LockOk(s) && cfg.concurrency > 0
    requires c < |s.children| && !Ended(s.children[c].phase)
    ensures CanAdvance(cfg, s)
  {
    if !s.children[c].phase.Waiting? {
      RunningChildAdvances(cfg, s, c);
    } else if |s.running| < cfg.concurrency {
      assert Enabled(cfg, s, Acquire(c));
    } else {
      var r :| r in s.running;
      RunningChildAdvances(cfg, s, r);
    }
  }

  lemma UnfinishedSourceAdvances(cfg: Config, s: State, i: nat)
    requires SemaphoreOk(cfg, s) && LockOk(s) && cfg.concurrency > 0
    requires i < |s.sources| && !s.sources[i].Finished?
    ensures CanAdvance(cfg, s)
  {
    match s.sources[i]
    case Discovering => assert Enabled(cfg, s, EndDiscovery(i));
    case Publishing(results, next) =>
      assert Enabled(cfg, s, Publish(i)) || Enabled(cfg, s, EndPublishing(i));
    case Completing => assert Enabled(cfg, s, SourceCompletes(i));
    case Gathering =>
      if AllDone(s, i) {
        assert Enabled(cfg, s, Gather(i));
      } else if AnyFailed(s, i) {
        assert Enabled(cfg, s, SourceFails(i));
      } else {
        var c :| 0 <= c < |s.children| && s.children[c].source == i && !s.children[c].phase.Done?;
        assert !s.children[c].phase.Failed?;
        UnendedChildAdvances(cfg, s, c);
      }
    case Draining =>
      if AllEnded(s, i) {
        assert Enabled(cfg, s, SourceFinishes(i));
      } else {
        var c :| 0 <= c < |s.children| && s.children[c].source == i && !Ended(s.children[c].phase);
        UnendedChildAdvances(cfg, s, c);
      }
  }

  /** No interleaving gets stuck: until the stream completes, some task or the consumer can go on. */
  lemma NeverStuck(cfg: Config, states: seq<State>, s: State)
    requires Run(cfg, states, s) && cfg.concurrency > 0 && !s.completed
    ensures CanAdvance(cfg, s)
  {
    RunsKeepInv(cfg, states, s);
    if s.finished == cfg.sources {
      AllMarkedMeansDrained(cfg, s);
      assert Enabled(cfg, s, CompleteStream);
    } else if s.queue != [] {
      RangeSize(cfg.sources, Marked(cfg, s.taken));
      assert Enabled(cfg, s, Take);
    } else {
      var i := UnmarkedSource(cfg, s);
      UnfinishedSourceAdvances(cfg, s, i);
    }
  }

  /** With an empty queue and markers missing, some source task is not finished. */
  lemma UnmarkedSource(cfg: Config, s: State) returns (i: nat)
    requires Inv(cfg, s) && s.queue == [] && s.finished != cfg.sources
    ensures i < |s.sources| && !s.sources[i].Finished?
  {
    assert s.taken == s.put;
    if forall j: nat :: j < cfg.sources ==> j in Marked(cfg, s.taken) {
      FullRange(cfg.sources, Marked(cfg, s.taken));
    }
    i :| i < cfg.sources && i !in Marked(cfg, s.taken);
    assert SourceLog(cfg, Of(s.put, i), s.sources[i]);
    OfMember(s.put, Event(i, SourceFinished));
  }

  lemma {:induction false} FullRange(n: nat, all: set<nat>)
    requires forall i: nat :: i in all <==> i < n
    ensures |all| == n
  {
    if n == 0 {
      assert all == {};
    } else {
      FullRange(n - 1, all - {n - 1});
    }
  }

  // ----- what direct mode publishes

  function Top(cfg: Config, results: seq<(int, real)>): seq<(int, real)> {
    if |results| <= cfg.limit then Ranked(results) else Ranked(results)[..cfg.limit]
  }

  /** Without an error, a source publishes the best `limit` of the results of all its enrichments. */
  ghost predicate RankingOk(cfg: Config, bodies: seq<Body>, children: seq<Child>, i: nat, phase: SourcePhase) {
    match phase
    case Discovering => SourceError !in bodies
    case Gathering => SourceError !in bodies
    case Publishing(results, next) =>
      && SourceError !in bodies && SourceDone(children, i) && results == Ranked(Results(children, i))
      && next <= |results| && next <= cfg.limit && Vacancies(bodies) == results[..next]
    case _ =>
      SourceError !in bodies ==> SourceDone(children, i) && Vacancies(bodies) == Top(cfg, Results(children, i))
  }

  ghost predicate SourceDone(children: seq<Child>, i: nat) {
    forall c :: 0 <= c < |children| && children[c].source == i ==> children[c].phase.Done?
  }

  ghost predicate RankingsOk(cfg: Config, s: State) {
    forall i: nat :: i < cfg.sources && i < |s.sources| ==> RankingOk(cfg, Of(s.put, i), s.children, i, s.sources[i])
  }

  /** The children of a source and their results are what they were. */
  ghost predicate SameChildren(children: seq<Child>, more: seq<Child>, i: nat) {
    && (SourceDone(children, i) ==> SourceDone(more, i))
    && (SourceDone(children, i) ==> Results(more, i) == Results(children, i))
  }

  lemma {:induction false} ChangedChild(children: seq<Child>, c: nat, child: Child, i: nat)
    requires c < |children| && children[c].source != i && child.source != i
    ensures Results(children[c := child], i) == Results(children, i)
  {
    var n := |children| - 1;
    var more := children[c := child];
    if c < n {
      ChangedChild(children[..n], c, child, i);
      assert more[..n] == children[..n][c := child];
    } else {
      assert more[..n] == children[..n];
    }
  }

  lemma StepKeepsDoneChildren(cfg: Config, s: State, step: Step, i: nat)
    requires Enabled(cfg, s, step) && i < |s.sources| && !(step.Outcome? && step.source == i)
    ensures SameChildren(s.children, Apply(cfg, s, step).children, i)
  {
    var t := Apply(cfg, s, step);
    if step.Outcome? {
      assert t.children[..|s.children|] == s.children;
    } else if !IsSourceStep(step) && !step.Take? && !step.CompleteStream? {
      ChildStepIsLocal(cfg, s, step);
      var c := step.child;
      assert !Ended(s.children[c].phase);
      assert t.children == s.children[c := t.children[c]];
      if SourceDone(s.children, i) {
        assert s.children[c].source != i && t.children[c].source == s.children[c].source;
        ChangedChild(s.children, c, t.children[c], i);
      }
    } else {
      assert t.children == s.children;
    }
  }

  lemma OtherSourceKeepsRanking(cfg: Config, s: State, step: Step, i: nat)
    requires SourcesOk(cfg, s) && RankingsOk(cfg, s) && Enabled(cfg, s, step) && i < cfg.sources
    requires Apply(cfg, s, step).sources[i] == s.sources[i] && !(step.Outcome? && step.source == i)
    requires Of(Apply(cfg, s, step).put, i) == Of(s.put, i)
    ensures RankingOk(cfg, Of(Apply(cfg, s, step).put, i), Apply(cfg, s, step).children, i, s.sources[i])
  {
    StepKeepsDoneChildren(cfg, s, step, i);
    assert RankingOk(cfg, Of(s.put, i), s.children, i, s.sources[i]);
  }

  /** How a source's own steps move its phase and log forward, on values. */
  lemma RankingGathered(cfg: Config, bodies: seq<Body>, children: seq<Child>, i: nat, phase: SourcePhase)
    requires RankingOk(cfg, bodies, children, i, phase)
    ensures phase.Gathering? && SourceDone(children, i) && Vacancies(bodies) == []
            ==> RankingOk(cfg, bodies, children, i, Publishing(Ranked(Results(children, i)), 0))
    ensures phase.Publishing? && (phase.next >= |phase.results| || phase.next >= cfg.limit)
            ==> RankingOk(cfg, bodies, children, i, Completing)
  {
    var ranked := Ranked(Results(children, i));
    RankedIsNonIncreasing(Results(children, i));
    assert |multiset(ranked)| == |ranked|;
    if phase.Publishing? {
      assert phase.next == |phase.results| ==> phase.results[..phase.next] == phase.results;
    }
  }

  lemma RankingPublished(cfg: Config, bodies: seq<Body>, children: seq<Child>, i: nat, phase: SourcePhase)
    requires RankingOk(cfg, bodies, children, i, phase)
    requires phase.Publishing? && phase.next < |phase.results| && phase.next < cfg.limit
    ensures RankingOk(cfg, bodies + [Vacancy(phase.results[phase.next].0, phase.results[phase.next].1)], children, i,
                      phase.(next := phase.next + 1))
  {
    OneMorePublished(bodies, phase.results, phase.next);
  }

  lemma OneMorePublished(bodies: seq<Body>, results: seq<(int, real)>, next: nat)
    requires next < |results| && Vacancies(bodies) == results[..next]
    ensures Vacancies(bodies + [Vacancy(results[next].0, results[next].1)]) == results[..next + 1]
    ensures SourceError !in bodies ==> SourceError !in bodies + [Vacancy(results[next].0, results[next].1)]
  {
    VacanciesAppend(bodies, Vacancy(results[next].0, results[next].1));
    assert results[next] == (results[next].0, results[next].1);
    assert results[..next + 1] == results[..next] + [results[next]];
  }

  lemma RankingClosed(cfg: Config, bodies: seq<Body>, children: seq<Child>, i: nat, phase: SourcePhase, b: Body)
    requires RankingOk(cfg, bodies, children, i, phase)
    ensures b.SourceError? ==> RankingOk(cfg, bodies + [b], children, i, Completing)
    ensures phase.Completing? && b.SourceComplete? ==> RankingOk(cfg, bodies + [b], children, i, Draining)
    ensures phase.Draining? && b.SourceFinished? ==> RankingOk(cfg, bodies + [b], children, i, Finished)
  {
    VacanciesAppend(bodies, b);
    assert (bodies + [b])[|bodies|] == b;
    assert SourceError in bodies ==> SourceError in bodies + [b];
  }

  /** The source a step belongs to, and what its ranking becomes. */
  ghost predicate OwnRankingOk(cfg: Config, t: State, i: nat) {
    i < |t.sources| && RankingOk(cfg, Of(t.put, i), t.children, i, t.sources[i])
  }

  lemma QuietStepKeepsRanking(cfg: Config, s: State, step: Step)
    requires SourcesOk(cfg, s) && RankingsOk(cfg, s) && cfg.direct && Enabled(cfg, s, step)
    requires step.Outcome? || step.EndDiscovery? || step.Gather? || step.EndPublishing?
    ensures OwnRankingOk(cfg, Apply(cfg, s, step), step.source)
  {
    var i := step.source;
    assert SourceLog(cfg, Of(s.put, i), s.sources[i]);
    RankingGathered(cfg, Of(s.put, i), s.children, i, s.sources[i]);
  }

  lemma PutStepKeepsRanking(cfg: Config, s: State, step: Step)
    requires SourcesOk(cfg, s) && RankingsOk(cfg, s) && cfg.direct && Enabled(cfg, s, step)
    requires step.Publish? || step.SourceFails? || step.SourceCompletes? || step.SourceFinishes?
    ensures OwnRankingOk(cfg, Apply(cfg, s, step), step.source)
  {
    var i, t := step.source, Apply(cfg, s, step);
    var e := t.put[|s.put|];
    assert t.put == s.put + [e] && e.source == i;
    OfAppend(s.put, e, i);
    if step.Publish? {
      RankingPublished(cfg, Of(s.put, i), s.children, i, s.sources[i]);
    } else {
      RankingClosed(cfg, Of(s.put, i), s.children, i, s.sources[i], e.body);
    }
  }

  lemma OwnStepKeepsRanking(cfg: Config, s: State, step: Step)
    requires SourcesOk(cfg, s) && RankingsOk(cfg, s) && cfg.direct && IsSourceStep(step) && Enabled(cfg, s, step)
    ensures OwnRankingOk(cfg, Apply(cfg, s, step), step.source)
  {
    if step.Outcome? || step.EndDiscovery? || step.Gather? || step.EndPublishing? {
      QuietStepKeepsRanking(cfg, s, step);
    } else {
      PutStepKeepsRanking(cfg, s, step);
    }
  }

  lemma StepKeepsRankings(cfg: Config, s: State, step: Step)
    requires SourcesOk(cfg, s) && RankingsOk(cfg, s) && cfg.direct && Enabled(cfg, s, step)
    ensures RankingsOk(cfg, Apply(cfg, s, step))
  {
    var t := Apply(cfg, s, step);
    forall i: nat | i < cfg.sources && i < |t.sources|
      ensures RankingOk(cfg, Of(t.put, i), t.children, i, t.sources[i]) {
      if IsSourceStep(step) && step.source == i {
        OwnStepKeepsRanking(cfg, s, step);
      } else {
        DirectPutIsOwn(cfg, s, step, i);
        OtherSourceKeepsRanking(cfg, s, step, i);
      }
    }
  }

  /** In direct mode only a source's own steps add to its log or move its phase. */
  lemma DirectPutIsOwn(cfg: Config, s: State, step: Step, i: nat)
    requires cfg.direct && Enabled(cfg, s, step) && i < |s.sources| && !(IsSourceStep(step) && step.source == i)
    ensures Of(Apply(cfg, s, step).put, i) == Of(s.put, i)
    ensures |Apply(cfg, s, step).sources| == |s.sources| && Apply(cfg, s, step).sources[i] == s.sources[i]
  {
    var t := Apply(cfg, s, step);
    if t.put != s.put {
      var e := t.put[|s.put|];
      assert t.put == s.put + [e];
      OfAppend(s.put, e, i);
    }
  }

  lemma {:induction false} RunsKeepRankings(cfg: Config, states: seq<State>, s: State)
    requires Run(cfg, states, s) && cfg.direct
    ensures RankingsOk(cfg, s)
    decreases |states|
  {
    var n := |states| - 1;
    if n == 0 {
      forall i: nat | i < cfg.sources ensures RankingOk(cfg, Of(s.put, i), s.children, i, s.sources[i]) {
        assert Of([], i) == [];
      }
    } else {
      var before := states[n - 1];
      RunsKeepRankings(cfg, states[..n], before);
      RunsKeepInv(cfg, states[..n], before);
      assert Next(cfg, states[n - 1], states[n - 1 + 1]);
      var step :| Enabled(cfg, before, step) && s == Apply(cfg, before, step);
      StepKeepsRankings(cfg, before, step);
    }
  }

  lemma {:induction false} TimesIfThere(bodies: seq<Body>, b: Body)
    requires b in bodies
    ensures Times(bodies, b) > 0
  {
    var n := |bodies| - 1;
    if bodies[n] != b {
      assert bodies == bodies[..n] + [bodies[n]];
      TimesIfThere(bodies[..n], b);
    }
  }

  /** A source has reported its completion, or the whole stream is complete. */
  ghost predicate Completed(s: State, i: nat) {
    s.completed || Event(i, SourceComplete) in s.put
  }

  /**
   * A completed direct source without an error delivered exactly its best `limit` enriched
   * vacancies, best first and ties in order of discovery.
   */
  lemma DirectModePublishesTheBest(cfg: Config, states: seq<State>, s: State, i: nat)
    requires Run(cfg, states, s) && Completed(s, i) && cfg.direct && i < cfg.sources
    requires Event(i, SourceError) !in s.put
    ensures SourceDone(s.children, i)
    ensures Vacancies(Of(s.put, i)) == Top(cfg, Results(s.children, i))
  {
    RunsKeepInv(cfg, states, s);
    RunsKeepRankings(cfg, states, s);
    if s.completed {
      AllMarkedMeansDrained(cfg, s);
    } else {
      OfMember(s.put, Event(i, SourceComplete));
      TimesIfThere(Of(s.put, i), SourceComplete);
      assert SourceLog(cfg, Of(s.put, i), s.sources[i]);
    }
    OfMember(s.put, Event(i, SourceError));
    assert RankingOk(cfg, Of(s.put, i), s.children, i, s.sources[i]);
  }
}
