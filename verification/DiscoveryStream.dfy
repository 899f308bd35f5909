/**
 * The discovery stream as interleaved steps: one task per source, one enrichment task per
 * discovered vacancy, a FIFO queue, and the consumer that decides when the stream is complete.
 * Every step is what one task does between two points where it may be suspended, or less.
 */
module DiscoveryStream {
  import opened Sorting
  import opened Wrappers

  /** Requested sources (already without repetitions), mode, result limit, parallel enrichments. */
  datatype Config = Config(sources: nat, direct: bool, limit: nat, ragEnabled: bool, concurrency: nat)

  datatype Kind = Started | MatchingError | MaterialsReady | MaterialsError | MatchingReady

  datatype Body =
    | Vacancy(application: int, score: real)
    | Enrichment(about: int, kind: Kind)
    | SourceError
    | SourceComplete
    | SourceFinished  // `_source_finished`, never delivered

  datatype Event = Event(source: nat, body: Body)

  datatype SourcePhase =
    | Discovering
    | Gathering
    | Publishing(results: seq<(int, real)>, next: nat)
    | Completing
    | Draining
    | Finished

  datatype ChildPhase =
    | Waiting                // for the semaphore
    | Scheduling
    | Deciding               // direct mode, before the retrieval ingestion
    | Locking                // waits for the profile lock
    | Looking                // holds it, looks the ingestion task up
    | Creating               // holds it, found none
    | Releasing              // holds it, task known
    | Ingesting              // awaits the shared ingestion and ingests the vacancy
    | Materials
    | Polling
    | Done(score: real)
    | Failed

  datatype Child = Child(source: nat, application: int, cv: int, scheduled: bool, phase: ChildPhase)

  datatype Outgoing = Delivered(event: Event) | Complete(sources: nat)

  datatype State = State(
    sources: seq<SourcePhase>,
    children: seq<Child>,
    running: set<nat>,          // children inside the semaphore
    lock: Option<nat>,          // the child that holds the profile lock
    ingestions: set<int>,       // CVs with an ingestion task in the dictionary
    ingestionStarts: seq<int>,  // every ingestion task created, in order
    queue: seq<Event>,
    put: seq<Event>,            // everything ever put, in order
    taken: seq<Event>,          // everything the consumer got, in order
    out: seq<Outgoing>,         // the lines of the response
    finished: nat,              // `finished_sources`
    completed: bool)

  datatype Step =
    | Outcome(source: nat, application: int, score: real, cv: int)
    | EndDiscovery(source: nat)
    | Gather(source: nat)
    | Publish(source: nat)
    | EndPublishing(source: nat)
    | SourceFails(source: nat)
    | SourceCompletes(source: nat)
    | SourceFinishes(source: nat)
    | Acquire(child: nat)
    | Schedule(child: nat, scheduled: bool, failed: bool)
    | SkipIngestion(child: nat)
    | WantProfile(child: nat)
    | TakeLock(child: nat)
    | LookUp(child: nat)
    | Create(child: nat)
    | Release(child: nat)
    | EndIngestion(child: nat)
    | DraftMaterials(child: nat, ready: bool)
    | Poll(child: nat, ready: bool, score: real)
    | ChildFails(child: nat)
    | Take
    | CompleteStream

  function Init(cfg: Config): State {
    State(seq(cfg.sources, _ => Discovering), [], {}, None, {}, [], [], [], [], [], 0, false)
  }

  predicate Ended(phase: ChildPhase) {
    phase.Done? || phase.Failed?
  }

  predicate HoldsLock(phase: ChildPhase) {
    phase.Looking? || phase.Creating? || phase.Releasing?
  }

  predicate AllEnded(s: State, source: nat) {
    forall c :: 0 <= c < |s.children| && s.children[c].source == source ==> Ended(s.children[c].phase)
  }

  predicate AllDone(s: State, source: nat) {
    forall c :: 0 <= c < |s.children| && s.children[c].source == source ==> s.children[c].phase.Done?
  }

  predicate AnyFailed(s: State, source: nat) {
    exists c :: 0 <= c < |s.children| && s.children[c].source == source && s.children[c].phase.Failed?
  }

  predicate SourceIs(s: State, source: nat, phase: SourcePhase) {
    source < |s.sources| && s.sources[source] == phase
  }

  predicate ChildIs(s: State, child: nat, phase: ChildPhase) {
    child < |s.children| && s.children[child].phase == phase
  }

  predicate Enabled(cfg: Config, s: State, step: Step) {
    match step
    case Outcome(i, _, _, _) => SourceIs(s, i, Discovering)
    case EndDiscovery(i) => SourceIs(s, i, Discovering)
    case Gather(i) => SourceIs(s, i, Gathering) && AllDone(s, i)
    case Publish(i) =>
      i < |s.sources| && s.sources[i].Publishing? && s.sources[i].next < |s.sources[i].results|
        && s.sources[i].next < cfg.limit
    case EndPublishing(i) =>
      i < |s.sources| && s.sources[i].Publishing?
        && (s.sources[i].next >= |s.sources[i].results| || s.sources[i].next >= cfg.limit)
    case SourceFails(i) =>
      && i < |s.sources|
      && (s.sources[i].Discovering? || s.sources[i].Publishing? || (s.sources[i].Gathering? && AnyFailed(s, i)))
    case SourceCompletes(i) => SourceIs(s, i, Completing)
    case SourceFinishes(i) => SourceIs(s, i, Draining) && AllEnded(s, i)
    case Acquire(c) => ChildIs(s, c, Waiting) && |s.running| < cfg.concurrency
    case Schedule(c, scheduled, failed) => ChildIs(s, c, Scheduling) && !(scheduled && failed)
    case SkipIngestion(c) => ChildIs(s, c, Deciding)
    case WantProfile(c) => ChildIs(s, c, Deciding) && cfg.ragEnabled
    case TakeLock(c) => ChildIs(s, c, Locking) && s.lock.None?
    case LookUp(c) => ChildIs(s, c, Looking)
    case Create(c) => ChildIs(s, c, Creating)
    case Release(c) => ChildIs(s, c, Releasing)
    case EndIngestion(c) => ChildIs(s, c, Ingesting)
    case DraftMaterials(c, _) => ChildIs(s, c, Materials)
    case Poll(c, _, _) => ChildIs(s, c, Polling)
    case ChildFails(c) => ChildIs(s, c, Polling)
    case Take => s.queue != [] && s.finished < cfg.sources && !s.completed
    case CompleteStream =>
      s.finished == cfg.sources && !s.completed && forall i :: 0 <= i < |s.sources| ==> s.sources[i].Finished?
  }

  // ----- effects

  function Put(s: State, e: Event): State {
    s.(queue := s.queue + [e], put := s.put + [e])
  }

  /** Enrichment events are suppressed in direct mode (`emit_events=False`). */
  function Emit(cfg: Config, s: State, child: nat, kind: Kind): State
    requires child < |s.children|
  {
    if cfg.direct then s
    else Put(s, Event(s.children[child].source, Enrichment(s.children[child].application, kind)))
  }

  function Phase(s: State, child: nat, phase: ChildPhase): State
    requires child < |s.children|
  {
    s.(children := s.children[child := s.children[child].(phase := phase)])
  }

  function End(s: State, child: nat, phase: ChildPhase): State
    requires child < |s.children|
  {
    Phase(s, child, phase).(running := s.running - {child})
  }

  function To(s: State, source: nat, phase: SourcePhase): State
    requires source < |s.sources|
  {
    s.(sources := s.sources[source := phase])
  }

  /** The direct results of a source, in the order its tasks were created. */
  function Results(children: seq<Child>, source: nat): seq<(int, real)> {
    if children == [] then [] else
      var last := children[|children| - 1];
      Results(children[..|children| - 1], source)
      + (if last.source == source && last.phase.Done? then [(last.application, last.phase.score)] else [])
  }

  /** `sort(key=score, reverse=True)`. */
  function Ranked(results: seq<(int, real)>): seq<(int, real)> {
    SortBy(results, (r: (int, real)) => -r.1)
  }

  function Apply(cfg: Config, s: State, step: Step): State
    requires Enabled(cfg, s, step)
  {
    match step
    case Outcome(i, application, score, cv) =>
      var t := s.(children := s.children + [Child(i, application, cv, false, Waiting)]);
      if cfg.direct then t else Put(t, Event(i, Vacancy(application, score)))
    case EndDiscovery(i) => To(s, i, if cfg.direct then Gathering else Completing)
    case Gather(i) => To(s, i, Publishing(Ranked(Results(s.children, i)), 0))
    case Publish(i) =>
      var r := s.sources[i].results[s.sources[i].next];
      Put(To(s, i, s.sources[i].(next := s.sources[i].next + 1)), Event(i, Vacancy(r.0, r.1)))
    case EndPublishing(i) => To(s, i, Completing)
    case SourceFails(i) => Put(To(s, i, Completing), Event(i, SourceError))
    case SourceCompletes(i) => Put(To(s, i, Draining), Event(i, SourceComplete))
    case SourceFinishes(i) => Put(To(s, i, Finished), Event(i, SourceFinished))
    case Acquire(c) =>
      Emit(cfg, Phase(s, c, if cfg.direct then Deciding else Scheduling).(running := s.running + {c}), c, Started)
    case Schedule(c, scheduled, failed) =>
      var t := s.(children := s.children[c := s.children[c].(phase := Materials, scheduled := scheduled)]);
      if failed then Emit(cfg, t, c, MatchingError) else t
    case SkipIngestion(c) => Phase(s, c, Scheduling)
    case WantProfile(c) => Phase(s, c, Locking)
    case TakeLock(c) => Phase(s, c, Looking).(lock := Some(c))
    case LookUp(c) => Phase(s, c, if s.children[c].cv in s.ingestions then Releasing else Creating)
    case Create(c) =>
      var cv := s.children[c].cv;
      Phase(s, c, Releasing).(ingestions := s.ingestions + {cv}, ingestionStarts := s.ingestionStarts + [cv])
    case Release(c) => Phase(s, c, Ingesting).(lock := None)
    case EndIngestion(c) => Phase(s, c, Scheduling)
    case DraftMaterials(c, ready) => Emit(cfg, Phase(s, c, Polling), c,
      if ready then MaterialsReady else MaterialsError)
    case Poll(c, ready, score) =>
      var inTime := ready || !s.children[c].scheduled;
      Emit(cfg, End(s, c, Done(if inTime then score else 0.0)), c, if inTime then MatchingReady else MatchingError)
    case ChildFails(c) => End(s, c, Failed)
    case Take =>
      var e := s.queue[0];
      var t := s.(queue := s.queue[1..], taken := s.taken + [e]);
      if e.body.SourceFinished? then t.(finished := s.finished + 1) else t.(out := s.out + [Delivered(e)])
    case CompleteStream => s.(out := s.out + [Complete(s.finished)], completed := true)
  }
}
