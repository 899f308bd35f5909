/** The enrichment of a vacancy as the order of its steps, and which CVs are ingested on the way. */
module StreamLives {
  import opened DiscoveryStream
  import opened StreamProofs
  import opened StreamSteps
  import opened Wrappers

  datatype Stage =
    | Acquired | Skipped | Wanted | Locked | LookedUp | Created | Released | Ingested | Requested | Drafted | Closed

  /** What a step means for child `c`. */
  function StageOf(step: Step, c: nat): seq<Stage> {
    match step
    case Acquire(d) => if c == d then [Acquired] else []
    case SkipIngestion(d) => if c == d then [Skipped] else []
    case WantProfile(d) => if c == d then [Wanted] else []
    case TakeLock(d) => if c == d then [Locked] else []
    case LookUp(d) => if c == d then [LookedUp] else []
    case Create(d) => if c == d then [Created] else []
    case Release(d) => if c == d then [Released] else []
    case EndIngestion(d) => if c == d then [Ingested] else []
    case Schedule(d, _, _) => if c == d then [Requested] else []
    case DraftMaterials(d, _) => if c == d then [Drafted] else []
    case Poll(d, _, _) => if c == d then [Closed] else []
    case ChildFails(d) => if c == d then [Closed] else []
    case _ => []
  }

  function Life(steps: seq<Step>, c: nat): seq<Stage> {
    if steps == [] then [] else Life(steps[..|steps| - 1], c) + StageOf(steps[|steps| - 1], c)
  }

  /** Without direct mode a child goes straight to work. With it the profile is ingested first, unless skipped. */
  datatype Path = Straight | Skipping | Joining | Making

  function Whole(path: Path): seq<Stage> {
    match path
    case Straight => [Acquired, Requested, Drafted, Closed]
    case Skipping => [Acquired, Skipped, Requested, Drafted, Closed]
    case Joining => [Acquired, Wanted, Locked, LookedUp, Released, Ingested, Requested, Drafted, Closed]
    case Making => [Acquired, Wanted, Locked, LookedUp, Created, Released, Ingested, Requested, Drafted, Closed]
  }

  predicate Fits(direct: bool, path: Path) {
    direct <==> !path.Straight?
  }

  predicate Follows(life: seq<Stage>, path: Path) {
    |life| <= |Whole(path)| && forall k :: 0 <= k < |life| ==> life[k] == Whole(path)[k]
  }

  ghost predicate BeginsLife(direct: bool, life: seq<Stage>) {
    exists path :: Fits(direct, path) && Follows(life, path)
  }

  ghost predicate IsWholeLife(direct: bool, life: seq<Stage>) {
    exists path :: Fits(direct, path) && Follows(life, path) && |life| == |Whole(path)|
  }

  /** Where a child is that has `n` stages of its path behind it. */
  predicate PhaseAt(path: Path, n: nat, phase: ChildPhase) {
    var ahead := |Whole(path)| - n;
    if ahead == 0 then Ended(phase)
    else if ahead == 1 then phase.Polling?
    else if ahead == 2 then phase.Materials?
    else if ahead == 3 then phase.Scheduling?
    else if n == 0 then phase.Waiting?
    else if n == 1 then phase.Deciding?
    else if n == 2 then phase.Locking?
    else if n == 3 then phase.Looking?
    else if n == 4 then if path.Making? then phase.Creating? else phase.Releasing?
    else if n == 5 then if path.Making? then phase.Releasing? else phase.Ingesting?
    else phase.Ingesting?
  }

  ghost predicate LivesOn(direct: bool, path: Path, phase: ChildPhase, life: seq<Stage>) {
    Fits(direct, path) && Follows(life, path) && PhaseAt(path, |life|, phase)
  }

  ghost predicate LifeAt(direct: bool, phase: ChildPhase, life: seq<Stage>) {
    exists path :: LivesOn(direct, path, phase, life)
  }

  /** The phases are the lives, and who released the lock, or is about to, has its CV ingested. */
  ghost predicate ChildLives(cfg: Config, steps: seq<Step>, child: Child, ingestions: set<int>, c: nat) {
    && LifeAt(cfg.direct, child.phase, Life(steps, c))
    && (child.phase.Releasing? || Released in Life(steps, c) ==> child.cv in ingestions)
  }

  ghost predicate AllLive(cfg: Config, steps: seq<Step>, s: State) {
    && (forall c: nat {:trigger s.children[c]} {:trigger Life(steps, c)} ::
         c < |s.children| ==> ChildLives(cfg, steps, s.children[c], s.ingestions, c))
    && forall c: nat :: c >= |s.children| ==> Life(steps, c) == []
  }

  lemma LifeGrows(steps: seq<Step>, step: Step, c: nat)
    ensures Life(steps + [step], c) == Life(steps, c) + StageOf(step, c)
  {
    assert (steps + [step])[..|steps|] == steps;
  }

  /** Which phases a stage leads from and to. */
  predicate Leads(direct: bool, from: ChildPhase, stage: Stage, to: ChildPhase) {
    match stage
    case Acquired => from.Waiting? && (if direct then to.Deciding? else to.Scheduling?)
    case Skipped => from.Deciding? && to.Scheduling?
    case Wanted => from.Deciding? && to.Locking?
    case Locked => from.Locking? && to.Looking?
    case LookedUp => from.Looking? && (to.Releasing? || to.Creating?)
    case Created => from.Creating? && to.Releasing?
    case Released => from.Releasing? && to.Ingesting?
    case Ingested => from.Ingesting? && to.Scheduling?
    case Requested => from.Scheduling? && to.Materials?
    case Drafted => from.Materials? && to.Polling?
    case Closed => from.Polling? && Ended(to)
  }

  /** The path that is known once a stage is reached. */
  function Chosen(direct: bool, path: Path, stage: Stage, to: ChildPhase): Path {
    match stage
    case Skipped => Skipping
    case Wanted => Joining
    case LookedUp => if to.Creating? then Making else Joining
    case _ => path
  }

  lemma StageLives(direct: bool, from: ChildPhase, stage: Stage, to: ChildPhase, life: seq<Stage>)
    requires Leads(direct, from, stage, to) && LifeAt(direct, from, life)
    ensures LifeAt(direct, to, life + [stage])
  {
    var path :| LivesOn(direct, path, from, life);
    ChosenLives(direct, from, stage, to, life, path);
  }

  lemma ChosenLives(direct: bool, from: ChildPhase, stage: Stage, to: ChildPhase, life: seq<Stage>, path: Path)
    requires Leads(direct, from, stage, to) && LivesOn(direct, path, from, life)
    ensures LivesOn(direct, Chosen(direct, path, stage, to), to, life + [stage])
  {
    var n, chosen := |life|, Chosen(direct, path, stage, to);
    assert n < |Whole(path)|;
    assert n < |Whole(chosen)| && Whole(chosen)[n] == stage;
    forall k | 0 <= k < n ensures Whole(chosen)[k] == life[k] {
    }
  }

  predicate IsChildStep(step: Step) {
    !IsSourceStep(step) && !step.Take? && !step.CompleteStream?
  }

  lemma StepLeads(cfg: Config, s: State, step: Step) returns (stage: Stage)
    requires Enabled(cfg, s, step) && IsChildStep(step)
    ensures StageOf(step, step.child) == [stage] && forall c: nat :: c != step.child ==> StageOf(step, c) == []
    ensures step.child < |s.children| == |Apply(cfg, s, step).children|
    ensures Leads(cfg.direct, s.children[step.child].phase, stage, Apply(cfg, s, step).children[step.child].phase)
  {
    stage := StageOf(step, step.child)[0];
  }

  /** A step adds to one life, and only a created task adds a CV. */
  lemma StepKeepsLives(cfg: Config, s: State, step: Step, steps: seq<Step>)
    requires Enabled(cfg, s, step) && AllLive(cfg, steps, s)
    ensures AllLive(cfg, steps + [step], Apply(cfg, s, step))
  {
    var t, more := Apply(cfg, s, step), steps + [step];
    forall c: nat | c < |t.children| ensures ChildLives(cfg, more, t.children[c], t.ingestions, c) {
      StepKeepsLife(cfg, s, step, steps, c);
    }
    forall c: nat | c >= |t.children| ensures Life(more, c) == [] {
      LifeGrows(steps, step, c);
      BeyondChildren(cfg, s, step, c);
    }
  }

  lemma StepKeepsLife(cfg: Config, s: State, step: Step, steps: seq<Step>, c: nat)
    requires Enabled(cfg, s, step) && AllLive(cfg, steps, s) && c < |Apply(cfg, s, step).children|
    ensures ChildLives(cfg, steps + [step], Apply(cfg, s, step).children[c], Apply(cfg, s, step).ingestions, c)
  {
    LifeGrows(steps, step, c);
    if IsChildStep(step) && c == step.child {
      ChildStepIsLocal(cfg, s, step);
      OwnLife(cfg, s, step, Life(steps, c));
    } else {
      OtherLife(cfg, s, step, c);
      assert Life(steps + [step], c) == Life(steps, c) + [] == Life(steps, c);
      if c >= |s.children| {
        EmptyLife(cfg.direct, Apply(cfg, s, step).children[c].phase);
      }
    }
  }

  lemma BeyondChildren(cfg: Config, s: State, step: Step, c: nat)
    requires Enabled(cfg, s, step) && c >= |Apply(cfg, s, step).children|
    ensures c >= |s.children| && StageOf(step, c) == []
  {
  }

  lemma OtherLife(cfg: Config, s: State, step: Step, c: nat)
    requires Enabled(cfg, s, step) && c < |Apply(cfg, s, step).children|
    requires IsChildStep(step) ==> c != step.child
    ensures StageOf(step, c) == [] && s.ingestions <= Apply(cfg, s, step).ingestions
    ensures c < |s.children| ==> Apply(cfg, s, step).children[c] == s.children[c]
    ensures c >= |s.children| ==> Apply(cfg, s, step).children[c].phase.Waiting?
  {
  }

  lemma OwnLife(cfg: Config, s: State, step: Step, life: seq<Stage>)
    requires Enabled(cfg, s, step) && IsChildStep(step)
    requires step.child < |s.children| == |Apply(cfg, s, step).children|
    requires LifeAt(cfg.direct, s.children[step.child].phase, life)
    requires s.children[step.child].phase.Releasing? || Released in life ==> s.children[step.child].cv in s.ingestions
    ensures
      var t := Apply(cfg, s, step);
      && LifeAt(cfg.direct, t.children[step.child].phase, life + StageOf(step, step.child))
      && (t.children[step.child].phase.Releasing? || Released in life + StageOf(step, step.child) ==>
           t.children[step.child].cv in t.ingestions)
  {
    var stage := StepLeads(cfg, s, step);
    StageLives(cfg.direct, s.children[step.child].phase, stage,
      Apply(cfg, s, step).children[step.child].phase, life);
    OwnCvIsKnown(cfg, s, step, life);
  }

  lemma OwnCvIsKnown(cfg: Config, s: State, step: Step, life: seq<Stage>)
    requires Enabled(cfg, s, step) && IsChildStep(step)
    requires step.child < |s.children| == |Apply(cfg, s, step).children|
    requires s.children[step.child].phase.Releasing? || Released in life ==> s.children[step.child].cv in s.ingestions
    ensures
      var t := Apply(cfg, s, step);
      && s.ingestions <= t.ingestions
      && (t.children[step.child].phase.Releasing? || Released in life + StageOf(step, step.child) ==>
           t.children[step.child].cv in t.ingestions)
  {
  }

  lemma {:induction false} RunLives(cfg: Config, states: seq<State>, steps: seq<Step>, k: nat)
    requires RunBy(cfg, states, steps) && k < |states|
    ensures AllLive(cfg, steps[..k], states[k])
    decreases k
  {
    if k == 0 {
    } else {
      RunLives(cfg, states, steps, k - 1);
      assert StepTo(cfg, states[k - 1], states[k - 1 + 1], steps[k - 1]);
      assert steps[..k] == steps[..k - 1] + [steps[k - 1]];
      StepKeepsLives(cfg, states[k - 1], steps[k - 1], steps[..k - 1]);
    }
  }

  lemma OnlyTheLastCloses(path: Path, k: nat)
    requires k < |Whole(path)|
    ensures Whole(path)[k] == Closed <==> k == |Whole(path)| - 1
  {
  }

  lemma LifeIsBegun(direct: bool, phase: ChildPhase, life: seq<Stage>)
    requires LifeAt(direct, phase, life)
    ensures BeginsLife(direct, life)
    ensures Ended(phase) <==> IsWholeLife(direct, life)
  {
    var path :| LivesOn(direct, path, phase, life);
    PathIsBegun(direct, path, phase, life);
  }

  lemma PathIsBegun(direct: bool, path: Path, phase: ChildPhase, life: seq<Stage>)
    requires LivesOn(direct, path, phase, life)
    ensures BeginsLife(direct, life)
    ensures Ended(phase) <==> IsWholeLife(direct, life)
  {
    assert Ended(phase) <==> |life| == |Whole(path)|;
    if IsWholeLife(direct, life) {
      var other :| Fits(direct, other) && Follows(life, other) && |life| == |Whole(other)|;
      OnlyTheLastCloses(other, |life| - 1);
      OnlyTheLastCloses(path, |life| - 1);
    }
  }

  lemma EmptyLife(direct: bool, phase: ChildPhase)
    requires phase.Waiting?
    ensures LifeAt(direct, phase, [])
  {
    assert LivesOn(direct, if direct then Skipping else Straight, phase, []);
  }

  /**
   * In every run each vacancy's enrichment goes through its stages in order, with the ingestion of
   * the profile first in direct mode and without it otherwise; it has ended when they are all done.
   */
  lemma LivesAreOrderly(cfg: Config, states: seq<State>, steps: seq<Step>, c: nat)
    requires RunBy(cfg, states, steps)
    ensures BeginsLife(cfg.direct, Life(steps, c))
    ensures c < |Finds(steps)| == |states[|steps|].children| ==>
      (Ended(states[|steps|].children[c].phase) <==> IsWholeLife(cfg.direct, Life(steps, c)))
  {
    var s := states[|steps|];
    assert steps[..|steps|] == steps;
    RunLives(cfg, states, steps, |steps|);
    if c < |s.children| {
      assert ChildLives(cfg, steps, s.children[c], s.ingestions, c);
      LifeIsBegun(cfg.direct, s.children[c].phase, Life(steps, c));
    } else {
      EmptyLife(cfg.direct, Waiting);
      LifeIsBegun(cfg.direct, Waiting, Life(steps, c));
    }
  }

  // ----- which CVs are ingested

  ghost predicate CreatedFor(steps: seq<Step>, finds: seq<Step>, c: nat, cv: int)
    requires forall k :: 0 <= k < |finds| ==> finds[k].Outcome?
  {
    c < |finds| && finds[c].cv == cv && Created in Life(steps, c)
  }

  lemma NewStartIsCreated(cfg: Config, s: State, step: Step, cv: int)
    requires Enabled(cfg, s, step) && cv !in s.ingestionStarts && cv in Apply(cfg, s, step).ingestionStarts
    ensures step.Create? && step.child < |s.children| && s.children[step.child].cv == cv
  {
  }

  lemma CreatedStays(steps: seq<Step>, step: Step, c: nat, cv: int)
    requires CreatedFor(steps, Finds(steps), c, cv)
    ensures CreatedFor(steps + [step], Finds(steps + [step]), c, cv)
  {
    StepAppends(steps, step, c);
    LifeGrows(steps, step, c);
  }

  lemma CreatedNow(cfg: Config, steps: seq<Step>, s: State, step: Step)
    requires step.Create? && step.child < |s.children| && ChildrenFollow(steps, s.children)
    ensures
      CreatedFor(steps + [step], Finds(steps + [step]), step.child, s.children[step.child].cv)
  {
    assert ChildFollows(steps, Finds(steps), s.children[step.child], step.child);
    StepAppends(steps, step, step.child);
    LifeGrows(steps, step, step.child);
  }

  /** Each ingestion task was made by a child of its CV. */
  lemma {:induction false} StartsWereCreated(cfg: Config, states: seq<State>, steps: seq<Step>, k: nat, cv: int)
      returns (c: nat)
    requires RunBy(cfg, states, steps) && k < |states| && cv in states[k].ingestionStarts
    ensures CreatedFor(steps[..k], Finds(steps[..k]), c, cv)
    decreases k
  {
    assert k > 0;
    var s, step := states[k - 1], steps[k - 1];
    assert StepTo(cfg, s, states[k - 1 + 1], step);
    assert steps[..k] == steps[..k - 1] + [step];
    if cv in s.ingestionStarts {
      c := StartsWereCreated(cfg, states, steps, k - 1, cv);
      CreatedStays(steps[..k - 1], step, c, cv);
    } else {
      NewStartIsCreated(cfg, s, step, cv);
      RunFollows(cfg, states, steps, k - 1);
      CreatedNow(cfg, steps[..k - 1], s, step);
      c := step.child;
    }
  }

  /** The CV of a child that has released the profile lock has its ingestion task. */
  lemma ReleasedIsIngested(cfg: Config, states: seq<State>, steps: seq<Step>, c: nat)
    requires RunBy(cfg, states, steps) && c < |Finds(steps)| && Released in Life(steps, c)
    ensures Finds(steps)[c].cv in states[|steps|].ingestionStarts
  {
    var s := states[|steps|];
    assert steps[..|steps|] == steps;
    RunLives(cfg, states, steps, |steps|);
    RunFollows(cfg, states, steps, |steps|);
    assert ChildLives(cfg, steps, s.children[c], s.ingestions, c);
    assert ChildFollows(steps, Finds(steps), s.children[c], c);
    RunByIsRun(cfg, states, steps);
    RunsKeepInv(cfg, states, s);
  }

  /** Without direct mode nothing is ingested. */
  lemma OnlyDirectModeIngests(cfg: Config, states: seq<State>, steps: seq<Step>)
    requires RunBy(cfg, states, steps) && !cfg.direct
    ensures states[|steps|].ingestionStarts == []
  {
    var starts := states[|steps|].ingestionStarts;
    if starts != [] {
      assert steps[..|steps|] == steps;
      var c := StartsWereCreated(cfg, states, steps, |steps|, starts[0]);
      LivesAreOrderly(cfg, states, steps, c);
      NoCreation(Life(steps, c));
    }
  }

  lemma NoCreation(life: seq<Stage>)
    requires BeginsLife(false, life)
    ensures Created !in life
  {
    var path :| Fits(false, path) && Follows(life, path);
    assert forall k :: 0 <= k < |life| ==> life[k] == Whole(Straight)[k];
  }

  // ----- why a source fails

  lemma {:induction false} FailedWasSaid(cfg: Config, states: seq<State>, steps: seq<Step>, k: nat, c: nat)
    requires RunBy(cfg, states, steps) && k < |states|
    requires c < |states[k].children| && states[k].children[c].phase.Failed?
    ensures ChildFails(c) in steps[..k]
    decreases k
  {
    if k == 0 {
    } else {
      var s, step := states[k - 1], steps[k - 1];
      assert StepTo(cfg, s, states[k - 1 + 1], step);
      assert steps[..k] == steps[..k - 1] + [step];
      if step != ChildFails(c) {
        NewFailure(cfg, s, step, c);
        FailedWasSaid(cfg, states, steps, k - 1, c);
      }
    }
  }

  lemma NewFailure(cfg: Config, s: State, step: Step, c: nat)
    requires Enabled(cfg, s, step) && c < |Apply(cfg, s, step).children|
    requires Apply(cfg, s, step).children[c].phase.Failed? && step != ChildFails(c)
    ensures c < |s.children| && s.children[c].phase.Failed?
  {
  }

  /** While a source only waits for its enrichments, it fails for the failure of one of its own. */
  lemma GatheringFailsForItsOwn(cfg: Config, states: seq<State>, steps: seq<Step>, k: nat, i: nat)
    requires RunBy(cfg, states, steps) && k < |steps| && steps[k] == SourceFails(i)
    requires i < |states[k].sources| && states[k].sources[i].Gathering?
    ensures exists c: nat :: c < |Finds(steps[..k])| && Finds(steps[..k])[c].source == i && ChildFails(c) in steps[..k]
  {
    var s := states[k];
    assert StepTo(cfg, s, states[k + 1], steps[k]);
    assert AnyFailed(s, i);
    var c: nat :| c < |s.children| && s.children[c].source == i && s.children[c].phase.Failed?;
    FailedWasSaid(cfg, states, steps, k, c);
    RunFollows(cfg, states, steps, k);
    assert ChildFollows(steps[..k], Finds(steps[..k]), s.children[c], c);
  }
}
