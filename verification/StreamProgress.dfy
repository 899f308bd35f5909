/** Every step but the discovery of a vacancy uses up work, so a stream with finitely many vacancies ends. */
module StreamProgress {
  import opened DiscoveryStream
  import opened StreamProofs

  // ----- the work that is left

  function ChildWork(phase: ChildPhase): nat {
    match phase
    case Waiting => 20
    case Deciding => 18
    case Locking => 16
    case Looking => 14
    case Creating => 12
    case Releasing => 10
    case Ingesting => 8
    case Scheduling => 6
    case Materials => 4
    case Polling => 2
    case Done(_) => 0
    case Failed => 0
  }

  function SourceWork(phase: SourcePhase): nat {
    match phase
    case Discovering => 10
    case Gathering => 8
    case Publishing(results, next) => 6 + 2 * (if next < |results| then |results| - next else 0)
    case Completing => 4
    case Draining => 2
    case Finished => 0
  }

  function ChildrenWork(children: seq<Child>): nat {
    if children == [] then 0 else ChildrenWork(children[..|children| - 1]) + ChildWork(children[|children| - 1].phase)
  }

  function SourcesWork(sources: seq<SourcePhase>): nat {
    if sources == [] then 0 else SourcesWork(sources[..|sources| - 1]) + SourceWork(sources[|sources| - 1])
  }

  predicate BeforePublishing(phase: SourcePhase) {
    phase.Discovering? || phase.Gathering?
  }

  /** The publications that children of sources still gathering may lead to. */
  function Unpublished(children: seq<Child>, sources: seq<SourcePhase>): nat {
    if children == [] then 0 else
      var i := children[|children| - 1].source;
      Unpublished(children[..|children| - 1], sources) + if i < |sources| && BeforePublishing(sources[i]) then 2 else 0
  }

  function Measure(s: State): nat {
    ChildrenWork(s.children) + SourcesWork(s.sources) + Unpublished(s.children, s.sources) + |s.queue|
    + if s.completed then 0 else 1
  }

  // ----- how the sums change

  lemma {:induction false} ChildrenWorkUpdate(children: seq<Child>, c: nat, child: Child)
    requires c < |children|
    ensures ChildrenWork(children[c := child]) + ChildWork(children[c].phase)
      == ChildrenWork(children) + ChildWork(child.phase)
  {
    var n := |children| - 1;
    var more := children[c := child];
    if c == n {
      assert more[..n] == children[..n];
    } else {
      ChildrenWorkUpdate(children[..n], c, child);
      assert more[..n] == children[..n][c := child];
    }
  }

  lemma {:induction false} SourcesWorkUpdate(sources: seq<SourcePhase>, i: nat, phase: SourcePhase)
    requires i < |sources|
    ensures SourcesWork(sources[i := phase]) + SourceWork(sources[i]) == SourcesWork(sources) + SourceWork(phase)
  {
    var n := |sources| - 1;
    var more := sources[i := phase];
    if i == n {
      assert more[..n] == sources[..n];
    } else {
      SourcesWorkUpdate(sources[..n], i, phase);
      assert more[..n] == sources[..n][i := phase];
    }
  }

  /** A child's own change does not move its source. */
  lemma {:induction false} UnpublishedUpdate(children: seq<Child>, sources: seq<SourcePhase>, c: nat, child: Child)
    requires c < |children| && child.source == children[c].source
    ensures Unpublished(children[c := child], sources) == Unpublished(children, sources)
  {
    var n := |children| - 1;
    var more := children[c := child];
    if c == n {
      assert more[..n] == children[..n];
    } else {
      UnpublishedUpdate(children[..n], sources, c, child);
      assert more[..n] == children[..n][c := child];
    }
  }

  /** When a source moves on, its children stop counting; there are at least as many as results. */
  lemma {:induction false} UnpublishedMoves(children: seq<Child>, sources: seq<SourcePhase>, i: nat, phase: SourcePhase)
    requires i < |sources| && !BeforePublishing(phase)
    ensures Unpublished(children, sources[i := phase]) <= Unpublished(children, sources)
    ensures BeforePublishing(sources[i]) ==>
      Unpublished(children, sources[i := phase]) + 2 * |Results(children, i)| <= Unpublished(children, sources)
  {
    if children == [] {
    } else {
      UnpublishedMoves(children[..|children| - 1], sources, i, phase);
    }
  }

  lemma {:induction false} UnpublishedSame(children: seq<Child>, sources: seq<SourcePhase>, more: seq<SourcePhase>)
    requires |more| == |sources|
    requires forall j :: 0 <= j < |sources| ==> BeforePublishing(more[j]) == BeforePublishing(sources[j])
    ensures Unpublished(children, more) == Unpublished(children, sources)
  {
    if children == [] {
    } else {
      UnpublishedSame(children[..|children| - 1], sources, more);
    }
  }

  // ----- steps

  lemma SourceMoves(s: State, t: State, i: nat)
    requires i < |s.sources| == |t.sources| && t.sources == s.sources[i := t.sources[i]]
    requires t.children == s.children && t.completed == s.completed && |t.queue| <= |s.queue| + 1
    requires !BeforePublishing(t.sources[i]) && SourceWork(t.sources[i]) + 2 <= SourceWork(s.sources[i])
    ensures Measure(t) < Measure(s)
  {
    SourcesWorkUpdate(s.sources, i, t.sources[i]);
    UnpublishedMoves(s.children, s.sources, i, t.sources[i]);
  }

  lemma SourceStepUsesWork(cfg: Config, s: State, step: Step)
    requires Enabled(cfg, s, step) && IsSourceStep(step) && !step.Outcome?
    ensures Measure(Apply(cfg, s, step)) < Measure(s)
  {
    var i, t := step.source, Apply(cfg, s, step);
    if step.EndDiscovery? && cfg.direct {
      SourcesWorkUpdate(s.sources, i, Gathering);
      UnpublishedSame(s.children, s.sources, t.sources);
    } else if step.Gather? {
      var results := Ranked(Results(s.children, i));
      RankedIsNonIncreasing(Results(s.children, i));
      assert |multiset(results)| == |multiset(Results(s.children, i))|;
      SourcesWorkUpdate(s.sources, i, Publishing(results, 0));
      UnpublishedMoves(s.children, s.sources, i, Publishing(results, 0));
    } else {
      SourceMoves(s, t, i);
    }
  }

  /** A child's step puts at most one event and leaves the sources alone. */
  lemma ChildStepFrame(cfg: Config, s: State, step: Step)
    requires Enabled(cfg, s, step) && !IsSourceStep(step) && !step.Take? && !step.CompleteStream?
    ensures Apply(cfg, s, step).sources == s.sources && Apply(cfg, s, step).completed == s.completed
    ensures |Apply(cfg, s, step).queue| <= |s.queue| + 1
  {
  }

  predicate IsProfileStep(step: Step) {
    || step.SkipIngestion? || step.WantProfile? || step.TakeLock? || step.LookUp? || step.Create? || step.Release?
    || step.EndIngestion?
  }

  lemma ProfileStepSpendsWork(cfg: Config, s: State, step: Step)
    requires Enabled(cfg, s, step) && IsProfileStep(step)
    requires step.child < |s.children| == |Apply(cfg, s, step).children|
    ensures ChildWork(Apply(cfg, s, step).children[step.child].phase) + 2 <= ChildWork(s.children[step.child].phase)
    ensures Apply(cfg, s, step).children[step.child].source == s.children[step.child].source
  {
  }

  lemma ChildSpendsWork(cfg: Config, s: State, step: Step)
    requires Enabled(cfg, s, step) && !IsSourceStep(step) && !step.Take? && !step.CompleteStream?
    requires step.child < |s.children| == |Apply(cfg, s, step).children|
    ensures ChildWork(Apply(cfg, s, step).children[step.child].phase) + 2 <= ChildWork(s.children[step.child].phase)
    ensures Apply(cfg, s, step).children[step.child].source == s.children[step.child].source
  {
    if IsProfileStep(step) {
      ProfileStepSpendsWork(cfg, s, step);
    }
  }

  lemma ChildStepUsesWork(cfg: Config, s: State, step: Step)
    requires Enabled(cfg, s, step) && !IsSourceStep(step) && !step.Take? && !step.CompleteStream?
    ensures Measure(Apply(cfg, s, step)) < Measure(s)
  {
    ChildStepIsLocal(cfg, s, step);
    ChildStepFrame(cfg, s, step);
    ChildSpendsWork(cfg, s, step);
    var c, t := step.child, Apply(cfg, s, step);
    assert t.children == s.children[c := t.children[c]];
    ChildrenWorkUpdate(s.children, c, t.children[c]);
    UnpublishedUpdate(s.children, s.sources, c, t.children[c]);
  }

  /** Every step of every task and of the consumer, except discovering one more vacancy, uses up work. */
  lemma StepUsesWork(cfg: Config, s: State, step: Step)
    requires Enabled(cfg, s, step) && !step.Outcome?
    ensures Measure(Apply(cfg, s, step)) < Measure(s)
  {
    if IsSourceStep(step) {
      SourceStepUsesWork(cfg, s, step);
    } else if !step.Take? && !step.CompleteStream? {
      ChildStepUsesWork(cfg, s, step);
    }
  }

  // ----- runs

  ghost predicate Advances(cfg: Config, s: State, t: State) {
    exists step: Step :: !step.Outcome? && Enabled(cfg, s, step) && t == Apply(cfg, s, step)
  }

  /** Without new vacancies, no interleaving is longer than the work that is left. */
  lemma {:induction false} StreamsEnd(cfg: Config, states: seq<State>)
    requires states != [] && forall k :: 0 <= k < |states| - 1 ==> Advances(cfg, states[k], states[k + 1])
    ensures |states| - 1 <= Measure(states[0])
    decreases |states|
  {
    if |states| == 1 {
    } else {
      assert Advances(cfg, states[0], states[0 + 1]);
      var step: Step :| !step.Outcome? && Enabled(cfg, states[0], step) && states[1] == Apply(cfg, states[0], step);
      StepUsesWork(cfg, states[0], step);
      var rest := states[1..];
      forall k | 0 <= k < |rest| - 1 ensures Advances(cfg, rest[k], rest[k + 1]) {
        assert Advances(cfg, states[k + 1], states[k + 1 + 1]);
      }
      StreamsEnd(cfg, rest);
    }
  }

  /**
   * So from any moment of any run, whichever enabled steps are taken, a run that discovers nothing
   * more and cannot go on has completed the stream.
   */
  lemma FinishedRunIsComplete(cfg: Config, states: seq<State>, s: State)
    requires Run(cfg, states, s) && cfg.concurrency > 0 && !exists t :: Advances(cfg, s, t)
    ensures s.completed
  {
    if !s.completed {
      NeverStuck(cfg, states, s);
      var step: Step :| !step.Outcome? && Enabled(cfg, s, step);
      assert Advances(cfg, s, Apply(cfg, s, step));
    }
  }
}
