/**
 * A stream told by its steps alone: which applications were discovered, how each one's matching
 * ended, and what the response says of them, without the states in between.
 */
module StreamSteps {
  import opened DiscoveryStream
  import opened StreamProofs
  import opened Wrappers

  ghost predicate RunBy(cfg: Config, states: seq<State>, steps: seq<Step>) {
    && |states| == |steps| + 1 && states[0] == Init(cfg)
    && forall k :: 0 <= k < |steps| ==> StepTo(cfg, states[k], states[k + 1], steps[k])
  }

  ghost predicate StepTo(cfg: Config, s: State, t: State, step: Step) {
    Enabled(cfg, s, step) && t == Apply(cfg, s, step)
  }

  // ----- what the steps say

  /** The discoveries, in order; the `c`-th one is child `c`. */
  function Finds(steps: seq<Step>): (r: seq<Step>)
    ensures forall k :: 0 <= k < |r| ==> r[k].Outcome?
  {
    if steps == [] then [] else
      var last := steps[|steps| - 1];
      Finds(steps[..|steps| - 1]) + if last.Outcome? then [last] else []
  }

  predicate WasScheduled(steps: seq<Step>, c: nat) {
    if steps == [] then false else
      var last := steps[|steps| - 1];
      if last.Schedule? && last.child == c then last.scheduled else WasScheduled(steps[..|steps| - 1], c)
  }

  /** A scheduled matching that is not ready at the last poll is out of time. */
  function InTime(steps: seq<Step>, c: nat, ready: bool): bool {
    ready || !WasScheduled(steps, c)
  }

  /** The score of the child's poll, or 0 where that was out of time. */
  function ScoreOf(steps: seq<Step>, c: nat): real {
    if steps == [] then 0.0 else
      var before, last := steps[..|steps| - 1], steps[|steps| - 1];
      if last.Poll? && last.child == c then if InTime(before, c, last.ready) then last.score else 0.0
      else ScoreOf(before, c)
  }

  /** The applications that a source discovered, in order, with the scores of their polls. */
  function Scored(steps: seq<Step>, finds: seq<Step>, source: nat): seq<(int, real)>
    requires forall k :: 0 <= k < |finds| ==> finds[k].Outcome?
  {
    if finds == [] then [] else
      var n := |finds| - 1;
      Scored(steps, finds[..n], source)
      + if finds[n].source == source then [(finds[n].application, ScoreOf(steps, n))] else []
  }

  // ----- the children are what the steps say

  predicate ChildFollows(steps: seq<Step>, finds: seq<Step>, child: Child, c: nat)
    requires forall k :: 0 <= k < |finds| ==> finds[k].Outcome?
  {
    && c < |finds| && child.source == finds[c].source && child.application == finds[c].application
    && child.cv == finds[c].cv && child.scheduled == WasScheduled(steps, c)
    && (child.phase.Done? ==> child.phase.score == ScoreOf(steps, c))
  }

  ghost predicate ChildrenFollow(steps: seq<Step>, children: seq<Child>) {
    && |children| == |Finds(steps)|
    && (forall c: nat {:trigger ChildFollows(steps, Finds(steps), children[c], c)} ::
         c < |children| ==> ChildFollows(steps, Finds(steps), children[c], c))
    && forall c: nat :: c >= |children| ==> !WasScheduled(steps, c)
  }

  lemma StepAppends(steps: seq<Step>, step: Step, c: nat)
    ensures Finds(steps + [step]) == Finds(steps) + if step.Outcome? then [step] else []
    ensures WasScheduled(steps + [step], c)
         == if step.Schedule? && step.child == c then step.scheduled else WasScheduled(steps, c)
    ensures ScoreOf(steps + [step], c)
         == if step.Poll? && step.child == c then if InTime(steps, c, step.ready) then step.score else 0.0
            else ScoreOf(steps, c)
  {
    assert (steps + [step])[..|steps|] == steps;
  }

  lemma StepFollows(cfg: Config, s: State, step: Step, steps: seq<Step>)
    requires Enabled(cfg, s, step) && ChildrenFollow(steps, s.children)
    ensures ChildrenFollow(steps + [step], Apply(cfg, s, step).children)
  {
    var t, more := Apply(cfg, s, step), steps + [step];
    var isChildStep := !IsSourceStep(step) && !step.Take? && !step.CompleteStream?;
    StepAppends(steps, step, 0);
    if isChildStep {
      ChildStepIsLocal(cfg, s, step);
    }
    assert |t.children| == |Finds(more)|;
    forall c: nat | c < |t.children| ensures ChildFollows(more, Finds(more), t.children[c], c) {
      StepAppends(steps, step, c);
      if isChildStep && c == step.child {
        assert ChildFollows(steps, Finds(steps), s.children[c], c);
        OwnStepFollows(cfg, s, step, steps);
      } else if c < |s.children| {
        assert ChildFollows(steps, Finds(steps), s.children[c], c);
        assert t.children[c] == s.children[c];
      }
    }
    forall c: nat | c >= |t.children| ensures !WasScheduled(more, c) {
      StepAppends(steps, step, c);
    }
  }

  lemma OwnStepFollows(cfg: Config, s: State, step: Step, steps: seq<Step>)
    requires Enabled(cfg, s, step) && !IsSourceStep(step) && !step.Take? && !step.CompleteStream?
    requires step.child < |s.children| == |Apply(cfg, s, step).children| == |Finds(steps)|
    requires ChildFollows(steps, Finds(steps), s.children[step.child], step.child)
    ensures ChildFollows(steps + [step], Finds(steps + [step]), Apply(cfg, s, step).children[step.child], step.child)
  {
    StepAppends(steps, step, step.child);
  }

  lemma {:induction false} RunFollows(cfg: Config, states: seq<State>, steps: seq<Step>, k: nat)
    requires RunBy(cfg, states, steps) && k < |states|
    ensures ChildrenFollow(steps[..k], states[k].children)
    decreases k
  {
    if k == 0 {
    } else {
      RunFollows(cfg, states, steps, k - 1);
      assert StepTo(cfg, states[k - 1], states[k - 1 + 1], steps[k - 1]);
      assert steps[..k] == steps[..k - 1] + [steps[k - 1]];
      StepFollows(cfg, states[k - 1], steps[k - 1], steps[..k - 1]);
    }
  }

  lemma {:induction false} ResultsAreScored(steps: seq<Step>, finds: seq<Step>, children: seq<Child>, i: nat)
    requires forall k :: 0 <= k < |finds| ==> finds[k].Outcome?
    requires |children| == |finds| && SourceDone(children, i)
    requires forall c: nat :: c < |children| ==> ChildFollows(steps, finds, children[c], c)
    ensures Results(children, i) == Scored(steps, finds, i)
  {
    if children == [] {
    } else {
      var n := |children| - 1;
      forall c: nat | c < n ensures ChildFollows(steps, finds[..n], children[..n][c], c) {
        assert ChildFollows(steps, finds, children[c], c);
      }
      ResultsAreScored(steps, finds[..n], children[..n], i);
      assert ChildFollows(steps, finds, children[n], n);
    }
  }

  // ----- runs by steps are runs

  lemma {:induction false} RunByIsRun(cfg: Config, states: seq<State>, steps: seq<Step>)
    requires RunBy(cfg, states, steps)
    ensures Run(cfg, states, states[|steps|])
  {
    forall k | 0 <= k < |states| - 1 ensures Next(cfg, states[k], states[k + 1]) {
      assert StepTo(cfg, states[k], states[k + 1], steps[k]);
    }
  }

  lemma {:induction false} ErrorsComeFromSteps(cfg: Config, states: seq<State>, steps: seq<Step>, k: nat, i: nat)
    requires RunBy(cfg, states, steps) && k < |states| && Event(i, SourceError) in states[k].put
    ensures SourceFails(i) in steps[..k]
    decreases k
  {
    if k == 0 {
    } else {
      var s, step := states[k - 1], steps[k - 1];
      assert StepTo(cfg, s, states[k - 1 + 1], step);
      assert steps[..k] == steps[..k - 1] + [step];
      if Event(i, SourceError) in s.put {
        ErrorsComeFromSteps(cfg, states, steps, k - 1, i);
      } else {
        ErrorStep(cfg, s, step, i);
      }
    }
  }

  lemma ErrorStep(cfg: Config, s: State, step: Step, i: nat)
    requires Enabled(cfg, s, step) && Event(i, SourceError) !in s.put
    requires Event(i, SourceError) in Apply(cfg, s, step).put
    ensures step == SourceFails(i)
  {
  }

  lemma {:induction false} CompletionIsPut(cfg: Config, states: seq<State>, steps: seq<Step>, k: nat, i: nat)
    requires RunBy(cfg, states, steps) && k < |states| && SourceCompletes(i) in steps[..k]
    ensures Event(i, SourceComplete) in states[k].put
    decreases k
  {
    if k == 0 {
    } else {
      var s, step := states[k - 1], steps[k - 1];
      assert StepTo(cfg, s, states[k - 1 + 1], step);
      assert steps[..k] == steps[..k - 1] + [step];
      PutGrows(cfg, s, step);
      if step == SourceCompletes(i) {
        var t := Apply(cfg, s, step);
        assert t.put[|t.put| - 1] == Event(i, SourceComplete);
      } else {
        CompletionIsPut(cfg, states, steps, k - 1, i);
      }
    }
  }

  lemma PutGrows(cfg: Config, s: State, step: Step)
    requires Enabled(cfg, s, step)
    ensures s.put <= Apply(cfg, s, step).put
  {
  }

  /**
   * A completed direct source that did not fail published the first `limit` of the applications
   * it discovered, ranked by the scores of their own polls.
   */
  lemma DirectModeRanksThePolls(cfg: Config, states: seq<State>, steps: seq<Step>, i: nat)
    requires RunBy(cfg, states, steps) && cfg.direct && i < cfg.sources
    requires SourceCompletes(i) in steps || CompleteStream in steps
    requires SourceFails(i) !in steps
    ensures Vacancies(Of(states[|steps|].put, i)) == Top(cfg, Scored(steps, Finds(steps), i))
  {
    var s := states[|steps|];
    assert steps[..|steps|] == steps;
    if Event(i, SourceError) in s.put {
      ErrorsComeFromSteps(cfg, states, steps, |steps|, i);
    }
    if SourceCompletes(i) in steps {
      CompletionIsPut(cfg, states, steps, |steps|, i);
    } else {
      StaysCompleted(cfg, states, steps, |steps|);
    }
    RunByIsRun(cfg, states, steps);
    DirectModePublishesTheBest(cfg, states, s, i);
    RunFollows(cfg, states, steps, |steps|);
    ResultsAreScored(steps, Finds(steps), s.children, i);
  }

  lemma {:induction false} StaysCompleted(cfg: Config, states: seq<State>, steps: seq<Step>, k: nat)
    requires RunBy(cfg, states, steps) && k < |states| && CompleteStream in steps[..k]
    ensures states[k].completed
    decreases k
  {
    if k == 0 {
    } else {
      assert StepTo(cfg, states[k - 1], states[k - 1 + 1], steps[k - 1]);
      assert steps[..k] == steps[..k - 1] + [steps[k - 1]];
      if steps[k - 1] != CompleteStream {
        StaysCompleted(cfg, states, steps, k - 1);
      }
      CompletionStays(cfg, states[k - 1], steps[k - 1]);
    }
  }

  lemma CompletionStays(cfg: Config, s: State, step: Step)
    requires Enabled(cfg, s, step) && (s.completed || step == CompleteStream)
    ensures Apply(cfg, s, step).completed
  {
  }

  // ----- with events of their own

  function About(finds: seq<Step>, c: nat, kind: Kind): seq<Event>
    requires forall k :: 0 <= k < |finds| ==> finds[k].Outcome?
  {
    if c < |finds| then [Event(finds[c].source, Enrichment(finds[c].application, kind))] else []
  }

  /** What a step puts into the queue when enrichments report on their own. */
  function Announced(steps: seq<Step>, step: Step): seq<Event> {
    var finds := Finds(steps);
    match step
    case Outcome(i, application, score, _) => [Event(i, Vacancy(application, score))]
    case SourceFails(i) => [Event(i, SourceError)]
    case SourceCompletes(i) => [Event(i, SourceComplete)]
    case SourceFinishes(i) => [Event(i, SourceFinished)]
    case Acquire(c) => About(finds, c, Started)
    case Schedule(c, _, failed) => if failed then About(finds, c, MatchingError) else []
    case DraftMaterials(c, ready) => About(finds, c, if ready then MaterialsReady else MaterialsError)
    case Poll(c, ready, _) => About(finds, c, if InTime(steps, c, ready) then MatchingReady else MatchingError)
    case _ => []
  }

  function AllAnnounced(steps: seq<Step>): seq<Event> {
    if steps == [] then [] else
      AllAnnounced(steps[..|steps| - 1]) + Announced(steps[..|steps| - 1], steps[|steps| - 1])
  }

  lemma StepAnnounces(cfg: Config, s: State, step: Step, steps: seq<Step>)
    requires Enabled(cfg, s, step) && ModeOk(cfg, s) && !cfg.direct && ChildrenFollow(steps, s.children)
    ensures Apply(cfg, s, step).put == s.put + Announced(steps, step)
  {
    if !IsSourceStep(step) && !step.Take? && !step.CompleteStream? {
      ChildStepIsLocal(cfg, s, step);
      assert ChildFollows(steps, Finds(steps), s.children[step.child], step.child);
    }
  }

  lemma {:induction false} RunAnnounces(cfg: Config, states: seq<State>, steps: seq<Step>, k: nat)
    requires RunBy(cfg, states, steps) && k < |states| && !cfg.direct
    ensures states[k].put == AllAnnounced(steps[..k]) && ModeOk(cfg, states[k])
    decreases k
  {
    if k == 0 {
    } else {
      var s, step := states[k - 1], steps[k - 1];
      RunAnnounces(cfg, states, steps, k - 1);
      RunFollows(cfg, states, steps, k - 1);
      assert StepTo(cfg, s, states[k - 1 + 1], step);
      assert steps[..k][..k - 1] == steps[..k - 1];
      StepAnnounces(cfg, s, step, steps[..k - 1]);
      NextKeepsMode(cfg, s, step);
    }
  }

  lemma NextKeepsMode(cfg: Config, s: State, step: Step)
    requires Enabled(cfg, s, step) && ModeOk(cfg, s)
    ensures ModeOk(cfg, Apply(cfg, s, step))
  {
  }

  /** A completed stream said exactly what its steps announced, in order, and then that it is complete. */
  lemma CompletedStreamIsTold(cfg: Config, states: seq<State>, steps: seq<Step>)
    requires RunBy(cfg, states, steps) && states[|steps|].completed && !cfg.direct
    ensures states[|steps|].out == Visible(AllAnnounced(steps)) + [Complete(cfg.sources)]
  {
    assert steps[..|steps|] == steps;
    RunByIsRun(cfg, states, steps);
    RunAnnounces(cfg, states, steps, |steps|);
    CompletedStream(cfg, states, states[|steps|]);
  }
}
