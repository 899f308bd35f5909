/** The transition table of an application, its actors, and what emails do to a status. */
module ApplicationLifecycle {
  import opened Wrappers

  /** The twelve statuses; any other text a caller may pass is `Unsupported`. */
  datatype Status =
    | Draft | Saved | AwaitingReview | Approved | Rejected | EmployerRejected | Skipped
    | Submitted | Interview | Offer | Withdrawn | NeedsReview
    | Unsupported(text: string)

  datatype Actor = Human | System | Email

  datatype Refusal = UnsupportedStatus | UnknownCurrent | NotAllowed | NeedsHuman

  const TRACKING: set<Status> := {Interview, Offer, EmployerRejected}
  const TERMINAL: set<Status> := {Rejected, EmployerRejected, Skipped, Withdrawn}
  const POST_SUBMISSION: set<Status> := {Submitted, Interview, Offer, EmployerRejected, Withdrawn}

  predicate Known(s: Status) {
    !s.Unsupported?
  }

  /** `TRANSITIONS`, with the tracking statuses added to every pre-submission source. */
  function Transitions(s: Status): set<Status>
    requires Known(s)
  {
    match s
    case Draft => {Saved, AwaitingReview, Approved, Rejected, Skipped, Withdrawn, Submitted} + TRACKING
    case Saved => {Draft, AwaitingReview, Approved, Rejected, Skipped, Withdrawn, Submitted} + TRACKING
    case AwaitingReview => {Saved, Approved, Rejected, Skipped, Withdrawn, Submitted, NeedsReview} + TRACKING
    case Approved => {AwaitingReview, Saved, Rejected, Skipped, Withdrawn, Submitted} + TRACKING
    case NeedsReview => {AwaitingReview, Saved, Approved, Rejected, Skipped, Withdrawn, Submitted} + TRACKING
    case Submitted => {Interview, Offer, EmployerRejected, Withdrawn, NeedsReview}
    case Interview => {Offer, EmployerRejected, Withdrawn, NeedsReview}
    case Offer => {EmployerRejected, Withdrawn, NeedsReview}
    case Rejected => {Saved, AwaitingReview}
    case Skipped => {Saved, AwaitingReview}
    case Withdrawn => {}
    case EmployerRejected => {NeedsReview}
  }

  predicate HumanOnly(source: Status, target: Status) {
    || (source in {Draft, Saved, AwaitingReview, NeedsReview} && target == Approved)
    || (source in {Rejected, Skipped} && target in {Saved, AwaitingReview})
    || (source == Approved && target == AwaitingReview)
    || (source == EmployerRejected && target == NeedsReview)
  }

  predicate EmailExtra(source: Status, target: Status) {
    || (source in {Draft, Saved, AwaitingReview, NeedsReview, Submitted} && target == Approved)
    || (source == NeedsReview && target == AwaitingReview)
  }

  /** `check_transition`: Ok(true) for a change, Ok(false) for the same status, an error for a refusal. */
  function CheckTransition(current: Status, target: Status, actor: Actor): Result<bool, Refusal> {
    if !Known(target) then Err(UnsupportedStatus)
    else if !Known(current) then Err(UnknownCurrent)
    else if current == target then Ok(false)
    else if actor == Email && EmailExtra(current, target) then Ok(true)
    else if target !in Transitions(current) then Err(NotAllowed)
    else if actor != Human && HumanOnly(current, target) then Err(NeedsHuman)
    else Ok(true)
  }

  /** `allowed_targets`, as a set. */
  function AllowedTargets(current: Status, actor: Actor): set<Status> {
    if !Known(current) then {}
    else set t | t in Transitions(current) && (actor == Human || !HumanOnly(current, t))
  }

  /** The listed targets are the changes the check permits, except those an email alone may make. */
  lemma AllowedTargetsAreChanges(current: Status, target: Status, actor: Actor)
    ensures target in AllowedTargets(current, actor)
            || (actor == Email && Known(current) && EmailExtra(current, target))
       <==> CheckTransition(current, target, actor) == Ok(true)
  {
  }

  const PRE_SUBMISSION: set<Status> := {Draft, Saved, AwaitingReview, Approved, NeedsReview}

  /**
   * From a pre-submission status every other status can be reached in one step, except that a draft is made from
   * a saved entry and needs_review from awaiting_review only, that approving takes a person or an email, and that
   * an approval is taken back to review by a person.
   */
  lemma PreSubmissionChangesIff(current: Status, target: Status, actor: Actor)
    requires current in PRE_SUBMISSION
    ensures CheckTransition(current, target, actor) == Ok(true)
       <==> && Known(target) && target != current
            && (target == Draft ==> current == Saved)
            && (target == NeedsReview ==> current == AwaitingReview)
            && (target == Approved ==> actor != System)
            && (target == AwaitingReview && current == Approved ==> actor == Human)
  {
  }

  /**
   * A rejected or skipped entry is restored by a person, to the shortlist or to review, and changes
   * in no other way.
   */
  lemma RestoringIff(current: Status, target: Status, actor: Actor)
    requires current in {Rejected, Skipped}
    ensures CheckTransition(current, target, actor) == Ok(true)
       <==> actor == Human && target in {Saved, AwaitingReview}
  {
  }

  /** Automation is refused as automation exactly where a person would succeed; otherwise nobody may. */
  lemma RefusedIff(current: Status, target: Status, actor: Actor)
    ensures CheckTransition(current, target, actor) == Err(NeedsHuman)
       <==> CheckTransition(current, target, Human) == Ok(true) && CheckTransition(current, target, actor) != Ok(true)
    ensures CheckTransition(current, target, actor) == Err(NotAllowed)
       <==> && Known(current) && Known(target) && current != target
            && CheckTransition(current, target, Human) != Ok(true)
            && CheckTransition(current, target, actor) != Ok(true)
  {
  }

  // ----- runs

  /** One attempt to change the status. */
  datatype Attempt = Attempt(target: Status, actor: Actor)

  /** A refused attempt leaves the status alone. */
  function After(current: Status, attempt: Attempt): Status {
    if CheckTransition(current, attempt.target, attempt.actor) == Ok(true) then attempt.target else current
  }

  /** The status before each attempt and after the last one. */
  function Visited(start: Status, attempts: seq<Attempt>): (r: seq<Status>)
    ensures |r| == |attempts| + 1 && r[0] == start
    ensures forall k :: 0 <= k < |attempts| ==> r[k + 1] == After(r[k], attempts[k])
    decreases |attempts|
  {
    if attempts == [] then [start] else [start] + Visited(After(start, attempts[0]), attempts[1..])
  }

  function Final(start: Status, attempts: seq<Attempt>): Status {
    var v := Visited(start, attempts);
    v[|attempts|]
  }

  function Changes(start: Status, attempts: seq<Attempt>): nat
    decreases |attempts|
  {
    if attempts == [] then 0
    else (if After(start, attempts[0]) != start then 1 else 0) + Changes(After(start, attempts[0]), attempts[1..])
  }

  lemma FinalStep(start: Status, attempts: seq<Attempt>)
    requires attempts != []
    ensures Final(start, attempts) == Final(After(start, attempts[0]), attempts[1..])
  {
    var rest := Visited(After(start, attempts[0]), attempts[1..]);
    assert Visited(start, attempts) == [start] + rest;
  }

  /** However long the run, an application becomes approved only by the act of a person or an email. */
  lemma {:induction false} ApprovalIsAnAct(start: Status, attempts: seq<Attempt>)
    requires start != Approved && Final(start, attempts) == Approved
    ensures exists k ::
      0 <= k < |attempts| && attempts[k].target == Approved && attempts[k].actor in {Human, Email}
    decreases |attempts|
  {
    FinalStep(start, attempts);
    var next := After(start, attempts[0]);
    if next == Approved {
      assert attempts[0].target == Approved && attempts[0].actor in {Human, Email};
    } else {
      ApprovalIsAnAct(next, attempts[1..]);
      var k :| 0 <= k < |attempts[1..]| && attempts[1..][k].target == Approved
        && attempts[1..][k].actor in {Human, Email};
      assert attempts[k + 1] == attempts[1..][k];
    }
  }

  /** Runs can be cut anywhere: the second half starts where the first one ends, and changes add up. */
  lemma {:induction false} RunsCompose(start: Status, attempts: seq<Attempt>, more: seq<Attempt>)
    ensures Final(start, attempts + more) == Final(Final(start, attempts), more)
    ensures Changes(start, attempts + more) == Changes(start, attempts) + Changes(Final(start, attempts), more)
    decreases |attempts|
  {
    if attempts == [] {
      assert attempts + more == more;
    } else {
      assert (attempts + more)[1..] == attempts[1..] + more;
      FinalStep(start, attempts);
      FinalStep(start, attempts + more);
      RunsCompose(After(start, attempts[0]), attempts[1..], more);
    }
  }

  /** One attempt is one change exactly where it is accepted as one. */
  lemma OneAttempt(start: Status, attempt: Attempt)
    ensures Changes(start, [attempt]) ==
      if CheckTransition(start, attempt.target, attempt.actor) == Ok(true) then 1 else 0
    ensures Final(start, [attempt]) == After(start, attempt)
  {
    FinalStep(start, [attempt]);
    assert Changes(start, [attempt])
        == (if After(start, attempt) != start then 1 else 0) + Changes(After(start, attempt), []);
  }

  // ----- absorbing statuses

  /** Automation never leaves a terminal status, and nobody leaves withdrawn. */
  lemma {:induction false} TerminalStatusesAbsorb(start: Status, attempts: seq<Attempt>)
    requires start in TERMINAL
    requires start == Withdrawn || forall k :: 0 <= k < |attempts| ==> attempts[k].actor != Human
    ensures Final(start, attempts) == start && Changes(start, attempts) == 0
  {
    if attempts == [] {
    } else {
      FinalStep(start, attempts);
      TerminalStatusesAbsorb(start, attempts[1..]);
    }
  }

  /** Exactly the four statuses are absorbing for automation: from any other one it can move on. */
  lemma OnlyTerminalStatusesAbsorb(start: Status)
    requires Known(start)
    ensures start in TERMINAL
      <==> forall target, actor :: actor != Human ==> After(start, Attempt(target, actor)) == start
  {
    if start !in TERMINAL {
      assert After(start, Attempt(EmployerRejected, System)) == EmployerRejected;
    }
  }

  // ----- submitted applications

  /** An email alone may reopen a submitted application. */
  predicate Reopens(current: Status, attempt: Attempt) {
    current == Submitted && attempt == Attempt(Approved, Email)
  }

  /** What a caller can check beforehand: this attempt will take the application out of the post-submission statuses. */
  predicate Leaves(current: Status, attempt: Attempt) {
    || (attempt.target == NeedsReview
        && (current in {Submitted, Interview, Offer} || (current == EmployerRejected && attempt.actor == Human)))
    || Reopens(current, attempt)
  }

  /** A single step leaves the post-submission statuses exactly then. */
  lemma LeavesIff(current: Status, attempt: Attempt)
    requires current in POST_SUBMISSION
    ensures After(current, attempt) !in POST_SUBMISSION <==> Leaves(current, attempt)
    ensures Leaves(current, attempt) ==>
      CheckTransition(current, attempt.target, attempt.actor) == Ok(true) && attempt.target in {NeedsReview, Approved}
  {
  }

  ghost predicate LeavesAt(visited: seq<Status>, attempts: seq<Attempt>, k: int) {
    0 <= k < |attempts| < |visited| && Leaves(visited[k], attempts[k])
  }

  /** A whole run stays post-submission exactly when no attempt leaves. */
  lemma {:induction false} StaysSubmittedIff(start: Status, attempts: seq<Attempt>)
    requires start in POST_SUBMISSION
    ensures (forall k :: 0 <= k <= |attempts| ==> Visited(start, attempts)[k] in POST_SUBMISSION)
       <==> forall k :: 0 <= k < |attempts| ==> !LeavesAt(Visited(start, attempts), attempts, k)
    decreases |attempts|
  {
    var visited := Visited(start, attempts);
    if attempts == [] {
    } else {
      var next := After(start, attempts[0]);
      var rest := Visited(next, attempts[1..]);
      assert visited == [start] + rest;
      LeavesIff(start, attempts[0]);
      assert forall k :: 0 <= k < |attempts| - 1 ==>
        (LeavesAt(rest, attempts[1..], k) <==> LeavesAt(visited, attempts, k + 1));
      assert LeavesAt(visited, attempts, 0) <==> Leaves(start, attempts[0]);
      if next in POST_SUBMISSION {
        StaysSubmittedIff(next, attempts[1..]);
        RunWithoutFirst(visited, rest, attempts);
      } else {
        assert visited[1] == next;
      }
    }
  }

  lemma RunWithoutFirst(visited: seq<Status>, rest: seq<Status>, attempts: seq<Attempt>)
    requires attempts != [] && |rest| == |attempts| && |visited| == |rest| + 1 && visited[1..] == rest
    requires visited[0] in POST_SUBMISSION && !LeavesAt(visited, attempts, 0)
    ensures (forall k :: 0 <= k <= |attempts| ==> visited[k] in POST_SUBMISSION)
       <==> (forall k :: 0 <= k <= |attempts[1..]| ==> rest[k] in POST_SUBMISSION)
    ensures (forall k :: 0 <= k < |attempts| ==> !LeavesAt(visited, attempts, k))
       <==> (forall k :: 0 <= k < |attempts[1..]| ==> !LeavesAt(rest, attempts[1..], k))
  {
    assert forall k :: 0 <= k < |rest| ==> rest[k] == visited[k + 1];
    assert forall k :: 0 <= k < |attempts[1..]| ==>
      (LeavesAt(rest, attempts[1..], k) <==> LeavesAt(visited, attempts, k + 1));
    assert forall k :: 1 <= k <= |attempts| ==> visited[k] == rest[k - 1];
    assert forall k :: 1 <= k < |attempts| ==>
      (LeavesAt(visited, attempts, k) <==> LeavesAt(rest, attempts[1..], k - 1));
  }

  /** A run that ends anywhere else made such an attempt. */
  lemma LeavingSubmission(start: Status, attempts: seq<Attempt>)
    requires start in POST_SUBMISSION && Final(start, attempts) !in POST_SUBMISSION
    ensures exists k :: LeavesAt(Visited(start, attempts), attempts, k)
  {
    StaysSubmittedIff(start, attempts);
  }

  /** The header's "nothing moves backwards once submitted" is about single steps: two legal ones go back. */
  lemma SubmittedCanReturnToReview()
    ensures Visited(Submitted, [Attempt(NeedsReview, System), Attempt(AwaitingReview, Human)])
         == [Submitted, NeedsReview, AwaitingReview]
    ensures Visited(Submitted, [Attempt(Approved, Email), Attempt(AwaitingReview, Human)])
         == [Submitted, Approved, AwaitingReview]
  {
    var a, b := [Attempt(NeedsReview, System), Attempt(AwaitingReview, Human)],
      [Attempt(Approved, Email), Attempt(AwaitingReview, Human)];
    var u, v := Visited(Submitted, a), Visited(Submitted, b);
    assert u[0 + 1] == After(u[0], a[0]) && u[1 + 1] == After(u[1], a[1]);
    assert v[0 + 1] == After(v[0], b[0]) && v[1 + 1] == After(v[1], b[1]);
  }

  /**
   * A single step takes a submitted application back exactly to needs_review, from employer_rejected
   * only by a person, or to approved by the acknowledgement email.
   */
  lemma NoSingleStepBack(current: Status, target: Status, actor: Actor)
    requires current in POST_SUBMISSION && target !in POST_SUBMISSION
    ensures CheckTransition(current, target, actor) == Ok(true) <==> Leaves(current, Attempt(target, actor))
  {
    LeavesIff(current, Attempt(target, actor));
  }

  /** How far a submitted application has come. */
  function Progress(s: Status): nat {
    match s
    case Submitted => 0
    case Interview => 1
    case Offer => 2
    case _ => 3
  }

  /** After submission, the changes that stay there are the forward ones, whoever makes them. */
  lemma ForwardChangesIff(current: Status, target: Status, actor: Actor)
    requires current in POST_SUBMISSION && target in POST_SUBMISSION
    ensures CheckTransition(current, target, actor) == Ok(true) <==> Progress(target) > Progress(current)
  {
  }

  /** Without needs_review and emails, a submitted application changes at most three times, and only forward. */
  lemma {:induction false} FewChangesAfterSubmission(start: Status, attempts: seq<Attempt>)
    requires start in POST_SUBMISSION
    requires forall k :: 0 <= k < |attempts| ==> attempts[k].actor != Email && attempts[k].target != NeedsReview
    ensures Final(start, attempts) in POST_SUBMISSION
    ensures Progress(start) + Changes(start, attempts) <= Progress(Final(start, attempts)) <= 3
    decreases |attempts|
  {
    if attempts == [] {
    } else {
      FinalStep(start, attempts);
      FewChangesAfterSubmission(After(start, attempts[0]), attempts[1..]);
    }
  }
}
