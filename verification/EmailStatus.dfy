/** A sequence of classified emails computes a maximum over the statuses they stand for. */
module EmailStatus {
  import opened ApplicationLifecycle
  import opened Wrappers

  datatype Category =
    | ApplicationReceived | RecruiterContact | Question | TestAssignment | InterviewInvitation
    | InterviewReschedule | OfferMade | Rejection | FollowUp | Other

  function StatusForCategory(category: Category): Option<Status> {
    match category
    case ApplicationReceived => Some(Approved)
    case Rejection => Some(EmployerRejected)
    case InterviewInvitation => Some(Interview)
    case InterviewReschedule => Some(Interview)
    case OfferMade => Some(Offer)
    case TestAssignment => Some(Interview)
    case _ => None
  }

  function Apply(current: Status, category: Category): Status {
    match StatusForCategory(category)
    case None => current
    case Some(target) => After(current, Attempt(target, Email))
  }

  function Process(start: Status, emails: seq<Category>): Status
    decreases |emails|
  {
    if emails == [] then start else Process(Apply(start, emails[0]), emails[1..])
  }

  function Moves(start: Status, emails: seq<Category>): nat
    decreases |emails|
  {
    if emails == [] then 0
    else (if Apply(start, emails[0]) != start then 1 else 0) + Moves(Apply(start, emails[0]), emails[1..])
  }

  /** not yet answered < approved < interview < offer < employer_rejected */
  function Rank(s: Status): nat {
    match s
    case Approved => 1
    case Interview => 2
    case Offer => 3
    case EmployerRejected => 4
    case _ => 0
  }

  function EmailRank(category: Category): nat {
    match StatusForCategory(category)
    case None => 0
    case Some(target) => Rank(target)
  }

  function OfRank(start: Status, rank: nat): Status {
    match rank
    case 1 => Approved
    case 2 => Interview
    case 3 => Offer
    case 4 => EmployerRejected
    case _ => start
  }

  function Highest(emails: seq<Category>): nat {
    if emails == [] then 0 else Larger(EmailRank(emails[0]), Highest(emails[1..]))
  }

  function Larger(a: nat, b: nat): nat {
    if a >= b then a else b
  }

  /** Decided by the person or the site: no email changes it. */
  predicate Closed(s: Status) {
    s in {Rejected, Skipped, Withdrawn} || !Known(s)
  }

  lemma ApplyIsMaximum(current: Status, category: Category)
    ensures Apply(current, category)
         == if Closed(current) || EmailRank(category) <= Rank(current) then current
            else OfRank(current, EmailRank(category))
    ensures Rank(Apply(current, category)) == if Closed(current) then 0 else Larger(Rank(current), EmailRank(category))
    ensures Closed(Apply(current, category)) <==> Closed(current)
  {
  }

  /** Emails compute the highest of the start and all targets, whatever their order. */
  lemma {:induction false} ProcessIsMaximum(start: Status, emails: seq<Category>)
    ensures Process(start, emails)
         == if Closed(start) || Highest(emails) <= Rank(start) then start else OfRank(start, Highest(emails))
    ensures Rank(start) + Moves(start, emails) <= Rank(Process(start, emails)) <= 4
    decreases |emails|
  {
    if emails == [] {
    } else {
      ApplyIsMaximum(start, emails[0]);
      ProcessIsMaximum(Apply(start, emails[0]), emails[1..]);
      HighestIsRank(emails);
    }
  }

  lemma {:induction false} HighestIsRank(emails: seq<Category>)
    ensures Highest(emails) <= 4
    ensures emails != [] ==> exists k :: 0 <= k < |emails| && EmailRank(emails[k]) == Highest(emails)
    ensures forall k :: 0 <= k < |emails| ==> EmailRank(emails[k]) <= Highest(emails)
  {
    if emails == [] {
    } else {
      HighestIsRank(emails[1..]);
      assert forall k :: 0 < k < |emails| ==> emails[k] == emails[1..][k - 1];
      if Highest(emails) != EmailRank(emails[0]) {
        var k :| 0 <= k < |emails[1..]| && EmailRank(emails[1..][k]) == Highest(emails[1..]);
        assert EmailRank(emails[k + 1]) == Highest(emails);
      } else {
        assert EmailRank(emails[0]) == Highest(emails);
      }
    }
  }

  /** The same emails in another order, repeated or not, lead to the same status. */
  lemma OrderIsIrrelevant(start: Status, emails: seq<Category>, shuffled: seq<Category>)
    requires forall c :: c in emails <==> c in shuffled
    ensures Process(start, emails) == Process(start, shuffled)
  {
    ProcessIsMaximum(start, emails);
    ProcessIsMaximum(start, shuffled);
    HighestCovers(emails, shuffled);
    HighestCovers(shuffled, emails);
  }

  lemma HighestCovers(emails: seq<Category>, more: seq<Category>)
    requires forall c :: c in emails ==> c in more
    ensures Highest(emails) <= Highest(more)
  {
    HighestIsRank(emails);
    HighestIsRank(more);
    if emails != [] {
      var k :| 0 <= k < |emails| && EmailRank(emails[k]) == Highest(emails);
      assert emails[k] in more;
    }
  }

  ghost predicate Reaches(start: Status, emails: seq<Category>, answer: Status) {
    start == answer || exists c :: c in emails && StatusForCategory(c) == Some(answer)
  }

  lemma ReachesIff(start: Status, emails: seq<Category>)
    ensures Reaches(start, emails, EmployerRejected) <==> (start == EmployerRejected || Rejection in emails)
    ensures Reaches(start, emails, Offer) <==> (start == Offer || OfferMade in emails)
    ensures Reaches(start, emails, Interview)
      <==> (start == Interview || InterviewInvitation in emails || InterviewReschedule in emails
        || TestAssignment in emails)
    ensures Reaches(start, emails, Approved) <==> (start == Approved || ApplicationReceived in emails)
  {
    assert StatusForCategory(Rejection) == Some(EmployerRejected);
    assert StatusForCategory(OfferMade) == Some(Offer);
    assert StatusForCategory(InterviewInvitation) == Some(Interview);
    assert StatusForCategory(InterviewReschedule) == Some(Interview);
    assert StatusForCategory(TestAssignment) == Some(Interview);
    assert StatusForCategory(ApplicationReceived) == Some(Approved);
  }

  lemma HighestIff(emails: seq<Category>, answer: Status, rank: nat)
    requires answer in {Approved, Interview, Offer, EmployerRejected} && Rank(answer) == rank
    ensures (exists c :: c in emails && StatusForCategory(c) == Some(answer)) ==> rank <= Highest(emails)
    ensures Highest(emails) == rank ==> exists c :: c in emails && StatusForCategory(c) == Some(answer)
  {
    HighestIsRank(emails);
    if c :| c in emails && StatusForCategory(c) == Some(answer) {
      var k :| 0 <= k < |emails| && emails[k] == c;
      assert EmailRank(emails[k]) == rank;
    }
    if Highest(emails) == rank {
      var k :| 0 <= k < |emails| && EmailRank(emails[k]) == Highest(emails);
      assert emails[k] in emails && StatusForCategory(emails[k]) == Some(answer);
    }
  }

  /** What any sequence of emails amounts to, said without ranks: the strongest answer there was. */
  lemma OutcomeIff(start: Status, emails: seq<Category>)
    ensures Process(start, emails)
         == if Closed(start) then start
            else if Reaches(start, emails, EmployerRejected) then EmployerRejected
            else if Reaches(start, emails, Offer) then Offer
            else if Reaches(start, emails, Interview) then Interview
            else if Reaches(start, emails, Approved) then Approved
            else start
  {
    ProcessIsMaximum(start, emails);
    HighestIsRank(emails);
    HighestIff(emails, EmployerRejected, 4);
    HighestIff(emails, Offer, 3);
    HighestIff(emails, Interview, 2);
    HighestIff(emails, Approved, 1);
  }

  function AttemptOf(email: Category): seq<Attempt> {
    match StatusForCategory(email)
    case None => []
    case Some(target) => [Attempt(target, Email)]
  }

  /** The attempts that a sequence of emails makes; emails without a status make none. */
  function AttemptsOf(emails: seq<Category>): seq<Attempt> {
    if emails == [] then [] else AttemptOf(emails[0]) + AttemptsOf(emails[1..])
  }

  lemma OneEmail(start: Status, email: Category)
    ensures Final(start, AttemptOf(email)) == Apply(start, email)
    ensures Changes(start, AttemptOf(email)) == if Apply(start, email) != start then 1 else 0
  {
    match StatusForCategory(email)
    case None =>
    case Some(target) => OneAttempt(start, Attempt(target, Email));
  }

  /** Emails act as a run of attempts, with the same end and the same number of changes. */
  lemma {:induction false} EmailsAreAttempts(start: Status, emails: seq<Category>)
    ensures Process(start, emails) == Final(start, AttemptsOf(emails))
    ensures Moves(start, emails) == Changes(start, AttemptsOf(emails))
    decreases |emails|
  {
    if emails == [] {
    } else {
      OneEmail(start, emails[0]);
      RunsCompose(start, AttemptOf(emails[0]), AttemptsOf(emails[1..]));
      EmailsAreAttempts(Apply(start, emails[0]), emails[1..]);
    }
  }
}
