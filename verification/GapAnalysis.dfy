/** Profile gaps of evaluated claims, and the conservation of claims from requirements to gaps. */
module GapAnalysis {
  import opened ClaimAggregation
  import opened Wrappers

  datatype GapType = SkillGap | EvidenceGap | DurationGap | MetadataGap | EvaluationErrorGap

  datatype Gap = Gap(kind: GapType, claim: string, subject: string, confidence: real)

  datatype GapResult = GapResult(
    gaps: seq<Gap>, total: nat, skill: nat, evidence: nat, duration: nat, metadata: nat, errors: nat)

  /** More gaps than the result schema accepts. */
  datatype TooManyGaps = TooManyGaps(gaps: nat)

  const MAX_GAPS := 100

  // ----- what kind of gap a claim is

  predicate ShortDuration(c: Claim) {
    c.isDuration && c.duration.Some? && 0.0 < c.duration.value.0 < c.duration.value.1
  }

  predicate UndatedDuration(c: Claim) {
    c.isDuration && c.duration.Some? && c.duration.value.0 == 0.0
  }

  /** The claims the analysis says nothing about: a relation outside its vocabulary with weak evidence. */
  predicate Silent(c: Claim) {
    && c.relation.Unlisted? && c.hasEvidence && c.strength <= 0.3
    && !ShortDuration(c) && !UndatedDuration(c)
  }

  /** How sure the analysis is of a gap of this kind. */
  ghost function Certainty(c: Claim, kind: GapType): real {
    match kind
    case EvaluationErrorGap => 0.0
    case DurationGap => 0.8
    case EvidenceGap => if c.relation == Insufficient && !UndatedDuration(c) then 0.5 else 0.7
    case MetadataGap => 0.6
    case SkillGap => if c.relation == Contradicted then 0.9 else 0.85
  }

  /** The documented meaning of the five kinds. */
  ghost predicate Explains(c: Claim, kind: GapType) {
    match kind
    case EvaluationErrorGap => c.relation == EvaluationError
    case DurationGap => ShortDuration(c) && c.relation !in {Contradicted, EvaluationError, Entailed}
    case EvidenceGap =>
      && c.relation !in {Contradicted, EvaluationError, Entailed} && !ShortDuration(c)
      && (UndatedDuration(c) || c.relation == Insufficient || (c.hasEvidence && c.relation in {Partial, Related}))
    case MetadataGap =>
      && c.hasEvidence && c.strength > 0.3
      && c.relation !in {Contradicted, EvaluationError, Entailed, Insufficient, Partial, Related}
      && !ShortDuration(c) && !UndatedDuration(c)
    case SkillGap =>
      || c.relation == Contradicted
      || (c.relation !in {EvaluationError, Entailed, Insufficient} && !ShortDuration(c) && !UndatedDuration(c)
          && (!c.hasEvidence || (c.strength <= 0.3 && c.relation in {Unknown, Missing})))
  }

  /** At most one kind explains a claim, and none explains an entailed or silent one. */
  lemma OneKindExplains(c: Claim, a: GapType, b: GapType)
    requires Explains(c, a) && Explains(c, b)
    ensures a == b && c.relation != Entailed && !Silent(c)
  {
  }

  /** One gap per claim that is neither entailed nor passed over, in the order of the claims. */
  ghost predicate GapsOf(claims: seq<Claim>, gaps: seq<Gap>)
    decreases |claims|
  {
    if claims == [] then gaps == []
    else
      var last := claims[|claims| - 1];
      if last.relation == Entailed || Silent(last) then GapsOf(claims[..|claims| - 1], gaps)
      else
        && gaps != [] && gaps[|gaps| - 1].claim == last.id && gaps[|gaps| - 1].subject == last.subject
        && Explains(last, gaps[|gaps| - 1].kind)
        && gaps[|gaps| - 1].confidence == Certainty(last, gaps[|gaps| - 1].kind)
        && GapsOf(claims[..|claims| - 1], gaps[..|gaps| - 1])
  }

  function CountKind(gaps: seq<Gap>, kind: GapType): nat {
    if gaps == [] then 0
    else CountKind(gaps[..|gaps| - 1], kind) + if gaps[|gaps| - 1].kind == kind then 1 else 0
  }

  method AnalyzeGaps(claims: seq<Claim>) returns (r: Result<GapResult, TooManyGaps>)
    ensures r.Ok? <==> Gappy(claims) <= MAX_GAPS
    ensures r.Ok? ==> GapsOf(claims, r.value.gaps) && r.value.total == |r.value.gaps|
    ensures r.Ok? ==>
      && r.value.skill == CountKind(r.value.gaps, SkillGap) && r.value.evidence == CountKind(r.value.gaps, EvidenceGap)
      && r.value.duration == CountKind(r.value.gaps, DurationGap)
      && r.value.metadata == CountKind(r.value.gaps, MetadataGap)
      && r.value.errors == CountKind(r.value.gaps, EvaluationErrorGap)
  {
    var gaps: seq<Gap> := [];
    for n := 0 to |claims|
      invariant GapsOf(claims[..n], gaps)
    {
      var c := claims[n];
      assert claims[..n + 1][..n] == claims[..n];
      var gap := GapFor(c);
      if gap.Some? {
        assert (gaps + [gap.value])[..|gaps|] == gaps;
        gaps := gaps + [gap.value];
      }
    }
    assert claims[..|claims|] == claims;
    GapsAreCounted(claims, gaps);
    if |gaps| > MAX_GAPS {
      return Err(TooManyGaps(|gaps|));
    }
    r := Ok(GapResult(gaps, |gaps|, CountKind(gaps, SkillGap), CountKind(gaps, EvidenceGap),
      CountKind(gaps, DurationGap), CountKind(gaps, MetadataGap), CountKind(gaps, EvaluationErrorGap)));
  }

  /** One turn of the loop, with its early exits. */
  method GapFor(c: Claim) returns (gap: Option<Gap>)
    ensures gap.None? <==> c.relation == Entailed || Silent(c)
    ensures gap.Some? ==> gap.value.claim == c.id && gap.value.subject == c.subject
    ensures gap.Some? ==> Explains(c, gap.value.kind) && gap.value.confidence == Certainty(c, gap.value.kind)
  {
    if c.relation == Entailed {
      return None;
    }
    if c.relation == Contradicted {
      return Some(Gap(SkillGap, c.id, c.subject, 0.9));
    }
    if c.relation == EvaluationError {
      return Some(Gap(EvaluationErrorGap, c.id, c.subject, 0.0));
    }
    if c.isDuration && c.duration.Some? {
      var (actual, required) := c.duration.value;
      if actual > 0.0 && actual < required {
        return Some(Gap(DurationGap, c.id, c.subject, 0.8));
      }
      if actual == 0.0 {
        return Some(Gap(EvidenceGap, c.id, c.subject, 0.7));
      }
    }
    if c.relation == Insufficient {
      return Some(Gap(EvidenceGap, c.id, c.subject, 0.5));
    }
    if c.hasEvidence && (c.relation == Partial || c.relation == Related) {
      return Some(Gap(EvidenceGap, c.id, c.subject, 0.7));
    }
    if c.hasEvidence && c.strength > 0.3 {
      return Some(Gap(MetadataGap, c.id, c.subject, 0.6));
    }
    if !c.hasEvidence || c.relation == Unknown || c.relation == Missing {
      return Some(Gap(SkillGap, c.id, c.subject, 0.85));
    }
    return None;
  }

  function CountRelation(claims: seq<Claim>, r: Relation): nat {
    if claims == [] then 0
    else CountRelation(claims[..|claims| - 1], r) + if claims[|claims| - 1].relation == r then 1 else 0
  }

  function CountSilent(claims: seq<Claim>): nat {
    if claims == [] then 0
    else CountSilent(claims[..|claims| - 1]) + if Silent(claims[|claims| - 1]) then 1 else 0
  }

  /** How many claims call for a gap. */
  function Gappy(claims: seq<Claim>): int {
    |claims| - CountRelation(claims, Entailed) - CountSilent(claims)
  }

  lemma {:induction false} GapsAreCounted(claims: seq<Claim>, gaps: seq<Gap>)
    requires GapsOf(claims, gaps)
    ensures |gaps| == Gappy(claims)
    decreases |claims|
  {
    if claims == [] {
    } else {
      var last := claims[|claims| - 1];
      GapsAreCounted(claims[..|claims| - 1],
                     if last.relation == Entailed || Silent(last) then gaps else gaps[..|gaps| - 1]);
    }
  }

  /** The five counters are a partition of the gaps. */
  lemma {:induction false} CountersPartitionGaps(gaps: seq<Gap>)
    ensures CountKind(gaps, SkillGap) + CountKind(gaps, EvidenceGap) + CountKind(gaps, DurationGap)
            + CountKind(gaps, MetadataGap) + CountKind(gaps, EvaluationErrorGap) == |gaps|
  {
    if gaps == [] {
    } else {
      CountersPartitionGaps(gaps[..|gaps| - 1]);
    }
  }

  /** The relations an evaluator can return. */
  predicate Evaluated(c: Claim) {
    !c.relation.Missing? && !c.relation.Unlisted?
  }

  lemma {:induction false} EvaluatedAreNotSilent(claims: seq<Claim>)
    requires forall k :: 0 <= k < |claims| ==> Evaluated(claims[k])
    ensures CountSilent(claims) == 0
  {
    if claims == [] {
    } else {
      EvaluatedAreNotSilent(claims[..|claims| - 1]);
    }
  }

  // ----- collecting all requirements

  datatype Requirement = Requirement(id: string)

  /** A requirement's task either returned its result or raised. */
  type TaskResult = Result<RequirementResult, string>

  datatype PipelineResult = PipelineResult(
    assessments: seq<Assessment>, results: seq<RequirementResult>, counts: map<Relation, nat>, gaps: Option<GapResult>)

  function AssessmentFor(requirement: Requirement, item: TaskResult): Assessment {
    match item
    case Ok(r) => BuildAssessment(requirement.id, r)
    case Err(_) => Assessment(requirement.id, false, false, ErrorLevel, Some(EvaluationError), None, None)
  }

  /** What the assessment of a requirement says: about its claims, or that its task failed. */
  ghost predicate Reports(requirement: Requirement, item: TaskResult, a: Assessment) {
    match item
    case Ok(r) => a == BuildAssessment(requirement.id, r) && (Aggregated(r) ==> Assesses(requirement.id, r.claims, a))
    case Err(_) =>
      && a.requirement == requirement.id && !a.hardBlocker && !a.unresolvedBlocker && a.level == ErrorLevel
      && a.relation == Some(EvaluationError) && a.strength.None? && a.coverage.None?
  }

  lemma AssessmentReports(requirement: Requirement, item: TaskResult)
    ensures Reports(requirement, item, AssessmentFor(requirement, item))
  {
    if item.Ok? && Aggregated(item.value) {
      AssessmentIsFaithful(requirement.id, item.value);
    }
  }

  /** The claims of all requirements whose task succeeded, in order. */
  function Collected(raw: seq<TaskResult>): seq<Claim> {
    if raw == [] then [] else
      Collected(raw[..|raw| - 1]) + (match raw[|raw| - 1] case Ok(r) => r.claims case Err(_) => [])
  }

  /** Exact counts: each relation as often as it was collected. */
  ghost predicate CountsOk(claims: seq<Claim>, counts: map<Relation, nat>) {
    && (forall r :: r in counts ==> counts[r] == CountRelation(claims, r))
    && (forall c :: c in claims ==> c.relation in counts)
  }

  method CountClaims(claims: seq<Claim>) returns (counts: map<Relation, nat>)
    ensures CountsOk(claims, counts)
  {
    counts := map[];
    for n := 0 to |claims|
      invariant CountsOk(claims[..n], counts)
    {
      var relation := claims[n].relation;
      assert claims[..n + 1] == claims[..n] + [claims[n]];
      CountAppend(claims[..n], claims[n]);
      if relation !in counts {
        CountAbsent(claims[..n], relation);
      }
      counts := counts[relation := (if relation in counts then counts[relation] else 0) + 1];
    }
    assert claims[..|claims|] == claims;
  }

  lemma CountAppend(claims: seq<Claim>, c: Claim)
    ensures forall r :: CountRelation(claims + [c], r) == CountRelation(claims, r) + if c.relation == r then 1 else 0
  {
    assert (claims + [c])[..|claims|] == claims;
  }

  lemma {:induction false} CountAbsent(claims: seq<Claim>, r: Relation)
    requires forall c :: c in claims ==> c.relation != r
    ensures CountRelation(claims, r) == 0
  {
    if claims == [] {
    } else {
      CountAbsent(claims[..|claims| - 1], r);
    }
  }

  lemma {:induction false} CountConcat(claims: seq<Claim>, more: seq<Claim>, r: Relation)
    ensures CountRelation(claims + more, r) == CountRelation(claims, r) + CountRelation(more, r)
    decreases |more|
  {
    if more == [] {
      assert claims + more == claims;
    } else {
      var n := |more| - 1;
      assert (claims + more)[..|claims| + n] == claims + more[..n];
      CountConcat(claims, more[..n], r);
    }
  }

  const LISTED: set<Relation> :=
    {Entailed, Partial, Related, Insufficient, EvaluationError, Unknown, Contradicted}

  /** The results of the tasks that did not raise. */
  function Succeeded(raw: seq<TaskResult>): seq<RequirementResult> {
    if raw == [] then [] else
      Succeeded(raw[..|raw| - 1]) + (match raw[|raw| - 1] case Ok(r) => [r] case Err(_) => [])
  }

  method CollectResults(requirements: seq<Requirement>, raw: seq<TaskResult>)
    returns (r: Result<PipelineResult, TooManyGaps>)
    requires |raw| == |requirements|
    ensures r.Ok? <==> Gappy(Collected(raw)) <= MAX_GAPS
    ensures r.Ok? ==>
      && |r.value.assessments| == |requirements|
      && (forall k :: 0 <= k < |requirements| ==> Reports(requirements[k], raw[k], r.value.assessments[k]))
      && r.value.results == Succeeded(raw)
      && CountsOk(Collected(raw), r.value.counts) && LISTED <= r.value.counts.Keys
    ensures r.Ok? ==>
      && (r.value.gaps.None? <==> Collected(raw) == [])
      && (r.value.gaps.Some? ==> Reported(Collected(raw), r.value.gaps.value))
  {
    var assessments, results, inputs, counts := CollectLoop(requirements, raw);
    forall k | 0 <= k < |requirements| ensures Reports(requirements[k], raw[k], assessments[k]) {
      AssessmentReports(requirements[k], raw[k]);
    }
    if inputs == [] {
      return Ok(PipelineResult(assessments, results, counts, None));
    }
    var analysis := AnalyzeGaps(inputs);
    match analysis
    case Err(e) => r := Err(e);
    case Ok(gaps) => r := Ok(PipelineResult(assessments, results, counts, Some(gaps)));
  }

  method CollectLoop(requirements: seq<Requirement>, raw: seq<TaskResult>)
    returns (assessments: seq<Assessment>, results: seq<RequirementResult>, inputs: seq<Claim>,
      counts: map<Relation, nat>)
    requires |raw| == |requirements|
    ensures |assessments| == |raw|
    ensures forall k :: 0 <= k < |raw| ==> assessments[k] == AssessmentFor(requirements[k], raw[k])
    ensures results == Succeeded(raw) && inputs == Collected(raw)
    ensures CountsOk(inputs, counts) && LISTED <= counts.Keys
  {
    assessments, results, inputs := [], [], [];
    counts := map r | r in LISTED :: 0;
    for n := 0 to |raw|
      invariant inputs == Collected(raw[..n]) && results == Succeeded(raw[..n])
      invariant Assessed(requirements, raw, n, assessments)
      invariant CountsOk(inputs, counts) && LISTED <= counts.Keys
    {
      CollectedGrows(raw, n);
      var assessment := AssessmentFor(requirements[n], raw[n]);
      AssessedGrows(requirements, raw, n, assessments);
      assessments := assessments + [assessment];
      if raw[n].Ok? {
        results := results + [raw[n].value];
        counts := AddRequirement(inputs, raw[n].value.claims, counts);
        inputs := inputs + raw[n].value.claims;
      }
    }
    assert raw[..|raw|] == raw;
  }

  ghost predicate Assessed(requirements: seq<Requirement>, raw: seq<TaskResult>, n: nat, assessments: seq<Assessment>)
    requires n <= |raw| == |requirements|
  {
    |assessments| == n && forall k :: 0 <= k < n ==> assessments[k] == AssessmentFor(requirements[k], raw[k])
  }

  lemma AssessedGrows(requirements: seq<Requirement>, raw: seq<TaskResult>, n: nat, assessments: seq<Assessment>)
    requires n < |raw| == |requirements| && Assessed(requirements, raw, n, assessments)
    ensures Assessed(requirements, raw, n + 1, assessments + [AssessmentFor(requirements[n], raw[n])])
  {
  }

  lemma CollectedGrows(raw: seq<TaskResult>, n: nat)
    requires n < |raw|
    ensures raw[n].Ok? ==> Collected(raw[..n + 1]) == Collected(raw[..n]) + raw[n].value.claims
    ensures raw[n].Ok? ==> Succeeded(raw[..n + 1]) == Succeeded(raw[..n]) + [raw[n].value]
    ensures raw[n].Err? ==>
      Collected(raw[..n + 1]) == Collected(raw[..n]) && Succeeded(raw[..n + 1]) == Succeeded(raw[..n])
  {
    assert raw[..n + 1][..n] == raw[..n];
  }

  method AddRequirement(ghost inputs: seq<Claim>, claims: seq<Claim>, counts: map<Relation, nat>)
      returns (sum: map<Relation, nat>)
    requires CountsOk(inputs, counts) && LISTED <= counts.Keys
    ensures CountsOk(inputs + claims, sum) && LISTED <= sum.Keys
  {
    var local := CountClaims(claims);
    sum := AddCounts(inputs, claims, counts, local);
  }

  /** What the gap result says about the collected claims. */
  ghost predicate Reported(claims: seq<Claim>, gaps: GapResult) {
    && GapsOf(claims, gaps.gaps) && gaps.total == |gaps.gaps|
    && gaps.skill == CountKind(gaps.gaps, SkillGap) && gaps.evidence == CountKind(gaps.gaps, EvidenceGap)
    && gaps.duration == CountKind(gaps.gaps, DurationGap) && gaps.metadata == CountKind(gaps.gaps, MetadataGap)
    && gaps.errors == CountKind(gaps.gaps, EvaluationErrorGap)
  }

  function Get(counts: map<Relation, nat>, r: Relation): nat {
    if r in counts then counts[r] else 0
  }

  /** Adds one requirement's counts to the running ones. */
  method AddCounts(ghost claims: seq<Claim>, ghost more: seq<Claim>, counts: map<Relation, nat>,
      local: map<Relation, nat>)
    returns (sum: map<Relation, nat>)
    requires CountsOk(claims, counts) && CountsOk(more, local)
    ensures CountsOk(claims + more, sum) && counts.Keys <= sum.Keys
  {
    sum := counts;
    var rest := local.Keys;
    ghost var done: set<Relation> := {};
    MergedNothing(counts, local);
    while rest != {}
      invariant rest + done == local.Keys && rest !! done
      invariant sum == Merged(counts, local, done)
    {
      var r :| r in rest;
      MergedStep(counts, local, done, r);
      sum := sum[r := Get(sum, r) + local[r]];
      rest, done := rest - {r}, done + {r};
    }
    assert done == local.Keys;
    AddedCounts(claims, more, counts, local, sum);
  }

  ghost function Merged(
      counts: map<Relation, nat>, local: map<Relation, nat>, done: set<Relation>): map<Relation, nat> {
    map r | r in counts.Keys + done :: Get(counts, r) + if r in done then Get(local, r) else 0
  }

  lemma MergedNothing(counts: map<Relation, nat>, local: map<Relation, nat>)
    ensures Merged(counts, local, {}) == counts
  {
    assert counts.Keys + {} == counts.Keys;
  }

  lemma MergedStep(counts: map<Relation, nat>, local: map<Relation, nat>, done: set<Relation>, r: Relation)
    requires r in local && r !in done
    ensures Merged(counts, local, done)[r := Get(Merged(counts, local, done), r) + local[r]]
      == Merged(counts, local, done + {r})
  {
  }

  lemma AddedCounts(
      claims: seq<Claim>, more: seq<Claim>, counts: map<Relation, nat>, local: map<Relation, nat>,
      sum: map<Relation, nat>)
    requires CountsOk(claims, counts) && CountsOk(more, local)
    requires sum == Merged(counts, local, local.Keys)
    ensures CountsOk(claims + more, sum) && counts.Keys <= sum.Keys
  {
    forall r | r in sum ensures sum[r] == CountRelation(claims + more, r) {
      CountConcat(claims, more, r);
      if r !in counts {
        CountAbsent(claims, r);
      }
      if r !in local {
        CountAbsent(more, r);
      }
    }
  }

  /**
   * Conservation: with evaluator relations only, the gap total is the collected claims minus the
   * entailed ones, and the five counters add up to it.
   */
  lemma GapsAreConserved(claims: seq<Claim>, gaps: GapResult)
    requires forall k :: 0 <= k < |claims| ==> Evaluated(claims[k])
    requires Reported(claims, gaps)
    ensures gaps.total == |claims| - CountRelation(claims, Entailed)
    ensures gaps.total == gaps.skill + gaps.evidence + gaps.duration + gaps.metadata + gaps.errors
  {
    GapsAreCounted(claims, gaps.gaps);
    EvaluatedAreNotSilent(claims);
    CountersPartitionGaps(gaps.gaps);
  }

  function CountIn(claims: seq<Claim>, relations: set<Relation>): nat {
    if claims == [] then 0
    else CountIn(claims[..|claims| - 1], relations) + if claims[|claims| - 1].relation in relations then 1 else 0
  }

  ghost function SumOf(counts: map<Relation, nat>, keys: set<Relation>): nat
    requires keys <= counts.Keys
  {
    if keys == {} then 0 else
      var r :| r in keys;
      counts[r] + SumOf(counts, keys - {r})
  }

  lemma {:induction false} CountInSplit(claims: seq<Claim>, relations: set<Relation>, r: Relation)
    requires r in relations
    ensures CountIn(claims, relations) == CountRelation(claims, r) + CountIn(claims, relations - {r})
  {
    if claims == [] {
    } else {
      CountInSplit(claims[..|claims| - 1], relations, r);
    }
  }

  lemma {:induction false} SumIsCountIn(claims: seq<Claim>, counts: map<Relation, nat>, keys: set<Relation>)
    requires CountsOk(claims, counts) && keys <= counts.Keys
    ensures SumOf(counts, keys) == CountIn(claims, keys)
    decreases keys
  {
    if keys == {} {
      CountInNothing(claims);
    } else {
      var r :| r in keys && SumOf(counts, keys) == counts[r] + SumOf(counts, keys - {r});
      SumIsCountIn(claims, counts, keys - {r});
      CountInSplit(claims, keys, r);
    }
  }

  lemma {:induction false} CountInNothing(claims: seq<Claim>)
    ensures CountIn(claims, {}) == 0
  {
    if claims == [] {
    } else {
      CountInNothing(claims[..|claims| - 1]);
    }
  }

  lemma {:induction false} CountInAll(claims: seq<Claim>, keys: set<Relation>)
    requires forall c :: c in claims ==> c.relation in keys
    ensures CountIn(claims, keys) == |claims|
  {
    if claims == [] {
    } else {
      CountInAll(claims[..|claims| - 1], keys);
    }
  }

  /** The relation counts add up to the number of collected claims. */
  lemma CountsAddUp(claims: seq<Claim>, counts: map<Relation, nat>)
    requires CountsOk(claims, counts)
    ensures SumOf(counts, counts.Keys) == |claims|
  {
    SumIsCountIn(claims, counts, counts.Keys);
    CountInAll(claims, counts.Keys);
  }
}
