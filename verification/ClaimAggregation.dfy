/** From evaluated claims to one relation, level and strength per requirement. */
module ClaimAggregation {
  import opened Wrappers

  datatype Relation =
    | Entailed | Partial | Related | Insufficient | EvaluationError | Unknown | Contradicted | Missing
    | Unlisted(text: string)

  datatype Criticality = Required | HardBlocker | Optional

  datatype Claim = Claim(
    id: string, subject: string, isDuration: bool, requirement: string, criticality: Criticality, alternative: bool,
    relation: Relation, strength: real, hasEvidence: bool, duration: Option<(real, real)>, coverage: Option<real>)

  datatype MatchLevel = Exact | PartialMatch | RelatedMatch | InsufficientEvidence | ErrorLevel | MissingLevel

  datatype RequirementResult = RequirementResult(
    claims: seq<Claim>, overall: Relation, strength: real, level: MatchLevel, hardBlocker: bool)

  // ----- the rank form

  function Rank(r: Relation): nat {
    match r
    case Entailed => 5
    case Partial => 4
    case Related => 3
    case Insufficient => 2
    case EvaluationError => 1
    case _ => 0
  }

  function FromRank(rank: nat): Relation {
    match rank
    case 5 => Entailed
    case 4 => Partial
    case 3 => Related
    case 2 => Insufficient
    case 1 => EvaluationError
    case _ => Unknown
  }

  function Top(relations: seq<Relation>): nat {
    if relations == [] then 0 else
      var rest := Top(relations[..|relations| - 1]);
      if Rank(relations[|relations| - 1]) >= rest then Rank(relations[|relations| - 1]) else rest
  }

  lemma {:induction false} TopIsMaximum(relations: seq<Relation>)
    ensures Top(relations) <= 5
    ensures forall r :: r in relations ==> Rank(r) <= Top(relations)
    ensures relations != [] ==> exists r :: r in relations && Rank(r) == Top(relations)
  {
    if relations == [] {
    } else {
      var before, last := relations[..|relations| - 1], relations[|relations| - 1];
      TopIsMaximum(before);
      assert relations == before + [last];
      if Rank(last) < Top(before) {
        var r :| r in before && Rank(r) == Top(before);
        assert r in relations;
      } else {
        assert last in relations;
      }
    }
  }

  // ----- the two cascades

  /** An OR group counts as its best alternative. */
  function ResolveGroup(relations: seq<Relation>): Relation {
    if Entailed in relations then Entailed
    else if Partial in relations then Partial
    else if Related in relations then Related
    else if Insufficient in relations then Insufficient
    else if EvaluationError in relations then EvaluationError
    else Unknown
  }

  predicate CountsAsMissing(r: Relation) {
    r.Unknown? || r.Contradicted? || r.Missing?
  }

  function DetermineOverall(relations: seq<Relation>): Relation {
    var hasMissing := exists r :: r in relations && CountsAsMissing(r);
    if forall r :: r in relations ==> r == Entailed then Entailed
    else if Entailed in relations && !hasMissing && Related !in relations then Partial
    else if Entailed in relations || Partial in relations then Partial
    else if Insufficient in relations && !hasMissing && Related !in relations then Insufficient
    else if EvaluationError in relations && !hasMissing && Related !in relations then EvaluationError
    else if Related in relations then Related
    else if Insufficient in relations then Insufficient
    else if EvaluationError in relations then EvaluationError
    else Unknown
  }

  /** The group cascade is a maximum. */
  lemma ResolveIsMaximum(relations: seq<Relation>)
    requires relations != []
    ensures ResolveGroup(relations) == FromRank(Top(relations))
    ensures Rank(ResolveGroup(relations)) == Top(relations)
  {
    TopIsMaximum(relations);
    var r :| r in relations && Rank(r) == Top(relations);
  }

  function AtMostPartial(rank: nat): nat {
    if rank > 4 then 4 else rank
  }

  /** The overall cascade: entailed if all are, else the maximum capped at partial. */
  lemma OverallIsCappedMaximum(relations: seq<Relation>)
    ensures DetermineOverall(relations)
         == if forall r :: r in relations ==> r == Entailed then Entailed else FromRank(AtMostPartial(Top(relations)))
  {
    TopIsMaximum(relations);
    if relations != [] {
      var r :| r in relations && Rank(r) == Top(relations);
    }
  }

  // ----- which claims count, without any order

  predicate IsRequired(c: Claim) {
    c.criticality.Required? || c.criticality.HardBlocker?
  }

  /** Required claims count; with none of them, all do. */
  predicate Counts(claims: seq<Claim>, c: Claim) {
    c in claims && (IsRequired(c) || forall d :: d in claims ==> !IsRequired(d))
  }

  /** Every counting claim is entailed, or is an alternative with an entailed one in its OR group. */
  ghost predicate AllConfirmed(claims: seq<Claim>) {
    forall c :: Counts(claims, c) ==> Confirmed(claims, c)
  }

  ghost predicate Confirmed(claims: seq<Claim>, c: Claim) {
    if !c.alternative then c.relation == Entailed
    else exists d :: Counts(claims, d) && d.alternative && d.requirement == c.requirement && d.relation == Entailed
  }

  /** `rank` is the highest rank among the counting claims. */
  ghost predicate IsTopRank(claims: seq<Claim>, rank: nat) {
    && (forall c :: Counts(claims, c) ==> Rank(c.relation) <= rank)
    && (exists c :: Counts(claims, c) && Rank(c.relation) == rank)
  }

  /** The overall relation in rank form. */
  ghost predicate IsOverall(claims: seq<Claim>, overall: Relation) {
    if claims == [] then overall == Insufficient
    else if AllConfirmed(claims) then overall == Entailed
    else exists rank :: IsTopRank(claims, rank) && overall == FromRank(AtMostPartial(rank))
  }

  // ----- _aggregate_claims

  function SumStrengths(claims: seq<Claim>): real {
    if claims == [] then 0.0 else SumStrengths(claims[..|claims| - 1]) + claims[|claims| - 1].strength
  }

  function MinStrength(claims: seq<Claim>): real
    requires claims != []
  {
    var last := claims[|claims| - 1].strength;
    if |claims| == 1 then last else
      var rest := MinStrength(claims[..|claims| - 1]);
      if last < rest then last else rest
  }

  function Mean(claims: seq<Claim>): real
    requires claims != []
  {
    SumStrengths(claims) / |claims| as real
  }

  /** Before rounding to four digits. */
  function OverallStrength(claims: seq<Claim>): real {
    if claims == [] then 0.0 else 0.65 * MinStrength(claims) + 0.35 * Mean(claims)
  }

  function Level(overall: Relation): MatchLevel {
    match overall
    case Entailed => Exact
    case Partial => PartialMatch
    case Related => RelatedMatch
    case Insufficient => InsufficientEvidence
    case EvaluationError => ErrorLevel
    case _ => MissingLevel
  }

  function RequiredOnly(claims: seq<Claim>): seq<Claim> {
    if claims == [] then [] else
      RequiredOnly(claims[..|claims| - 1])
      + (if IsRequired(claims[|claims| - 1]) then [claims[|claims| - 1]] else [])
  }

  lemma {:induction false} RequiredOnlyMembers(claims: seq<Claim>, c: Claim)
    ensures c in RequiredOnly(claims) <==> c in claims && IsRequired(c)
  {
    if claims == [] {
    } else {
      var before, last := claims[..|claims| - 1], claims[|claims| - 1];
      RequiredOnlyMembers(before, c);
      assert claims == before + [last];
    }
  }

  /** The relations of the alternatives of one requirement. */
  function Alternatives(claims: seq<Claim>, requirement: string): seq<Relation> {
    if claims == [] then [] else
      var last := claims[|claims| - 1];
      Alternatives(claims[..|claims| - 1], requirement)
      + (if last.alternative && last.requirement == requirement then [last.relation] else [])
  }

  lemma {:induction false} AlternativesMembers(claims: seq<Claim>, requirement: string, r: Relation)
    ensures r in Alternatives(claims, requirement)
       <==> exists c :: c in claims && c.alternative && c.requirement == requirement && c.relation == r
  {
    if claims == [] {
    } else {
      var before, last := claims[..|claims| - 1], claims[|claims| - 1];
      AlternativesMembers(before, requirement, r);
      assert claims == before + [last];
      assert last in claims;
      assert forall c :: c in before ==> c in claims;
    }
  }

  /** The group under key `q` holds the relations of its alternatives, and exists once there are any. */
  ghost predicate GroupOk(done: seq<Claim>, groups: map<string, seq<Relation>>, q: string) {
    Alternatives(done, q) == if q in groups then groups[q] else []
  }

  ghost predicate GroupsOk(done: seq<Claim>, groups: map<string, seq<Relation>>) {
    && (forall q {:trigger GroupOk(done, groups, q)} :: GroupOk(done, groups, q))
    && (forall q :: q in groups ==> groups[q] != [])
  }

  ghost predicate OthersOk(done: seq<Claim>, others: seq<Relation>) {
    forall r :: r in others <==> exists c :: c in done && !c.alternative && c.relation == r
  }

  /** The dictionary of OR groups and the list of the other relations after the claims in `done`. */
  ghost predicate Split(done: seq<Claim>, groups: Dict<string, seq<Relation>>, others: seq<Relation>) {
    groups.Valid() && GroupsOk(done, groups.at) && OthersOk(done, others)
  }

  /** `setdefault(key, []).append(relation)` */
  function AppendTo(groups: Dict<string, seq<Relation>>, key: string, relation: Relation): Dict<string, seq<Relation>> {
    if key in groups.at then Dict(groups.order, groups.at[key := groups.at[key] + [relation]])
    else Dict(groups.order + [key], groups.at[key := [relation]])
  }

  method SplitClaims(considered: seq<Claim>) returns (groups: Dict<string, seq<Relation>>, others: seq<Relation>)
    ensures Split(considered, groups, others)
  {
    groups, others := Dict([], map[]), [];
    for n := 0 to |considered|
      invariant Split(considered[..n], groups, others)
    {
      var c := considered[n];
      assert considered[..n + 1] == considered[..n] + [c];
      SplitStep(considered[..n], groups, others, c);
      if c.alternative {
        groups := AppendTo(groups, c.requirement, c.relation);
      } else {
        others := others + [c.relation];
      }
    }
    assert considered[..|considered|] == considered;
  }

  lemma AlternativesAppend(done: seq<Claim>, c: Claim, q: string)
    ensures Alternatives(done + [c], q)
         == Alternatives(done, q) + if c.alternative && c.requirement == q then [c.relation] else []
  {
    assert (done + [c])[..|done|] == done;
  }

  lemma SplitStep(done: seq<Claim>, groups: Dict<string, seq<Relation>>, others: seq<Relation>, c: Claim)
    requires Split(done, groups, others)
    ensures c.alternative ==> Split(done + [c], AppendTo(groups, c.requirement, c.relation), others)
    ensures !c.alternative ==> Split(done + [c], groups, others + [c.relation])
  {
    AppendToKeepsDict(groups, c.requirement, c.relation);
    GroupsStep(done, groups, c);
    OthersStep(done, others, c);
  }

  lemma AppendToKeepsDict(groups: Dict<string, seq<Relation>>, key: string, relation: Relation)
    requires groups.Valid()
    ensures AppendTo(groups, key, relation).Valid()
  {
  }

  lemma GroupsStep(done: seq<Claim>, groups: Dict<string, seq<Relation>>, c: Claim)
    requires GroupsOk(done, groups.at)
    ensures GroupsOk(done + [c], (if c.alternative then AppendTo(groups, c.requirement, c.relation) else groups).at)
  {
    var next := (if c.alternative then AppendTo(groups, c.requirement, c.relation) else groups).at;
    forall q ensures GroupOk(done + [c], next, q) {
      assert GroupOk(done, groups.at, q);
      AlternativesAppend(done, c, q);
    }
  }

  lemma OthersStep(done: seq<Claim>, others: seq<Relation>, c: Claim)
    requires OthersOk(done, others)
    ensures OthersOk(done + [c], if c.alternative then others else others + [c.relation])
  {
    var next := if c.alternative then others else others + [c.relation];
    forall r ensures r in next <==> exists d :: d in done + [c] && !d.alternative && d.relation == r {
      if d :| d in done && !d.alternative && d.relation == r {
        assert d in done + [c];
      }
      assert c in done + [c];
    }
  }

  ghost predicate Resolved(groups: Dict<string, seq<Relation>>, others: seq<Relation>, resolved: seq<Relation>) {
    forall r :: r in resolved <==> r in others || exists q :: q in groups.at && r == ResolveGroup(groups.at[q])
  }

  method ResolveRelations(groups: Dict<string, seq<Relation>>, others: seq<Relation>) returns (resolved: seq<Relation>)
    requires groups.Valid()
    ensures Resolved(groups, others, resolved)
  {
    resolved := [];
    for n := 0 to |groups.order|
      invariant forall r :: r in resolved <==> exists k :: 0 <= k < n && r == ResolveGroup(groups.at[groups.order[k]])
    {
      resolved := resolved + [ResolveGroup(groups.at[groups.order[n]])];
    }
    resolved := resolved + others;
  }

  predicate HasBlocker(claims: seq<Claim>) {
    exists c :: c in claims && c.criticality.HardBlocker?
  }

  /** What `AggregateClaims` promises of its result. */
  ghost predicate Aggregated(r: RequirementResult) {
    && IsOverall(r.claims, r.overall) && r.level == Level(r.overall) && r.strength == OverallStrength(r.claims)
    && (r.hardBlocker <==> HasBlocker(r.claims))
  }

  method AggregateClaims(claims: seq<Claim>) returns (r: RequirementResult)
    ensures r.claims == claims && IsOverall(claims, r.overall)
    ensures r.level == Level(r.overall)
    ensures r.strength == OverallStrength(claims)
    ensures r.hardBlocker <==> HasBlocker(claims)
  {
    if claims == [] {
      return RequirementResult([], Insufficient, 0.0, InsufficientEvidence, false);
    }
    var considered := RequiredOnly(claims);
    if considered == [] {
      considered := claims;
    }
    ConsideredCounts(claims, considered);
    var groups, others := SplitClaims(considered);
    var resolved := ResolveRelations(groups, others);
    ResolvedFacts(claims, considered, groups, others, resolved);
    var overall := DetermineOverall(resolved);
    var strength := 0.65 * MinStrength(claims) + 0.35 * Mean(claims);
    r := RequirementResult(claims, overall, strength, Level(overall),
      exists c :: c in claims && c.criticality.HardBlocker?);
  }

  lemma ConsideredCounts(claims: seq<Claim>, considered: seq<Claim>)
    requires claims != []
    requires considered == if RequiredOnly(claims) == [] then claims else RequiredOnly(claims)
    ensures considered != [] && forall c :: c in considered <==> Counts(claims, c)
  {
    forall c ensures c in considered <==> Counts(claims, c) {
      RequiredOnlyMembers(claims, c);
      if RequiredOnly(claims) == [] {
        forall d | d in claims ensures !IsRequired(d) {
          RequiredOnlyMembers(claims, d);
        }
      } else {
        RequiredOnlyMembers(claims, RequiredOnly(claims)[0]);
      }
    }
  }

  /** Resolving OR groups changes neither the highest rank nor whether all are confirmed. */
  lemma ResolvedFacts(
      claims: seq<Claim>, considered: seq<Claim>, groups: Dict<string, seq<Relation>>, others: seq<Relation>,
      resolved: seq<Relation>)
    requires claims != [] && considered != [] && forall c :: c in considered <==> Counts(claims, c)
    requires Split(considered, groups, others)
    requires Resolved(groups, others, resolved)
    ensures IsOverall(claims, DetermineOverall(resolved))
  {
    OverallIsCappedMaximum(resolved);
    ResolvedTop(claims, considered, groups, others, resolved);
    if forall q :: q in resolved ==> q == Entailed {
      forall c | Counts(claims, c) ensures Confirmed(claims, c) {
        ConfirmedClaim(claims, considered, groups, others, resolved, c);
      }
    } else {
      var q :| q in resolved && q != Entailed;
      UnconfirmedClaim(claims, considered, groups, others, resolved, q);
    }
  }

  lemma ResolvedTop(
      claims: seq<Claim>, considered: seq<Claim>, groups: Dict<string, seq<Relation>>, others: seq<Relation>,
      resolved: seq<Relation>)
    requires considered != [] && forall c :: c in considered <==> Counts(claims, c)
    requires Split(considered, groups, others)
    requires Resolved(groups, others, resolved)
    ensures IsTopRank(claims, Top(resolved))
  {
    TopIsMaximum(resolved);
    forall c | Counts(claims, c) ensures Rank(c.relation) <= Top(resolved) {
      assert c in considered;
      var s := ClaimBelowResolved(considered, groups, others, resolved, c);
    }
    var some := ClaimBelowResolved(considered, groups, others, resolved, considered[0]);
    var r :| r in resolved && Rank(r) == Top(resolved);
    var top := ResolvedComesFromClaim(considered, groups, others, resolved, r);
    assert Counts(claims, top);
  }

  lemma ConfirmedClaim(
      claims: seq<Claim>, considered: seq<Claim>, groups: Dict<string, seq<Relation>>, others: seq<Relation>,
      resolved: seq<Relation>, c: Claim)
    requires forall c :: c in considered <==> Counts(claims, c)
    requires Split(considered, groups, others)
    requires Resolved(groups, others, resolved)
    requires Counts(claims, c) && forall q :: q in resolved ==> q == Entailed
    ensures Confirmed(claims, c)
  {
    assert c in considered;
    var s := ClaimBelowResolved(considered, groups, others, resolved, c);
    assert s == Entailed;
    if c.alternative {
      assert GroupOk(considered, groups.at, c.requirement);
      var d := EntailedAlternative(considered, c.requirement);
      assert Counts(claims, d);
    }
  }

  lemma EntailedAlternative(considered: seq<Claim>, requirement: string) returns (d: Claim)
    requires ResolveGroup(Alternatives(considered, requirement)) == Entailed
    ensures d in considered && d.alternative && d.requirement == requirement && d.relation == Entailed
  {
    AlternativesMembers(considered, requirement, Entailed);
    d :| d in considered && d.alternative && d.requirement == requirement && d.relation == Entailed;
  }

  /** The resolved relation that stands for a claim. */
  lemma ClaimBelowResolved(
      considered: seq<Claim>, groups: Dict<string, seq<Relation>>, others: seq<Relation>, resolved: seq<Relation>,
      c: Claim)
    returns (s: Relation)
    requires Split(considered, groups, others) && c in considered
    requires Resolved(groups, others, resolved)
    ensures s in resolved && Rank(c.relation) <= Rank(s) <= Top(resolved)
    ensures if c.alternative then c.requirement in groups.at && s == ResolveGroup(groups.at[c.requirement])
      else s == c.relation
  {
    TopIsMaximum(resolved);
    if c.alternative {
      AlternativesMembers(considered, c.requirement, c.relation);
      assert GroupOk(considered, groups.at, c.requirement);
      s := ResolveGroup(groups.at[c.requirement]);
      ResolveIsMaximum(groups.at[c.requirement]);
      TopIsMaximum(groups.at[c.requirement]);
    } else {
      s := c.relation;
    }
  }

  lemma ResolvedComesFromClaim(
      considered: seq<Claim>, groups: Dict<string, seq<Relation>>, others: seq<Relation>, resolved: seq<Relation>,
      r: Relation)
    returns (c: Claim)
    requires Split(considered, groups, others) && r in resolved
    requires Resolved(groups, others, resolved)
    ensures c in considered && Rank(c.relation) == Rank(r)
    ensures if c.alternative then c.requirement in groups.at && r == ResolveGroup(groups.at[c.requirement])
      else r == c.relation
  {
    if r in others {
      c :| c in considered && !c.alternative && c.relation == r;
    } else {
      var q :| q in groups.at && r == ResolveGroup(groups.at[q]);
      ResolveIsMaximum(groups.at[q]);
      TopIsMaximum(groups.at[q]);
      var s :| s in groups.at[q] && Rank(s) == Top(groups.at[q]);
      assert GroupOk(considered, groups.at, q);
      AlternativesMembers(considered, q, s);
      c :| c in considered && c.alternative && c.requirement == q && c.relation == s;
    }
  }

  lemma UnconfirmedClaim(
      claims: seq<Claim>, considered: seq<Claim>, groups: Dict<string, seq<Relation>>, others: seq<Relation>,
      resolved: seq<Relation>, r: Relation)
    requires forall c :: c in considered <==> Counts(claims, c)
    requires Split(considered, groups, others) && r in resolved && r != Entailed
    requires Resolved(groups, others, resolved)
    ensures !AllConfirmed(claims)
  {
    var c := ResolvedComesFromClaim(considered, groups, others, resolved, r);
    if c.alternative {
      assert GroupOk(considered, groups.at, c.requirement);
      forall d | Counts(claims, d) && d.alternative && d.requirement == c.requirement ensures d.relation != Entailed {
        AlternativesMembers(considered, c.requirement, Entailed);
        assert d in considered;
      }
    }
    assert !Confirmed(claims, c);
  }

  // ----- what the aggregation promises

  lemma TopRankIsUnique(claims: seq<Claim>, more: seq<Claim>, a: nat, b: nat)
    requires forall c :: c in claims <==> c in more
    requires IsTopRank(claims, a) && IsTopRank(more, b)
    ensures a == b
  {
    var c :| Counts(claims, c) && Rank(c.relation) == a;
    var d :| Counts(more, d) && Rank(d.relation) == b;
    assert Counts(more, c) && Counts(claims, d);
  }

  /** The overall relation depends on which claims there are, not on their order. */
  lemma OverallIgnoresOrder(claims: seq<Claim>, shuffled: seq<Claim>, a: Relation, b: Relation)
    requires forall c :: c in claims <==> c in shuffled
    requires IsOverall(claims, a) && IsOverall(shuffled, b)
    ensures a == b
  {
    assert claims != [] ==> claims[0] in shuffled;
    assert shuffled != [] ==> shuffled[0] in claims;
    assert forall c :: Counts(claims, c) <==> Counts(shuffled, c);
    if claims != [] {
      if AllConfirmed(claims) {
        SameConfirmed(claims, shuffled);
      } else if AllConfirmed(shuffled) {
        SameConfirmed(shuffled, claims);
      } else {
        var i :| IsTopRank(claims, i) && a == FromRank(AtMostPartial(i));
        var j :| IsTopRank(shuffled, j) && b == FromRank(AtMostPartial(j));
        TopRankIsUnique(claims, shuffled, i, j);
      }
    }
  }

  lemma SameConfirmed(claims: seq<Claim>, more: seq<Claim>)
    requires forall c :: Counts(claims, c) <==> Counts(more, c)
    requires AllConfirmed(claims)
    ensures AllConfirmed(more)
  {
    forall c | Counts(more, c) ensures Confirmed(more, c) {
      assert Counts(claims, c);
      assert Confirmed(claims, c);
    }
  }

  /** `more` is `claims` with some relations of higher rank. */
  ghost predicate Raised(claims: seq<Claim>, more: seq<Claim>) {
    && |claims| == |more|
    && forall k :: 0 <= k < |claims| ==>
         more[k] == claims[k].(relation := more[k].relation) && Rank(claims[k].relation) <= Rank(more[k].relation)
  }

  lemma RaisedCounts(claims: seq<Claim>, more: seq<Claim>, k: nat)
    requires Raised(claims, more) && k < |claims|
    ensures Counts(claims, claims[k]) <==> Counts(more, more[k])
  {
    forall j | 0 <= j < |claims| ensures IsRequired(claims[j]) <==> IsRequired(more[j]) {
    }
    assert (forall d :: d in claims ==> !IsRequired(d)) <==> forall j :: 0 <= j < |claims| ==> !IsRequired(claims[j]);
    assert (forall d :: d in more ==> !IsRequired(d)) <==> forall j :: 0 <= j < |more| ==> !IsRequired(more[j]);
  }

  /** Raising the relation of any claims never lowers the overall relation. */
  lemma OverallIsMonotone(claims: seq<Claim>, more: seq<Claim>, a: Relation, b: Relation)
    requires Raised(claims, more) && IsOverall(claims, a) && IsOverall(more, b)
    ensures Rank(a) <= Rank(b)
  {
    if claims != [] {
      var i := OverallRank(claims, a);
      var j := OverallRank(more, b);
      if AllConfirmed(claims) {
        RaisedConfirmed(claims, more);
      } else if !AllConfirmed(more) {
        RaisedTop(claims, more, i, j);
      }
    }
  }

  lemma OverallRank(claims: seq<Claim>, overall: Relation) returns (rank: nat)
    requires claims != [] && IsOverall(claims, overall)
    ensures Rank(overall) <= 5
    ensures if AllConfirmed(claims) then overall == Entailed
            else IsTopRank(claims, rank) && Rank(overall) == AtMostPartial(rank)
  {
    rank := 0;
    if !AllConfirmed(claims) {
      rank :| IsTopRank(claims, rank) && overall == FromRank(AtMostPartial(rank));
    }
  }

  lemma RaisedTop(claims: seq<Claim>, more: seq<Claim>, i: nat, j: nat)
    requires Raised(claims, more) && IsTopRank(claims, i) && IsTopRank(more, j)
    ensures i <= j
  {
    var c :| Counts(claims, c) && Rank(c.relation) == i;
    var k :| 0 <= k < |claims| && claims[k] == c;
    RaisedCounts(claims, more, k);
  }

  lemma RaisedConfirmed(claims: seq<Claim>, more: seq<Claim>)
    requires Raised(claims, more) && AllConfirmed(claims)
    ensures AllConfirmed(more)
  {
    forall c | Counts(more, c) ensures Confirmed(more, c) {
      var k :| 0 <= k < |more| && more[k] == c;
      RaisedCounts(claims, more, k);
      RaisedClaimConfirmed(claims, more, k);
    }
  }

  lemma RaisedClaimConfirmed(claims: seq<Claim>, more: seq<Claim>, k: nat)
    requires Raised(claims, more) && k < |claims| && Confirmed(claims, claims[k])
    ensures Confirmed(more, more[k])
  {
    if claims[k].alternative {
      var d :| Counts(claims, d) && d.alternative && d.requirement == claims[k].requirement && d.relation == Entailed;
      var j :| 0 <= j < |claims| && claims[j] == d;
      RaisedCounts(claims, more, j);
      assert Counts(more, more[j]) && more[j].relation == Entailed;
    }
  }

  lemma SomeCounts(claims: seq<Claim>) returns (c: Claim)
    requires claims != []
    ensures Counts(claims, c)
  {
    if d :| d in claims && IsRequired(d) {
      c := d;
    } else {
      c := claims[0];
    }
  }

  /** A requirement is called missing exactly when every counting claim is unknown, contradicted or missing. */
  lemma MissingIffNothingFound(claims: seq<Claim>, overall: Relation)
    requires claims != [] && IsOverall(claims, overall)
    ensures Level(overall) == MissingLevel <==> forall c :: Counts(claims, c) ==> Rank(c.relation) == 0
  {
    if AllConfirmed(claims) {
      var c := SomeCounts(claims);
      assert Confirmed(claims, c);
    } else {
      var rank :| IsTopRank(claims, rank) && overall == FromRank(AtMostPartial(rank));
      TopRankIsZeroIff(claims, rank);
    }
  }

  lemma TopRankIsZeroIff(claims: seq<Claim>, rank: nat)
    requires IsTopRank(claims, rank)
    ensures rank == 0 <==> forall c :: Counts(claims, c) ==> Rank(c.relation) == 0
    ensures Level(FromRank(AtMostPartial(rank))) == MissingLevel <==> rank == 0
  {
    var c :| Counts(claims, c) && Rank(c.relation) == rank;
  }

  /** The overall strength, before rounding, lies between the weakest claim and the mean of all claims. */
  lemma StrengthIsBetween(claims: seq<Claim>)
    requires claims != []
    ensures MinStrength(claims) <= OverallStrength(claims) <= Mean(claims)
  {
    MinAtMostMean(claims);
  }

  lemma MinAtMostMean(claims: seq<Claim>)
    requires claims != []
    ensures MinStrength(claims) <= Mean(claims)
  {
    MinTimesCount(claims);
    DivideAndMultiply(SumStrengths(claims), |claims| as real);
    CancelFactor(MinStrength(claims), Mean(claims), |claims| as real);
  }

  lemma CancelFactor(a: real, b: real, n: real)
    requires n > 0.0 && a * n <= b * n
    ensures a <= b
  {
    DivideAndMultiply(a, n);
    DivideAndMultiply(b, n);
    assert (b - a) * n == b * n - a * n;
  }

  lemma {:induction false} MinTimesCount(claims: seq<Claim>)
    requires claims != []
    ensures MinStrength(claims) * |claims| as real <= SumStrengths(claims)
  {
    var n := |claims| - 1;
    if n > 0 {
      MinTimesCount(claims[..n]);
      var low, before := MinStrength(claims), MinStrength(claims[..n]);
      assert low <= before && low <= claims[n].strength;
      assert (before - low) * n as real >= 0.0;
      assert low * (n as real + 1.0) == low * n as real + low;
    } else {
      assert SumStrengths(claims[..0]) == 0.0;
    }
  }

  function MaxStrength(claims: seq<Claim>): real
    requires claims != []
  {
    var last := claims[|claims| - 1].strength;
    if |claims| == 1 then last else
      var rest := MaxStrength(claims[..|claims| - 1]);
      if last > rest then last else rest
  }

  ghost predicate AllEquallyStrong(claims: seq<Claim>) {
    forall j, k :: 0 <= j < |claims| && 0 <= k < |claims| ==> claims[j].strength == claims[k].strength
  }

  lemma {:induction false} ExtremesBound(claims: seq<Claim>)
    requires claims != []
    ensures forall k :: 0 <= k < |claims| ==> MinStrength(claims) <= claims[k].strength <= MaxStrength(claims)
    ensures exists k :: 0 <= k < |claims| && claims[k].strength == MinStrength(claims)
    ensures exists k :: 0 <= k < |claims| && claims[k].strength == MaxStrength(claims)
  {
    var n := |claims| - 1;
    if n == 0 {
      assert claims[0].strength == MinStrength(claims) == MaxStrength(claims);
    } else {
      ExtremesBound(claims[..n]);
      var low :| 0 <= low < n && claims[..n][low].strength == MinStrength(claims[..n]);
      var high :| 0 <= high < n && claims[..n][high].strength == MaxStrength(claims[..n]);
      assert claims[if claims[n].strength < MinStrength(claims[..n]) then n else low].strength == MinStrength(claims);
      assert claims[if claims[n].strength > MaxStrength(claims[..n]) then n else high].strength == MaxStrength(claims);
      assert forall k :: 0 <= k < n ==> claims[..n][k] == claims[k];
    }
  }

  lemma {:induction false} SumAtMostMaximum(claims: seq<Claim>)
    requires claims != []
    ensures SumStrengths(claims) <= MaxStrength(claims) * |claims| as real
  {
    var n := |claims| - 1;
    if n == 0 {
      assert SumStrengths(claims[..0]) == 0.0;
    } else {
      SumAtMostMaximum(claims[..n]);
      var high, before := MaxStrength(claims), MaxStrength(claims[..n]);
      assert high >= before && high >= claims[n].strength;
      assert (high - before) * n as real >= 0.0;
      assert high * (n as real + 1.0) == high * n as real + high;
    }
  }

  lemma MeanAtMostMaximum(claims: seq<Claim>)
    requires claims != []
    ensures Mean(claims) <= MaxStrength(claims)
  {
    SumAtMostMaximum(claims);
    DivideAndMultiply(SumStrengths(claims), |claims| as real);
    CancelFactor(Mean(claims), MaxStrength(claims), |claims| as real);
  }

  /**
   * The comment in the source says that the strength of an OR group is its maximum. The code takes
   * the weakest claim and the mean for it too, which is the maximum exactly when no claim is
   * stronger than another.
   */
  lemma StrengthIsMaximumIff(claims: seq<Claim>)
    requires claims != []
    ensures OverallStrength(claims) == MaxStrength(claims) <==> AllEquallyStrong(claims)
    ensures OverallStrength(claims) <= MaxStrength(claims)
  {
    ExtremesBound(claims);
    StrengthIsBetween(claims);
    MeanAtMostMaximum(claims);
    var low, mean, high := MinStrength(claims), Mean(claims), MaxStrength(claims);
    assert OverallStrength(claims) == 0.65 * low + 0.35 * mean;
    if AllEquallyStrong(claims) {
      var k :| 0 <= k < |claims| && claims[k].strength == low;
      var j :| 0 <= j < |claims| && claims[j].strength == high;
      assert low == mean == high;
    } else {
      assert low < high;
    }
  }

  lemma StrengthsOfOne(c: Claim)
    ensures SumStrengths([c]) == MinStrength([c]) == MaxStrength([c]) == c.strength
  {
    assert [c][..0] == [];
  }

  lemma StrengthsOfTwo(a: Claim, b: Claim)
    requires a.strength >= b.strength
    ensures SumStrengths([a, b]) == a.strength + b.strength
    ensures MinStrength([a, b]) == b.strength && MaxStrength([a, b]) == a.strength
  {
    assert [a, b][..1] == [a];
    StrengthsOfOne(a);
  }

  /**
   * For instance: two alternatives of one requirement, one fully confirmed and one without any
   * support. The requirement counts as entailed, with strength 0.175.
   */
  method AggregateStrongAndWeakAlternative(strong: Claim, weak: Claim) returns (r: RequirementResult)
    requires strong.alternative && weak.alternative && strong.requirement == weak.requirement
    requires strong.criticality.Required? && weak.criticality.Required?
    requires strong.relation == Entailed && strong.strength == 1.0 && weak.relation == Unknown && weak.strength == 0.0
    ensures r.claims == [strong, weak] && r.overall == Entailed && r.level == Exact
    ensures r.strength == 0.175 && MaxStrength(r.claims) == 1.0
  {
    var claims := [strong, weak];
    r := AggregateClaims(claims);
    PairIsConfirmed(strong, weak);
    StrengthsOfTwo(strong, weak);
    HalfOf(SumStrengths(claims));
  }

  lemma HalfOf(x: real)
    ensures 0.65 * 0.0 + 0.35 * (x / 2.0) == 0.175 * x
  {
  }

  /** One entailed alternative confirms the other one. */
  lemma PairIsConfirmed(strong: Claim, weak: Claim)
    requires strong.alternative && weak.alternative && strong.requirement == weak.requirement
    requires IsRequired(strong) && strong.relation == Entailed
    ensures AllConfirmed([strong, weak])
  {
    var claims := [strong, weak];
    assert claims[0] == strong && claims[1] == weak;
    assert Counts(claims, strong) && Confirmed(claims, strong) && Confirmed(claims, weak);
    assert forall c :: Counts(claims, c) ==> c == strong || c == weak;
  }

  // ----- _build_assessment

  datatype Assessment = Assessment(
    requirement: string, hardBlocker: bool, unresolvedBlocker: bool, level: MatchLevel, relation: Option<Relation>,
    strength: Option<real>, coverage: Option<real>)

  function Coverages(claims: seq<Claim>): seq<real> {
    if claims == [] then [] else
      var last := claims[|claims| - 1];
      Coverages(claims[..|claims| - 1])
      + (if last.coverage.Some? && last.coverage.value > 0.0 then [last.coverage.value] else [])
  }

  function Sum(values: seq<real>): real {
    if values == [] then 0.0 else Sum(values[..|values| - 1]) + values[|values| - 1]
  }

  function BuildAssessment(requirement: string, r: RequirementResult): Assessment {
    var unresolved := r.hardBlocker && (r.overall == Insufficient || r.overall == EvaluationError);
    Assessment(
      requirement, r.hardBlocker && !unresolved, unresolved, r.level,
      if r.overall.Missing? || r.overall.Unlisted? then None else Some(r.overall),
      Some(r.strength),
      MeanCoverage(Coverages(r.claims)))
  }

  function MeanCoverage(coverages: seq<real>): Option<real> {
    if coverages == [] then None else Some(Sum(coverages) / |coverages| as real)
  }

  // ----- what an assessment says about the claims, without the relation in between

  /** Optional claims count only where there is no other. */
  lemma CountsIff(claims: seq<Claim>, c: Claim)
    ensures Counts(claims, c)
       <==> c in claims && (c.criticality.Optional? ==> forall d :: d in claims ==> d.criticality.Optional?)
  {
    assert forall d: Claim :: IsRequired(d) <==> !d.criticality.Optional?;
  }

  /** The level, by the best of the counting claims. */
  ghost predicate LevelIs(claims: seq<Claim>, level: MatchLevel) {
    match level
    case Exact => claims != [] && AllConfirmed(claims)
    case PartialMatch => !AllConfirmed(claims) && (IsTopRank(claims, 5) || IsTopRank(claims, 4))
    case RelatedMatch => IsTopRank(claims, 3)
    case InsufficientEvidence => claims == [] || IsTopRank(claims, 2)
    case ErrorLevel => IsTopRank(claims, 1)
    case MissingLevel => IsTopRank(claims, 0)
  }

  lemma ConfirmedTop(claims: seq<Claim>)
    requires claims != [] && AllConfirmed(claims)
    ensures IsTopRank(claims, 5)
  {
    var c := SomeCounts(claims);
    assert Confirmed(claims, c);
    EntailedTop(claims, if c.alternative then ConfirmedBy(claims, c) else c);
  }

  lemma EntailedTop(claims: seq<Claim>, c: Claim)
    requires Counts(claims, c) && c.relation == Entailed
    ensures IsTopRank(claims, 5)
  {
    assert forall r :: Rank(r) <= 5;
  }

  ghost function ConfirmedBy(claims: seq<Claim>, c: Claim): (d: Claim)
    requires Confirmed(claims, c) && c.alternative
    ensures Counts(claims, d) && d.relation == Entailed
  {
    var d :| Counts(claims, d) && d.alternative && d.requirement == c.requirement && d.relation == Entailed;
    d
  }

  /** Each level means what `LevelIs` says of it, and only one does. */
  lemma LevelIff(claims: seq<Claim>, overall: Relation, level: MatchLevel)
    requires IsOverall(claims, overall)
    ensures Level(overall) == level <==> LevelIs(claims, level)
  {
    if claims == [] {
    } else if AllConfirmed(claims) {
      ConfirmedTop(claims);
      LevelAtTop(claims, overall, level, 5);
    } else {
      var rank :| IsTopRank(claims, rank) && overall == FromRank(AtMostPartial(rank));
      LevelAtTop(claims, overall, level, rank);
    }
  }

  lemma LevelAtTop(claims: seq<Claim>, overall: Relation, level: MatchLevel, rank: nat)
    requires claims != [] && IsTopRank(claims, rank)
    requires overall == if AllConfirmed(claims) then Entailed else FromRank(AtMostPartial(rank))
    requires AllConfirmed(claims) ==> rank == 5
    ensures Level(overall) == level <==> LevelIs(claims, level)
  {
    forall other: nat | IsTopRank(claims, other) ensures other == rank {
      TopRankIsUnique(claims, claims, other, rank);
    }
    var c :| Counts(claims, c) && Rank(c.relation) == rank;
    assert rank <= 5;
  }

  ghost function PositiveCoverage(c: Claim): real {
    if c.coverage.Some? && c.coverage.value > 0.0 then c.coverage.value else 0.0
  }

  ghost function TotalCoverage(claims: seq<Claim>): real {
    if claims == [] then 0.0 else PositiveCoverage(claims[0]) + TotalCoverage(claims[1..])
  }

  /** How many claims have some coverage. */
  ghost function Covered(claims: seq<Claim>): nat {
    if claims == [] then 0 else (if PositiveCoverage(claims[0]) > 0.0 then 1 else 0) + Covered(claims[1..])
  }

  lemma {:induction false} TotalAppend(claims: seq<Claim>, c: Claim)
    ensures TotalCoverage(claims + [c]) == TotalCoverage(claims) + PositiveCoverage(c)
    ensures Covered(claims + [c]) == Covered(claims) + if PositiveCoverage(c) > 0.0 then 1 else 0
  {
    if claims == [] {
      assert [c][1..] == [];
    } else {
      assert (claims + [c])[1..] == claims[1..] + [c];
      TotalAppend(claims[1..], c);
    }
  }

  lemma {:induction false} CoverageTotals(claims: seq<Claim>)
    ensures Sum(Coverages(claims)) == TotalCoverage(claims) && |Coverages(claims)| == Covered(claims)
  {
    if claims == [] {
    } else {
      var n := |claims| - 1;
      CoverageTotals(claims[..n]);
      assert claims == claims[..n] + [claims[n]];
      TotalAppend(claims[..n], claims[n]);
      if PositiveCoverage(claims[n]) > 0.0 {
        assert Coverages(claims)[..|Coverages(claims[..n])|] == Coverages(claims[..n]);
      } else {
        assert Coverages(claims) == Coverages(claims[..n]);
      }
    }
  }

  ghost predicate IsMean(mean: Option<real>, count: nat, total: real) {
    (mean.None? <==> count == 0) && (mean.Some? ==> mean.value * count as real == total)
  }

  /** The mean over the claims with some coverage, if there are any. */
  ghost predicate IsMeanCoverage(claims: seq<Claim>, coverage: Option<real>) {
    IsMean(coverage, Covered(claims), TotalCoverage(claims))
  }

  /** The best counting claim shows that data were too few, or an evaluation failed. */
  ghost predicate Unclear(claims: seq<Claim>) {
    IsTopRank(claims, 2) || IsTopRank(claims, 1)
  }

  /** What an assessment says, in terms of the claims it was made from. */
  ghost predicate Assesses(requirement: string, claims: seq<Claim>, a: Assessment) {
    && a.requirement == requirement && a.strength == Some(OverallStrength(claims))
    && (a.hardBlocker <==> HasBlocker(claims) && !Unclear(claims))
    && (a.unresolvedBlocker <==> HasBlocker(claims) && Unclear(claims))
    && LevelIs(claims, a.level) && a.relation.Some? && IsOverall(claims, a.relation.value)
    && IsMeanCoverage(claims, a.coverage)
  }

  /**
   * A hard blocker is either decided or unresolved, never both; unresolved exactly when the data or
   * the evaluation failed.
   */
  lemma BlockersAreSplit(requirement: string, r: RequirementResult)
    requires Aggregated(r)
    ensures
      var a := BuildAssessment(requirement, r);
      && !(a.hardBlocker && a.unresolvedBlocker)
      && (a.hardBlocker || a.unresolvedBlocker <==> HasBlocker(r.claims))
      && (a.unresolvedBlocker <==> HasBlocker(r.claims) && Unclear(r.claims))
      && (a.unresolvedBlocker ==> a.level in {InsufficientEvidence, ErrorLevel}) && a.relation == Some(r.overall)
  {
    OverallIsListed(r.claims, r.overall);
    LevelIff(r.claims, r.overall, InsufficientEvidence);
    LevelIff(r.claims, r.overall, ErrorLevel);
  }

  lemma AssessmentIsFaithful(requirement: string, r: RequirementResult)
    requires Aggregated(r)
    ensures Assesses(requirement, r.claims, BuildAssessment(requirement, r))
  {
    BlockersAreSplit(requirement, r);
    LevelIff(r.claims, r.overall, r.level);
    OverallIsListed(r.claims, r.overall);
    MeanOfCoverages(r.claims);
  }

  lemma MeanOfCoverages(claims: seq<Claim>)
    ensures IsMeanCoverage(claims, MeanCoverage(Coverages(claims)))
  {
    CoverageTotals(claims);
    MeanTimesCount(Coverages(claims), TotalCoverage(claims), Covered(claims));
  }

  lemma MeanTimesCount(coverages: seq<real>, total: real, n: nat)
    requires Sum(coverages) == total && |coverages| == n
    ensures IsMean(MeanCoverage(coverages), n, total)
  {
    if n != 0 {
      DivideAndMultiply(total, n as real);
    }
  }

  lemma DivideAndMultiply(a: real, n: real)
    requires n != 0.0
    ensures a / n * n == a
  {
  }

  lemma OverallIsListed(claims: seq<Claim>, overall: Relation)
    requires IsOverall(claims, overall)
    ensures !overall.Missing? && !overall.Unlisted?
  {
    if claims != [] && !AllConfirmed(claims) {
      var rank :| IsTopRank(claims, rank) && overall == FromRank(AtMostPartial(rank));
    }
  }
}
