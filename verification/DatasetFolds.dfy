/**
 * Train/validation/test folds of vacancy groups, the frozen evaluation split, and why neither
 * lets evaluation data leak into training.
 */
module DatasetFolds {
  import opened VacancyGroups
  import opened Wrappers

  const TRAIN := "train"
  const VALIDATION := "validation"
  const TEST := "test"

  type Folds = map<string, string>

  predicate IsEvaluation(fold: string) {
    fold == VALIDATION || fold == TEST
  }

  /** Everything a split fixes: where the seeded hash puts a group in [0, 1), and the shares. */
  datatype Split = Split(position: string -> real, train: real, validation: real)

  function HashedFold(split: Split, group: string): string {
    if split.position(group) < split.train then TRAIN
    else if split.position(group) < split.train + split.validation then VALIDATION
    else TEST
  }

  /** How many of the groups get the fold. */
  function CountFold(split: Split, groups: seq<string>, fold: string): nat {
    if groups == [] then 0
    else CountFold(split, groups[..|groups| - 1], fold)
         + (if HashedFold(split, groups[|groups| - 1]) == fold then 1 else 0)
  }

  function Part(share: real, n: int): real {
    share * n as real
  }

  /** Position k of n, for n groups that the hash spreads evenly. */
  ghost predicate EvenlySpread(split: Split, groups: seq<string>, n: int) {
    n > 0 && forall k :: 0 <= k < |groups| ==> split.position(groups[k]) * n as real == k as real
  }

  predicate Shares(split: Split) {
    split.train >= 0.0 && split.validation >= 0.0 && split.train + split.validation <= 1.0
  }

  function CountBelow(split: Split, groups: seq<string>, share: real): nat {
    if groups == [] then 0
    else CountBelow(split, groups[..|groups| - 1], share)
         + (if split.position(groups[|groups| - 1]) < share then 1 else 0)
  }

  lemma {:induction false} CountsAreBelow(split: Split, groups: seq<string>)
    requires Shares(split)
    ensures CountFold(split, groups, TRAIN) == CountBelow(split, groups, split.train)
    ensures CountFold(split, groups, TRAIN) + CountFold(split, groups, VALIDATION)
         == CountBelow(split, groups, split.train + split.validation)
    ensures CountFold(split, groups, TRAIN) + CountFold(split, groups, VALIDATION) + CountFold(split, groups, TEST)
         == |groups|
  {
    if groups == [] {
    } else {
      CountsAreBelow(split, groups[..|groups| - 1]);
    }
  }

  /** All of them lie below the share, or the count is the share of `n` rounded up. */
  predicate CountedBelow(count: int, size: int, x: real) {
    if count == size then size as real < x + 1.0 else 0 <= count < size && x <= count as real < x + 1.0
  }

  lemma {:induction false} CountBelowShare(split: Split, groups: seq<string>, n: int, share: real)
    requires EvenlySpread(split, groups, n) && share >= 0.0
    ensures CountedBelow(CountBelow(split, groups, share), |groups|, Part(share, n))
  {
    if groups == [] {
      assert share * n as real >= 0.0;
    } else {
      var k := |groups| - 1;
      CountBelowShare(split, groups[..k], n, share);
      BelowShare(split.position(groups[k]), share, k, n);
    }
  }

  lemma BelowShare(position: real, share: real, k: int, n: int)
    requires n > 0 && position * n as real == k as real
    ensures position < share <==> k as real < share * n as real
  {
    assert (share - position) * n as real == share * n as real - k as real;
    assert share > position ==> (share - position) * n as real > 0.0;
    assert share <= position ==> (share - position) * n as real <= 0.0;
  }

  lemma TrainingIsCounted(split: Split, groups: seq<string>)
    requires EvenlySpread(split, groups, |groups|) && Shares(split)
    ensures CountedBelow(CountFold(split, groups, TRAIN), |groups|, Part(split.train, |groups|))
  {
    CountsAreBelow(split, groups);
    CountBelowShare(split, groups, |groups|, split.train);
  }

  lemma ValidationIsCounted(split: Split, groups: seq<string>)
    requires EvenlySpread(split, groups, |groups|) && Shares(split)
    ensures CountedBelow(CountFold(split, groups, TRAIN) + CountFold(split, groups, VALIDATION), |groups|,
              Part(split.train + split.validation, |groups|))
    ensures CountFold(split, groups, TEST)
         == |groups| - CountFold(split, groups, TRAIN) - CountFold(split, groups, VALIDATION)
  {
    CountsAreBelow(split, groups);
    CountBelowShare(split, groups, |groups|, split.train + split.validation);
  }

  lemma Proportions(train: real, validation: real, n: int)
    requires train <= 1.0 && train + validation <= 1.0 && n >= 0
    ensures Part(train + validation, n) == Part(train, n) + Part(validation, n)
    ensures Part(1.0 - train - validation, n) == n as real - Part(train, n) - Part(validation, n)
    ensures Part(train, n) <= n as real && Part(train + validation, n) <= n as real
  {
    assert (1.0 - train) * n as real >= 0.0;
    assert (1.0 - (train + validation)) * n as real >= 0.0;
  }

  predicate WithinOne(count: int, exact: real) {
    -1.0 < count as real - exact < 1.0
  }

  lemma Differences(training: int, validating: int, testing: int, size: int, x: real, y: real, xy: real, z: real)
    requires CountedBelow(training, size, x) && CountedBelow(training + validating, size, xy)
    requires x <= size as real && xy <= size as real && xy == x + y && z == size as real - x - y
    requires testing == size - training - validating
    ensures WithinOne(training, x) && WithinOne(validating, y) && WithinOne(testing, z)
  {
  }

  /** Evenly spread groups are divided in proportion to the shares, to less than one group each. */
  lemma FoldsFollowShares(split: Split, groups: seq<string>)
    requires groups != [] && EvenlySpread(split, groups, |groups|) && Shares(split)
    ensures WithinOne(CountFold(split, groups, TRAIN), Part(split.train, |groups|))
    ensures WithinOne(CountFold(split, groups, VALIDATION), Part(split.validation, |groups|))
    ensures WithinOne(CountFold(split, groups, TEST), Part(1.0 - split.train - split.validation, |groups|))
  {
    TrainingIsCounted(split, groups);
    ValidationIsCounted(split, groups);
    Proportions(split.train, split.validation, |groups|);
    Differences(CountFold(split, groups, TRAIN), CountFold(split, groups, VALIDATION), CountFold(split, groups, TEST),
      |groups|, Part(split.train, |groups|), Part(split.validation, |groups|),
      Part(split.train + split.validation, |groups|), Part(1.0 - split.train - split.validation, |groups|));
  }

  /** Moving the border between training and validation moves groups across that border only. */
  lemma LargerTrainingShare(split: Split, more: Split, group: string)
    requires split.position == more.position && split.train <= more.train && split.validation >= 0.0
    requires split.train + split.validation == more.train + more.validation && more.validation >= 0.0
    ensures HashedFold(split, group) == TRAIN ==> HashedFold(more, group) == TRAIN
    ensures HashedFold(split, group) == TEST <==> HashedFold(more, group) == TEST
  {
  }

  /** A member of `group` was frozen into `fold`. */
  ghost predicate FrozenInto(groups: Folds, frozen: Folds, group: string, fold: string) {
    exists v :: v in groups && groups[v] == group && v in frozen && frozen[v] == fold
  }

  ghost function FoldOf(split: Split, groups: Folds, frozen: Folds, group: string): string {
    if FrozenInto(groups, frozen, group, TEST) then TEST
    else if FrozenInto(groups, frozen, group, VALIDATION) then VALIDATION
    else HashedFold(split, group)
  }

  /** The folds a grouping gets; no iteration order appears in it. */
  ghost predicate IsAssignment(split: Split, groups: Folds, frozen: Folds, folds: Folds) {
    folds.Keys == groups.Keys && forall v :: v in groups ==> folds[v] == FoldOf(split, groups, frozen, groups[v])
  }

  ghost predicate BadlyFrozen(groups: Folds, frozen: Folds, v: string) {
    v in groups && v in frozen && !IsEvaluation(frozen[v])
  }

  method AssignFolds(split: Split, groups: Dict<string, string>, frozen: Folds)
    returns (r: Result<Folds, string>)
    requires groups.Valid()
    ensures r.Err? <==> exists v :: BadlyFrozen(groups.at, frozen, v)
    ensures r.Err? ==> exists v :: BadlyFrozen(groups.at, frozen, v) && r.error == frozen[v]
    ensures r.Ok? ==> IsAssignment(split, groups.at, frozen, r.value)
  {
    var pinning := PinFolds(groups.order, groups.at, frozen);
    if pinning.Err? {
      return Err(pinning.error);
    }
    var pinned := pinning.value;
    var folds: Folds := map[];
    for i := 0 to |groups.order|
      invariant folds.Keys == set v | v in groups.order[..i]
      invariant forall v :: v in folds ==> folds[v] == PinnedOrHashed(split, pinned, groups.at[v])
    {
      var vacancy := groups.order[i];
      assert groups.order[..i + 1] == groups.order[..i] + [vacancy];
      folds := folds[vacancy := PinnedOrHashed(split, pinned, groups.at[vacancy])];
    }
    assert groups.order[..|groups.order|] == groups.order;
    PinnedFolds(split, groups.at, frozen, pinned, folds);
    r := Ok(folds);
  }

  function PinnedOrHashed(split: Split, pinned: Folds, group: string): string {
    if group in pinned then pinned[group] else HashedFold(split, group)
  }

  lemma PinnedFolds(split: Split, groups: Folds, frozen: Folds, pinned: Folds, folds: Folds)
    requires PinnedBy(groups, frozen, pinned, groups.Keys) && folds.Keys == groups.Keys
    requires forall v :: v in folds ==> folds[v] == PinnedOrHashed(split, pinned, groups[v])
    ensures IsAssignment(split, groups, frozen, folds)
  {
    forall v | v in groups ensures folds[v] == FoldOf(split, groups, frozen, groups[v]) {
      PinnedFold(groups, frozen, pinned, split, groups[v]);
    }
  }

  /** The first loop: one pinned fold per group that a frozen vacancy touches. */
  method PinFolds(order: seq<string>, groups: Folds, frozen: Folds) returns (r: Result<Folds, string>)
    requires forall v :: v in order <==> v in groups
    ensures r.Err? ==> exists v :: BadlyFrozen(groups, frozen, v) && r.error == frozen[v]
    ensures r.Ok? ==> forall v :: !BadlyFrozen(groups, frozen, v)
    ensures r.Ok? ==> PinnedBy(groups, frozen, r.value, groups.Keys)
  {
    var pinned: Folds := map[];
    ghost var done: set<string> := {};
    for i := 0 to |order|
      invariant forall v :: v in done <==> v in order[..i]
      invariant forall v :: v in done ==> !BadlyFrozen(groups, frozen, v)
      invariant PinnedBy(groups, frozen, pinned, done)
    {
      var vacancy := order[i];
      if vacancy in frozen {
        if !IsEvaluation(frozen[vacancy]) {
          assert BadlyFrozen(groups, frozen, vacancy);
          return Err(frozen[vacancy]);
        }
        PinStep(groups, frozen, pinned, done, vacancy);
        pinned := Pin(pinned, groups[vacancy], frozen[vacancy]);
      } else {
        PinSkip(groups, frozen, pinned, done, vacancy);
      }
      done := done + {vacancy};
    }
    assert done == groups.Keys;
    r := Ok(pinned);
  }

  /** Test outranks validation inside one group. */
  function Pin(pinned: Folds, group: string, fold: string): Folds {
    if group in pinned && pinned[group] == TEST then pinned else pinned[group := fold]
  }

  ghost predicate PinWitness(groups: Folds, frozen: Folds, pinned: Folds, done: set<string>, g: string, v: string)
    requires g in pinned
  {
    v in done && v in groups && groups[v] == g && v in frozen && frozen[v] == pinned[g]
  }

  /** `pinned` once `done` was read: a frozen fold of some member, and test as soon as one is frozen test. */
  ghost predicate PinnedBy(groups: Folds, frozen: Folds, pinned: Folds, done: set<string>) {
    && (forall g :: g in pinned ==>
      IsEvaluation(pinned[g]) && exists v :: PinWitness(groups, frozen, pinned, done, g, v))
    && (forall v :: v in done && v in groups && v in frozen ==>
         groups[v] in pinned && (frozen[v] == TEST ==> pinned[groups[v]] == TEST))
  }

  lemma PinStep(groups: Folds, frozen: Folds, pinned: Folds, done: set<string>, v: string)
    requires PinnedBy(groups, frozen, pinned, done) && v in groups && v in frozen && IsEvaluation(frozen[v])
    ensures PinnedBy(groups, frozen, Pin(pinned, groups[v], frozen[v]), done + {v})
  {
    var g, next := groups[v], Pin(pinned, groups[v], frozen[v]);
    forall h | h in next ensures exists u :: PinWitness(groups, frozen, next, done + {v}, h, u) {
      if h == g && next != pinned {
        assert PinWitness(groups, frozen, next, done + {v}, h, v);
      } else {
        var u :| PinWitness(groups, frozen, pinned, done, h, u);
        assert PinWitness(groups, frozen, next, done + {v}, h, u);
      }
    }
  }

  lemma PinSkip(groups: Folds, frozen: Folds, pinned: Folds, done: set<string>, v: string)
    requires PinnedBy(groups, frozen, pinned, done) && v !in frozen
    ensures PinnedBy(groups, frozen, pinned, done + {v})
  {
    forall h | h in pinned ensures exists u :: PinWitness(groups, frozen, pinned, done + {v}, h, u) {
      var u :| PinWitness(groups, frozen, pinned, done, h, u);
      assert PinWitness(groups, frozen, pinned, done + {v}, h, u);
    }
  }

  lemma PinnedFold(groups: Folds, frozen: Folds, pinned: Folds, split: Split, group: string)
    requires PinnedBy(groups, frozen, pinned, groups.Keys)
    ensures PinnedOrHashed(split, pinned, group) == FoldOf(split, groups, frozen, group)
  {
    forall fold | FrozenInto(groups, frozen, group, fold)
      ensures group in pinned && (fold == TEST ==> pinned[group] == TEST)
    {
      var v :| v in groups && groups[v] == group && v in frozen && frozen[v] == fold;
      assert v in groups.Keys;
    }
    if group in pinned {
      var v :| PinWitness(groups, frozen, pinned, groups.Keys, group, v);
      assert FrozenInto(groups, frozen, group, pinned[group]);
    }
  }

  /** The entries a freeze records. */
  function EvalVacancies(folds: Folds): Folds {
    map v | v in folds && IsEvaluation(folds[v]) :: folds[v]
  }

  /** A freeze records exactly the vacancies that do not train, each with its fold. */
  lemma FreezeRecordsEvaluation(split: Split, groups: Folds, frozen: Folds, folds: Folds, v: string)
    requires IsAssignment(split, groups, frozen, folds)
    ensures v in EvalVacancies(folds) <==> v in folds && folds[v] != TRAIN
    ensures v in EvalVacancies(folds) ==> EvalVacancies(folds)[v] == folds[v]
  {
    assert TRAIN != TEST && TRAIN != VALIDATION by {
      assert TRAIN[1] != TEST[1] && TRAIN[0] != VALIDATION[0];
    }
    if v in folds {
      assert folds[v] == FoldOf(split, groups, frozen, groups[v]);
    }
  }

  // ----- leak freedom

  /** Vacancies of one company, compared vacancies and everything they chain to share a fold. */
  lemma NothingStraddlesFolds(
      companies: map<string, string>, normalize: string -> string, pairs: seq<(string, string)>,
      split: Split, groups: Folds, frozen: Folds, folds: Folds, a: string, b: string)
    requires IsGrouping(groups, companies, normalize, pairs)
    requires IsAssignment(split, groups, frozen, folds)
    requires a in companies && b in companies && Connected(Relation(companies, normalize, pairs), a, b)
    ensures folds[a] == folds[b]
  {
    assert groups[a] == groups[b];
  }

  /**
   * A freeze holds against every later regrouping, split and mapping: what now travels with a
   * frozen vacancy never trains, a frozen test vacancy stays test, and a frozen validation
   * vacancy leaves validation exactly when it is merged with a frozen test vacancy.
   */
  lemma FrozenEvaluationNeverTrains(
      split: Split, groups: Folds, frozen0: Folds, folds: Folds,
      laterCompanies: map<string, string>, normalize: string -> string, laterPairs: seq<(string, string)>,
      laterSplit: Split, laterGroups: Folds, laterFolds: Folds, v: string, w: string)
    requires IsAssignment(split, groups, frozen0, folds)
    requires IsGrouping(laterGroups, laterCompanies, normalize, laterPairs)
    requires IsAssignment(laterSplit, laterGroups, EvalVacancies(folds), laterFolds)
    requires v in EvalVacancies(folds) && v in laterCompanies && w in laterCompanies
    requires Connected(Relation(laterCompanies, normalize, laterPairs), v, w)
    ensures laterFolds[w] != TRAIN
    ensures folds[v] == TEST ==> laterFolds[w] == TEST
    ensures laterFolds[w] == VALIDATION <==>
            !exists u :: u in folds && folds[u] == TEST && u in laterGroups && laterGroups[u] == laterGroups[w]
  {
    var frozen := EvalVacancies(folds);
    assert laterGroups[v] == laterGroups[w];
    assert FrozenInto(laterGroups, frozen, laterGroups[w], frozen[v]);
    if u :| u in folds && folds[u] == TEST && u in laterGroups && laterGroups[u] == laterGroups[w] {
      assert u in frozen;
      assert FrozenInto(laterGroups, frozen, laterGroups[w], TEST);
    }
  }

  /** Re-assigning an unchanged grouping with its own frozen entries changes no fold. */
  lemma RefreezingIsIdempotent(split: Split, groups: Folds, frozen: Folds, folds: Folds)
    requires IsAssignment(split, groups, frozen, folds)
    ensures IsAssignment(split, groups, EvalVacancies(folds), folds)
  {
    var own := EvalVacancies(folds);
    forall v | v in groups ensures folds[v] == FoldOf(split, groups, own, groups[v]) {
      forall fold | FrozenInto(groups, own, groups[v], fold) ensures fold == folds[v] {
        var u :| u in groups && groups[u] == groups[v] && u in own && own[u] == fold;
      }
      if IsEvaluation(folds[v]) {
        assert v in own;
        assert FrozenInto(groups, own, groups[v], folds[v]);
      }
    }
  }
}
