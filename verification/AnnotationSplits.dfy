/**
 * A named split over its lifetime: every view groups the vacancies labelled so far and assigns
 * folds; freezing records the evaluation part once and for all.
 */
module AnnotationSplits {
  import opened VacancyGroups
  import opened DatasetFolds
  import opened Wrappers

  /** The labelled vacancies with their companies, the judged pairs, and whether there is any valid label. */
  datatype Dataset = Dataset(companies: Dict<string, string>, pairs: seq<(string, string)>, labelled: bool)

  datatype SplitError = AlreadyFrozen | NothingToFreeze

  /** The mutable columns of a split's row. */
  datatype Row = Row(evaluation: Folds, frozen: bool)

  /** Only evaluation folds are recorded, and none before the freeze. */
  ghost predicate RowOk(row: Row) {
    && (forall v :: v in row.evaluation ==> IsEvaluation(row.evaluation[v]))
    && (!row.frozen ==> row.evaluation == map[])
  }

  ghost predicate Together(d: Dataset, normalize: string -> string, v: string, w: string) {
    v in d.companies.at && w in d.companies.at && Connected(Relation(d.companies.at, normalize, d.pairs), v, w)
  }

  /** What `build_view` computes from a row and the labels of the moment. */
  ghost predicate IsView(split: Split, normalize: string -> string, row: Row, d: Dataset, folds: Folds) {
    exists groups :: IsGrouping(groups, d.companies.at, normalize, d.pairs)
      && IsAssignment(split, groups, row.evaluation, folds)
  }

  /** No company and no judged pair straddles two folds. */
  ghost predicate LeakFree(d: Dataset, normalize: string -> string, folds: Folds) {
    folds.Keys == d.companies.at.Keys && forall v, w :: Together(d, normalize, v, w) ==> folds[v] == folds[w]
  }

  /** Whatever travels with a recorded vacancy stays out of training, and with a test vacancy in test. */
  ghost predicate Honours(d: Dataset, normalize: string -> string, evaluation: Folds, folds: Folds)
    requires folds.Keys == d.companies.at.Keys
  {
    forall v, w :: v in evaluation && Together(d, normalize, v, w) ==>
      folds[w] != TRAIN && (evaluation[v] == TEST ==> folds[w] == TEST)
  }

  class AnnotationSplit {
    const split: Split
    const normalize: string -> string
    var evaluation: Folds
    var frozen: bool

    ghost function Now(): Row
      reads this
    {
      Row(evaluation, frozen)
    }

    constructor (split: Split, normalize: string -> string)
      ensures RowOk(Now()) && !frozen && this.split == split && this.normalize == normalize
    {
      this.split, this.normalize, evaluation, frozen := split, normalize, map[], false;
    }

    /** Fold assignment cannot fail here: the row records evaluation folds only. */
    method BuildView(d: Dataset) returns (folds: Folds)
      requires RowOk(Now()) && d.companies.Valid()
      ensures IsView(split, normalize, Now(), d, folds)
      ensures LeakFree(d, normalize, folds) && Honours(d, normalize, evaluation, folds)
    {
      var groups := GroupVacancies(d.companies, normalize, d.pairs);
      var r := AssignFolds(split, groups, evaluation);
      assert forall v :: !BadlyFrozen(groups.at, evaluation, v);
      folds := r.value;
      ViewIsSafe(split, normalize, Now(), d, folds);
    }

    method Freeze(d: Dataset) returns (r: Result<Folds, SplitError>)
      requires RowOk(Now()) && d.companies.Valid()
      modifies this
      ensures RowOk(Now())
      ensures r == Err(AlreadyFrozen) <==> old(frozen)
      ensures r == Err(NothingToFreeze) <==> !old(frozen) && !d.labelled
      ensures r.Err? ==> Now() == old(Now())
      ensures r.Ok? ==> IsView(split, normalize, old(Now()), d, r.value) && Now() == Row(EvalVacancies(r.value), true)
    {
      if frozen {
        return Err(AlreadyFrozen);
      }
      var folds := BuildView(d);
      if !d.labelled {
        return Err(NothingToFreeze);
      }
      evaluation := EvalVacancies(folds);
      frozen := true;
      r := Ok(folds);
    }
  }

  lemma ViewIsSafe(split: Split, normalize: string -> string, row: Row, d: Dataset, folds: Folds)
    requires RowOk(row) && IsView(split, normalize, row, d, folds)
    ensures LeakFree(d, normalize, folds) && Honours(d, normalize, row.evaluation, folds)
  {
    var groups :| IsGrouping(groups, d.companies.at, normalize, d.pairs)
      && IsAssignment(split, groups, row.evaluation, folds);
    forall v, w | Together(d, normalize, v, w)
      ensures folds[v] == folds[w]
      ensures v in row.evaluation ==> folds[w] != TRAIN && (row.evaluation[v] == TEST ==> folds[w] == TEST)
    {
      NothingStraddlesFolds(d.companies.at, normalize, d.pairs, split, groups, row.evaluation, folds, v, w);
      if v in row.evaluation {
        assert FrozenInto(groups, row.evaluation, groups[v], row.evaluation[v]);
      }
    }
  }

  /** The labels of the moment and the row determine the view. */
  lemma ViewIsUnique(split: Split, normalize: string -> string, row: Row, d: Dataset, folds: Folds, again: Folds)
    requires IsView(split, normalize, row, d, folds) && IsView(split, normalize, row, d, again)
    ensures folds == again
  {
    var groups :| IsGrouping(groups, d.companies.at, normalize, d.pairs)
      && IsAssignment(split, groups, row.evaluation, folds);
    var others :| IsGrouping(others, d.companies.at, normalize, d.pairs)
      && IsAssignment(split, others, row.evaluation, again);
    SameGroups(groups, others, d, normalize);
    SameFolds(split, groups, row.evaluation, folds, again);
  }

  lemma SameGroups(groups: Folds, others: Folds, d: Dataset, normalize: string -> string)
    requires IsGrouping(groups, d.companies.at, normalize, d.pairs)
      && IsGrouping(others, d.companies.at, normalize, d.pairs)
    ensures groups == others
  {
    assert SamePairs(d.pairs, d.pairs);
    GroupingIgnoresOrder(groups, others, d.companies.at, normalize, d.pairs, d.pairs);
  }

  lemma SameFolds(split: Split, groups: Folds, frozen: Folds, folds: Folds, again: Folds)
    requires IsAssignment(split, groups, frozen, folds) && IsAssignment(split, groups, frozen, again)
    ensures folds == again
  {
    assert forall v :: v in groups ==> folds[v] == again[v];
  }

  // ----- the life of a split

  /** A view, which changes nothing, or a successful freeze. */
  datatype Event = Viewed(data: Dataset, folds: Folds) | Froze(data: Dataset, folds: Folds)

  ghost predicate Next(split: Split, normalize: string -> string, row: Row, later: Row, e: Event) {
    && IsView(split, normalize, row, e.data, e.folds)
    && match e
       case Viewed(_, _) => later == row
       case Froze(_, folds) => !row.frozen && later == Row(EvalVacancies(folds), true)
  }

  ghost predicate Life(split: Split, normalize: string -> string, rows: seq<Row>, events: seq<Event>) {
    && |rows| == |events| + 1 && rows[0] == Row(map[], false)
    && forall k :: 0 <= k < |events| ==> Next(split, normalize, rows[k], rows[k + 1], events[k])
  }

  lemma {:induction false} RowsAreOk(split: Split, normalize: string -> string, rows: seq<Row>, events: seq<Event>,
      k: nat)
    requires Life(split, normalize, rows, events) && k < |rows|
    ensures RowOk(rows[k])
    decreases k
  {
    if k == 0 {
    } else {
      RowsAreOk(split, normalize, rows, events, k - 1);
      assert Next(split, normalize, rows[k - 1], rows[k - 1 + 1], events[k - 1]);
    }
  }

  /** Once frozen, the record never changes. */
  lemma {:induction false} FreezingIsFinal(
      split: Split, normalize: string -> string, rows: seq<Row>, events: seq<Event>, i: nat, k: nat)
    requires Life(split, normalize, rows, events) && i <= k < |rows| && rows[i].frozen
    ensures rows[k] == rows[i]
    decreases k
  {
    if i >= k {
    } else {
      FreezingIsFinal(split, normalize, rows, events, i, k - 1);
      assert Next(split, normalize, rows[k - 1], rows[k - 1 + 1], events[k - 1]);
    }
  }

  /**
   * Over the whole life of a split: every view is leak-free, and no view after the freeze trains
   * on a vacancy that was evaluation when it was frozen, or on anything that has since come to
   * share a company or a judgement chain with one.
   */
  lemma EvaluationNeverLeaks(
      split: Split, normalize: string -> string, rows: seq<Row>, events: seq<Event>, i: nat, k: nat)
    requires Life(split, normalize, rows, events) && i < k < |events| && events[i].Froze?
    ensures LeakFree(events[k].data, normalize, events[k].folds)
    ensures Honours(events[k].data, normalize, EvalVacancies(events[i].folds), events[k].folds)
  {
    assert Next(split, normalize, rows[i], rows[i + 1], events[i]);
    FreezingIsFinal(split, normalize, rows, events, i + 1, k);
    RowsAreOk(split, normalize, rows, events, k);
    assert Next(split, normalize, rows[k], rows[k + 1], events[k]);
    ViewIsSafe(split, normalize, rows[k], events[k].data, events[k].folds);
  }

  /** Freezing does not move anything: viewing the same labels afterwards gives the folds that were frozen. */
  lemma FreezingKeepsFolds(
      split: Split, normalize: string -> string, rows: seq<Row>, events: seq<Event>, i: nat, k: nat)
    requires Life(split, normalize, rows, events) && i < k < |events| && events[i].Froze?
    requires events[k].data == events[i].data
    ensures events[k].folds == events[i].folds
  {
    var d, folds := events[i].data, events[i].folds;
    assert Next(split, normalize, rows[i], rows[i + 1], events[i]);
    FreezingIsFinal(split, normalize, rows, events, i + 1, k);
    assert Next(split, normalize, rows[k], rows[k + 1], events[k]);
    var groups :| IsGrouping(groups, d.companies.at, normalize, d.pairs)
      && IsAssignment(split, groups, rows[i].evaluation, folds);
    RefreezingIsIdempotent(split, groups, rows[i].evaluation, folds);
    assert IsView(split, normalize, rows[k], d, folds);
    ViewIsUnique(split, normalize, rows[k], d, folds, events[k].folds);
  }
}
