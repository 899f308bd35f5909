/** Idempotent scheduling of matching work: one durable task per application and content version. */
module MatchingJobs {
  import opened Wrappers

  datatype TaskState =
    | Pending | Scheduled | Running | WaitingForUser | WaitingForExternalSystem | RetryScheduled
    | Completed | Failed | Cancelled | Interrupted

  predicate IsActive(s: TaskState) {
    s.Pending? || s.Scheduled? || s.RetryScheduled? || s.Running?
  }

  /** A task is inactive when it is over, interrupted, or waits for something outside the queue. */
  lemma InactiveIff(s: TaskState)
    ensures !IsActive(s)
       <==> s in {Completed, Failed, Cancelled, Interrupted, WaitingForUser, WaitingForExternalSystem}
  {
  }

  /** `matching-v2:<application>:<content version>` */
  datatype Key = Key(application: string, version: string)

  const MATCHING_QUEUE := "matching"

  datatype Task = Task(key: Key, queue: string, priority: int, state: TaskState, refresh: bool)

  datatype Application = Application(user: string, vacancy: string, cv: Option<string>)

  datatype Aggregate = Aggregate(cv: string, pending: bool)

  datatype ScheduleError = ApplicationNotFound | NoCvSelected | CvUnavailable | VacancyNotFound

  type Tasks = map<int, Task>

  /** The tables that `schedule` reads and writes. */
  datatype Tables = Tables(
    applications: map<string, Application>,
    cvOwners: map<string, string>,
    vacancies: set<string>,
    tasks: Tasks,
    aggregates: map<string, Aggregate>,
    extracted: set<string>,   // vacancies with cached requirements
    matched: set<string>)     // applications with cached requirement matches

  ghost predicate OneTaskPerKey(tasks: Tasks) {
    forall i, j :: i in tasks && j in tasks && tasks[i].key == tasks[j].key ==> i == j
  }

  /** Deletes the vacancy's requirements, and the matches of its applications that have a result row. */
  function ClearExtraction(t: Tables, vacancy: string): Tables {
    t.(extracted := t.extracted - {vacancy},
       matched := set a | a in t.matched
         && !(a in t.applications && t.applications[a].vacancy == vacancy && a in t.aggregates))
  }

  /** Clearing reaches one vacancy: nothing cached of another vacancy, or of its applications, is lost. */
  lemma ClearingIsLocal(t: Tables, vacancy: string)
    ensures
      var u := ClearExtraction(t, vacancy);
      && u.(extracted := t.extracted, matched := t.matched) == t
      && vacancy !in u.extracted && (forall v :: v != vacancy ==> (v in u.extracted <==> v in t.extracted))
      && (forall a :: a in t.applications && t.applications[a].vacancy != vacancy ==>
           (a in u.matched <==> a in t.matched))
      && (forall a :: a in t.applications && t.applications[a].vacancy == vacancy ==>
           (a in u.matched <==> a in t.matched && a !in t.aggregates))
      && (forall a :: a !in t.applications ==> (a in u.matched <==> a in t.matched))
  {
  }

  /** What the request refers to, or why it cannot be served. */
  function Resolve(t: Tables, application: string): Result<(string, string), ScheduleError> {
    if application !in t.applications then Err(ApplicationNotFound)
    else
      var a := t.applications[application];
      if a.cv.None? then Err(NoCvSelected)
      else if a.cv.value !in t.cvOwners || t.cvOwners[a.cv.value] != a.user then Err(CvUnavailable)
      else if a.vacancy !in t.vacancies then Err(VacancyNotFound)
      else Ok((a.cv.value, a.vacancy))
  }

  /** The application exists and selects a stored CV of its own person. */
  ghost predicate NamesOwnCv(t: Tables, application: string) {
    && application in t.applications
    && exists cv :: cv in t.cvOwners && t.applications[application].cv == Some(cv)
         && t.cvOwners[cv] == t.applications[application].user
  }

  ghost predicate Servable(t: Tables, application: string) {
    NamesOwnCv(t, application) && t.applications[application].vacancy in t.vacancies
  }

  /** A request is served exactly for an application with a CV of its own person and a stored vacancy. */
  lemma ResolveIff(t: Tables, application: string)
    ensures
      var r := Resolve(t, application);
      && (r.Ok? <==> Servable(t, application))
      && (r.Ok? ==> t.applications[application].cv == Some(r.value.0))
      && (r.Ok? ==> t.applications[application].vacancy == r.value.1)
      && (r == Err(ApplicationNotFound) <==> application !in t.applications)
      && (r == Err(NoCvSelected) <==> (application in t.applications && t.applications[application].cv == None))
      && (r == Err(VacancyNotFound) <==> (NamesOwnCv(t, application) && !Servable(t, application)))
  {
  }

  // ----- the promise, over the tables before and after one call

  ghost predicate OnlyTasksOf(before: Tasks, after: Tasks, key: Key) {
    forall i :: (i in before && before[i].key != key) || (i in after && after[i].key != key) ==>
      i in before && i in after && after[i] == before[i]
  }

  /** No active task is deleted or replaced, and its priority never falls. */
  ghost predicate ActiveTasksStay(before: Tasks, after: Tasks) {
    forall i :: i in before && IsActive(before[i].state) ==>
      && i in after && after[i].key == before[i].key && after[i].state == before[i].state
      && after[i].queue == before[i].queue && after[i].priority >= before[i].priority
      && (before[i].refresh ==> after[i].refresh)
  }

  ghost predicate HasTask(tasks: Tasks, key: Key, i: int) {
    i in tasks && tasks[i].key == key
  }

  /** A successful call: which task it returns and what it did to the tables. */
  ghost predicate Scheduling(before: Tables, after: Tables, key: Key, cv: string, vacancy: string, force: bool,
      priority: int, id: int) {
    && HasTask(after.tasks, key, id)
    && (IsActive(after.tasks[id].state) || after.tasks[id].state == Completed)
    && OnlyTasksOf(before.tasks, after.tasks, key) && ActiveTasksStay(before.tasks, after.tasks)
    && after.applications == before.applications && after.cvOwners == before.cvOwners
    && after.vacancies == before.vacancies
    && if exists i :: HasTask(before.tasks, key, i) && IsActive(before.tasks[i].state)
       then Coalesced(before, after, vacancy, force, priority, id)
       else if !force && exists i :: HasTask(before.tasks, key, i) && before.tasks[i].state == Completed
       then after == before && HasTask(before.tasks, key, id)
       else Renewed(before, after, key, cv, vacancy, force, priority, id)
  }

  /** Active work absorbs the request: raised priority, and a refresh mark when forced. */
  ghost predicate Coalesced(before: Tables, after: Tables, vacancy: string, force: bool, priority: int, id: int) {
    && id in before.tasks && IsActive(before.tasks[id].state)
    && after.tasks == before.tasks[id := before.tasks[id].(
         priority := if before.tasks[id].queue == MATCHING_QUEUE && priority > before.tasks[id].priority
                     then priority else before.tasks[id].priority,
         refresh := before.tasks[id].refresh || force)]
    && after.aggregates == before.aggregates
    && (if force
        then after.extracted == ClearExtraction(before, vacancy).extracted
          && after.matched == ClearExtraction(before, vacancy).matched
        else after.extracted == before.extracted && after.matched == before.matched)
  }

  /** Terminal work is replaced by a scheduled task and the result is marked pending. */
  ghost predicate Renewed(before: Tables, after: Tables, key: Key, cv: string, vacancy: string, force: bool,
      priority: int, id: int) {
    && id in after.tasks && after.tasks[id] == Task(key, MATCHING_QUEUE, priority, Scheduled, false)
    && after.aggregates == before.aggregates[key.application := Aggregate(cv, true)]
    && (if force && (exists i :: HasTask(before.tasks, key, i))
        then after.extracted == ClearExtraction(before, vacancy).extracted
          && after.matched == ClearExtraction(before, vacancy).matched
        else after.extracted == before.extracted && after.matched == before.matched)
  }

  // ----- the service

  class MatchingJobService {
    var tables: Tables

    constructor (tables: Tables)
      ensures this.tables == tables
    {
      this.tables := tables;
    }

    /** `version` is the hash of the content and models, `newId` the id that a new row gets. */
    method Schedule(application: string, version: string, force: bool, priority: int, newId: int)
      returns (r: Result<int, ScheduleError>)
      requires OneTaskPerKey(tables.tasks) && newId !in tables.tasks
      modifies this
      ensures OneTaskPerKey(tables.tasks)
      ensures r.Err? <==> Resolve(old(tables), application).Err?
      ensures r.Err? ==> tables == old(tables) && r.error == Resolve(old(tables), application).error
      ensures r.Ok? ==>
        var (cv, vacancy) := Resolve(old(tables), application).value;
        Scheduling(old(tables), tables, Key(application, version), cv, vacancy, force, priority, r.value)
    {
      var resolved := Resolve(tables, application);
      if resolved.Err? {
        return Err(resolved.error);
      }
      var (cv, vacancy) := resolved.value;
      var key := Key(application, version);
      var existing := FindTask(key);
      if existing.Some? && IsActive(tables.tasks[existing.value].state) {
        Coalesce(existing.value, vacancy, force, priority);
        return Ok(existing.value);
      }
      if existing.Some? && !force && tables.tasks[existing.value].state == Completed {
        return Ok(existing.value);
      }
      Replace(key, existing, cv, vacancy, force, priority, newId);
      return Ok(newId);
    }

    method FindTask(key: Key) returns (r: Option<int>)
      ensures r.Some? ==> HasTask(tables.tasks, key, r.value)
      ensures r.None? ==> forall i :: !HasTask(tables.tasks, key, i)
    {
      if i :| i in tables.tasks && tables.tasks[i].key == key {
        return Some(i);
      }
      return None;
    }

    method Coalesce(id: int, vacancy: string, force: bool, priority: int)
      requires OneTaskPerKey(tables.tasks) && id in tables.tasks && IsActive(tables.tasks[id].state)
      modifies this
      ensures Coalesced(old(tables), tables, vacancy, force, priority, id)
      ensures OneTaskPerKey(tables.tasks)
      ensures tables.applications == old(tables.applications) && tables.cvOwners == old(tables.cvOwners)
      ensures tables.vacancies == old(tables.vacancies)
    {
      var task := tables.tasks[id];
      if task.queue == MATCHING_QUEUE && priority > task.priority {
        task := task.(priority := priority);
      }
      if force {
        task := task.(refresh := true);
        tables := ClearExtraction(tables, vacancy);
      }
      tables := tables.(tasks := tables.tasks[id := task]);
    }

    /** Deletes a terminal task, if there is one, creates the new one and schedules it. */
    method Replace(key: Key, existing: Option<int>, cv: string, vacancy: string, force: bool, priority: int, newId: int)
      requires OneTaskPerKey(tables.tasks) && newId !in tables.tasks
      requires existing.Some? ==>
        HasTask(tables.tasks, key, existing.value) && !IsActive(tables.tasks[existing.value].state)
      requires existing.None? ==> forall i :: !HasTask(tables.tasks, key, i)
      modifies this
      ensures tables.tasks == (if existing.Some? then old(tables.tasks) - {existing.value} else old(tables.tasks))
                              [newId := Task(key, MATCHING_QUEUE, priority, Scheduled, false)]
      ensures Renewed(old(tables), tables, key, cv, vacancy, force, priority, newId)
      ensures tables.applications == old(tables.applications) && tables.cvOwners == old(tables.cvOwners)
      ensures tables.vacancies == old(tables.vacancies)
      ensures OneTaskPerKey(tables.tasks)
    {
      ReplacingKeepsKeys(tables.tasks, key, existing, newId, Task(key, MATCHING_QUEUE, priority, Scheduled, false));
      if existing.Some? {
        if force {
          tables := ClearExtraction(tables, vacancy);
        }
        tables := tables.(tasks := tables.tasks - {existing.value});
      }
      var created := Task(key, MATCHING_QUEUE, priority, Pending, false);
      tables := tables.(tasks := tables.tasks[newId := created]);
      tables := tables.(tasks := tables.tasks[newId := created.(state := Scheduled)]);
      tables := tables.(aggregates := tables.aggregates[key.application := Aggregate(cv, true)]);
    }
  }

  lemma ReplacingKeepsKeys(tasks: Tasks, key: Key, existing: Option<int>, newId: int, task: Task)
    requires OneTaskPerKey(tasks) && task.key == key
    requires existing.Some? ==> HasTask(tasks, key, existing.value)
    requires existing.None? ==> forall i :: !HasTask(tasks, key, i)
    ensures OneTaskPerKey((if existing.Some? then tasks - {existing.value} else tasks)[newId := task])
  {
    var rest := if existing.Some? then tasks - {existing.value} else tasks;
    forall i | i in rest ensures rest[i].key != key {
      assert HasTask(tasks, key, i) <==> tasks[i].key == key;
    }
  }

  // ----- runs with workers in between

  datatype Event =
    | Call(application: string, version: string, force: bool, priority: int)
    // a worker moves a task to any state; a retry may change its priority, a refresh clear its mark
    | Work(task: int, state: TaskState, priority: int, refresh: bool)

  /** One call or one worker step. */
  ghost predicate Next(before: Tables, after: Tables, e: Event) {
    match e
    case Call(application, version, force, priority) =>
      if Resolve(before, application).Err? then after == before
      else
        var (cv, vacancy) := Resolve(before, application).value;
        exists id :: Scheduling(before, after, Key(application, version), cv, vacancy, force, priority, id)
                     && OneOfKey(after.tasks, Key(application, version), id)
    case Work(i, state, priority, refresh) =>
      && i in before.tasks && (refresh ==> before.tasks[i].refresh)
      && after == before.(tasks :=
           before.tasks[i := before.tasks[i].(state := state, priority := priority, refresh := refresh)])
  }

  predicate WorksOn(e: Event, i: int) {
    e.Work? && e.task == i
  }

  ghost predicate OneOfKey(tasks: Tasks, key: Key, id: int) {
    forall i :: HasTask(tasks, key, i) ==> i == id
  }

  ghost predicate Run(states: seq<Tables>, events: seq<Event>) {
    && |states| == |events| + 1
    && forall k :: 0 <= k < |events| ==> Next(states[k], states[k + 1], events[k])
  }

  lemma NextKeepsKeysUnique(before: Tables, after: Tables, e: Event)
    requires OneTaskPerKey(before.tasks) && Next(before, after, e)
    ensures OneTaskPerKey(after.tasks)
  {
    if e.Call? && Resolve(before, e.application).Ok? {
      var (cv, vacancy) := Resolve(before, e.application).value;
      var key := Key(e.application, e.version);
      var id :| Scheduling(before, after, key, cv, vacancy, e.force, e.priority, id) && OneOfKey(after.tasks, key, id);
      forall i, j | i in after.tasks && j in after.tasks && after.tasks[i].key == after.tasks[j].key ensures i == j {
        if after.tasks[i].key == key {
          assert HasTask(after.tasks, key, i) && HasTask(after.tasks, key, j);
        }
      }
    }
  }

  /** Over any interleaving of calls and worker steps there is at most one task per key. */
  lemma {:induction false} KeysStayUnique(states: seq<Tables>, events: seq<Event>, k: nat)
    requires Run(states, events) && OneTaskPerKey(states[0].tasks) && k < |states|
    ensures OneTaskPerKey(states[k].tasks)
    decreases k
  {
    if k == 0 {
    } else {
      KeysStayUnique(states, events, k - 1);
      assert Next(states[k - 1], states[k - 1 + 1], events[k - 1]);
      NextKeepsKeysUnique(states[k - 1], states[k], events[k - 1]);
    }
  }

  /**
   * As long as workers leave a task active, no call deletes or replaces it: it is the same row with
   * the same key to the end. Only workers lower its priority or clear its refresh mark.
   */
  lemma {:induction false} ActiveWorkSurvives(states: seq<Tables>, events: seq<Event>, i: int, k: nat)
    requires Run(states, events) && k < |states|
    requires i in states[0].tasks && IsActive(states[0].tasks[i].state)
    requires forall n :: 0 <= n < k && WorksOn(events[n], i) ==> IsActive(events[n].state)
    ensures i in states[k].tasks && IsActive(states[k].tasks[i].state)
    ensures states[k].tasks[i].key == states[0].tasks[i].key
    ensures
      || states[k].tasks[i].priority >= states[0].tasks[i].priority
      || exists n :: 0 <= n < k && WorksOn(events[n], i) && events[n].priority < states[0].tasks[i].priority
    ensures states[0].tasks[i].refresh && !states[k].tasks[i].refresh ==>
      exists n :: 0 <= n < k && WorksOn(events[n], i) && !events[n].refresh
    decreases k
  {
    if k == 0 {
    } else {
      ActiveWorkSurvives(states, events, i, k - 1);
      assert Next(states[k - 1], states[k - 1 + 1], events[k - 1]);
    }
  }

  /** A forced call always leaves active work behind; when it coalesced, marked for refresh. */
  lemma ForcedCallLeavesActiveWork(
      before: Tables, after: Tables, key: Key, cv: string, vacancy: string, priority: int, id: int)
    requires Scheduling(before, after, key, cv, vacancy, true, priority, id)
    ensures id in after.tasks && IsActive(after.tasks[id].state)
    ensures id in before.tasks && IsActive(before.tasks[id].state) ==> after.tasks[id].refresh
  {
  }

  /** Repeating an unforced call right away returns the same task and changes nothing more. */
  lemma RepeatedCallIsNoOp(
      before: Tables, after: Tables, again: Tables, key: Key, cv: string, vacancy: string, priority: int, id: int,
      second: int)
    requires OneTaskPerKey(after.tasks)
    requires Scheduling(before, after, key, cv, vacancy, false, priority, id)
    requires Scheduling(after, again, key, cv, vacancy, false, priority, second)
    ensures second == id && again == after
  {
    assert HasTask(after.tasks, key, id);
    if IsActive(after.tasks[id].state) {
      assert HasTask(after.tasks, key, second);
      assert after.tasks[id].queue == MATCHING_QUEUE ==> after.tasks[id].priority >= priority;
      assert again.tasks == after.tasks;
    }
  }
}
