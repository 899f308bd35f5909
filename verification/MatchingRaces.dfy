/**
 * Scheduling calls that overlap. A call reads the task of its key, and only later deletes, creates,
 * saves and reads again, with a commit after each; workers and other calls act in between. A step
 * is what one call does from one commit to the next, as READ COMMITTED lets the others see it.
 */
module MatchingRaces {
  import opened MatchingJobs
  import opened Wrappers

  const DISPATCHER_QUEUE := "dispatcher"

  datatype Failure = StaleRow | DuplicateKey | NotPersisted

  datatype Phase =
    | Reading
    | Coalescing(id: int, seen: Task)     // saw an active task
    | Replacing(id: int)                  // saw a task to be replaced
    | Looking                             // in get_or_create, before its select
    | Inserting                           // behind it, nothing found
    | Saving                              // has a pending task, before the select of `save`
    | Writing(id: int, found: TaskState)  // behind it, found a row in this state
    | Creating                            // behind it, nothing found
    | Rereading
    | Returned(id: int, state: TaskState) // the state of the returned row object
    | Raised(failure: Failure)

  datatype Caller = Caller(key: Key, force: bool, priority: int, readAt: nat, phase: Phase)

  /** Committed rows, calls, all row ids ever used, and the number of steps so far. */
  datatype State = State(tasks: Tasks, calls: map<int, Caller>, used: set<int>, time: nat)

  datatype Step =
    | Begin(call: int, key: Key, force: bool, priority: int)
    | Read(call: int)
    | Coalesce(call: int)
    | Replace(call: int, newId: int)
    | Look(call: int)
    | Insert(call: int, newId: int)
    | Save(call: int)
    | Write(call: int)
    | Create(call: int, newId: int)
    | Reread(call: int)
    // a worker moves a task to any state; a retry may change its priority, a refresh clear its mark
    | Work(task: int, state: TaskState, priority: int, refresh: bool)

  ghost function RowOf(tasks: Tasks, key: Key): (r: Option<int>)
    ensures r.None? <==> forall i :: !HasTask(tasks, key, i)
    ensures r.Some? ==> HasTask(tasks, key, r.value)
  {
    if exists i :: HasTask(tasks, key, i) then
      var i :| HasTask(tasks, key, i);
      Some(i)
    else None
  }

  predicate In(s: State, call: int, phase: Phase) {
    call in s.calls && s.calls[call].phase == phase
  }

  predicate Enabled(s: State, e: Step) {
    match e
    case Begin(c, _, _, _) => c !in s.calls
    case Read(c) => In(s, c, Reading)
    case Coalesce(c) => c in s.calls && s.calls[c].phase.Coalescing?
    case Replace(c, newId) => c in s.calls && s.calls[c].phase.Replacing? && newId !in s.used
    case Look(c) => In(s, c, Looking)
    case Insert(c, newId) => In(s, c, Inserting) && newId !in s.used
    case Save(c) => In(s, c, Saving)
    case Write(c) => c in s.calls && s.calls[c].phase.Writing?
    case Create(c, newId) => In(s, c, Creating) && newId !in s.used
    case Reread(c) => In(s, c, Rereading)
    case Work(i, _, _, refresh) => i in s.tasks && (refresh ==> s.tasks[i].refresh)
  }

  // ----- effects

  function Go(s: State, call: int, phase: Phase): State
    requires call in s.calls
  {
    s.(calls := s.calls[call := s.calls[call].(phase := phase)])
  }

  function Put(s: State, id: int, task: Task): State {
    s.(tasks := s.tasks[id := task], used := s.used + {id})
  }

  function Fresh(c: Caller): Task {
    Task(c.key, MATCHING_QUEUE, c.priority, Pending, false)
  }

  ghost function AfterRead(s: State, c: int): Phase
    requires c in s.calls
  {
    match RowOf(s.tasks, s.calls[c].key)
    case None => Looking
    case Some(id) =>
      if IsActive(s.tasks[id].state) then Coalescing(id, s.tasks[id])
      else if s.calls[c].force || s.tasks[id].state != Completed then Replacing(id)
      else Returned(id, Completed)
  }

  /** The call saw a lower priority in the matching queue. */
  predicate Raises(c: Caller, seen: Task) {
    seen.queue == MATCHING_QUEUE && c.priority > seen.priority
  }

  /** Only changed columns are written, over whatever the row holds by now. */
  function Overwritten(c: Caller, seen: Task, now: Task): Task {
    now.(priority := if Raises(c, seen) then c.priority else now.priority,
         refresh := if c.force && !seen.refresh then true else now.refresh)
  }

  function AfterCoalesce(s: State, c: int, id: int, seen: Task): State
    requires c in s.calls
  {
    var call := s.calls[c];
    if id in s.tasks then
      Go(s, c, Returned(id, seen.state)).(tasks := s.tasks[id := Overwritten(call, seen, s.tasks[id])])
    else if Raises(call, seen) || (call.force && !seen.refresh) then Go(s, c, Raised(StaleRow))
    else Go(s, c, Returned(id, seen.state))
  }

  /** One transaction deletes the row that was read and creates the new one, unless the row is gone already. */
  function AfterReplace(s: State, c: int, id: int, newId: int): State
    requires c in s.calls
  {
    if id in s.tasks then Put(Go(s, c, Saving).(tasks := s.tasks - {id}), newId, Fresh(s.calls[c]))
    else Go(s, c, Looking)
  }

  ghost function AfterLook(s: State, c: int): State
    requires c in s.calls
  {
    match RowOf(s.tasks, s.calls[c].key)
    case None => Go(s, c, Inserting)
    case Some(id) => Go(s, c, if s.tasks[id].state == Pending then Saving else Rereading)
  }

  /** The unique column refuses a second row of a key. */
  ghost function AfterInsert(s: State, c: int, newId: int): State
    requires c in s.calls
  {
    if RowOf(s.tasks, s.calls[c].key).Some? then Go(s, c, Raised(DuplicateKey))
    else Put(Go(s, c, Saving), newId, Fresh(s.calls[c]))
  }

  /** `save` looks the key up once more. */
  ghost function AfterSave(s: State, c: int): State
    requires c in s.calls
  {
    match RowOf(s.tasks, s.calls[c].key)
    case None => Go(s, c, Creating)
    case Some(id) => Go(s, c, Writing(id, s.tasks[id].state))
  }

  /** It schedules the row it found, whatever became of it; a row seen scheduled is not written. */
  function AfterWrite(s: State, c: int, id: int, seen: TaskState): State
    requires c in s.calls
  {
    if seen == Scheduled then Go(s, c, Rereading)
    else if id in s.tasks then Go(s, c, Rereading).(tasks := s.tasks[id := s.tasks[id].(state := Scheduled)])
    else Go(s, c, Raised(StaleRow))
  }

  /** Or it creates a row, in the default queue. */
  ghost function AfterCreate(s: State, c: int, newId: int): State
    requires c in s.calls
  {
    if RowOf(s.tasks, s.calls[c].key).Some? then Go(s, c, Raised(DuplicateKey))
    else Put(Go(s, c, Rereading), newId, Task(s.calls[c].key, DISPATCHER_QUEUE, 0, Scheduled, false))
  }

  ghost function AfterReread(s: State, c: int): State
    requires c in s.calls
  {
    match RowOf(s.tasks, s.calls[c].key)
    case None => Go(s, c, Raised(NotPersisted))
    case Some(id) => Go(s, c, Returned(id, s.tasks[id].state))
  }

  ghost function Effect(s: State, e: Step): State
    requires Enabled(s, e)
  {
    match e
    case Begin(c, key, force, priority) => s.(calls := s.calls[c := Caller(key, force, priority, 0, Reading)])
    case Read(c) => s.(calls := s.calls[c := s.calls[c].(readAt := s.time, phase := AfterRead(s, c))])
    case Coalesce(c) => AfterCoalesce(s, c, s.calls[c].phase.id, s.calls[c].phase.seen)
    case Replace(c, newId) => AfterReplace(s, c, s.calls[c].phase.id, newId)
    case Look(c) => AfterLook(s, c)
    case Insert(c, newId) => AfterInsert(s, c, newId)
    case Save(c) => AfterSave(s, c)
    case Write(c) => AfterWrite(s, c, s.calls[c].phase.id, s.calls[c].phase.found)
    case Create(c, newId) => AfterCreate(s, c, newId)
    case Reread(c) => AfterReread(s, c)
    case Work(i, state, priority, refresh) =>
      s.(tasks := s.tasks[i := s.tasks[i].(state := state, priority := priority, refresh := refresh)])
  }

  ghost function Apply(s: State, e: Step): State
    requires Enabled(s, e)
  {
    Effect(s, e).(time := s.time + 1)
  }

  // ----- every step, row by row

  ghost predicate StateOk(s: State) {
    OneTaskPerKey(s.tasks) && s.tasks.Keys <= s.used
  }

  lemma RowIsUnique(tasks: Tasks, key: Key, i: int)
    requires OneTaskPerKey(tasks) && HasTask(tasks, key, i)
    ensures RowOf(tasks, key) == Some(i)
  {
  }

  lemma PutKeepsKeys(tasks: Tasks, id: int, task: Task)
    requires OneTaskPerKey(tasks) && forall i :: !HasTask(tasks, task.key, i)
    ensures OneTaskPerKey(tasks[id := task])
  {
    var more := tasks[id := task];
    forall i, j | i in more && j in more && more[i].key == more[j].key ensures i == j {
      assert i != id ==> (HasTask(tasks, task.key, i) <==> tasks[i].key == task.key);
      assert j != id ==> (HasTask(tasks, task.key, j) <==> tasks[j].key == task.key);
    }
  }

  /** A call that coalesces or replaces saw the row under its own key. */
  ghost predicate CallsOk(s: State) {
    forall c {:trigger CallOk(s, c)} :: c in s.calls ==> CallOk(s, c)
  }

  ghost predicate CallOk(s: State, c: int)
    requires c in s.calls
  {
    match s.calls[c].phase
    case Coalescing(id, seen) => IsActive(seen.state) && seen.key == s.calls[c].key && SawRow(s, id, s.calls[c].key)
    case Replacing(id) => SawRow(s, id, s.calls[c].key)
    case Writing(id, _) => SawRow(s, id, s.calls[c].key)
    case _ => true
  }

  predicate SawRow(s: State, id: int, key: Key) {
    id in s.used && (id in s.tasks ==> s.tasks[id].key == key)
  }

  /** How one step treats the row with this id. */
  ghost predicate RowStep(s: State, e: Step, t: State, i: int) {
    && (i in s.used ==> i in t.used)
    && (i in t.tasks && i !in s.tasks ==>
         && i !in s.used && (e.Replace? || e.Insert? || e.Create?)
         && t.tasks[i].state in {Pending, Scheduled} && !t.tasks[i].refresh)
    && (i in s.tasks && i !in t.tasks ==> e.Replace? && In(s, e.call, Replacing(i)))
    && (i in s.tasks && i in t.tasks ==>
         && t.tasks[i].key == s.tasks[i].key && t.tasks[i].queue == s.tasks[i].queue
         && (s.tasks[i].refresh && !t.tasks[i].refresh ==> e.Work? && e.task == i && !e.refresh)
         && (t.tasks[i].refresh && !s.tasks[i].refresh ==> Marks(s, e, i))
         && (t.tasks[i].state == s.tasks[i].state
             || (e.Work? && e.task == i && t.tasks[i].state == e.state)
             || (Schedules(s, e, i) && t.tasks[i].state == Scheduled)))
  }

  /** A forced call coalesces with the row, which it saw without a mark. */
  predicate Marks(s: State, e: Step, i: int) {
    && e.Coalesce? && e.call in s.calls && s.calls[e.call].force
    && s.calls[e.call].phase.Coalescing? && s.calls[e.call].phase.id == i && !s.calls[e.call].phase.seen.refresh
  }

  /** A call writes the row it found when it saved. */
  predicate Schedules(s: State, e: Step, i: int) {
    && e.Write? && e.call in s.calls && s.calls[e.call].phase.Writing?
    && s.calls[e.call].phase.id == i && s.calls[e.call].phase.found != Scheduled
  }

  lemma StepOnRow(s: State, e: Step, i: int)
    requires Enabled(s, e) && CallsOk(s) && s.tasks.Keys <= s.used
    requires i in s.tasks ==> i in s.used
    ensures RowStep(s, e, Apply(s, e), i)
  {
    if e.Replace? {
      assert CallOk(s, e.call);
    }
  }

  lemma StepKeepsStateOk(s: State, e: Step)
    requires Enabled(s, e) && StateOk(s) && CallsOk(s)
    ensures StateOk(Apply(s, e))
  {
    match e
    case Replace(c, newId) =>
      assert CallOk(s, c);
      var id := s.calls[c].phase.id;
      if id in s.tasks {
        forall i ensures !HasTask(s.tasks - {id}, s.calls[c].key, i) {
        }
        PutKeepsKeys(s.tasks - {id}, newId, Fresh(s.calls[c]));
      }
    case Insert(c, newId) =>
      if RowOf(s.tasks, s.calls[c].key).None? {
        PutKeepsKeys(s.tasks, newId, Fresh(s.calls[c]));
      }
    case Create(c, newId) =>
      if RowOf(s.tasks, s.calls[c].key).None? {
        PutKeepsKeys(s.tasks, newId, Task(s.calls[c].key, DISPATCHER_QUEUE, 0, Scheduled, false));
      }
    case _ =>
  }

  lemma StepKeepsCallsOk(s: State, e: Step)
    requires Enabled(s, e) && StateOk(s) && CallsOk(s)
    ensures CallsOk(Apply(s, e))
  {
    var t := Apply(s, e);
    forall c | c in t.calls ensures CallOk(t, c) {
      if c in s.calls && t.calls[c] == s.calls[c] {
        assert CallOk(s, c);
        match s.calls[c].phase
        case Coalescing(id, _) => StepOnRow(s, e, id);
        case Replacing(id) => StepOnRow(s, e, id);
        case Writing(id, _) => StepOnRow(s, e, id);
        case _ =>
      } else {
        OwnStepKeepsCallOk(s, e, c);
      }
    }
  }

  lemma OwnStepKeepsCallOk(s: State, e: Step, c: int)
    requires Enabled(s, e) && StateOk(s) && CallsOk(s)
    requires c in Apply(s, e).calls && (c in s.calls ==> Apply(s, e).calls[c] != s.calls[c])
    ensures CallOk(Apply(s, e), c)
  {
  }

  // ----- runs

  ghost predicate Next(s: State, t: State, e: Step) {
    Enabled(s, e) && t == Apply(s, e)
  }

  /** Any interleaving of calls and workers, from any table with one row per key. */
  ghost predicate Run(states: seq<State>, steps: seq<Step>) {
    && |states| == |steps| + 1 && StateOk(states[0]) && states[0].calls == map[] && states[0].time == 0
    && forall k :: 0 <= k < |steps| ==> Next(states[k], states[k + 1], steps[k])
  }

  /** Over any interleaving there is at most one row per key. */
  lemma {:induction false} KeysStayUnique(states: seq<State>, steps: seq<Step>, k: nat)
    requires Run(states, steps) && k < |states|
    ensures OneTaskPerKey(states[k].tasks) && StateOk(states[k]) && CallsOk(states[k]) && states[k].time == k
    decreases k
  {
    if k == 0 {
    } else {
      KeysStayUnique(states, steps, k - 1);
      assert Next(states[k - 1], states[k - 1 + 1], steps[k - 1]);
      StepKeepsStateOk(states[k - 1], steps[k - 1]);
      StepKeepsCallsOk(states[k - 1], steps[k - 1]);
    }
  }

  /** A row that is there at two times was there in between, under one key. */
  lemma {:induction false} RowPersists(states: seq<State>, steps: seq<Step>, i: int, r: nat, k: nat)
    requires Run(states, steps) && r <= k < |states| && i in states[r].used
      && (i in states[k].tasks ==> i in states[r].used)
    ensures i in states[k].used
    ensures i in states[k].tasks ==> i in states[r].tasks && states[k].tasks[i].key == states[r].tasks[i].key
    ensures i in states[k].tasks ==> forall m :: r <= m <= k ==> i in states[m].tasks
    decreases k
  {
    if r == k {
    } else {
      RowPersists(states, steps, i, r, k - 1);
      KeysStayUnique(states, steps, k - 1);
      assert Next(states[k - 1], states[k - 1 + 1], steps[k - 1]);
      StepOnRow(states[k - 1], steps[k - 1], i);
    }
  }

  /** What a call remembers of its first read, at the time `r`. */
  ghost predicate Remembers(past: State, s: State, call: Caller) {
    match call.phase
    case Reading => true
    case Raised(_) => true
    case Returned(_, _) => true
    case Coalescing(id, seen) => id in past.tasks && past.tasks[id] == seen
    case Replacing(id) =>
      HasTask(past.tasks, call.key, id) && !IsActive(past.tasks[id].state)
        && (call.force || past.tasks[id].state != Completed)
    case _ => Gone(past, s, call.key)
  }

  /** Whatever row the key had then is gone. */
  ghost predicate Gone(past: State, s: State, key: Key) {
    forall i :: HasTask(past.tasks, key, i) ==> i !in s.tasks && i in s.used
  }

  ghost predicate RecordedAt(states: seq<State>, steps: seq<Step>, k: nat, c: int)
    requires k < |states| == |steps| + 1 && c in states[k].calls
  {
    var call := states[k].calls[c];
    call.phase != Reading ==>
      && call.readAt < k && steps[call.readAt] == Read(c)
      && c in states[call.readAt].calls && states[call.readAt].calls[c].key == call.key
      && Remembers(states[call.readAt], states[k], call)
  }

  lemma GoneStaysGone(past: State, s: State, e: Step, key: Key)
    requires Enabled(s, e) && CallsOk(s) && StateOk(s) && Gone(past, s, key)
    ensures Gone(past, Apply(s, e), key)
  {
    forall i | HasTask(past.tasks, key, i) ensures i !in Apply(s, e).tasks && i in Apply(s, e).used {
      StepOnRow(s, e, i);
    }
  }

  /** A call's own step keeps its memory true. */
  lemma OwnStepRemembers(past: State, s: State, e: Step, c: int)
    requires Enabled(s, e) && StateOk(s) && CallsOk(s) && StateOk(past) && past.tasks.Keys <= s.used
    requires c in s.calls && s.calls[c].phase != Reading && Remembers(past, s, s.calls[c])
    requires !e.Begin? && !e.Work? && !e.Read? && e.call == c
    ensures Remembers(past, Apply(s, e), Apply(s, e).calls[c])
  {
    if e.Replace? {
      ReplaceRemembers(past, s, e, c);
    } else if !e.Coalesce? {
      GoneStaysGone(past, s, e, s.calls[c].key);
      assert Apply(s, e).calls[c].key == s.calls[c].key;
    }
  }

  lemma ReplaceRemembers(past: State, s: State, e: Step, c: int)
    requires Enabled(s, e) && StateOk(s) && CallsOk(s) && StateOk(past) && past.tasks.Keys <= s.used
    requires e.Replace? && e.call == c && Remembers(past, s, s.calls[c])
    ensures Remembers(past, Apply(s, e), Apply(s, e).calls[c])
  {
    var id := s.calls[c].phase.id;
    forall i | HasTask(past.tasks, s.calls[c].key, i) ensures i == id {
    }
    StepOnRow(s, e, id);
  }

  /** Any step keeps the memory of a call that has read. */
  lemma StepRemembers(past: State, s: State, e: Step, c: int)
    requires Enabled(s, e) && StateOk(s) && CallsOk(s) && StateOk(past) && past.tasks.Keys <= s.used
    requires c in s.calls && s.calls[c].phase != Reading && Remembers(past, s, s.calls[c])
    ensures c in Apply(s, e).calls && Remembers(past, Apply(s, e), Apply(s, e).calls[c])
    ensures Apply(s, e).calls[c].readAt == s.calls[c].readAt && Apply(s, e).calls[c].key == s.calls[c].key
  {
    if !e.Begin? && !e.Work? && !e.Read? && e.call == c {
      OwnStepRemembers(past, s, e, c);
    } else {
      OtherStepRemembers(past, s, e, c);
    }
  }

  lemma {:induction false} CallsRemember(states: seq<State>, steps: seq<Step>, k: nat, c: int)
    requires Run(states, steps) && k < |states| && c in states[k].calls
    ensures RecordedAt(states, steps, k, c)
    decreases k
  {
    if k == 0 {
    } else if c in states[k - 1].calls && states[k - 1].calls[c].phase != Reading {
      CallsRemember(states, steps, k - 1, c);
      MemoryGoesOn(states, steps, k - 1, c);
    } else {
      MemoryBegins(states, steps, k - 1, c);
    }
  }

  lemma MemoryBegins(states: seq<State>, steps: seq<Step>, k: nat, c: int)
    requires Run(states, steps) && k < |steps| && c in states[k + 1].calls
    requires c in states[k].calls ==> states[k].calls[c].phase == Reading
    ensures RecordedAt(states, steps, k + 1, c)
  {
    var s, e := states[k], steps[k];
    KeysStayUnique(states, steps, k);
    assert Next(states[k], states[k + 1], steps[k]);
    if e == Read(c) {
      ReadRemembers(s, c);
    } else {
      StillReading(s, e, c);
    }
  }

  lemma MemoryGoesOn(states: seq<State>, steps: seq<Step>, k: nat, c: int)
    requires Run(states, steps) && k < |steps| && c in states[k].calls && states[k].calls[c].phase != Reading
    requires RecordedAt(states, steps, k, c)
    ensures c in states[k + 1].calls && RecordedAt(states, steps, k + 1, c)
  {
    var r := states[k].calls[c].readAt;
    KeysStayUnique(states, steps, k);
    KeysStayUnique(states, steps, r);
    UsedGrows(states, steps, r, k);
    assert Next(states[k], states[k + 1], steps[k]);
    StepRemembers(states[r], states[k], steps[k], c);
  }

  lemma StillReading(s: State, e: Step, c: int)
    requires Enabled(s, e) && (c in s.calls ==> s.calls[c].phase == Reading) && e != Read(c) && c in Apply(s, e).calls
    ensures Apply(s, e).calls[c].phase == Reading
  {
  }

  lemma ReadRemembers(s: State, c: int)
    requires In(s, c, Reading) && StateOk(s)
    ensures Remembers(s, Apply(s, Read(c)), Apply(s, Read(c)).calls[c])
  {
  }

  lemma OtherStepRemembers(past: State, s: State, e: Step, c: int)
    requires Enabled(s, e) && StateOk(s) && CallsOk(s) && c in s.calls && Remembers(past, s, s.calls[c])
    requires e.Work? || (e.Begin? && e.call != c) || e.call != c
    ensures c in Apply(s, e).calls && Apply(s, e).calls[c] == s.calls[c] && Remembers(past, Apply(s, e), s.calls[c])
  {
    if Gone(past, s, s.calls[c].key) {
      GoneStaysGone(past, s, e, s.calls[c].key);
    }
  }

  lemma {:induction false} UsedGrows(states: seq<State>, steps: seq<Step>, r: nat, k: nat)
    requires Run(states, steps) && r <= k < |states|
    ensures states[r].used <= states[k].used && states[r].tasks.Keys <= states[k].used
    decreases k
  {
    if r == k {
      KeysStayUnique(states, steps, r);
    } else {
      UsedGrows(states, steps, r, k - 1);
      assert Next(states[k - 1], states[k - 1 + 1], steps[k - 1]);
    }
  }

  // ----- what a call returns

  /** Neither active nor completed: what a caller of `schedule` should not get. */
  predicate Outside(state: TaskState) {
    !IsActive(state) && state != Completed
  }

  /** A worker moved the row at step `j`, and nobody changed its state from then to `k`. */
  ghost predicate MovedLast(states: seq<State>, steps: seq<Step>, i: int, j: int, k: int)
    requires |states| == |steps| + 1
  {
    && 0 <= j < k <= |steps| && steps[j].Work? && steps[j].task == i
    && forall m :: j < m <= k ==> i in states[m].tasks && states[m].tasks[i].state == steps[j].state
  }

  /** Calls write pending and scheduled only, so any other state of a new row is a worker's. */
  lemma {:induction false} LastStateIsWorkers(states: seq<State>, steps: seq<Step>, i: int, r: nat, k: nat)
      returns (j: int)
    requires Run(states, steps) && r <= k < |states| && i !in states[r].tasks && i in states[k].tasks
    requires states[k].tasks[i].state !in {Pending, Scheduled}
    ensures r <= j && MovedLast(states, steps, i, j, k)
    decreases k
  {
    var s, e := states[k - 1], steps[k - 1];
    KeysStayUnique(states, steps, k - 1);
    assert Next(states[k - 1], states[k - 1 + 1], steps[k - 1]);
    StepOnRow(s, e, i);
    if i in s.tasks && s.tasks[i].state == states[k].tasks[i].state {
      j := LastStateIsWorkers(states, steps, i, r, k - 1);
    } else {
      j := k - 1;
    }
  }

  /** Step `k` makes call `c` return. */
  ghost predicate ReturnsAt(states: seq<State>, steps: seq<Step>, k: nat, c: int)
    requires |states| == |steps| + 1
  {
    && k < |steps| && !steps[k].Begin? && !steps[k].Work? && steps[k].call == c
    && c in states[k + 1].calls && states[k + 1].calls[c].phase.Returned?
  }

  /**
   * What a call returns is active or completed, except exactly when a worker moved the task on
   * after the call's first read: the last read then shows that state.
   */
  lemma ReturnedOutsideIff(states: seq<State>, steps: seq<Step>, k: nat, c: int)
    requires Run(states, steps) && ReturnsAt(states, steps, k, c)
    ensures
      var call := states[k + 1].calls[c];
      Outside(call.phase.state)
      <==> steps[k] == Reread(c)
           && exists j :: call.readAt <= j && MovedLast(states, steps, call.phase.id, j, k) && Outside(steps[j].state)
  {
    var s, call := states[k], states[k + 1].calls[c];
    KeysStayUnique(states, steps, k);
    assert Next(states[k], states[k + 1], steps[k]);
    CallsRemember(states, steps, k, c);
    if steps[k].Reread? {
      var i := call.phase.id;
      assert HasTask(s.tasks, call.key, i);
      NewRow(states, steps, k, c, i);
      if Outside(call.phase.state) {
        var j := LastStateIsWorkers(states, steps, i, call.readAt, k);
      }
    } else {
      assert CallOk(s, c);
    }
  }

  /** The row a call reads in the end did not exist when it first read. */
  lemma NewRow(states: seq<State>, steps: seq<Step>, k: nat, c: int, i: int)
    requires Run(states, steps) && k < |states| && In(states[k], c, Rereading)
    requires HasTask(states[k].tasks, states[k].calls[c].key, i)
    ensures states[k].calls[c].readAt < k && i !in states[states[k].calls[c].readAt].tasks
  {
    var r, key := states[k].calls[c].readAt, states[k].calls[c].key;
    CallsRemember(states, steps, k, c);
    KeysStayUnique(states, steps, r);
    if i in states[r].tasks {
      RowPersists(states, steps, i, r, k);
      assert HasTask(states[r].tasks, key, i);
    }
  }

  // ----- when a call saves, and when it fails on a duplicate

  /** At step `j` the call adds its own pending row, or finds one that is pending. */
  ghost predicate GetsPending(states: seq<State>, steps: seq<Step>, j: int, c: int)
    requires |states| == |steps| + 1
  {
    && 0 <= j < |steps| && c in states[j].calls && !steps[j].Work? && !steps[j].Begin? && steps[j].call == c
    && if steps[j].Look?
       then exists i :: HasTask(states[j].tasks, states[j].calls[c].key, i) && states[j].tasks[i].state == Pending
       else exists i :: i !in states[j].tasks && HasTask(states[j + 1].tasks, states[j].calls[c].key, i)
              && states[j + 1].tasks[i].state == Pending
  }

  lemma SavingBegins(states: seq<State>, steps: seq<Step>, k: nat, c: int)
    requires Run(states, steps) && k < |steps| && In(states[k + 1], c, Saving) && !In(states[k], c, Saving)
    ensures GetsPending(states, steps, k, c)
  {
    var s, e := states[k], steps[k];
    KeysStayUnique(states, steps, k);
    assert Next(states[k], states[k + 1], e);
    if e.Look? {
      var i := RowOf(s.tasks, s.calls[c].key).value;
      assert HasTask(s.tasks, s.calls[c].key, i);
    } else {
      assert e.Insert? || e.Replace?;
      assert e.newId !in s.tasks && HasTask(states[k + 1].tasks, s.calls[c].key, e.newId);
    }
  }

  /** A call transitions and saves only a task that it made itself or looked up as pending. */
  lemma {:induction false} SavesOnlyPending(states: seq<State>, steps: seq<Step>, k: nat, c: int)
    requires Run(states, steps) && k < |states| && In(states[k], c, Saving)
    ensures exists j :: j < k && GetsPending(states, steps, j, c)
    decreases k
  {
    if k == 0 {
    } else if In(states[k - 1], c, Saving) {
      SavesOnlyPending(states, steps, k - 1, c);
    } else {
      SavingBegins(states, steps, k - 1, c);
    }
  }

  /** A lookup goes on with a pending task, returns any other one, and without one the call inserts. */
  lemma LookUpIff(states: seq<State>, steps: seq<Step>, k: nat, c: int)
    requires Run(states, steps) && k < |steps| && steps[k] == Look(c)
    ensures c in states[k].calls && c in states[k + 1].calls
    ensures
      var key := states[k].calls[c].key;
      var phase := states[k + 1].calls[c].phase;
      && (phase == Inserting <==> forall i :: !HasTask(states[k].tasks, key, i))
      && (phase == Saving <==> exists i :: HasTask(states[k].tasks, key, i) && states[k].tasks[i].state == Pending)
      && (phase in {Inserting, Saving, Rereading})
  {
    KeysStayUnique(states, steps, k);
    assert Next(states[k], states[k + 1], steps[k]);
    forall i | HasTask(states[k].tasks, states[k].calls[c].key, i)
      ensures RowOf(states[k].tasks, states[k].calls[c].key) == Some(i)
    {
      RowIsUnique(states[k].tasks, states[k].calls[c].key, i);
    }
  }

  /** An insert fails on a duplicate exactly when a row of the key came up after the call's first read. */
  lemma InsertFailsIff(states: seq<State>, steps: seq<Step>, k: nat, c: int)
    requires Run(states, steps) && k < |steps| && (steps[k].Insert? || steps[k].Create?) && steps[k].call == c
    ensures c in states[k].calls && c in states[k + 1].calls
    ensures
      var call := states[k].calls[c];
      && call.readAt < k
      && (states[k + 1].calls[c].phase == Raised(DuplicateKey)
          <==> exists i :: HasTask(states[k].tasks, call.key, i) && i !in states[call.readAt].tasks)
      && (states[k + 1].calls[c].phase != Raised(DuplicateKey)
          <==> HasTask(states[k + 1].tasks, call.key, steps[k].newId))
  {
    KeysStayUnique(states, steps, k);
    assert Next(states[k], states[k + 1], steps[k]);
    var s, r := states[k], states[k].calls[c].readAt;
    CallsRemember(states, steps, k, c);
    forall i | HasTask(s.tasks, s.calls[c].key, i) ensures i !in states[r].tasks {
      if i in states[r].tasks {
        KeysStayUnique(states, steps, r);
        RowPersists(states, steps, i, r, k);
        assert HasTask(states[r].tasks, s.calls[c].key, i);
      }
    }
  }

  // ----- what calls do to active tasks

  /** A worker, or the write of a call that saves, made the row active at step `j`, and it stayed so to `k`. */
  ghost predicate BecameActive(states: seq<State>, steps: seq<Step>, i: int, j: int, k: int)
    requires |states| == |steps| + 1
  {
    && 0 <= j < k <= |steps| && i in states[j].tasks && !IsActive(states[j].tasks[i].state)
    && ((steps[j].Work? && steps[j].task == i) || Schedules(states[j], steps[j], i))
    && forall m :: j < m <= k ==> i in states[m].tasks && IsActive(states[m].tasks[i].state)
  }

  lemma {:induction false} ActivatedBetween(states: seq<State>, steps: seq<Step>, i: int, r: nat, k: nat)
      returns (j: int)
    requires Run(states, steps) && r <= k < |states| && i in states[r].tasks && !IsActive(states[r].tasks[i].state)
    requires i in states[k].tasks && IsActive(states[k].tasks[i].state)
    ensures r <= j && BecameActive(states, steps, i, j, k)
    decreases k
  {
    var s, e := states[k - 1], steps[k - 1];
    KeysStayUnique(states, steps, r);
    RowPersists(states, steps, i, r, k);
    KeysStayUnique(states, steps, k - 1);
    assert Next(states[k - 1], states[k - 1 + 1], steps[k - 1]);
    StepOnRow(s, e, i);
    if IsActive(s.tasks[i].state) {
      j := ActivatedBetween(states, steps, i, r, k - 1);
    } else {
      j := k - 1;
    }
  }

  /**
   * Rows are deleted by the replace step only, and the row was not active when the call read it.
   * The deleted row is active exactly when a worker, or another call's save, revived this row in between.
   */
  lemma ActiveRowDeletedIff(states: seq<State>, steps: seq<Step>, k: nat, i: int)
    requires Run(states, steps) && k < |steps| && i in states[k].tasks && i !in states[k + 1].tasks
    ensures steps[k].Replace? && In(states[k], steps[k].call, Replacing(i))
    ensures
      var r := states[k].calls[steps[k].call].readAt;
      && r < k && i in states[r].tasks && !IsActive(states[r].tasks[i].state)
      && (IsActive(states[k].tasks[i].state) <==> exists j :: r <= j && BecameActive(states, steps, i, j, k))
  {
    KeysStayUnique(states, steps, k);
    assert Next(states[k], states[k + 1], steps[k]);
    StepOnRow(states[k], steps[k], i);
    var c := steps[k].call;
    CallsRemember(states, steps, k, c);
    if IsActive(states[k].tasks[i].state) {
      var j := ActivatedBetween(states, steps, i, states[k].calls[c].readAt, k);
    }
  }

  /** Step `j`, a replacing call, deletes the row. */
  ghost predicate Deletes(states: seq<State>, steps: seq<Step>, i: int, j: int)
    requires |states| == |steps| + 1
  {
    0 <= j < |steps| && steps[j].Replace? && i in states[j].tasks && i !in states[j + 1].tasks
  }

  lemma {:induction false} LostRowWasDeleted(states: seq<State>, steps: seq<Step>, i: int, r: nat, k: nat)
      returns (j: int)
    requires Run(states, steps) && r <= k < |states| && i in states[r].tasks && i !in states[k].tasks
    ensures r <= j < k && Deletes(states, steps, i, j)
    decreases k
  {
    if i in states[k - 1].tasks {
      j := k - 1;
      KeysStayUnique(states, steps, k - 1);
      assert Next(states[k - 1], states[k - 1 + 1], steps[k - 1]);
      StepOnRow(states[k - 1], steps[k - 1], i);
    } else {
      j := LostRowWasDeleted(states, steps, i, r, k - 1);
    }
  }

  /** The call has something to write to a row it saw like this. */
  predicate HasNews(call: Caller, seen: Task) {
    (seen.queue == MATCHING_QUEUE && call.priority > seen.priority) || (call.force && !seen.refresh)
  }

  /**
   * A call that coalesces fails exactly when another call replaced the row after its first read and
   * it had a higher priority or a new mark to write; with nothing to write it does not notice.
   */
  lemma CoalescingFailsIff(states: seq<State>, steps: seq<Step>, k: nat)
    requires Run(states, steps) && k < |steps| && steps[k].Coalesce?
    ensures steps[k].call in states[k].calls && steps[k].call in states[k + 1].calls
    ensures
      var c := steps[k].call;
      var call := states[k].calls[c];
      && call.phase.Coalescing? && call.readAt < k && call.phase.id in states[call.readAt].tasks
      && (states[k + 1].calls[c].phase == Raised(StaleRow)
          <==> && HasNews(call, states[call.readAt].tasks[call.phase.id])
               && exists j :: call.readAt <= j < k && Deletes(states, steps, call.phase.id, j))
  {
    var c := steps[k].call;
    KeysStayUnique(states, steps, k);
    assert Next(states[k], states[k + 1], steps[k]);
    CallsRemember(states, steps, k, c);
    var r, i := states[k].calls[c].readAt, states[k].calls[c].phase.id;
    if i !in states[k].tasks {
      var j := LostRowWasDeleted(states, steps, i, r, k);
    } else {
      KeysStayUnique(states, steps, r);
      RowPersists(states, steps, i, r, k);
    }
  }

  /**
   * A call lowers the priority of a row exactly when it coalesces with what it saw, and the row
   * was raised above the call's own priority in between.
   */
  lemma PriorityFallsIff(states: seq<State>, steps: seq<Step>, k: nat, i: int)
    requires Run(states, steps) && k < |steps| && i in states[k].tasks && i in states[k + 1].tasks && !steps[k].Work?
    ensures
      states[k + 1].tasks[i].priority < states[k].tasks[i].priority
      <==> Undercuts(states[k], steps[k], i)
    ensures Undercuts(states[k], steps[k], i) ==>
      var r := states[k].calls[steps[k].call].readAt;
      r < k && i in states[r].tasks && states[r].tasks[i].priority < states[k].tasks[i].priority
  {
    KeysStayUnique(states, steps, k);
    assert Next(states[k], states[k + 1], steps[k]);
    if steps[k].Coalesce? {
      CallsRemember(states, steps, k, steps[k].call);
    }
  }

  ghost predicate Undercuts(s: State, e: Step, i: int) {
    && e.Coalesce? && e.call in s.calls && s.calls[e.call].phase.Coalescing? && s.calls[e.call].phase.id == i
    && i in s.tasks
    && Raises(s.calls[e.call], s.calls[e.call].phase.seen) && s.calls[e.call].priority < s.tasks[i].priority
  }

  /**
   * A call changes the state of an existing row exactly when it saves over it: it puts the row back to
   * scheduled, running or not, unless it saw it scheduled.
   */
  lemma StateChangesIff(states: seq<State>, steps: seq<Step>, k: nat, i: int)
    requires Run(states, steps) && k < |steps| && i in states[k].tasks && i in states[k + 1].tasks && !steps[k].Work?
    ensures
      states[k + 1].tasks[i].state != states[k].tasks[i].state
      <==> Schedules(states[k], steps[k], i) && states[k].tasks[i].state != Scheduled
    ensures states[k + 1].tasks[i].state != states[k].tasks[i].state ==> states[k + 1].tasks[i].state == Scheduled
  {
    KeysStayUnique(states, steps, k);
    assert Next(states[k], states[k + 1], steps[k]);
    StepOnRow(states[k], steps[k], i);
  }

  // ----- what a forced call leaves behind

  /** A worker cleared the row's mark at step `j`, and nobody set it again up to `k`. */
  ghost predicate ClearedLast(states: seq<State>, steps: seq<Step>, i: int, j: int, k: int)
    requires |states| == |steps| + 1
  {
    && 0 <= j < k <= |steps| && steps[j].Work? && steps[j].task == i && i in states[j].tasks
    && states[j].tasks[i].refresh
    && forall m :: j < m <= k ==> i in states[m].tasks && !states[m].tasks[i].refresh
  }

  lemma {:induction false} ClearedBetween(states: seq<State>, steps: seq<Step>, i: int, r: nat, k: nat)
      returns (j: int)
    requires Run(states, steps) && r <= k < |states| && i in states[r].tasks && states[r].tasks[i].refresh
    requires i in states[k].tasks && !states[k].tasks[i].refresh
    ensures r <= j && ClearedLast(states, steps, i, j, k)
    decreases k
  {
    var s, e := states[k - 1], steps[k - 1];
    KeysStayUnique(states, steps, r);
    RowPersists(states, steps, i, r, k);
    KeysStayUnique(states, steps, k - 1);
    assert Next(states[k - 1], states[k - 1 + 1], steps[k - 1]);
    StepOnRow(s, e, i);
    if !s.tasks[i].refresh {
      j := ClearedBetween(states, steps, i, r, k - 1);
    } else {
      j := k - 1;
    }
  }

  /** Only workers take a row out of the active states. */
  lemma {:induction false} DeactivatedBetween(states: seq<State>, steps: seq<Step>, i: int, r: nat, k: nat)
      returns (j: int)
    requires Run(states, steps) && r <= k < |states| && i in states[r].tasks && IsActive(states[r].tasks[i].state)
    requires i in states[k].tasks && !IsActive(states[k].tasks[i].state)
    ensures r <= j && MovedLast(states, steps, i, j, k)
    decreases k
  {
    var s, e := states[k - 1], steps[k - 1];
    KeysStayUnique(states, steps, r);
    RowPersists(states, steps, i, r, k);
    KeysStayUnique(states, steps, k - 1);
    assert Next(states[k - 1], states[k - 1 + 1], steps[k - 1]);
    StepOnRow(s, e, i);
    if s.tasks[i].state == states[k].tasks[i].state {
      j := DeactivatedBetween(states, steps, i, r, k - 1);
    } else {
      j := k - 1;
    }
  }

  /** Step `k` is a forced call that coalesces with row `i`, which is still there. */
  ghost predicate ForcedCoalesce(states: seq<State>, steps: seq<Step>, k: nat, i: int)
    requires |states| == |steps| + 1
  {
    && k < |steps| && steps[k].Coalesce? && steps[k].call in states[k].calls && states[k].calls[steps[k].call].force
    && states[k].calls[steps[k].call].phase.Coalescing? && states[k].calls[steps[k].call].phase.id == i
    && i in states[k].tasks
  }

  /**
   * A forced call that coalesces leaves the row unmarked exactly when it had read it with a mark,
   * which a worker's refresh cleared in between; and it leaves the row outside the active states
   * exactly when a worker took it there in between.
   */
  lemma ForcedCoalesceIff(states: seq<State>, steps: seq<Step>, k: nat, i: int)
    requires Run(states, steps) && ForcedCoalesce(states, steps, k, i)
    ensures i in states[k + 1].tasks
    ensures
      var r := states[k].calls[steps[k].call].readAt;
      && r < k && i in states[r].tasks
      && (!states[k + 1].tasks[i].refresh
          <==> states[r].tasks[i].refresh && exists j :: r <= j && ClearedLast(states, steps, i, j, k))
      && (!IsActive(states[k + 1].tasks[i].state)
          <==> exists j :: r <= j && MovedLast(states, steps, i, j, k) && !IsActive(steps[j].state))
  {
    var c := steps[k].call;
    var r := states[k].calls[c].readAt;
    KeysStayUnique(states, steps, k);
    assert Next(states[k], states[k + 1], steps[k]);
    assert CallOk(states[k], c);
    CallsRemember(states, steps, k, c);
    if states[r].tasks[i].refresh && !states[k].tasks[i].refresh {
      var j := ClearedBetween(states, steps, i, r, k);
    }
    if !IsActive(states[k].tasks[i].state) {
      var j := DeactivatedBetween(states, steps, i, r, k);
    }
  }

  /**
   * A forced call that creates its task returns it active, except exactly when a worker moved it on
   * after the call's first read.
   */
  lemma ForcedReturnsActiveIff(states: seq<State>, steps: seq<Step>, k: nat, c: int)
    requires Run(states, steps) && ReturnsAt(states, steps, k, c) && states[k + 1].calls[c].force
    ensures
      var call := states[k + 1].calls[c];
      !IsActive(call.phase.state)
      <==> steps[k] == Reread(c)
           && exists j :: call.readAt <= j && MovedLast(states, steps, call.phase.id, j, k) && !IsActive(steps[j].state)
  {
    var s, call := states[k], states[k + 1].calls[c];
    KeysStayUnique(states, steps, k);
    assert Next(states[k], states[k + 1], steps[k]);
    CallsRemember(states, steps, k, c);
    if steps[k].Reread? {
      var i := call.phase.id;
      assert HasTask(s.tasks, call.key, i);
      NewRow(states, steps, k, c, i);
      if !IsActive(call.phase.state) {
        var j := LastStateIsWorkers(states, steps, i, call.readAt, k);
      }
    } else {
      assert CallOk(s, c);
    }
  }

  // ----- runs that break the promises

  ghost predicate Starts(s: State) {
    StateOk(s) && s.calls == map[] && s.time == 0
  }

  lemma Extended(states: seq<State>, steps: seq<Step>, e: Step) returns (more: seq<State>, all: seq<Step>)
    requires Run(states, steps) && Enabled(states[|steps|], e)
    ensures more == states + [Apply(states[|steps|], e)] && all == steps + [e] && Run(more, all)
  {
    more, all := states + [Apply(states[|steps|], e)], steps + [e];
    forall k | 0 <= k <= |steps| ensures Next(more[k], more[k + 1], all[k]) {
      assert k < |steps| ==> Next(states[k], states[k + 1], steps[k]);
    }
  }

  /** A call begins and reads the row of its key. */
  lemma CallReads(s: State, key: Key, force: bool, priority: int, i: int) returns (states: seq<State>, steps: seq<Step>)
    requires Starts(s) && HasTask(s.tasks, key, i)
    ensures Run(states, steps) && |steps| == 2 && states[0] == s && states[2].tasks == s.tasks
      && states[2].used == s.used
    ensures steps[1] == Read(0) && states[2].calls.Keys == {0}
    ensures states[2].calls[0].key == key && states[2].calls[0].force == force
      && states[2].calls[0].priority == priority
    ensures states[2].calls[0].phase
         == if IsActive(s.tasks[i].state) then Coalescing(i, s.tasks[i])
            else if force || s.tasks[i].state != Completed then Replacing(i) else Returned(i, Completed)
  {
    RowIsUnique(s.tasks, key, i);
    states, steps := Extended([s], [], Begin(0, key, force, priority));
    states, steps := Extended(states, steps, Read(0));
  }

  /** Any completed task, a worker's refresh of it, and a forced call: the call deletes a running row. */
  lemma RunningRowCanBeDeleted(s: State, key: Key, i: int, newId: int) returns (states: seq<State>, steps: seq<Step>)
    requires Starts(s) && HasTask(s.tasks, key, i) && s.tasks[i].state == Completed && newId !in s.used
    ensures Run(states, steps) && states[0] == s && |steps| == 5
    ensures i in states[4].tasks && states[4].tasks[i].state == Running && i !in states[5].tasks
  {
    var priority := s.tasks[i].priority;
    states, steps := CallReads(s, key, true, priority, i);
    states, steps := Extended(states, steps, Step.Work(i, Scheduled, priority, false));
    states, steps := Extended(states, steps, Step.Work(i, Running, priority, false));
    states, steps := Extended(states, steps, Replace(0, newId));
  }

  /** Any two calls that raise an active task: the lower priority can be written last. */
  lemma PriorityCanFall(s: State, key: Key, i: int, low: int, high: int) returns (states: seq<State>, steps: seq<Step>)
    requires Starts(s) && HasTask(s.tasks, key, i) && IsActive(s.tasks[i].state) && s.tasks[i].queue == MATCHING_QUEUE
    requires s.tasks[i].priority < low < high
    ensures Run(states, steps) && states[0] == s && |steps| == 6 && forall k :: 0 <= k < 6 ==> !steps[k].Work?
    ensures i in states[5].tasks && states[5].tasks[i].priority == high
    ensures i in states[6].tasks && states[6].tasks[i].priority == low
  {
    states, steps := CallReads(s, key, false, low, i);
    RowIsUnique(s.tasks, key, i);
    states, steps := Extended(states, steps, Begin(1, key, false, high));
    states, steps := Extended(states, steps, Read(1));
    states, steps := Extended(states, steps, Coalesce(1));
    states, steps := Extended(states, steps, Coalesce(0));
  }

  /** Any running task marked for refresh: a worker clears the mark, and the forced call does not set it again. */
  lemma MarkCanBeLost(s: State, key: Key, i: int) returns (states: seq<State>, steps: seq<Step>)
    requires Starts(s) && HasTask(s.tasks, key, i) && s.tasks[i].state == Running && s.tasks[i].refresh
    ensures Run(states, steps) && states[0] == s && |steps| == 5 && ForcedCoalesce(states, steps, 4, i)
    ensures i in states[5].tasks && !states[5].tasks[i].refresh && states[5].tasks[i].state == Scheduled
  {
    var priority := s.tasks[i].priority;
    states, steps := CallReads(s, key, true, priority, i);
    states, steps := Extended(states, steps, Step.Work(i, Completed, priority, true));
    states, steps := Extended(states, steps, Step.Work(i, Scheduled, priority, false));
    states, steps := Extended(states, steps, Coalesce(0));
  }

  /** Any running task without a mark: the forced call marks it when it is completed, and nobody runs it again. */
  lemma MarkCanComeLate(s: State, key: Key, i: int) returns (states: seq<State>, steps: seq<Step>)
    requires Starts(s) && HasTask(s.tasks, key, i) && s.tasks[i].state == Running && !s.tasks[i].refresh
    ensures Run(states, steps) && states[0] == s && |steps| == 4 && ForcedCoalesce(states, steps, 3, i)
    ensures i in states[4].tasks && states[4].tasks[i].refresh && states[4].tasks[i].state == Completed
  {
    var priority := s.tasks[i].priority;
    states, steps := CallReads(s, key, true, priority, i);
    states, steps := Extended(states, steps, Step.Work(i, Completed, priority, false));
    states, steps := Extended(states, steps, Coalesce(0));
  }

  /** No task at all: the new one fails before the call reads it once more. */
  lemma FailedTaskCanBeReturned(s: State, key: Key, newId: int) returns (states: seq<State>, steps: seq<Step>)
    requires Starts(s) && newId !in s.used && forall i :: !HasTask(s.tasks, key, i)
    ensures Run(states, steps) && states[0] == s && |steps| == 9 && ReturnsAt(states, steps, 8, 0)
    ensures In(states[9], 0, Returned(newId, Failed))
  {
    states, steps := CallInserts(s, key, newId);
    states, steps := OwnRowSaved(states, steps, newId);
    states, steps := Extended(states, steps, Step.Work(newId, Running, 0, false));
    states, steps := Extended(states, steps, Step.Work(newId, Failed, 0, false));
    KeysStayUnique(states, steps, 8);
    RowIsUnique(states[8].tasks, key, newId);
    states, steps := Extended(states, steps, Reread(0));
  }

  lemma CallInserts(s: State, key: Key, newId: int) returns (states: seq<State>, steps: seq<Step>)
    requires Starts(s) && newId !in s.used && forall i :: !HasTask(s.tasks, key, i)
    ensures Run(states, steps) && states[0] == s && |steps| == 4 && |states| == 5
    ensures In(states[4], 0, Saving) && states[4].calls[0].key == key && HasTask(states[4].tasks, key, newId)
  {
    states, steps := Extended([s], [], Begin(0, key, false, 0));
    states, steps := Extended(states, steps, Read(0));
    states, steps := Extended(states, steps, Look(0));
    states, steps := Extended(states, steps, Insert(0, newId));
  }

  lemma OwnRowSaved(states: seq<State>, steps: seq<Step>, id: int) returns (more: seq<State>, all: seq<Step>)
    requires Run(states, steps) && |states| == |steps| + 1 && In(states[|steps|], 0, Saving)
    requires HasTask(states[|steps|].tasks, states[|steps|].calls[0].key, id)
    ensures Run(more, all) && |all| == |steps| + 2 && more[..|states|] == states
    ensures In(more[|all|], 0, Rereading) && more[|all|].calls[0].key == states[|steps|].calls[0].key
    ensures HasTask(more[|all|].tasks, states[|steps|].calls[0].key, id)
  {
    KeysStayUnique(states, steps, |steps|);
    RowIsUnique(states[|steps|].tasks, states[|steps|].calls[0].key, id);
    more, all := Extended(states, steps, Save(0));
    more, all := Extended(more, all, Write(0));
  }

  // ----- calls that nobody disturbs

  /** The rows after a call that runs from its first read to its end by itself. */
  ghost function ScheduledTasks(tasks: Tasks, key: Key, force: bool, priority: int, newId: int): Tasks {
    var made := Task(key, MATCHING_QUEUE, priority, Scheduled, false);
    match RowOf(tasks, key)
    case None => tasks[newId := made]
    case Some(id) =>
      if IsActive(tasks[id].state) then
        tasks[id := Overwritten(Caller(key, force, priority, 0, Reading), tasks[id], tasks[id])]
      else if force || tasks[id].state != Completed then (tasks - {id})[newId := made]
      else tasks
  }

  ghost predicate Chain(s: State, steps: seq<Step>, t: State)
    decreases |steps|
  {
    if steps == [] then s == t
    else Enabled(s, steps[0]) && Chain(Apply(s, steps[0]), steps[1..], t)
  }

  lemma ChainCons(s: State, e: Step, steps: seq<Step>, t: State)
    requires Enabled(s, e) && Chain(Apply(s, e), steps, t)
    ensures Chain(s, [e] + steps, t)
  {
    assert ([e] + steps)[1..] == steps;
  }

  ghost function SaveSteps(c: int): seq<Step> {
    [Save(c)] + ([Write(c)] + ([Reread(c)] + []))
  }

  /** From a pending row of its own a call saves and reads again. */
  lemma SaveAlone(s: State, c: int, id: int) returns (t: State)
    requires StateOk(s) && In(s, c, Saving) && HasTask(s.tasks, s.calls[c].key, id)
    ensures Chain(s, SaveSteps(c), t)
    ensures t.tasks == s.tasks[id := s.tasks[id].(state := Scheduled)] && In(t, c, Returned(id, Scheduled))
  {
    var key := s.calls[c].key;
    RowIsUnique(s.tasks, key, id);
    var found := Apply(s, Save(c));
    var saved := Apply(found, Write(c));
    assert saved.tasks == s.tasks[id := s.tasks[id].(state := Scheduled)];
    RowIsUnique(saved.tasks, key, id);
    t := Apply(saved, Reread(c));
    ChainCons(saved, Reread(c), [], t);
    ChainCons(found, Write(c), [Reread(c)] + [], t);
    ChainCons(s, Save(c), [Write(c)] + ([Reread(c)] + []), t);
  }

  /** From its first read, when nobody interferes. */
  lemma ReadAlone(s: State, c: int, newId: int) returns (steps: seq<Step>, t: State)
    requires StateOk(s) && CallsOk(s) && In(s, c, Reading) && newId !in s.used
    ensures Chain(s, [Read(c)] + steps, t)
    ensures t.tasks == ScheduledTasks(s.tasks, s.calls[c].key, s.calls[c].force, s.calls[c].priority, newId)
    ensures c in t.calls && t.calls[c].phase.Returned? && !Outside(t.calls[c].phase.state)
  {
    var read := Apply(s, Read(c));
    StepKeepsStateOk(s, Read(c));
    match read.calls[c].phase
    case Coalescing(id, seen) =>
      t, steps := Apply(read, Coalesce(c)), [Coalesce(c)];
      ChainCons(read, Coalesce(c), [], t);
      ChainCons(s, Read(c), steps, t);
    case Replacing(id) =>
      steps, t := ReplacedAlone(read, c, id, newId);
      ChainCons(s, Read(c), steps, t);
    case Looking =>
      steps, t := CreatedAlone(read, c, newId);
      ChainCons(s, Read(c), steps, t);
    case Returned(_, _) =>
      t, steps := read, [];
      ChainCons(s, Read(c), [], t);
  }

  lemma ReplacedAlone(s: State, c: int, id: int, newId: int) returns (steps: seq<Step>, t: State)
    requires StateOk(s) && In(s, c, Replacing(id)) && HasTask(s.tasks, s.calls[c].key, id) && newId !in s.used
    ensures Chain(s, steps, t) && In(t, c, Returned(newId, Scheduled))
    ensures t.tasks == (s.tasks - {id})[newId := Fresh(s.calls[c]).(state := Scheduled)]
  {
    var replaced := ReplaceAlone(s, c, id, newId);
    t := SaveAlone(replaced, c, newId);
    steps := [Replace(c, newId)] + SaveSteps(c);
    ChainCons(s, Replace(c, newId), SaveSteps(c), t);
  }

  lemma CreatedAlone(s: State, c: int, newId: int) returns (steps: seq<Step>, t: State)
    requires StateOk(s) && In(s, c, Looking) && RowOf(s.tasks, s.calls[c].key).None? && newId !in s.used
    ensures Chain(s, steps, t) && In(t, c, Returned(newId, Scheduled))
    ensures t.tasks == s.tasks[newId := Fresh(s.calls[c]).(state := Scheduled)]
  {
    var looked := Apply(s, Look(c));
    var inserted := InsertAlone(s, c, newId);
    t := SaveAlone(inserted, c, newId);
    steps := [Look(c)] + ([Insert(c, newId)] + SaveSteps(c));
    ChainCons(looked, Insert(c, newId), SaveSteps(c), t);
    ChainCons(s, Look(c), [Insert(c, newId)] + SaveSteps(c), t);
  }

  lemma ReplaceAlone(s: State, c: int, id: int, newId: int) returns (t: State)
    requires StateOk(s) && In(s, c, Replacing(id)) && HasTask(s.tasks, s.calls[c].key, id) && newId !in s.used
    ensures t == Apply(s, Replace(c, newId)) && StateOk(t) && In(t, c, Saving) && t.calls[c].key == s.calls[c].key
    ensures t.tasks == (s.tasks - {id})[newId := Fresh(s.calls[c])] && t.used == s.used + {newId}
  {
    t := Apply(s, Replace(c, newId));
    forall i ensures !HasTask(s.tasks - {id}, s.calls[c].key, i) {
    }
    PutKeepsKeys(s.tasks - {id}, newId, Fresh(s.calls[c]));
  }

  lemma InsertAlone(s: State, c: int, newId: int) returns (t: State)
    requires StateOk(s) && In(s, c, Looking) && RowOf(s.tasks, s.calls[c].key).None? && newId !in s.used
    ensures In(Apply(s, Look(c)), c, Inserting) && t == Apply(Apply(s, Look(c)), Insert(c, newId))
    ensures StateOk(t) && In(t, c, Saving) && t.calls[c].key == s.calls[c].key
    ensures t.tasks == s.tasks[newId := Fresh(s.calls[c])] && t.used == s.used + {newId}
  {
    t := Apply(Apply(s, Look(c)), Insert(c, newId));
    PutKeepsKeys(s.tasks, newId, Fresh(s.calls[c]));
  }

  /** The steps of one call, one after the other, are the call of `MatchingJobs`. */
  lemma UndisturbedCallIsSchedule(
      before: Tables, after: Tables, key: Key, cv: string, vacancy: string, force: bool, priority: int, id: int)
    requires OneTaskPerKey(before.tasks) && Scheduling(before, after, key, cv, vacancy, force, priority, id)
    requires OneOfKey(after.tasks, key, id)
    ensures after.tasks == ScheduledTasks(before.tasks, key, force, priority, id)
  {
    var row := RowOf(before.tasks, key);
    if row.None? {
      RenewedTasks(before.tasks, before.tasks, after.tasks, key, id);
    } else {
      var known := row.value;
      assert HasTask(before.tasks, key, known);
      assert forall i :: HasTask(before.tasks, key, i) ==> i == known;
      if IsActive(before.tasks[known].state) {
        assert HasTask(before.tasks, key, id);
      } else if force || before.tasks[known].state != Completed {
        RenewedTasks(before.tasks, before.tasks - {known}, after.tasks, key, id);
      }
    }
  }

  lemma RenewedTasks(before: Tasks, rest: Tasks, after: Tasks, key: Key, id: int)
    requires OnlyTasksOf(before, after, key) && HasTask(after, key, id) && OneOfKey(after, key, id)
    requires forall i :: i in rest <==> i in before && before[i].key != key
    requires forall i :: i in rest ==> rest[i] == before[i]
    ensures after == rest[id := after[id]]
  {
    forall i ensures i in after <==> i in rest || i == id {
      assert i in after && after[i].key == key ==> HasTask(after, key, i);
    }
    forall i | i in rest && i != id ensures after[i] == rest[i] {
      assert before[i].key != key;
    }
  }
}
