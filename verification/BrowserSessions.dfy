/**
 * Encrypted browser sessions: one database row per user and site, each naming a state file. Files
 * and rows are changed one after the other, so what matters is every state in between.
 */
module BrowserSessions {
  import opened Wrappers

  datatype Status = Available | Corrupted

  datatype Row = Row(user: string, site: string, adapter: string, path: string, status: Status)

  /** A stored file: a state that decrypts and parses, or something that does not. */
  datatype Content = Readable(state: string) | Unreadable

  /** The committed rows and the files on disk. */
  datatype World = World(rows: map<string, Row>, files: map<string, Content>)

  datatype SessionError = UserNotFound | SessionNotFound | InvalidState | CommitFailed

  // ----- what must hold whenever the process may stop

  /** One row per user and site, no file shared, and every row's file exists. */
  ghost predicate Consistent(w: World) {
    && (forall id :: id in w.rows ==> w.rows[id].path in w.files)
    && (forall i, j :: i in w.rows && j in w.rows && i != j ==> w.rows[i].path != w.rows[j].path)
    && (forall i, j :: i in w.rows && j in w.rows && i != j ==>
         w.rows[i].user != w.rows[j].user || w.rows[i].site != w.rows[j].site)
  }

  function Paths(rows: map<string, Row>): set<string> {
    set id | id in rows :: rows[id].path
  }

  /** Files no row names; only a crash leaves any. */
  function Orphans(w: World): set<string> {
    w.files.Keys - Paths(w.rows)
  }

  // ----- the operations as the sequence of worlds they pass through

  predicate IsSessionOf(rows: map<string, Row>, id: string, user: string, site: string) {
    id in rows && rows[id].user == user && rows[id].site == site
  }

  /** The row `save` will write: the existing one of this user and site, or a new one. */
  ghost predicate SavesTo(rows: map<string, Row>, user: string, site: string, newId: string, id: string) {
    if exists known :: IsSessionOf(rows, known, user, site) then IsSessionOf(rows, id, user, site)
    else id == newId && newId !in rows
  }

  function SaveSteps(w: World, id: string, row: Row, content: Content, commits: bool): seq<World> {
    var written := w.(files := w.files[row.path := content]);
    if !commits then [written, w.(files := written.files - {row.path})]
    else
      var committed := written.(rows := w.rows[id := row]);
      if id in w.rows && w.rows[id].path != row.path
      then [written, committed, committed.(files := committed.files - {w.rows[id].path})]
      else [written, committed]
  }

  function RestoreSteps(w: World, id: string, commits: bool): seq<World>
    requires id in w.rows
  {
    var status := if Loads(w, id) then Available else Corrupted;
    if commits then [w.(rows := w.rows[id := w.rows[id].(status := status)])] else []
  }

  predicate Loads(w: World, id: string)
    requires id in w.rows
  {
    w.rows[id].path in w.files && w.files[w.rows[id].path].Readable?
  }

  function DeleteSteps(w: World, id: string, commits: bool): seq<World>
    requires id in w.rows
  {
    if !commits then []
    else
      var gone := w.(rows := w.rows - {id});
      [gone, gone.(files := gone.files - {w.rows[id].path})]
  }

  function Last(w: World, steps: seq<World>): World {
    if steps == [] then w else steps[|steps| - 1]
  }

  // ----- what the operations come to

  /** The row and file of every other session are as before. */
  ghost predicate OthersKept(w: World, u: World, id: string) {
    forall j :: j in w.rows && j != id ==>
      && j in u.rows && u.rows[j] == w.rows[j]
      && w.rows[j].path in w.files && w.rows[j].path in u.files && u.files[w.rows[j].path] == w.files[w.rows[j].path]
  }

  /** A committed save stores the content under its row and removes the file it replaces. */
  lemma SavedComesBack(w: World, id: string, row: Row, content: Content)
    requires Consistent(w) && row.path !in w.files
    ensures
      var u := Last(w, SaveSteps(w, id, row, content, true));
      && id in u.rows && u.rows[id] == row && u.rows.Keys == w.rows.Keys + {id}
      && row.path in u.files && u.files[row.path] == content && OthersKept(w, u, id)
      && (id in w.rows ==> w.rows[id].path !in u.files)
      && (Loads(u, id) <==> content.Readable?)
  {
  }

  /** A committed restore marks the row by whether its file can be read, and touches nothing else. */
  lemma RestoredIsMarked(w: World, id: string)
    requires Consistent(w) && id in w.rows
    ensures
      var u := Last(w, RestoreSteps(w, id, true));
      && u.files == w.files && u.rows.Keys == w.rows.Keys && OthersKept(w, u, id)
      && u.rows[id].(status := w.rows[id].status) == w.rows[id]
      && (u.rows[id].status == Available <==> w.files[w.rows[id].path].Readable?)
      && (u.rows[id].status == Corrupted <==> !w.files[w.rows[id].path].Readable?)
      && Last(w, RestoreSteps(w, id, false)) == w
  {
  }

  /** A committed delete removes the row and its file and no other session's. */
  lemma DeletedIsGone(w: World, id: string)
    requires Consistent(w) && id in w.rows
    ensures
      var u := Last(w, DeleteSteps(w, id, true));
      && u.rows.Keys == w.rows.Keys - {id} && w.rows[id].path !in u.files && OthersKept(w, u, id)
      && Last(w, DeleteSteps(w, id, false)) == w
  {
  }

  // ----- the service

  class BrowserSessionService {
    var users: set<string>
    var rows: map<string, Row>
    var files: map<string, Content>
    ghost var passed: seq<World>  // every world since the service started, in order

    ghost function Now(): World
      reads this
    {
      World(rows, files)
    }

    ghost predicate Valid()
      reads this
    {
      Consistent(Now())
    }

    constructor (users: set<string>)
      ensures Valid() && this.users == users && Now() == World(map[], map[]) && passed == []
    {
      this.users, rows, files, passed := users, map[], map[], [];
    }

    /** `path` and `newId` are fresh; `stores` and `commits` say whether the two writes succeed. */
    method Save(user: string, site: string, adapter: string, content: Content, path: string, newId: string,
                stores: bool, commits: bool) returns (r: Result<string, SessionError>, id: string)
      requires Valid() && path !in files && newId !in rows
      modifies this`rows, this`files, this`passed
      ensures Valid() && Orphans(Now()) == old(Orphans(Now()))
      ensures SavesTo(old(rows), user, site, newId, id)
      ensures r == if user !in users then Err(UserNotFound) else if !stores then Err(InvalidState)
                   else if !commits then Err(CommitFailed) else Ok(id)
      ensures r.Err? ==> Now() == old(Now())
      ensures user !in users || !stores ==> passed == old(passed)
      ensures user in users && stores ==>
        var steps := SaveSteps(old(Now()), id, Row(user, site, adapter, path, Available), content, commits);
        passed == old(passed) + steps && Now() == Last(old(Now()), steps) && AllConsistent(steps)
    {
      var existing := FindRow(user, site);
      id := if existing.Some? then existing.value else newId;
      assert SavesTo(rows, user, site, newId, id);
      if user !in users {
        return Err(UserNotFound), id;
      }
      if !stores {
        return Err(InvalidState), id;
      }
      var row := Row(user, site, adapter, path, Available);
      SaveStepsAreConsistent(Now(), id, row, content, commits);
      WriteRow(id, row, content, commits);
      r := if commits then Ok(id) else Err(CommitFailed);
    }

    /** Writes the file, commits the row, and removes whichever of the two files is now unused. */
    method WriteRow(id: string, row: Row, content: Content, commits: bool)
      requires row.path !in files
      modifies this`rows, this`files, this`passed
      ensures var steps := SaveSteps(old(Now()), id, row, content, commits);
              passed == old(passed) + steps && Now() == Last(old(Now()), steps)
      ensures !commits ==> Now() == old(Now())
    {
      var previous := if id in rows then Some(rows[id].path) else None;
      files := files[row.path := content];
      passed := passed + [Now()];
      if !commits {
        files := files - {row.path};
        passed := passed + [Now()];
        assert files == old(files);
        return;
      }
      rows := rows[id := row];
      passed := passed + [Now()];
      if previous.Some? && previous.value != row.path {
        files := files - {previous.value};
        passed := passed + [Now()];
      }
    }

    method FindRow(user: string, site: string) returns (r: Option<string>)
      ensures r.Some? ==> IsSessionOf(rows, r.value, user, site)
      ensures r.None? ==> forall id :: !IsSessionOf(rows, id, user, site)
    {
      if id :| id in rows && IsSessionOf(rows, id, user, site) {
        return Some(id);
      }
      return None;
    }

    method Restore(id: string, commits: bool) returns (r: Result<Content, SessionError>)
      requires Valid()
      modifies this`rows, this`passed
      ensures Valid() && Orphans(Now()) == old(Orphans(Now()))
      ensures id !in old(rows) ==> r == Err(SessionNotFound) && Now() == old(Now()) && passed == old(passed)
      ensures id in old(rows) ==>
        && passed == old(passed) + RestoreSteps(old(Now()), id, commits)
        && AllConsistent(RestoreSteps(old(Now()), id, commits))
        && Now() == Last(old(Now()), RestoreSteps(old(Now()), id, commits))
        && r == (if !commits then Err(CommitFailed)
                 else if Loads(old(Now()), id) then Ok(files[old(rows)[id].path]) else Err(InvalidState))
    {
      if id !in rows {
        return Err(SessionNotFound);
      }
      RestoreStepsAreConsistent(Now(), id, commits);
      var readable := rows[id].path in files && files[rows[id].path].Readable?;
      if !commits {
        return Err(CommitFailed);
      }
      rows := rows[id := rows[id].(status := if readable then Available else Corrupted)];
      passed := passed + [Now()];
      r := if readable then Ok(files[rows[id].path]) else Err(InvalidState);
    }

    method Delete(id: string, commits: bool) returns (r: Result<(), SessionError>)
      requires Valid()
      modifies this`rows, this`files, this`passed
      ensures Valid() && Orphans(Now()) == old(Orphans(Now()))
      ensures id !in old(rows) ==> r == Err(SessionNotFound) && Now() == old(Now()) && passed == old(passed)
      ensures id in old(rows) ==>
        && passed == old(passed) + DeleteSteps(old(Now()), id, commits)
        && AllConsistent(DeleteSteps(old(Now()), id, commits))
        && Now() == Last(old(Now()), DeleteSteps(old(Now()), id, commits))
        && r == if commits then Ok(()) else Err(CommitFailed)
    {
      if id !in rows {
        return Err(SessionNotFound);
      }
      DeleteStepsAreConsistent(Now(), id, commits);
      if !commits {
        return Err(CommitFailed);
      }
      var path := rows[id].path;
      rows := rows - {id};
      passed := passed + [Now()];
      files := files - {path};
      passed := passed + [Now()];
      r := Ok(());
    }
  }

  // ----- consistency of every step

  ghost predicate AllConsistent(steps: seq<World>) {
    forall k :: 0 <= k < |steps| ==> Consistent(steps[k])
  }

  lemma SaveStepsAreConsistent(w: World, id: string, row: Row, content: Content, commits: bool)
    requires Consistent(w) && row.path !in w.files
    requires SavesTo(w.rows, row.user, row.site, id, id) || IsSessionOf(w.rows, id, row.user, row.site)
    ensures AllConsistent(SaveSteps(w, id, row, content, commits))
    ensures Orphans(Last(w, SaveSteps(w, id, row, content, commits))) == Orphans(w)
  {
    var steps := SaveSteps(w, id, row, content, commits);
    if commits {
      SavedRows(w, id, row);
      SavedPaths(w, id, row);
    }
  }

  lemma SavedRows(w: World, id: string, row: Row)
    requires Consistent(w) && row.path !in w.files
    requires SavesTo(w.rows, row.user, row.site, id, id) || IsSessionOf(w.rows, id, row.user, row.site)
    ensures
      var rows := w.rows[id := row];
      && (forall i, j :: i in rows && j in rows && i != j ==> rows[i].path != rows[j].path)
      && (forall i, j :: i in rows && j in rows && i != j ==>
        rows[i].user != rows[j].user || rows[i].site != rows[j].site)
      && (forall i :: i in rows && i != id ==>
        rows[i].path in w.files && (id in w.rows ==> rows[i].path != w.rows[id].path))
  {
    forall i | i in w.rows && i != id ensures !IsSessionOf(w.rows, i, row.user, row.site) {
      assert IsSessionOf(w.rows, i, row.user, row.site) ==> IsSessionOf(w.rows, id, row.user, row.site);
    }
  }

  lemma SavedPaths(w: World, id: string, row: Row)
    requires Consistent(w) && row.path !in w.files
    ensures Paths(w.rows[id := row])
      == (if id in w.rows then Paths(w.rows) - {w.rows[id].path} else Paths(w.rows)) + {row.path}
    ensures row.path !in Paths(w.rows)
  {
    var rows := w.rows[id := row];
    assert rows[id].path == row.path;
    forall p | p in Paths(w.rows) && (id in w.rows ==> p != w.rows[id].path) ensures p in Paths(rows) {
      var i :| i in w.rows && w.rows[i].path == p;
      assert rows[i].path == p;
    }
  }

  lemma RestoreStepsAreConsistent(w: World, id: string, commits: bool)
    requires Consistent(w) && id in w.rows
    ensures AllConsistent(RestoreSteps(w, id, commits))
    ensures Orphans(Last(w, RestoreSteps(w, id, commits))) == Orphans(w)
  {
    var rows := w.rows[id := w.rows[id].(status := if Loads(w, id) then Available else Corrupted)];
    SamePaths(w.rows, rows);
  }

  lemma SamePaths(rows: map<string, Row>, more: map<string, Row>)
    requires rows.Keys == more.Keys && forall i :: i in rows ==> more[i].path == rows[i].path
    ensures Paths(more) == Paths(rows)
  {
    forall p ensures p in Paths(rows) <==> p in Paths(more) {
      if i :| i in rows && rows[i].path == p {
        assert more[i].path == p;
      }
      if i :| i in more && more[i].path == p {
        assert rows[i].path == p;
      }
    }
  }

  lemma DeleteStepsAreConsistent(w: World, id: string, commits: bool)
    requires Consistent(w) && id in w.rows
    ensures AllConsistent(DeleteSteps(w, id, commits))
    ensures Orphans(Last(w, DeleteSteps(w, id, commits))) == Orphans(w)
  {
    var rows := w.rows - {id};
    assert forall i :: i in rows ==> rows[i] == w.rows[i];
    assert Paths(rows) == Paths(w.rows) - {w.rows[id].path} by {
      forall p | p in Paths(w.rows) && p != w.rows[id].path ensures p in Paths(rows) {
        var i :| i in w.rows && w.rows[i].path == p;
        assert rows[i].path == p;
      }
    }
  }

  // ----- whole runs, with crashes

  datatype Operation =
    | SaveOp(id: string, row: Row, content: Content, commits: bool)
    | RestoreOp(id: string, commits: bool)
    | DeleteOp(id: string, commits: bool)

  ghost predicate CanRun(w: World, op: Operation) {
    match op
    case SaveOp(id, row, _, _) =>
      row.path !in w.files
        && (SavesTo(w.rows, row.user, row.site, id, id) || IsSessionOf(w.rows, id, row.user, row.site))
    case RestoreOp(id, _) => id in w.rows
    case DeleteOp(id, _) => id in w.rows
  }

  ghost function Steps(w: World, op: Operation): seq<World>
    requires CanRun(w, op)
  {
    match op
    case SaveOp(id, row, content, commits) => SaveSteps(w, id, row, content, commits)
    case RestoreOp(id, commits) => RestoreSteps(w, id, commits)
    case DeleteOp(id, commits) => DeleteSteps(w, id, commits)
  }

  /** The operation ran to its end, or the process stopped somewhere on the way. */
  ghost predicate Goes(w: World, v: World, op: Operation, crash: bool) {
    && CanRun(w, op)
    && if crash then v == w || v in Steps(w, op) else v == Last(w, Steps(w, op))
  }

  ghost predicate Happens(w: World, v: World, crash: bool) {
    exists op :: Goes(w, v, op, crash)
  }

  /** Worlds between operations; `crashes` says which operations were cut short. */
  ghost predicate History(worlds: seq<World>, crashes: seq<bool>) {
    && |worlds| == |crashes| + 1 && worlds[0] == World(map[], map[])
    && forall k :: 0 <= k < |crashes| ==> Happens(worlds[k], worlds[k + 1], crashes[k])
  }

  lemma OperationKeepsConsistency(w: World, v: World, op: Operation, crash: bool)
    requires Consistent(w) && Goes(w, v, op, crash)
    ensures Consistent(v) && AllConsistent(Steps(w, op))
    ensures !crash ==> Orphans(v) == Orphans(w)
  {
    match op
    case SaveOp(id, row, content, commits) => SaveStepsAreConsistent(w, id, row, content, commits);
    case RestoreOp(id, commits) => RestoreStepsAreConsistent(w, id, commits);
    case DeleteOp(id, commits) => DeleteStepsAreConsistent(w, id, commits);
  }

  /**
   * After any history, failed commits and crashes included, every row names an existing file of
   * its own. Without a crash the files are exactly those that rows name.
   */
  lemma {:induction false} HistoriesAreConsistent(worlds: seq<World>, crashes: seq<bool>)
    requires History(worlds, crashes)
    ensures Consistent(worlds[|crashes|])
    ensures (forall k :: 0 <= k < |crashes| ==> !crashes[k]) ==>
              worlds[|crashes|].files.Keys == Paths(worlds[|crashes|].rows)
    decreases |crashes|
  {
    var n := |crashes|;
    if n == 0 {
    } else {
      HistoriesAreConsistent(worlds[..n], crashes[..n - 1]);
      assert Happens(worlds[n - 1], worlds[n - 1 + 1], crashes[n - 1]);
      var op :| Goes(worlds[n - 1], worlds[n], op, crashes[n - 1]);
      OperationKeepsConsistency(worlds[n - 1], worlds[n], op, crashes[n - 1]);
      NoOrphans(worlds[n - 1]);
      NoOrphans(worlds[n]);
    }
  }

  lemma NoOrphans(w: World)
    requires Consistent(w)
    ensures Orphans(w) == {} <==> w.files.Keys == Paths(w.rows)
  {
    forall p | p in Paths(w.rows) ensures p in w.files {
      var id :| id in w.rows && w.rows[id].path == p;
    }
    assert w.files.Keys == Paths(w.rows) + Orphans(w);
    if w.files.Keys == Paths(w.rows) {
      assert Orphans(w) == {};
    }
  }
}
