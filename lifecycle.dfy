/**
 * The assignment transitions driven by the web handlers: completing a
 * checklist (`POST /api/assignments/complete-checklist` in `dhl_login/app.js`),
 * marking a submission validated (`markAssignmentValidated` in
 * `dhl_login/utils/validationHelpers.js`), and the dashboard query. Each works
 * on the `Store` of module `Engine` and keeps its invariant.
 */
module Lifecycle {
  import opened Wrappers
  import opened Strings
  import opened Models
  import opened Sorting
  import opened Engine

  // ---------------------------------------------------------------------
  // Submission files

  /** The directory of submission files, relative to the repository root. */
  const DataDirectory: string := "backend/data"

  /** `data_<fileId>.json`, the name of the file a submission with this id is saved in. */
  function SubmissionFileName(fileId: string): string {
    "data_" + fileId + ".json"
  }

  /** `getChecklistFilePath(fileId)`: the submission file under the data directory. */
  function ChecklistFilePath(fileId: string): (p: string)
    ensures StartsWith(p, DataDirectory + "/")
    ensures EndsWith(p, SubmissionFileName(fileId))
    ensures p[|DataDirectory| + 1..] == SubmissionFileName(fileId)
  {
    DataDirectory + "/" + SubmissionFileName(fileId)
  }

  /** Different file ids name different files. */
  lemma SubmissionFileNameInjective(a: string, b: string)
    requires SubmissionFileName(a) == SubmissionFileName(b)
    ensures a == b
  {
    var x, y := SubmissionFileName(a), SubmissionFileName(b);
    assert a == x[5..|x| - 5];
    assert b == y[5..|y| - 5];
  }

  // ---------------------------------------------------------------------
  // Completing a checklist

  datatype CompleteOutcome =
    | FilenameRequired            // 400
    | NoActiveAssignment          // 404
    | CompletedOk(assignmentId: Id)

  /**
   * Row `i` is one `complete-checklist` may pick for this user and file name:
   * not completed yet, and its checklist has that file name. The status is
   * not looked at.
   */
  predicate IsCompletionCandidate(d: Db, i: int, uid: Id, filename: string) {
    && 0 <= i < |d.assignments|
    && d.assignments[i].userId == uid && d.assignments[i].completedAt.None?
    && exists k :: 0 <= k < |d.checklists| && d.checklists[k].id == d.assignments[i].checklistId && d.checklists[k].filename == filename
  }

  predicate HasCompletionCandidate(d: Db, uid: Id, filename: string) {
    exists i :: 0 <= i < |d.assignments| && IsCompletionCandidate(d, i, uid, filename)
  }

  /** Row `i` stamped `completed` at `now`. */
  function MarkCompleted(d: Db, i: nat, now: Time): (d2: Db)
    requires i < |d.assignments|
  {
    Db(d.users, d.checklists, d.assignments[i := d.assignments[i].(completedAt := Some(now), status := Completed)])
  }

  /**
   * The handler: a missing file name and a missing row change nothing; else
   * some candidate row is completed and rotation runs for the same user.
   */
  ghost predicate CompletePost(d: Db, d2: Db, user: User, filename: Option<string>, now: Time,
                               startOfToday: Time, newId: Id, r: CompleteOutcome) {
    if !Present(filename) then
      d2 == d && r == FilenameRequired
    else if !HasCompletionCandidate(d, user.id, filename.value) then
      d2 == d && r == NoActiveAssignment
    else
      exists i, next: Option<Assignment> ::
        && IsCompletionCandidate(d, i, user.id, filename.value)
        && r == CompletedOk(d.assignments[i].id)
        && AssignNextPost(MarkCompleted(d, i, now), d2, user, now, startOfToday, newId, next)
  }

  method CompleteChecklist(store: Store, user: User, filename: Option<string>, now: Time,
                           startOfToday: Time, newId: Id)
    returns (r: CompleteOutcome)
    requires store.Valid() && user in store.users && newId !in AssignmentIds(store.assignments)
    modifies store
    ensures store.Valid()
    ensures CompletePost(old(store.State()), store.State(), user, filename, now, startOfToday, newId, r)
  {
    ghost var d0 := store.State();
    if !Present(filename) {
      return FilenameRequired;
    }
    if !HasCompletionCandidate(store.State(), user.id, filename.value) {
      return NoActiveAssignment;
    }
    var i :| 0 <= i < |store.assignments| && IsCompletionCandidate(store.State(), i, user.id, filename.value);
    var row := store.assignments[i];
    UpdateRowPreservesInv(store.State(), i, row.(completedAt := Some(now), status := Completed));
    store.Commit(Db(store.users, store.checklists, store.assignments[i := row.(completedAt := Some(now), status := Completed)]));
    assert AssignmentIds(store.assignments) == AssignmentIds(old(store.assignments));
    assert store.State() == MarkCompleted(d0, i, now);
    var next := store.AssignNextChecklist(user, now, startOfToday, newId);
    r := CompletedOk(row.id);
    assert IsCompletionCandidate(d0, i, user.id, filename.value);
    assert AssignNextPost(MarkCompleted(d0, i, now), store.State(), user, now, startOfToday, newId, next);
  }

  /** Rotation only appends: every existing row is kept as it was. */
  lemma AssignNextKeepsRows(d: Db, d2: Db, user: User, now: Time, startOfToday: Time, newId: Id,
                            r: Option<Assignment>)
    requires AssignNextPost(d, d2, user, now, startOfToday, newId, r)
    ensures |d.assignments| <= |d2.assignments|
    ensures d2.assignments[..|d.assignments|] == d.assignments
  {
  }

  /**
   * A successful completion leaves the completed row `completed` at `now`,
   * whatever its status was; a `cancelled` row can be completed this way.
   */
  lemma CompletionMarksRow(d: Db, d2: Db, user: User, filename: Option<string>, now: Time,
                           startOfToday: Time, newId: Id, r: CompleteOutcome)
    requires CompletePost(d, d2, user, filename, now, startOfToday, newId, r)
    requires r.CompletedOk?
    ensures exists i :: (0 <= i < |d.assignments| && i < |d2.assignments|
      && IsCompletionCandidate(d, i, user.id, filename.value)
      && d2.assignments[i] == d.assignments[i].(completedAt := Some(now), status := Completed)
      && r.assignmentId == d.assignments[i].id)
  {
    var i, next :| && IsCompletionCandidate(d, i, user.id, filename.value)
      && r == CompletedOk(d.assignments[i].id)
      && AssignNextPost(MarkCompleted(d, i, now), d2, user, now, startOfToday, newId, next);
    var m := MarkCompleted(d, i, now);
    AssignNextKeepsRows(m, d2, user, now, startOfToday, newId, next);
    assert d2.assignments[i] == d2.assignments[..|m.assignments|][i];
  }

  /** A cancelled, never completed row of the user's checklist is a completion candidate. */
  lemma CancelledRowIsCandidate(d: Db, i: nat, k: nat)
    requires i < |d.assignments| && k < |d.checklists|
    requires d.assignments[i].status == Cancelled && d.assignments[i].completedAt.None?
    requires d.checklists[k].id == d.assignments[i].checklistId
    ensures IsCompletionCandidate(d, i, d.assignments[i].userId, d.checklists[k].filename)
    ensures MarkCompleted(d, i, 0).assignments[i].status == Completed
  {
  }

  // ---------------------------------------------------------------------
  // Logging in through the web form

  datatype WebLoginOutcome =
    | LoginRejected(flash: string)      // back to /login-page
    | LoggedIn(redirectTo: string)

  const LoginFailedMessage: string := "Login failed. Please try again."

  /**
   * `POST /login-page`. The strategy's verdict is given: the user it
   * accepted, or the message it rejected with. A rejection changes nothing;
   * an accepted user gets a rotation run and is sent to `returnTo`, or to
   * `/dashboard` when there is none.
   */
  ghost predicate WebLoginPost(d: Db, d2: Db, verdict: Option<User>, info: Option<string>,
                               returnTo: Option<string>, now: Time, startOfToday: Time, newId: Id,
                               r: WebLoginOutcome) {
    if verdict.None? then
      d2 == d && r == LoginRejected(if Present(info) then info.value else LoginFailedMessage)
    else
      && r == LoggedIn(if Present(returnTo) then returnTo.value else "/dashboard")
      && exists next: Option<Assignment> :: AssignNextPost(d, d2, verdict.value, now, startOfToday, newId, next)
  }

  method WebLogin(store: Store, verdict: Option<User>, info: Option<string>, returnTo: Option<string>,
                  now: Time, startOfToday: Time, newId: Id)
    returns (r: WebLoginOutcome)
    requires store.Valid() && newId !in AssignmentIds(store.assignments)
    requires verdict.Some? ==> verdict.value in store.users
    modifies store
    ensures store.Valid()
    ensures WebLoginPost(old(store.State()), store.State(), verdict, info, returnTo, now, startOfToday, newId, r)
  {
    if verdict.None? {
      return LoginRejected(if Present(info) then info.value else LoginFailedMessage);
    }
    var captured := returnTo;
    var next := store.AssignNextChecklist(verdict.value, now, startOfToday, newId);
    r := LoggedIn(if Present(captured) then captured.value else "/dashboard");
  }

  /**
   * Once a login has left the user an open row, logging in again changes
   * nothing and redirects to the same place.
   */
  lemma SecondLoginKeepsStore(d: Db, d2: Db, d3: Db, user: User, returnTo: Option<string>,
                              now: Time, now2: Time, startOfToday: Time, startOfToday2: Time,
                              newId: Id, newId2: Id, r: WebLoginOutcome, r2: WebLoginOutcome)
    requires WebLoginPost(d, d2, Some(user), None, returnTo, now, startOfToday, newId, r)
    requires WebLoginPost(d2, d3, Some(user), None, returnTo, now2, startOfToday2, newId2, r2)
    requires HasActive(d2.assignments, user.id)
    ensures d3 == d2 && r2 == r
  {
  }

  // ---------------------------------------------------------------------
  // Marking a submission validated

  /**
   * The first name a supervisor is looked up by:
   * `(name || '').split(' ')[0] || name`. An absent name gives `None`: the
   * lookup is then made with an undefined value, which the ORM rejects with
   * an error.
   */
  function SupervisorFirstName(name: Option<string>): (r: Option<string>)
    ensures r.None? <==> name.None?
    ensures r.Some? ==> ' ' !in r.value || r.value == name.value
    ensures r.Some? ==> StartsWith(name.value, r.value)
    ensures r.Some? ==>
      (r.value == name.value || (r.value != "" && |r.value| < |name.value| && name.value[|r.value|] == ' '))
  {
    match name
    case None => None
    case Some(n) =>
      var t := Split(n, ' ')[0];
      SplitHead(n, ' ');
      if t != "" then Some(t) else Some(n)
  }

  /** A single word is its own first name. */
  lemma FirstNameOfOneWord(n: string)
    requires n != "" && ' ' !in n
    ensures SupervisorFirstName(Some(n)) == Some(n)
  {
    SplitHead(n, ' ');
    assert IndexOf(n, ' ') == |n|;
  }

  /**
   * A name whose first space follows a non-empty word is looked up by that
   * word: `"Jane Doe"` by `"Jane"`.
   */
  lemma FirstNameIsFirstWord(n: string, p: nat)
    requires 0 < p < |n| && n[p] == ' ' && ' ' !in n[..p]
    ensures SupervisorFirstName(Some(n)) == Some(n[..p])
  {
    SplitHead(n, ' ');
  }

  /** Row `i` is a `completed` row whose submission file is `filename`. */
  predicate IsValidationTarget(d: Db, i: int, filename: string) {
    0 <= i < |d.assignments| && d.assignments[i].submissionDataFilePath == Some(filename) && d.assignments[i].status == Completed
  }

  predicate HasValidationTarget(d: Db, filename: string) {
    exists i :: 0 <= i < |d.assignments| && IsValidationTarget(d, i, filename)
  }

  /** User `k` is an admin with this first name. */
  predicate IsSupervisor(us: seq<User>, k: int, firstName: string) {
    0 <= k < |us| && us[k].firstName == firstName && us[k].isAdmin
  }

  predicate HasSupervisor(us: seq<User>, firstName: string) {
    exists k :: 0 <= k < |us| && IsSupervisor(us, k, firstName)
  }

  /** `validator` is the id of some admin with this first name, or absent when there is none. */
  ghost predicate ValidatorFits(us: seq<User>, firstName: string, validator: Option<Id>) {
    if HasSupervisor(us, firstName) then
      validator.Some? && exists k :: IsSupervisor(us, k, firstName) && us[k].id == validator.value
    else
      validator.None?
  }

  /** Row `i` moved to `validated` and `approved` at `now`, attributed to `validator`. */
  function ValidateRow(d: Db, i: nat, now: Time, validator: Option<Id>): Db
    requires i < |d.assignments|
  {
    Db(d.users, d.checklists, d.assignments[i := d.assignments[i].(
      status := Validated, validatedAt := Some(now), validatedByUserId := validator, validationStatus := Some(Approved))])
  }

  /**
   * `markAssignmentValidated(fileId, auditorName)`: `false` and no change
   * when no `completed` row has the file or the supervisor lookup fails;
   * otherwise some such row becomes `validated`, attributed to some admin
   * with the looked-up first name, or to nobody when there is none.
   */
  ghost predicate MarkValidatedPost(d: Db, d2: Db, fileId: string, auditorName: Option<string>, now: Time, ok: bool) {
    var f := SubmissionFileName(fileId);
    if !HasValidationTarget(d, f) || auditorName.None? then
      d2 == d && !ok
    else
      var first := SupervisorFirstName(auditorName).value;
      ok && exists i, validator :: (IsValidationTarget(d, i, f) && ValidatorFits(d.users, first, validator)
        && d2 == ValidateRow(d, i, now, validator))
  }

  method MarkAssignmentValidated(store: Store, fileId: string, auditorName: Option<string>, now: Time)
    returns (ok: bool)
    requires store.Valid()
    modifies store
    ensures store.Valid()
    ensures MarkValidatedPost(old(store.State()), store.State(), fileId, auditorName, now, ok)
  {
    var filename := SubmissionFileName(fileId);
    if !HasValidationTarget(store.State(), filename) {
      return false;
    }
    var i :| 0 <= i < |store.assignments| && IsValidationTarget(store.State(), i, filename);
    var first := SupervisorFirstName(auditorName);
    if first.None? {
      return false;
    }
    var validator: Option<Id> := None;
    if HasSupervisor(store.users, first.value) {
      var k :| 0 <= k < |store.users| && IsSupervisor(store.users, k, first.value);
      validator := Some(store.users[k].id);
    }
    var d := store.State();
    assert ValidatorFits(d.users, first.value, validator);
    assert IsValidationTarget(d, i, filename);
    var row := store.assignments[i].(status := Validated, validatedAt := Some(now), validatedByUserId := validator,
                                     validationStatus := Some(Approved));
    UpdateRowPreservesInv(d, i, row);
    store.Commit(Db(d.users, d.checklists, d.assignments[i := row]));
    ok := true;
  }

  /**
   * When one row carries the file, a second validation of it finds no
   * `completed` row: it returns `false` and changes nothing.
   */
  lemma ValidatedAtMostOnce(d: Db, d2: Db, d3: Db, fileId: string, name: Option<string>, name2: Option<string>,
                            now: Time, now2: Time, ok2: bool)
    requires forall i, j ::
      (IsValidationTarget(d, i, SubmissionFileName(fileId)) && IsValidationTarget(d, j, SubmissionFileName(fileId))) ==> i == j
    requires MarkValidatedPost(d, d2, fileId, name, now, true)
    requires MarkValidatedPost(d2, d3, fileId, name2, now2, ok2)
    ensures !ok2 && d3 == d2
  {
    var f := SubmissionFileName(fileId);
    var first := SupervisorFirstName(name).value;
    var i, validator :| IsValidationTarget(d, i, f) && ValidatorFits(d.users, first, validator)
      && d2 == ValidateRow(d, i, now, validator);
    assert d2.assignments[i].status == Validated;
    forall j | 0 <= j < |d2.assignments| ensures !IsValidationTarget(d2, j, f) {
      assert d2.assignments[j] == if j == i then d2.assignments[i] else d.assignments[j];
      assert !IsValidationTarget(d, j, f) || j == i;
    }
    assert !HasValidationTarget(d2, f);
  }

  // ---------------------------------------------------------------------
  // The dashboard

  /** The dashboard's rows of `uid`: not completed and `assigned`. */
  function DashboardRows(rows: seq<Assignment>, uid: Id): (r: seq<Assignment>)
    ensures forall a :: a in r <==> a in rows && IsActiveFor(a, uid) && a.completedAt.None?
    ensures multiset(r) <= multiset(rows)
    ensures |r| <= CountActive(rows, uid)
  {
    if rows == [] then []
    else
      var init := rows[..|rows| - 1];
      var last := rows[|rows| - 1];
      var rest := DashboardRows(init, uid);
      assert rows == init + [last];
      if IsActiveFor(last, uid) && last.completedAt.None? then rest + [last] else rest
  }

  /** `GET /dashboard`: the user's open rows, newest first; under the invariant there is at most one. */
  method Dashboard(store: Store, uid: Id) returns (r: seq<Assignment>)
    requires store.Valid()
    ensures SortedBy(r, NewestFirst())
    ensures forall a :: a in r <==> a in store.assignments && IsActiveFor(a, uid) && a.completedAt.None?
    ensures |r| <= 1
  {
    var rows := DashboardRows(store.assignments, uid);
    r := InsertionSort(rows, NewestFirst());
    NewestFirstIsPreorder();
    InsertionSortCorrect(rows, NewestFirst());
    SameMembers(r, rows);
    assert |r| == |multiset(r)| == |multiset(rows)| == |rows|;
  }
}
