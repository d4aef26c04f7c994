/**
 * The checklist-assignment engine of `dhl_login/utils/assignmentLogic.js`
 * over an in-memory database. `Db` is a snapshot of the three tables;
 * `Store` holds them as fields that its methods update the way the ORM calls
 * do. The headline invariant `Inv` says, among referential facts, that no
 * user has two `assigned` rows and that no admin has one.
 */
module Engine {
  import opened Wrappers
  import opened Models
  import opened Sorting
  import Validation

  /** 24 hours in milliseconds. */
  const DayMs: int := 86_400_000

  datatype Db = Db(users: seq<User>, checklists: seq<Checklist>, assignments: seq<Assignment>)

  // ---------------------------------------------------------------------
  // Keys and lookups

  function UserIds(us: seq<User>): seq<Id> {
    seq(|us|, i requires 0 <= i < |us| => us[i].id)
  }

  function Usernames(us: seq<User>): seq<string> {
    seq(|us|, i requires 0 <= i < |us| => us[i].username)
  }

  function ChecklistIds(cs: seq<Checklist>): seq<Id> {
    seq(|cs|, i requires 0 <= i < |cs| => cs[i].id)
  }

  function Filenames(cs: seq<Checklist>): seq<string> {
    seq(|cs|, i requires 0 <= i < |cs| => cs[i].filename)
  }

  function AssignmentIds(rows: seq<Assignment>): seq<Id> {
    seq(|rows|, i requires 0 <= i < |rows| => rows[i].id)
  }

  predicate Distinct<T(==)>(xs: seq<T>) {
    forall i, j :: 0 <= i < j < |xs| ==> xs[i] != xs[j]
  }

  /** The first position of `x` in `xs` (a primary-key lookup, `findByPk`). */
  function Find<T(==)>(xs: seq<T>, x: T): (r: Option<nat>)
    ensures r.Some? ==> r.value < |xs| && xs[r.value] == x
    ensures r.None? <==> x !in xs
  {
    if xs == [] then None
    else if xs[0] == x then Some(0)
    else match Find(xs[1..], x)
      case None => None
      case Some(k) => Some(k + 1)
  }

  function FindUser(us: seq<User>, id: Id): (r: Option<nat>)
    ensures r.Some? ==> r.value < |us| && us[r.value].id == id
    ensures r.None? <==> id !in UserIds(us)
  {
    Find(UserIds(us), id)
  }

  function FindChecklist(cs: seq<Checklist>, id: Id): (r: Option<nat>)
    ensures r.Some? ==> r.value < |cs| && cs[r.value].id == id
    ensures r.None? <==> id !in ChecklistIds(cs)
  {
    Find(ChecklistIds(cs), id)
  }

  /** The user with primary key `id` exists and is an admin. */
  predicate IsAdminId(us: seq<User>, id: Id) {
    exists k :: 0 <= k < |us| && us[k].id == id && us[k].isAdmin
  }

  /** The row is one of `uid`'s active (`assigned`) rows. */
  predicate IsActiveFor(a: Assignment, uid: Id) {
    a.userId == uid && a.status == Assigned
  }

  predicate HasActive(rows: seq<Assignment>, uid: Id) {
    exists i :: 0 <= i < |rows| && IsActiveFor(rows[i], uid)
  }

  /** The number of `assigned` rows of user `uid`. */
  function CountActive(rows: seq<Assignment>, uid: Id): nat {
    if rows == [] then 0
    else CountActive(rows[..|rows| - 1], uid) + (if IsActiveFor(rows[|rows| - 1], uid) then 1 else 0)
  }

  // ---------------------------------------------------------------------
  // The database invariant

  predicate ReferencesValid(d: Db) {
    forall i :: 0 <= i < |d.assignments| ==>
      d.assignments[i].userId in UserIds(d.users) && d.assignments[i].checklistId in ChecklistIds(d.checklists)
  }

  ghost predicate SingleActive(rows: seq<Assignment>) {
    forall uid :: CountActive(rows, uid) <= 1
  }

  predicate NoAdminActive(d: Db) {
    forall i :: 0 <= i < |d.assignments| && d.assignments[i].status == Assigned ==>
      !IsAdminId(d.users, d.assignments[i].userId)
  }

  /**
   * Primary keys and the unique columns are distinct, every assignment
   * references an existing user and checklist, no user has more than one
   * `assigned` row, and no admin has any.
   */
  ghost predicate Inv(d: Db) {
    && Distinct(UserIds(d.users)) && Distinct(Usernames(d.users))
    && Distinct(ChecklistIds(d.checklists)) && Distinct(Filenames(d.checklists))
    && Distinct(AssignmentIds(d.assignments))
    && ReferencesValid(d)
    && SingleActive(d.assignments)
    && NoAdminActive(d)
  }

  // ---------------------------------------------------------------------
  // Counting active rows

  lemma {:induction false} CountActiveZero(rows: seq<Assignment>, uid: Id)
    ensures CountActive(rows, uid) == 0 <==> !HasActive(rows, uid)
  {
    if rows != [] {
      var init := rows[..|rows| - 1];
      CountActiveZero(init, uid);
      if HasActive(init, uid) {
        var i :| 0 <= i < |init| && IsActiveFor(init[i], uid);
        assert IsActiveFor(rows[i], uid);
      }
      if HasActive(rows, uid) && !IsActiveFor(rows[|rows| - 1], uid) {
        var i :| 0 <= i < |rows| && IsActiveFor(rows[i], uid);
        assert IsActiveFor(init[i], uid);
      }
    }
  }

  lemma {:induction false} CountActiveAppend(rows: seq<Assignment>, a: Assignment, uid: Id)
    ensures CountActive(rows + [a], uid) == CountActive(rows, uid) + (if IsActiveFor(a, uid) then 1 else 0)
  {
    assert (rows + [a])[..|rows|] == rows;
  }

  lemma {:induction false} CountActiveUpdate(rows: seq<Assignment>, i: nat, a: Assignment, uid: Id)
    requires i < |rows|
    ensures CountActive(rows[i := a], uid) + (if IsActiveFor(rows[i], uid) then 1 else 0)
         == CountActive(rows, uid) + (if IsActiveFor(a, uid) then 1 else 0)
  {
    var n := |rows| - 1;
    if i < n {
      CountActiveUpdate(rows[..n], i, a, uid);
      assert rows[i := a][..n] == rows[..n][i := a];
    } else {
      assert rows[i := a][..n] == rows[..n];
    }
  }

  /** Two different active rows of one user make the count at least two. */
  lemma {:induction false} TwoActiveCount(rows: seq<Assignment>, i: nat, j: nat, uid: Id)
    requires i < j < |rows| && IsActiveFor(rows[i], uid) && IsActiveFor(rows[j], uid)
    ensures CountActive(rows, uid) >= 2
  {
    var n := |rows| - 1;
    var init := rows[..n];
    if j < n {
      TwoActiveCount(init, i, j, uid);
    } else {
      assert IsActiveFor(init[i], uid);
      CountActiveZero(init, uid);
    }
  }

  /** Under the invariant a user's active row, if any, is unique. */
  lemma ActiveRowUnique(d: Db, i: nat, j: nat, uid: Id)
    requires Inv(d)
    requires i < |d.assignments| && j < |d.assignments|
    requires IsActiveFor(d.assignments[i], uid) && IsActiveFor(d.assignments[j], uid)
    ensures i == j
  {
    if i < j { TwoActiveCount(d.assignments, i, j, uid); }
    if j < i { TwoActiveCount(d.assignments, j, i, uid); }
  }

  // ---------------------------------------------------------------------
  // Preserving the invariant, one row or one column at a time

  /** `cs` with the `lastAssignedAt` of checklist `k` set to `t`. */
  function StampChecklist(cs: seq<Checklist>, k: nat, t: Option<Time>): (r: seq<Checklist>)
    requires k < |cs|
    ensures |r| == |cs| && ChecklistIds(r) == ChecklistIds(cs) && Filenames(r) == Filenames(cs)
  {
    var r := cs[k := cs[k].(lastAssignedAt := t)];
    assert ChecklistIds(r) == ChecklistIds(cs);
    assert Filenames(r) == Filenames(cs);
    r
  }

  lemma StampPreservesInv(d: Db, k: nat, t: Option<Time>)
    requires Inv(d) && k < |d.checklists|
    ensures Inv(Db(d.users, StampChecklist(d.checklists, k, t), d.assignments))
  {
  }

  /**
   * Rewriting a row keeps the invariant when the keys and references stay and
   * the row does not become `assigned`.
   */
  lemma UpdateRowPreservesInv(d: Db, i: nat, a: Assignment)
    requires Inv(d) && i < |d.assignments|
    requires a.id == d.assignments[i].id && a.userId == d.assignments[i].userId
    requires a.checklistId == d.assignments[i].checklistId
    requires a.status == Assigned ==> d.assignments[i].status == Assigned
    ensures Inv(Db(d.users, d.checklists, d.assignments[i := a]))
  {
    var rows := d.assignments[i := a];
    assert AssignmentIds(rows) == AssignmentIds(d.assignments);
    forall uid ensures CountActive(rows, uid) <= 1 {
      CountActiveUpdate(d.assignments, i, a, uid);
    }
  }

  /** Adding a row keeps the invariant for a fresh id and a non-admin user with no active row. */
  lemma AppendActivePreservesInv(d: Db, a: Assignment)
    requires Inv(d)
    requires a.id !in AssignmentIds(d.assignments)
    requires a.userId in UserIds(d.users) && !IsAdminId(d.users, a.userId)
    requires a.checklistId in ChecklistIds(d.checklists)
    requires !HasActive(d.assignments, a.userId)
    ensures Inv(Db(d.users, d.checklists, d.assignments + [a]))
  {
    var rows := d.assignments + [a];
    assert AssignmentIds(rows) == AssignmentIds(d.assignments) + [a.id];
    CountActiveZero(d.assignments, a.userId);
    forall uid ensures CountActive(rows, uid) <= 1 {
      CountActiveAppend(d.assignments, a, uid);
    }
  }

  /** Rewriting a user's other columns keeps the invariant when its id, username and role stay. */
  lemma UpdateUserPreservesInv(d: Db, k: nat, u: User)
    requires Inv(d) && k < |d.users|
    requires u.id == d.users[k].id && u.username == d.users[k].username && u.isAdmin == d.users[k].isAdmin
    ensures Inv(Db(d.users[k := u], d.checklists, d.assignments))
  {
    var us := d.users[k := u];
    assert UserIds(us) == UserIds(d.users);
    assert Usernames(us) == Usernames(d.users);
    forall id ensures IsAdminId(us, id) == IsAdminId(d.users, id) {
      if IsAdminId(d.users, id) {
        var j :| 0 <= j < |d.users| && d.users[j].id == id && d.users[j].isAdmin;
        assert us[j].id == id && us[j].isAdmin;
      }
      if IsAdminId(us, id) {
        var j :| 0 <= j < |us| && us[j].id == id && us[j].isAdmin;
        assert d.users[j].id == id && d.users[j].isAdmin;
      }
    }
  }

  /** Adding a non-admin user with a fresh id and a fresh username keeps the invariant. */
  lemma AppendUserPreservesInv(d: Db, u: User)
    requires Inv(d)
    requires u.id !in UserIds(d.users) && u.username !in Usernames(d.users) && !u.isAdmin
    ensures Inv(Db(d.users + [u], d.checklists, d.assignments))
  {
    var us := d.users + [u];
    assert UserIds(us) == UserIds(d.users) + [u.id];
    assert Usernames(us) == Usernames(d.users) + [u.username];
    forall id ensures IsAdminId(us, id) == IsAdminId(d.users, id) {
      if IsAdminId(us, id) {
        var j :| 0 <= j < |us| && us[j].id == id && us[j].isAdmin;
        assert j < |d.users| && d.users[j] == us[j];
      }
      if IsAdminId(d.users, id) {
        var j :| 0 <= j < |d.users| && d.users[j].id == id && d.users[j].isAdmin;
        assert us[j] == d.users[j];
      }
    }
    forall i | 0 <= i < |d.assignments| ensures d.assignments[i].userId in UserIds(us) {
      assert d.assignments[i].userId in UserIds(d.users);
    }
  }

  // ---------------------------------------------------------------------
  // Rotation: which checklist `assignNextChecklist` may pick

  /** The `findOne` filter: a daily checklist never assigned or last assigned before today. */
  predicate Eligible(c: Checklist, startOfToday: Time) {
    c.checklistType == Daily && (c.lastAssignedAt.None? || c.lastAssignedAt.value < startOfToday)
  }

  /** `c` sorts strictly before `e` under `lastAssignedAt ASC NULLS FIRST`. */
  predicate RanksBefore(c: Checklist, e: Checklist) {
    match (c.lastAssignedAt, e.lastAssignedAt)
    case (None, Some(_)) => true
    case (Some(x), Some(y)) => x < y
    case _ => false
  }

  predicate AnyEligible(cs: seq<Checklist>, startOfToday: Time) {
    exists j :: 0 <= j < |cs| && Eligible(cs[j], startOfToday)
  }

  /** Checklist `k` is eligible and no eligible checklist ranks before it. */
  predicate IsFairestPick(cs: seq<Checklist>, k: int, startOfToday: Time) {
    && 0 <= k < |cs| && Eligible(cs[k], startOfToday)
    && forall j :: 0 <= j < |cs| && Eligible(cs[j], startOfToday) ==> !RanksBefore(cs[j], cs[k])
  }

  /** Whenever some checklist is eligible, a fairest one exists. */
  lemma {:induction false} ExistsFairestPick(cs: seq<Checklist>, startOfToday: Time)
    requires AnyEligible(cs, startOfToday)
    ensures exists k :: IsFairestPick(cs, k, startOfToday)
  {
    var n := |cs| - 1;
    var init := cs[..n];
    if !AnyEligible(init, startOfToday) {
      forall j | 0 <= j < |cs| && Eligible(cs[j], startOfToday) ensures j == n {
      }
      assert IsFairestPick(cs, n, startOfToday);
    } else {
      ExistsFairestPick(init, startOfToday);
      var k :| IsFairestPick(init, k, startOfToday);
      if Eligible(cs[n], startOfToday) && RanksBefore(cs[n], cs[k]) {
        forall j | 0 <= j < |cs| && Eligible(cs[j], startOfToday) ensures !RanksBefore(cs[j], cs[n]) {
          if j < n { assert Eligible(init[j], startOfToday) && !RanksBefore(init[j], init[k]); }
        }
        assert IsFairestPick(cs, n, startOfToday);
      } else {
        forall j | 0 <= j < |cs| && Eligible(cs[j], startOfToday) ensures !RanksBefore(cs[j], cs[k]) {
          if j < n { assert Eligible(init[j], startOfToday); }
        }
        assert IsFairestPick(cs, k, startOfToday);
      }
    }
  }

  /** A never-assigned eligible checklist beats every assigned one. */
  lemma FairestPrefersNeverAssigned(cs: seq<Checklist>, k: nat, j: nat, startOfToday: Time)
    requires IsFairestPick(cs, k, startOfToday)
    requires j < |cs| && Eligible(cs[j], startOfToday) && cs[j].lastAssignedAt.None?
    ensures cs[k].lastAssignedAt.None?
  {
    assert !RanksBefore(cs[j], cs[k]);
  }

  /** Among assigned eligible checklists, the pick has the oldest `lastAssignedAt`. */
  lemma FairestIsOldest(cs: seq<Checklist>, k: nat, j: nat, startOfToday: Time)
    requires IsFairestPick(cs, k, startOfToday)
    requires j < |cs| && Eligible(cs[j], startOfToday) && cs[j].lastAssignedAt.Some?
    ensures cs[k].lastAssignedAt.Some? ==> cs[k].lastAssignedAt.value <= cs[j].lastAssignedAt.value
  {
    assert !RanksBefore(cs[j], cs[k]);
  }

  /** Row `i` is an active row of `uid` with the latest `assignedAt` (`order: assignedAt DESC`). */
  predicate IsLatestActive(rows: seq<Assignment>, i: int, uid: Id) {
    && 0 <= i < |rows| && IsActiveFor(rows[i], uid)
    && forall j :: 0 <= j < |rows| && IsActiveFor(rows[j], uid) ==> rows[j].assignedAt <= rows[i].assignedAt
  }

  lemma {:induction false} ExistsLatestActive(rows: seq<Assignment>, uid: Id)
    requires HasActive(rows, uid)
    ensures exists i :: IsLatestActive(rows, i, uid)
  {
    var n := |rows| - 1;
    var init := rows[..n];
    if !HasActive(init, uid) {
      forall j | 0 <= j < |rows| && IsActiveFor(rows[j], uid) ensures j == n {
      }
      assert IsLatestActive(rows, n, uid);
    } else {
      ExistsLatestActive(init, uid);
      var i :| IsLatestActive(init, i, uid);
      if IsActiveFor(rows[n], uid) && rows[n].assignedAt > rows[i].assignedAt {
        forall j | 0 <= j < |rows| && IsActiveFor(rows[j], uid) ensures rows[j].assignedAt <= rows[n].assignedAt {
          if j < n { assert IsActiveFor(init[j], uid); }
        }
        assert IsLatestActive(rows, n, uid);
      } else {
        forall j | 0 <= j < |rows| && IsActiveFor(rows[j], uid) ensures rows[j].assignedAt <= rows[i].assignedAt {
          if j < n { assert IsActiveFor(init[j], uid); }
        }
        assert IsLatestActive(rows, i, uid);
      }
    }
  }

  /**
   * What `assignNextChecklist(user)` may do to the database `d`, giving `d2`
   * and result `r`: nothing for an admin; return the latest active row
   * unchanged; pick a fairest eligible checklist, add one automatic row for it
   * and stamp it with `now`; or return nothing when no checklist is eligible.
   */
  ghost predicate AssignNextPost(d: Db, d2: Db, user: User, now: Time, startOfToday: Time, newId: Id,
                                 r: Option<Assignment>) {
    if user.isAdmin then
      d2 == d && r.None?
    else if HasActive(d.assignments, user.id) then
      d2 == d && exists i :: IsLatestActive(d.assignments, i, user.id) && r == Some(d.assignments[i])
    else if !AnyEligible(d.checklists, startOfToday) then
      d2 == d && r.None?
    else
      exists k :: IsFairestPick(d.checklists, k, startOfToday) &&
        var row := NewAssignment(newId, user.id, d.checklists[k].id, now, None);
        && r == Some(row)
        && d2 == Db(d.users, StampChecklist(d.checklists, k, Some(now)), d.assignments + [row])
  }

  // ---------------------------------------------------------------------
  // Manual assignment

  /** The summary returned with a blocking row. */
  datatype RowSummary = RowSummary(id: Id, checklistTitle: string, at: Time)

  datatype ManualError =
    | MissingParameters
    | InvalidUserId
    | InvalidChecklistId
    | InvalidAdminUserId
    | SelfAssignment
    | AdminNotFound
    | NotAdmin
    | TargetNotFound
    | TargetIsAdmin
    | ChecklistNotFound
    | ActiveAssignmentExists(existing: RowSummary)
    | RecentlyCompleted(recent: RowSummary)

  datatype ManualResult =
    | ManualSuccess(assignment: Assignment, message: string, overridePerformed: bool)
    | ManualFailure(error: ManualError)

  function ErrorText(e: ManualError, completedOn: string): string {
    match e
    case MissingParameters => "Missing required parameters: userId, checklistId, and adminUserId are required"
    case InvalidUserId => "Invalid userId format"
    case InvalidChecklistId => "Invalid checklistId format"
    case InvalidAdminUserId => "Invalid adminUserId format"
    case SelfAssignment => "Administrators cannot assign checklists to themselves"
    case AdminNotFound => "Admin user not found"
    case NotAdmin => "User does not have admin privileges"
    case TargetNotFound => "Target user not found"
    case TargetIsAdmin => "Cannot assign checklists to admin users"
    case ChecklistNotFound => "Checklist not found"
    case ActiveAssignmentExists(a) =>
      "User already has an active assignment: \"" + a.checklistTitle + "\". Use override option to replace it."
    case RecentlyCompleted(a) =>
      "User recently completed this checklist \"" + a.checklistTitle + "\" on " + completedOn
      + ". Consider assigning a different checklist or use override option."
  }

  /** JavaScript truthiness of an optional string parameter. */
  predicate Present(s: Option<string>) {
    s.Some? && s.value != ""
  }

  /** The user with this id exists and is not an admin. */
  predicate IsNonAdminId(us: seq<User>, id: Id) {
    exists k :: 0 <= k < |us| && us[k].id == id && !us[k].isAdmin
  }

  /**
   * The validation chain that runs before any lookup of assignments, in the
   * source's order; the first failing check is reported.
   */
  function CheckManualRequest(d: Db, userId: Option<string>, checklistId: Option<string>,
                              adminUserId: Option<string>): (e: Option<ManualError>)
    requires Distinct(UserIds(d.users))
    ensures e.None? <==>
      && Present(userId) && Present(checklistId) && Present(adminUserId)
      && Validation.IsValidUuid(userId.value) && Validation.IsValidUuid(checklistId.value)
      && Validation.IsValidUuid(adminUserId.value)
      && userId.value != adminUserId.value
      && IsAdminId(d.users, adminUserId.value)
      && IsNonAdminId(d.users, userId.value)
      && checklistId.value in ChecklistIds(d.checklists)
  {
    if !Present(userId) || !Present(checklistId) || !Present(adminUserId) then Some(MissingParameters)
    else if !Validation.IsValidUuid(userId.value) then Some(InvalidUserId)
    else if !Validation.IsValidUuid(checklistId.value) then Some(InvalidChecklistId)
    else if !Validation.IsValidUuid(adminUserId.value) then Some(InvalidAdminUserId)
    else if userId.value == adminUserId.value then Some(SelfAssignment)
    else
      match FindUser(d.users, adminUserId.value)
      case None =>
        assert !IsAdminId(d.users, adminUserId.value) by { AbsentId(d.users, adminUserId.value); }
        Some(AdminNotFound)
      case Some(a) =>
        if !d.users[a].isAdmin then
          assert !IsAdminId(d.users, adminUserId.value) by { DistinctKey(d.users, a); }
          Some(NotAdmin)
        else
          match FindUser(d.users, userId.value)
          case None =>
            assert !IsNonAdminId(d.users, userId.value) by { AbsentId(d.users, userId.value); }
            Some(TargetNotFound)
          case Some(t) =>
            if d.users[t].isAdmin then
              assert !IsNonAdminId(d.users, userId.value) by { DistinctKey(d.users, t); }
              Some(TargetIsAdmin)
            else if FindChecklist(d.checklists, checklistId.value).None? then Some(ChecklistNotFound)
            else None
  }

  /** No user row carries an id missing from the key column. */
  lemma AbsentId(us: seq<User>, id: Id)
    requires id !in UserIds(us)
    ensures !IsAdminId(us, id) && !IsNonAdminId(us, id)
  {
    forall k | 0 <= k < |us| ensures us[k].id != id {
      assert UserIds(us)[k] == us[k].id;
    }
  }

  /** With distinct ids, a row carrying a given id is the only one. */
  lemma DistinctKey(us: seq<User>, k: nat)
    requires Distinct(UserIds(us)) && k < |us|
    ensures forall j :: 0 <= j < |us| && us[j].id == us[k].id ==> j == k
  {
    forall j | 0 <= j < |us| && us[j].id == us[k].id ensures j == k {
      assert UserIds(us)[j] == UserIds(us)[k];
    }
  }

  /** Row `j` is a completion of this checklist by this user within the last 24 hours. */
  predicate IsRecentCompletion(rows: seq<Assignment>, j: int, uid: Id, cid: Id, now: Time) {
    && 0 <= j < |rows|
    && rows[j].userId == uid && rows[j].checklistId == cid && rows[j].status == Completed
    && rows[j].completedAt.Some? && rows[j].completedAt.value >= now - DayMs
  }

  predicate HasRecentCompletion(rows: seq<Assignment>, uid: Id, cid: Id, now: Time) {
    exists j :: 0 <= j < |rows| && IsRecentCompletion(rows, j, uid, cid, now)
  }

  /** The title of checklist `id`, or `""` when there is none. */
  function TitleOf(cs: seq<Checklist>, id: Id): string {
    match FindChecklist(cs, id)
    case None => ""
    case Some(k) => cs[k].title
  }

  function SuccessMessage(title: string, target: User): string {
    "Successfully assigned \"" + title + "\" to " + target.firstName + " " + target.lastName
  }

  /** The override: row `i` cancelled by the admin at `now` and its checklist re-queued. */
  function CancelRow(d: Db, i: nat, adminId: Id, now: Time): (d2: Db)
    requires i < |d.assignments|
    ensures |d2.checklists| == |d.checklists|
  {
    var prior := d.assignments[i];
    var rows := d.assignments[i := prior.(status := Cancelled, validatedAt := Some(now), validatedByUserId := Some(adminId))];
    match FindChecklist(d.checklists, prior.checklistId)
    case None => Db(d.users, d.checklists, rows)
    case Some(k) => Db(d.users, StampChecklist(d.checklists, k, None), rows)
  }

  /** The new manual row added and checklist `k` stamped with `now`. */
  function AddManualRow(d: Db, row: Assignment, k: nat, now: Time): Db
    requires k < |d.checklists|
  {
    Db(d.users, StampChecklist(d.checklists, k, Some(now)), d.assignments + [row])
  }

  /**
   * What `manuallyAssignChecklist` may do: report the first failing check;
   * without override, block on an active row or a completion of the same
   * checklist in the last 24 hours; otherwise cancel the active row (if any),
   * re-queue its checklist, add a row assigned by the admin and stamp the
   * chosen checklist. Every failure leaves the database unchanged.
   */
  ghost predicate ManualAssignPost(d: Db, d2: Db, userId: Option<string>, checklistId: Option<string>,
                                   adminUserId: Option<string>, overrideExisting: bool, now: Time,
                                   newId: Id, r: ManualResult)
    requires Distinct(UserIds(d.users))
  {
    var pre := CheckManualRequest(d, userId, checklistId, adminUserId);
    if pre.Some? then
      d2 == d && r == ManualFailure(pre.value)
    else
      var uid := userId.value;
      var cid := checklistId.value;
      var aid := adminUserId.value;
      var k := FindChecklist(d.checklists, cid).value;
      var t := FindUser(d.users, uid).value;
      var row := NewAssignment(newId, uid, cid, now, Some(aid));
      var message := SuccessMessage(d.checklists[k].title, d.users[t]);
      if HasActive(d.assignments, uid) then
        exists i :: IsLatestActive(d.assignments, i, uid) &&
          if !overrideExisting then
            var prior := d.assignments[i];
            && d2 == d
            && r == ManualFailure(ActiveAssignmentExists(
                 RowSummary(prior.id, TitleOf(d.checklists, prior.checklistId), prior.assignedAt)))
          else
            && d2 == AddManualRow(CancelRow(d, i, aid, now), row, k, now)
            && r == ManualSuccess(row, message, true)
      else if !overrideExisting && HasRecentCompletion(d.assignments, uid, cid, now) then
        d2 == d &&
        exists j :: IsRecentCompletion(d.assignments, j, uid, cid, now) &&
          var done := d.assignments[j];
          r == ManualFailure(RecentlyCompleted(RowSummary(done.id, TitleOf(d.checklists, cid), done.completedAt.value)))
      else
        && d2 == AddManualRow(d, row, k, now)
        && r == ManualSuccess(row, message, false)
  }

  // ---------------------------------------------------------------------
  // Queries

  /** The `where` clause `getCurrentAssignments` builds; `None` means no condition on that column. */
  datatype Where = Where(userId: Option<Id>, status: Option<string>, from: Option<Time>, to: Option<Time>)

  /**
   * The filters object. The two dates are already the local start of
   * `dateFrom` and the local end (23:59:59.999) of `dateTo`.
   */
  datatype Filters = Filters(userId: Option<string>, status: Option<string>, activeOnly: bool,
                             dateFrom: Option<Time>, dateTo: Option<Time>)

  /** What the filters ask of a row, read off the request. */
  predicate FilterHolds(f: Filters, a: Assignment) {
    && (Present(f.userId) ==> a.userId == f.userId.value)
    && (f.activeOnly ==> a.status == Assigned)
    && (!f.activeOnly && Present(f.status) ==> StatusName(a.status) == f.status.value)
    && (f.dateFrom.Some? ==> a.assignedAt >= f.dateFrom.value)
    && (f.dateTo.Some? ==> a.assignedAt <= f.dateTo.value)
  }

  /** The `where` clause built from the filters selects exactly the rows they ask for. */
  lemma WhereMeansFilters(f: Filters, w: Where)
    requires w.userId == (if Present(f.userId) then f.userId else None)
    requires w.status == (if f.activeOnly then Some(StatusName(Assigned)) else if Present(f.status) then f.status else None)
    requires w.from == f.dateFrom && w.to == f.dateTo
    ensures forall a :: RowMatches(w, a) <==> FilterHolds(f, a)
  {
    forall a ensures RowMatches(w, a) <==> FilterHolds(f, a) {
      ParseStatusName(a.status);
    }
  }

  predicate RowMatches(w: Where, a: Assignment) {
    && (w.userId.Some? ==> a.userId == w.userId.value)
    && (w.status.Some? ==> StatusName(a.status) == w.status.value)
    && (w.from.Some? ==> a.assignedAt >= w.from.value)
    && (w.to.Some? ==> a.assignedAt <= w.to.value)
  }

  /** The inner join on users with `isAdmin: false`. */
  predicate OwnerIsNonAdmin(us: seq<User>, a: Assignment) {
    IsNonAdminId(us, a.userId)
  }

  function FilterRows(d: Db, w: Where, rows: seq<Assignment>): (r: seq<Assignment>)
    ensures forall x :: x in r <==> x in rows && RowMatches(w, x) && OwnerIsNonAdmin(d.users, x)
    ensures multiset(r) <= multiset(rows)
  {
    if rows == [] then []
    else
      var rest := FilterRows(d, w, rows[1..]);
      assert rows == [rows[0]] + rows[1..];
      if RowMatches(w, rows[0]) && OwnerIsNonAdmin(d.users, rows[0]) then [rows[0]] + rest else rest
  }

  /** `order: [['assignedAt', 'DESC']]`. */
  function NewestFirst(): (Assignment, Assignment) -> bool {
    (a: Assignment, b: Assignment) => a.assignedAt >= b.assignedAt
  }

  /** Lexicographic order on strings, which is the text collation of the database. */
  predicate LexLe(a: string, b: string) {
    a == [] || (b != [] && (a[0] < b[0] || (a[0] == b[0] && LexLe(a[1..], b[1..]))))
  }

  lemma {:induction false} LexLeTotal(a: string, b: string)
    ensures LexLe(a, b) || LexLe(b, a)
  {
    if a != [] && b != [] && a[0] == b[0] { LexLeTotal(a[1..], b[1..]); }
  }

  lemma {:induction false} LexLeTransitive(a: string, b: string, c: string)
    requires LexLe(a, b) && LexLe(b, c)
    ensures LexLe(a, c)
  {
    if a != [] && b != [] && c != [] && a[0] == b[0] && b[0] == c[0] {
      LexLeTransitive(a[1..], b[1..], c[1..]);
    }
  }

  lemma {:induction false} LexLeAntisymmetric(a: string, b: string)
    requires LexLe(a, b) && LexLe(b, a)
    ensures a == b
  {
    if a != [] && b != [] {
      LexLeAntisymmetric(a[1..], b[1..]);
      assert a == [a[0]] + a[1..] && b == [b[0]] + b[1..];
    }
  }

  /** `order: [['firstName', 'ASC'], ['lastName', 'ASC']]`. */
  predicate ByName(u: User, v: User) {
    && LexLe(u.firstName, v.firstName)
    && (u.firstName == v.firstName ==> LexLe(u.lastName, v.lastName))
  }

  /** `order: [['type', 'ASC'], ['order', 'ASC']]`, the type compared as its stored text. */
  predicate ByTypeThenOrder(c: Checklist, e: Checklist) {
    && LexLe(TypeName(c.checklistType), TypeName(e.checklistType))
    && (c.checklistType == e.checklistType ==> c.order <= e.order)
  }

  lemma NewestFirstIsPreorder()
    ensures TotalPreorder(NewestFirst())
  {
  }

  lemma ByNameIsPreorder()
    ensures TotalPreorder(ByName)
  {
    forall u: User, v: User ensures ByName(u, v) || ByName(v, u) {
      LexLeTotal(u.firstName, v.firstName);
      LexLeTotal(u.lastName, v.lastName);
    }
    forall u: User, v: User, w: User | ByName(u, v) && ByName(v, w) ensures ByName(u, w) {
      LexLeTransitive(u.firstName, v.firstName, w.firstName);
      if u.firstName == w.firstName {
        LexLeAntisymmetric(u.firstName, v.firstName);
        LexLeTransitive(u.lastName, v.lastName, w.lastName);
      }
    }
  }

  lemma ByTypeThenOrderIsPreorder()
    ensures TotalPreorder(ByTypeThenOrder)
  {
    forall c: Checklist, e: Checklist ensures ByTypeThenOrder(c, e) || ByTypeThenOrder(e, c) {
      LexLeTotal(TypeName(c.checklistType), TypeName(e.checklistType));
    }
    forall c: Checklist, e: Checklist, f: Checklist | ByTypeThenOrder(c, e) && ByTypeThenOrder(e, f)
      ensures ByTypeThenOrder(c, f)
    {
      LexLeTransitive(TypeName(c.checklistType), TypeName(e.checklistType), TypeName(f.checklistType));
      if c.checklistType == f.checklistType {
        LexLeAntisymmetric(TypeName(c.checklistType), TypeName(e.checklistType));
        assert c.checklistType == e.checklistType by { ParseTypeName(c.checklistType); ParseTypeName(e.checklistType); }
      }
    }
  }

  /** Stored as text, the checklist types sort daily, quarterly, weekly. */
  lemma TypeTextOrder()
    ensures LexLe(TypeName(Daily), TypeName(Quarterly)) && !LexLe(TypeName(Quarterly), TypeName(Daily))
    ensures LexLe(TypeName(Quarterly), TypeName(Weekly)) && !LexLe(TypeName(Weekly), TypeName(Quarterly))
  {
  }

  function NonAdminUsers(us: seq<User>): (r: seq<User>)
    ensures forall u :: u in r <==> u in us && !u.isAdmin
    ensures multiset(r) <= multiset(us)
  {
    if us == [] then []
    else
      var rest := NonAdminUsers(us[1..]);
      assert us == [us[0]] + us[1..];
      if !us[0].isAdmin then [us[0]] + rest else rest
  }

  function ChecklistsOfType(cs: seq<Checklist>, t: Option<string>): (r: seq<Checklist>)
    ensures forall c :: c in r <==> c in cs && (t.Some? ==> TypeName(c.checklistType) == t.value)
    ensures multiset(r) <= multiset(cs)
  {
    if cs == [] then []
    else
      var rest := ChecklistsOfType(cs[1..], t);
      assert cs == [cs[0]] + cs[1..];
      if t.None? || TypeName(cs[0].checklistType) == t.value then [cs[0]] + rest else rest
  }

  // ---------------------------------------------------------------------
  // The store

  class Store {
    var users: seq<User>
    var checklists: seq<Checklist>
    var assignments: seq<Assignment>

    function State(): Db
      reads this
    {
      Db(users, checklists, assignments)
    }

    ghost predicate Valid()
      reads this
    {
      Inv(State())
    }

    constructor (d: Db)
      requires Inv(d)
      ensures State() == d && Valid()
    {
      users := d.users;
      checklists := d.checklists;
      assignments := d.assignments;
    }

    /** Writes the rows of `d` back to the tables. */
    method Commit(d: Db)
      requires Inv(d)
      modifies this
      ensures State() == d && Valid()
    {
      users, checklists, assignments := d.users, d.checklists, d.assignments;
    }

    /**
     * `assignNextChecklist(user)`: admins get nothing; an existing active row
     * is returned as is; otherwise the fairest eligible daily checklist gets a
     * new automatic row and its `lastAssignedAt` becomes `now`.
     */
    method AssignNextChecklist(user: User, now: Time, startOfToday: Time, newId: Id)
      returns (r: Option<Assignment>)
      requires Valid()
      requires user in users && newId !in AssignmentIds(assignments)
      modifies this
      ensures Valid()
      ensures AssignNextPost(old(State()), State(), user, now, startOfToday, newId, r)
    {
      if user.isAdmin {
        return None;
      }
      if HasActive(assignments, user.id) {
        ExistsLatestActive(assignments, user.id);
        var i :| 0 <= i < |assignments| && IsLatestActive(assignments, i, user.id);
        return Some(assignments[i]);
      }
      if !AnyEligible(checklists, startOfToday) {
        return None;
      }
      ExistsFairestPick(checklists, startOfToday);
      var k :| 0 <= k < |checklists| && IsFairestPick(checklists, k, startOfToday);
      var d := State();
      var row := NewAssignment(newId, user.id, checklists[k].id, now, None);
      assert ChecklistIds(checklists)[k] == checklists[k].id;
      RotationRowAllowed(d, user);
      AppendActivePreservesInv(d, row);
      StampPreservesInv(Db(d.users, d.checklists, d.assignments + [row]), k, Some(now));
      Commit(Db(d.users, StampChecklist(d.checklists, k, Some(now)), d.assignments + [row]));
      r := Some(row);
    }

    /**
     * `manuallyAssignChecklist`: the validation chain, then the blocking
     * checks unless `overrideExisting`, then the override (cancel and
     * re-queue) and the new row.
     */
    method ManuallyAssignChecklist(userId: Option<string>, checklistId: Option<string>,
                                   adminUserId: Option<string>, overrideExisting: bool,
                                   now: Time, newId: Id)
      returns (r: ManualResult)
      requires Valid()
      requires newId !in AssignmentIds(assignments)
      modifies this
      ensures Valid()
      ensures ManualAssignPost(old(State()), State(), userId, checklistId, adminUserId,
                               overrideExisting, now, newId, r)
    {
      var d := State();
      var pre := CheckManualRequest(d, userId, checklistId, adminUserId);
      if pre.Some? {
        return ManualFailure(pre.value);
      }
      var uid, cid, aid := userId.value, checklistId.value, adminUserId.value;
      var k := FindChecklist(checklists, cid).value;
      var t := FindUser(users, uid).value;
      var row := NewAssignment(newId, uid, cid, now, Some(aid));
      var message := SuccessMessage(checklists[k].title, users[t]);
      var hasExisting := HasActive(assignments, uid);
      var i := 0;
      if hasExisting {
        ExistsLatestActive(assignments, uid);
        i :| 0 <= i < |assignments| && IsLatestActive(assignments, i, uid);
        if !overrideExisting {
          var prior := assignments[i];
          return ManualFailure(ActiveAssignmentExists(
            RowSummary(prior.id, TitleOf(checklists, prior.checklistId), prior.assignedAt)));
        }
      }
      if !overrideExisting && HasRecentCompletion(assignments, uid, cid, now) {
        var j :| 0 <= j < |assignments| && IsRecentCompletion(assignments, j, uid, cid, now);
        var done := assignments[j];
        return ManualFailure(RecentlyCompleted(RowSummary(done.id, TitleOf(checklists, cid), done.completedAt.value)));
      }
      var mid := if hasExisting then CancelRow(d, i, aid, now) else d;
      ManualSuccessPost(d, mid, userId, checklistId, adminUserId, overrideExisting, now, newId, i);
      Commit(AddManualRow(mid, row, k, now));
      r := ManualSuccess(row, message, hasExisting);
    }

    /**
     * `getCurrentAssignments(filters)`: the `where` clause is built field by
     * field (a truthy `userId`, a truthy `status`, `activeOnly` forcing
     * `assigned`, and the inclusive date bounds); rows of admins are dropped
     * and the rest come newest first.
     */
    method GetCurrentAssignments(filters: Filters) returns (r: seq<Assignment>)
      requires Valid()
      ensures SortedBy(r, NewestFirst())
      ensures forall x :: x in r <==> (x in assignments && OwnerIsNonAdmin(users, x) && FilterHolds(filters, x))
      ensures multiset(r) <= multiset(assignments)
    {
      var w := Where(None, None, None, None);
      if Present(filters.userId) {
        w := w.(userId := filters.userId);
      }
      if Present(filters.status) {
        w := w.(status := filters.status);
      }
      if filters.activeOnly {
        w := w.(status := Some(StatusName(Assigned)));
      }
      if filters.dateFrom.Some? || filters.dateTo.Some? {
        if filters.dateFrom.Some? {
          w := w.(from := filters.dateFrom);
        }
        if filters.dateTo.Some? {
          w := w.(to := filters.dateTo);
        }
      }
      WhereMeansFilters(filters, w);
      var rows := FilterRows(State(), w, assignments);
      r := InsertionSort(rows, NewestFirst());
      NewestFirstIsPreorder();
      InsertionSortCorrect(rows, NewestFirst());
      SameMembers(r, rows);
    }

    /** `getAssignableUsers`: the non-admin users ordered by first and last name. */
    method GetAssignableUsers() returns (r: seq<User>)
      requires Valid()
      ensures SortedBy(r, ByName)
      ensures forall u :: u in r <==> u in users && !u.isAdmin
      ensures multiset(r) == multiset(NonAdminUsers(users))
    {
      var rows := NonAdminUsers(users);
      r := InsertionSort(rows, ByName);
      ByNameIsPreorder();
      InsertionSortCorrect(rows, ByName);
      SameMembers(r, rows);
    }

    /** `getAvailableChecklists(type)`: all checklists, or those of a truthy `type`, by type then order. */
    method GetAvailableChecklists(checklistType: Option<string>) returns (r: seq<Checklist>)
      requires Valid()
      ensures SortedBy(r, ByTypeThenOrder)
      ensures forall c :: c in r <==> c in checklists && (Present(checklistType) ==> TypeName(c.checklistType) == checklistType.value)
      ensures multiset(r) <= multiset(checklists)
    {
      var filter := if Present(checklistType) then checklistType else None;
      var rows := ChecklistsOfType(checklists, filter);
      r := InsertionSort(rows, ByTypeThenOrder);
      ByTypeThenOrderIsPreorder();
      InsertionSortCorrect(rows, ByTypeThenOrder);
      SameMembers(r, rows);
    }
  }

  // ---------------------------------------------------------------------
  // Proof helpers for the methods

  /** Sequences with the same multiset have the same members. */
  lemma SameMembers<T>(a: seq<T>, b: seq<T>)
    requires multiset(a) == multiset(b)
    ensures forall x :: x in a <==> x in b
  {
    forall x ensures x in a <==> x in b {
      assert x in a <==> x in multiset(a);
      assert x in b <==> x in multiset(b);
    }
  }

  /** A non-admin user found in the table may receive a rotation row. */
  lemma RotationRowAllowed(d: Db, user: User)
    requires Inv(d) && user in d.users && !user.isAdmin
    ensures user.id in UserIds(d.users) && !IsAdminId(d.users, user.id)
  {
    var k :| 0 <= k < |d.users| && d.users[k] == user;
    assert UserIds(d.users)[k] == user.id;
    DistinctKey(d.users, k);
  }

  /** The checks of `CheckManualRequest` license a manual row. */
  lemma ManualRowAllowed(d: Db, uid: Id, cid: Id)
    requires Inv(d) && IsNonAdminId(d.users, uid) && cid in ChecklistIds(d.checklists)
    ensures uid in UserIds(d.users) && !IsAdminId(d.users, uid)
  {
    var k :| 0 <= k < |d.users| && d.users[k].id == uid && !d.users[k].isAdmin;
    assert UserIds(d.users)[k] == uid;
    DistinctKey(d.users, k);
  }

  /** Cancelling a user's active row keeps the invariant and leaves that user without one. */
  lemma CancelPreservesInv(d: Db, i: nat, adminId: Id, now: Time)
    requires Inv(d) && i < |d.assignments| && d.assignments[i].status == Assigned
    ensures Inv(CancelRow(d, i, adminId, now))
    ensures CancelRow(d, i, adminId, now).users == d.users
    ensures !HasActive(CancelRow(d, i, adminId, now).assignments, d.assignments[i].userId)
    ensures |CancelRow(d, i, adminId, now).assignments| == |d.assignments|
    ensures AssignmentIds(CancelRow(d, i, adminId, now).assignments) == AssignmentIds(d.assignments)
    ensures ChecklistIds(CancelRow(d, i, adminId, now).checklists) == ChecklistIds(d.checklists)
  {
    var prior := d.assignments[i];
    var a := prior.(status := Cancelled, validatedAt := Some(now), validatedByUserId := Some(adminId));
    var rows := d.assignments[i := a];
    UpdateRowPreservesInv(d, i, a);
    var d1 := Db(d.users, d.checklists, rows);
    assert AssignmentIds(rows) == AssignmentIds(d.assignments);
    CountActiveUpdate(d.assignments, i, a, prior.userId);
    CountActiveZero(rows, prior.userId);
    CountActiveZero(d.assignments, prior.userId);
    match FindChecklist(d.checklists, prior.checklistId)
    case None =>
    case Some(k) => StampPreservesInv(d1, k, None);
  }

  // ---------------------------------------------------------------------
  // What the operations guarantee across calls

  /** Whatever `assignNextChecklist` does keeps the invariant. */
  lemma AssignNextPreservesInv(d: Db, d2: Db, user: User, now: Time, startOfToday: Time, newId: Id,
                               r: Option<Assignment>)
    requires Inv(d) && user in d.users && newId !in AssignmentIds(d.assignments)
    requires AssignNextPost(d, d2, user, now, startOfToday, newId, r)
    ensures Inv(d2)
    ensures d2.users == d.users
  {
    if !user.isAdmin && !HasActive(d.assignments, user.id) && AnyEligible(d.checklists, startOfToday) {
      var k :| IsFairestPick(d.checklists, k, startOfToday) &&
        var row := NewAssignment(newId, user.id, d.checklists[k].id, now, None);
        && r == Some(row)
        && d2 == Db(d.users, StampChecklist(d.checklists, k, Some(now)), d.assignments + [row]);
      var row := NewAssignment(newId, user.id, d.checklists[k].id, now, None);
      assert ChecklistIds(d.checklists)[k] == d.checklists[k].id;
      RotationRowAllowed(d, user);
      AppendActivePreservesInv(d, row);
      StampPreservesInv(Db(d.users, d.checklists, d.assignments + [row]), k, Some(now));
    }
  }

  /**
   * Calling `assignNextChecklist` again after it returned a row returns the
   * same row and changes nothing, whatever the clock says.
   */
  lemma AssignNextIdempotent(d: Db, d2: Db, d3: Db, user: User, now: Time, now2: Time,
                             startOfToday: Time, startOfToday2: Time, newId: Id, newId2: Id,
                             r: Option<Assignment>, r2: Option<Assignment>)
    requires Inv(d) && user in d.users && newId !in AssignmentIds(d.assignments)
    requires AssignNextPost(d, d2, user, now, startOfToday, newId, r)
    requires AssignNextPost(d2, d3, user, now2, startOfToday2, newId2, r2)
    requires r.Some?
    ensures d3 == d2 && r2 == r
  {
    AssignNextPreservesInv(d, d2, user, now, startOfToday, newId, r);
    if HasActive(d.assignments, user.id) {
      var i :| IsLatestActive(d.assignments, i, user.id) && r == Some(d.assignments[i]);
      var i2 :| IsLatestActive(d2.assignments, i2, user.id) && r2 == Some(d2.assignments[i2]);
      ActiveRowUnique(d2, i, i2, user.id);
    } else {
      var k :| IsFairestPick(d.checklists, k, startOfToday) &&
        var row := NewAssignment(newId, user.id, d.checklists[k].id, now, None);
        && r == Some(row)
        && d2 == Db(d.users, StampChecklist(d.checklists, k, Some(now)), d.assignments + [row]);
      var n := |d.assignments|;
      assert IsActiveFor(d2.assignments[n], user.id);
      var i2 :| IsLatestActive(d2.assignments, i2, user.id) && r2 == Some(d2.assignments[i2]);
      ActiveRowUnique(d2, n, i2, user.id);
    }
  }

  /** A row is added only by a rotation pick: an automatic, `assigned` row for an eligible daily checklist. */
  lemma AssignNextNewRowFacts(d: Db, d2: Db, user: User, now: Time, startOfToday: Time, newId: Id,
                                      r: Option<Assignment>)
    requires AssignNextPost(d, d2, user, now, startOfToday, newId, r)
    requires |d2.assignments| > |d.assignments|
    ensures !user.isAdmin && !HasActive(d.assignments, user.id)
    ensures r.Some? && r.value.assignedByUserId.None? && r.value.status == Assigned
    ensures exists k :: 0 <= k < |d.checklists| && d.checklists[k].id == r.value.checklistId && Eligible(d.checklists[k], startOfToday)
  {
  }

  /** The prefix of `d2.assignments` holds the rows of `d` under the same ids. */
  predicate RowsRetained(d: Db, d2: Db) {
    && |d.assignments| <= |d2.assignments|
    && forall j :: 0 <= j < |d.assignments| ==> d2.assignments[j].id == d.assignments[j].id
  }

  /** Whatever `manuallyAssignChecklist` does keeps the invariant, and a failure changes nothing. */
  lemma ManualAssignPreservesInv(d: Db, d2: Db, userId: Option<string>, checklistId: Option<string>,
                                 adminUserId: Option<string>, overrideExisting: bool, now: Time,
                                 newId: Id, r: ManualResult)
    requires Inv(d) && newId !in AssignmentIds(d.assignments)
    requires ManualAssignPost(d, d2, userId, checklistId, adminUserId, overrideExisting, now, newId, r)
    ensures Inv(d2)
    ensures r.ManualFailure? ==> d2 == d
  {
    if r.ManualSuccess? {
      ManualSuccessFacts(d, d2, userId, checklistId, adminUserId, overrideExisting, now, newId, r);
    }
  }

  /**
   * After a successful manual assignment the target user has exactly one
   * `assigned` row, the new one, created by the admin at `now`; the earlier
   * rows are kept (a replaced row is cancelled, not deleted); and the
   * override is reported exactly when there was an active row before.
   */
  lemma ManualSuccessFacts(d: Db, d2: Db, userId: Option<string>, checklistId: Option<string>,
                           adminUserId: Option<string>, overrideExisting: bool, now: Time,
                           newId: Id, r: ManualResult)
    requires Inv(d) && newId !in AssignmentIds(d.assignments)
    requires ManualAssignPost(d, d2, userId, checklistId, adminUserId, overrideExisting, now, newId, r)
    requires r.ManualSuccess?
    ensures Inv(d2)
    ensures userId.Some? && checklistId.Some? && adminUserId.Some?
    ensures CountActive(d2.assignments, userId.value) == 1
    ensures |d2.assignments| == |d.assignments| + 1 && d2.assignments[|d.assignments|] == r.assignment
    ensures r.assignment == NewAssignment(newId, userId.value, checklistId.value, now, adminUserId)
    ensures RowsRetained(d, d2)
    ensures r.overridePerformed <==> HasActive(d.assignments, userId.value)
  {
    ManualSuccessShapeOf(d, d2, userId, checklistId, adminUserId, overrideExisting, now, newId, r);
    ManualSuccessCore(d, d2, userId.value, checklistId.value, adminUserId.value, now, newId, r);
  }

  /**
   * The success branch of `ManualAssignPost`: the active row `i`, if any, is
   * cancelled first (`mid`), then the new row is added. The result keeps the
   * invariant.
   */
  lemma ManualSuccessPost(d: Db, mid: Db, userId: Option<string>, checklistId: Option<string>,
                          adminUserId: Option<string>, overrideExisting: bool, now: Time, newId: Id, i: nat)
    requires Inv(d) && newId !in AssignmentIds(d.assignments)
    requires CheckManualRequest(d, userId, checklistId, adminUserId).None?
    requires HasActive(d.assignments, userId.value) ==> IsLatestActive(d.assignments, i, userId.value) && overrideExisting
    requires !HasActive(d.assignments, userId.value) ==> !(!overrideExisting && HasRecentCompletion(d.assignments, userId.value, checklistId.value, now))
    requires mid == if HasActive(d.assignments, userId.value) then CancelRow(d, i, adminUserId.value, now) else d
    ensures FindChecklist(mid.checklists, checklistId.value) == FindChecklist(d.checklists, checklistId.value)
    ensures FindChecklist(d.checklists, checklistId.value).Some?
    ensures
      var uid, cid, aid := userId.value, checklistId.value, adminUserId.value;
      var k := FindChecklist(d.checklists, cid).value;
      var t := FindUser(d.users, uid).value;
      var row := NewAssignment(newId, uid, cid, now, Some(aid));
      var message := SuccessMessage(d.checklists[k].title, d.users[t]);
      && Inv(AddManualRow(mid, row, k, now))
      && ManualAssignPost(d, AddManualRow(mid, row, k, now), userId, checklistId, adminUserId,
                          overrideExisting, now, newId, ManualSuccess(row, message, HasActive(d.assignments, uid)))
  {
    var uid, cid, aid := userId.value, checklistId.value, adminUserId.value;
    var k := FindChecklist(d.checklists, cid).value;
    var row := NewAssignment(newId, uid, cid, now, Some(aid));
    ManualRowAllowed(d, uid, cid);
    if HasActive(d.assignments, uid) {
      CancelPreservesInv(d, i, aid, now);
    }
    AppendActivePreservesInv(mid, row);
    StampPreservesInv(Db(mid.users, mid.checklists, mid.assignments + [row]), k, Some(now));
  }

  /** The successful branches of `ManualAssignPost`, without the request checks. */
  ghost predicate ManualSuccessShape(d: Db, d2: Db, uid: Id, cid: Id, aid: Id, now: Time, newId: Id,
                                     r: ManualResult) {
    && IsNonAdminId(d.users, uid) && cid in ChecklistIds(d.checklists)
    && FindChecklist(d.checklists, cid).Some?
    && var k := FindChecklist(d.checklists, cid).value;
       var row := NewAssignment(newId, uid, cid, now, Some(aid));
       && r.ManualSuccess? && r.assignment == row
       && (r.overridePerformed <==> HasActive(d.assignments, uid))
       && if HasActive(d.assignments, uid) then
            exists i :: IsLatestActive(d.assignments, i, uid) && d2 == AddManualRow(CancelRow(d, i, aid, now), row, k, now)
          else
            d2 == AddManualRow(d, row, k, now)
  }

  lemma ManualSuccessShapeOf(d: Db, d2: Db, userId: Option<string>, checklistId: Option<string>,
                             adminUserId: Option<string>, overrideExisting: bool, now: Time,
                             newId: Id, r: ManualResult)
    requires Inv(d)
    requires ManualAssignPost(d, d2, userId, checklistId, adminUserId, overrideExisting, now, newId, r)
    requires r.ManualSuccess?
    ensures userId.Some? && checklistId.Some? && adminUserId.Some?
    ensures ManualSuccessShape(d, d2, userId.value, checklistId.value, adminUserId.value, now, newId, r)
  {
  }

  lemma ManualSuccessCore(d: Db, d2: Db, uid: Id, cid: Id, aid: Id, now: Time, newId: Id, r: ManualResult)
    requires Inv(d) && newId !in AssignmentIds(d.assignments)
    requires ManualSuccessShape(d, d2, uid, cid, aid, now, newId, r)
    ensures Inv(d2)
    ensures CountActive(d2.assignments, uid) == 1
    ensures |d2.assignments| == |d.assignments| + 1 && d2.assignments[|d.assignments|] == r.assignment
    ensures r.assignment == NewAssignment(newId, uid, cid, now, Some(aid))
    ensures RowsRetained(d, d2)
    ensures r.overridePerformed <==> HasActive(d.assignments, uid)
  {
    var k := FindChecklist(d.checklists, cid).value;
    var row := NewAssignment(newId, uid, cid, now, Some(aid));
    ManualRowAllowed(d, uid, cid);
    var mid: Db;
    if HasActive(d.assignments, uid) {
      var i :| IsLatestActive(d.assignments, i, uid) && d2 == AddManualRow(CancelRow(d, i, aid, now), row, k, now);
      CancelPreservesInv(d, i, aid, now);
      mid := CancelRow(d, i, aid, now);
    } else {
      mid := d;
    }
    assert d2 == AddManualRow(mid, row, k, now);
    AppendActivePreservesInv(mid, row);
    StampPreservesInv(Db(mid.users, mid.checklists, mid.assignments + [row]), k, Some(now));
    CountActiveZero(mid.assignments, uid);
    CountActiveAppend(mid.assignments, row, uid);
    forall j | 0 <= j < |d.assignments| ensures d2.assignments[j].id == d.assignments[j].id {
      assert AssignmentIds(mid.assignments)[j] == AssignmentIds(d.assignments)[j];
    }
  }
}
