/**
 * The three persistent records: users, checklists and assignments, with the
 * enumerations stored in their columns and the defaults the ORM fills in.
 */
module Models {
  import opened Wrappers
  import opened Bcrypt

  /** Milliseconds since the epoch. */
  type Time = int

  /** A primary key (a version 4 UUID in text form). */
  type Id = string

  const MinUsernameLength: nat := 3
  const MaxUsernameLength: nat := 30

  datatype Status = Assigned | Completed | Validated | Overdue | Cancelled

  datatype ValidationStatus = Pending | Approved | Rejected

  datatype ChecklistType = Daily | Weekly | Quarterly

  function StatusName(s: Status): string {
    match s
    case Assigned => "assigned"
    case Completed => "completed"
    case Validated => "validated"
    case Overdue => "overdue"
    case Cancelled => "cancelled"
  }

  /** The status a column value or query parameter names, if any. */
  function ParseStatus(t: string): (r: Option<Status>)
    ensures r.Some? ==> StatusName(r.value) == t
  {
    if t == "assigned" then Some(Assigned)
    else if t == "completed" then Some(Completed)
    else if t == "validated" then Some(Validated)
    else if t == "overdue" then Some(Overdue)
    else if t == "cancelled" then Some(Cancelled)
    else None
  }

  lemma ParseStatusName(s: Status)
    ensures ParseStatus(StatusName(s)) == Some(s)
  {
  }

  function TypeName(t: ChecklistType): string {
    match t
    case Daily => "daily"
    case Weekly => "weekly"
    case Quarterly => "quarterly"
  }

  function ParseType(t: string): (r: Option<ChecklistType>)
    ensures r.Some? ==> TypeName(r.value) == t
  {
    if t == "daily" then Some(Daily)
    else if t == "weekly" then Some(Weekly)
    else if t == "quarterly" then Some(Quarterly)
    else None
  }

  lemma ParseTypeName(t: ChecklistType)
    ensures ParseType(TypeName(t)) == Some(t)
  {
  }

  datatype User = User(
    id: Id,
    username: string,
    firstName: string,
    lastName: string,
    passwordHash: Digest,
    securityQuestion1Id: int,
    securityAnswer1Hash: Digest,
    securityQuestion2Id: int,
    securityAnswer2Hash: Digest,
    passwordResetAttemptCount: int,
    lastPasswordResetAttempt: Option<Time>,
    isAdmin: bool)

  /** The column-level validation of a username: between 3 and 30 characters. */
  predicate UsernameLengthOk(username: string) {
    MinUsernameLength <= |username| <= MaxUsernameLength
  }

  /**
   * A user row as `User.create` fills it in from the given fields: no reset
   * attempts recorded yet.
   */
  function NewUser(id: Id, username: string, firstName: string, lastName: string,
                   passwordHash: Digest, q1: int, a1: Digest, q2: int, a2: Digest,
                   isAdmin: bool): (u: User)
    ensures u.id == id && u.username == username && u.isAdmin == isAdmin
    ensures u.passwordResetAttemptCount == 0 && u.lastPasswordResetAttempt.None?
  {
    User(id, username, firstName, lastName, passwordHash, q1, a1, q2, a2, 0, None, isAdmin)
  }

  /**
   * `User.create`: refused (the ORM throws a validation error) when a
   * non-null column is not given or the username is not 3 to 30 characters;
   * otherwise the new row with its defaults.
   */
  function CreateUser(id: Id, username: string, firstName: Option<string>, lastName: Option<string>,
                      passwordHash: Digest, q1: int, a1: Digest, q2: int, a2: Digest,
                      isAdmin: bool): (r: Option<User>)
    ensures r.Some? <==> firstName.Some? && lastName.Some? && UsernameLengthOk(username)
    ensures r.Some? ==> r.value == NewUser(id, username, firstName.value, lastName.value, passwordHash, q1, a1, q2, a2, isAdmin)
  {
    if firstName.None? || lastName.None? || !UsernameLengthOk(username) then None
    else Some(NewUser(id, username, firstName.value, lastName.value, passwordHash, q1, a1, q2, a2, isAdmin))
  }

  datatype Checklist = Checklist(
    id: Id,
    filename: string,
    title: string,
    checklistType: ChecklistType,
    order: int,
    lastAssignedAt: Option<Time>)

  datatype Assignment = Assignment(
    id: Id,
    userId: Id,
    checklistId: Id,
    assignedAt: Time,
    completedAt: Option<Time>,
    status: Status,
    submissionDataFilePath: Option<string>,
    validationStatus: Option<ValidationStatus>,
    validatedAt: Option<Time>,
    validatedByUserId: Option<Id>,
    assignedByUserId: Option<Id>)

  /**
   * An assignment row as `Assignment.create` fills it in: status `assigned`,
   * nothing completed or validated yet; `assignedBy` is absent for the
   * automatic rotation and names the admin for a manual assignment.
   */
  function NewAssignment(id: Id, userId: Id, checklistId: Id, assignedAt: Time,
                         assignedBy: Option<Id>): (a: Assignment)
    ensures a.id == id && a.userId == userId && a.checklistId == checklistId
    ensures a.assignedAt == assignedAt && a.status == Assigned
    ensures a.completedAt.None? && a.submissionDataFilePath.None?
    ensures a.validationStatus.None? && a.validatedAt.None? && a.validatedByUserId.None?
    ensures a.assignedByUserId == assignedBy
  {
    Assignment(id, userId, checklistId, assignedAt, None, Assigned, None, None, None, None, assignedBy)
  }
}
