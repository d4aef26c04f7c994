/**
 * The administrator's web forms of `dhl_login/routes/admin.js`: creating a
 * user, the manual-assignment form in front of `manuallyAssignChecklist`,
 * the search and filters of the assignment management page, and the
 * filename check of the submission-data view. The store is the `Store` of
 * module `Engine`, the submission files the `DataDir` of module
 * `Submission`.
 */
module Admin {
  import opened Wrappers
  import opened Strings
  import opened Bcrypt
  import opened Models
  import opened Security
  import opened Validation
  import opened Sorting
  import opened Engine
  import opened AuthApi
  import opened Submission
  import opened Lifecycle

  /** `!x || x.trim() === ''`: a form field that is absent or only white space. */
  predicate Blank(x: Option<string>) {
    x.None? || Trim(x.value) == ""
  }

  /** `parseInt(x, 10)` of a form field; an absent field gives `NaN`, here `None`. */
  function FormInt(x: Option<string>): (r: Option<int>)
    ensures r == ParseId(if x.None? then IdMissing else IdText(x.value))
  {
    if x.None? then None else ParseInt(x.value)
  }

  // ---------------------------------------------------------------------
  // Creating a user

  datatype CreateUserForm = CreateUserForm(
    username: Option<string>,
    password: Option<string>,
    firstName: Option<string>,
    lastName: Option<string>,
    securityQuestion1Id: Option<string>,
    securityAnswer1: Option<string>,
    securityQuestion2Id: Option<string>,
    securityAnswer2: Option<string>)

  /** The keys of `validationErrors`. */
  datatype CreateField = FirstNameField | LastNameField | UsernameField | PasswordField | AnswersField

  const FirstNameRequired: string := "First Name is required."
  const LastNameRequired: string := "Last Name is required."
  const UsernameLengthMessage: string := "Username must be 3-30 characters long."
  const UsernameTaken: string := "Username already exists."
  const PasswordLengthMessage: string := "Password must be at least 8 characters long."
  const AnswersRequiredMessage: string := "Two security questions and answers are required."
  const QuestionsNotUniqueMessage: string := "Security questions must be unique."
  const QuestionIdInvalidMessage: string := "Invalid security question ID provided."

  /** The trimmed username is 3 to 30 characters long. */
  predicate UsernameFormatOk(username: Option<string>) {
    username.Some? && MinUsernameLength <= |Trim(username.value)| <= MaxUsernameLength
  }

  /** The password has at least eight characters. */
  predicate PasswordFormatOk(password: Option<string>) {
    password.Some? && |password.value| >= MinPasswordLength
  }

  /** `!questionId`: `NaN` and `0` are falsy. */
  predicate IdFalsy(q: Option<int>) {
    q.None? || q.value == 0
  }

  /**
   * How the security-answer check of the form ends: it throws (`.trim()` of
   * an absent answer, reached only when both question ids are truthy), it
   * records a message, or it passes with the two question ids.
   */
  datatype AnswersCheck = AnswersThrow | AnswersMessage(message: string) | AnswersPass(q1: int, q2: int)

  function CheckFormAnswers(f: CreateUserForm): (r: AnswersCheck)
    ensures r == AnswersThrow <==>
      !IdFalsy(FormInt(f.securityQuestion1Id)) && !IdFalsy(FormInt(f.securityQuestion2Id))
      && (f.securityAnswer1.None? || (Trim(f.securityAnswer1.value) != "" && f.securityAnswer2.None?))
    ensures r.AnswersPass? <==>
      && FormInt(f.securityQuestion1Id).Some? && 1 <= FormInt(f.securityQuestion1Id).value <= 4
      && FormInt(f.securityQuestion2Id).Some? && 1 <= FormInt(f.securityQuestion2Id).value <= 4
      && FormInt(f.securityQuestion1Id) != FormInt(f.securityQuestion2Id)
      && !Blank(f.securityAnswer1) && !Blank(f.securityAnswer2)
    ensures r.AnswersPass? ==>
      Some(r.q1) == FormInt(f.securityQuestion1Id) && Some(r.q2) == FormInt(f.securityQuestion2Id)
    ensures r.AnswersMessage? ==> r.message in {AnswersRequiredMessage, QuestionsNotUniqueMessage, QuestionIdInvalidMessage}
  {
    var q1 := FormInt(f.securityQuestion1Id);
    var q2 := FormInt(f.securityQuestion2Id);
    QuestionByIdSpec(IdNumber(if q1.Some? then q1.value else 0));
    QuestionByIdSpec(IdNumber(if q2.Some? then q2.value else 0));
    if IdFalsy(q1) || IdFalsy(q2) then AnswersMessage(AnswersRequiredMessage)
    else if f.securityAnswer1.None? then AnswersThrow
    else if Trim(f.securityAnswer1.value) == "" then AnswersMessage(AnswersRequiredMessage)
    else if f.securityAnswer2.None? then AnswersThrow
    else if Trim(f.securityAnswer2.value) == "" then AnswersMessage(AnswersRequiredMessage)
    else if q1 == q2 then AnswersMessage(QuestionsNotUniqueMessage)
    else if GetSecurityQuestionById(IdNumber(q1.value)).None? || GetSecurityQuestionById(IdNumber(q2.value)).None? then
      AnswersMessage(QuestionIdInvalidMessage)
    else AnswersPass(q1.value, q2.value)
  }

  /**
   * `validationErrors` of `POST /admin/users` once the answer check has not
   * thrown: one message per failing field, and the username taken only when
   * its format is right. The lookup uses the username as sent.
   */
  function CreateUserErrors(us: seq<User>, f: CreateUserForm): (errors: map<CreateField, string>)
    requires !CheckFormAnswers(f).AnswersThrow?
    ensures FirstNameField in errors <==> Blank(f.firstName)
    ensures LastNameField in errors <==> Blank(f.lastName)
    ensures PasswordField in errors <==> !PasswordFormatOk(f.password)
    ensures AnswersField in errors <==> !CheckFormAnswers(f).AnswersPass?
    ensures UsernameField in errors <==> !UsernameFormatOk(f.username) || f.username.value in Usernames(us)
    ensures UsernameField in errors && errors[UsernameField] == UsernameTaken <==>
      UsernameFormatOk(f.username) && f.username.value in Usernames(us)
    ensures errors == map[] <==>
      && !Blank(f.firstName) && !Blank(f.lastName) && UsernameFormatOk(f.username)
      && PasswordFormatOk(f.password) && CheckFormAnswers(f).AnswersPass?
      && f.username.value !in Usernames(us)
  {
    var check := CheckFormAnswers(f);
    ErrorMap(Blank(f.firstName), Blank(f.lastName), !UsernameFormatOk(f.username), !PasswordFormatOk(f.password),
             if check.AnswersMessage? then Some(check.message) else None, NameTaken(us, f.username))
  }

  /**
   * The messages of `validationErrors`, added field by field in the order of
   * the handler; a taken username overwrites nothing, since it is looked up
   * only when the format is right.
   */
  function ErrorMap(firstBlank: bool, lastBlank: bool, badUsername: bool, badPassword: bool,
                    answersMessage: Option<string>, taken: bool): (errors: map<CreateField, string>)
    requires !(badUsername && taken)
    ensures FirstNameField in errors <==> firstBlank
    ensures LastNameField in errors <==> lastBlank
    ensures PasswordField in errors <==> badPassword
    ensures AnswersField in errors <==> answersMessage.Some?
    ensures UsernameField in errors <==> badUsername || taken
    ensures UsernameField in errors && errors[UsernameField] == UsernameTaken <==> taken
    ensures errors == map[] <==> !firstBlank && !lastBlank && !badUsername && !badPassword
                                 && answersMessage.None? && !taken
  {
    var e1 := AddIf(map[], firstBlank, FirstNameField, FirstNameRequired);
    var e2 := AddIf(e1, lastBlank, LastNameField, LastNameRequired);
    var e3 := AddIf(e2, badUsername, UsernameField, UsernameLengthMessage);
    var e4 := AddIf(e3, badPassword, PasswordField, PasswordLengthMessage);
    var e5 := AddIf(e4, answersMessage.Some?, AnswersField, if answersMessage.Some? then answersMessage.value else "");
    AddIf(e5, taken, UsernameField, UsernameTaken)
  }

  /** The lookup of a well-formed username, as sent, finds a user. */
  function NameTaken(us: seq<User>, username: Option<string>): (taken: bool)
    ensures taken <==> UsernameFormatOk(username) && username.value in Usernames(us)
  {
    assert forall k :: 0 <= k < |us| ==> Usernames(us)[k] == us[k].username;
    UsernameFormatOk(username) && UserByName(us, username.value).Some?
  }

  /** `errors` with `message` recorded under `field` when `failed`, and unchanged otherwise. */
  function AddIf(errors: map<CreateField, string>, failed: bool, field: CreateField, message: string)
    : (r: map<CreateField, string>)
    ensures failed ==> field in r && r[field] == message
    ensures !failed ==> r == errors
    ensures forall k :: k != field ==> (k in r <==> k in errors) && (k in errors ==> r[k] == errors[k])
    ensures r == map[] <==> !failed && errors == map[]
  {
    if failed then errors[field := message] else errors
  }

  datatype CreateOutcome =
    | CreateThrew                                   // no response
    | CreateInvalid(errors: map<CreateField, string>)
    | CreateFailed                                  // the ORM refused the row
    | UserCreated(user: User)

  /**
   * `POST /admin/users`: a thrown answer check and any validation error
   * change nothing; otherwise the user row as `User.create` fills it in: the
   * username, names and question ids as sent, the password and the
   * normalised answers hashed, never an admin.
   */
  ghost predicate CreatePost(d: Db, d2: Db, f: CreateUserForm, newId: Id, r: CreateOutcome) {
    var check := CheckFormAnswers(f);
    if check.AnswersThrow? then
      r == CreateThrew && d2 == d
    else
      var errors := CreateUserErrors(d.users, f);
      if errors != map[] then
        r == CreateInvalid(errors) && d2 == d
      else match CreateUser(newId, f.username.value, f.firstName, f.lastName, Hash(f.password.value),
                            check.q1, HashAnswer(f.securityAnswer1), check.q2, HashAnswer(f.securityAnswer2), false)
        case None => r == CreateFailed && d2 == d
        case Some(u) => r == UserCreated(u) && d2 == d.(users := d.users + [u])
  }

  method CreateUserFromForm(store: Store, f: CreateUserForm, newId: Id) returns (r: CreateOutcome)
    requires store.Valid()
    requires newId !in UserIds(store.users)
    modifies store
    ensures store.Valid()
    ensures CreatePost(old(store.State()), store.State(), f, newId, r)
    ensures r.UserCreated? ==> !r.user.isAdmin && r.user.id == newId
  {
    var check := CheckFormAnswers(f);
    if check.AnswersThrow? {
      return CreateThrew;
    }
    var errors := CreateUserErrors(store.users, f);
    if errors != map[] {
      return CreateInvalid(errors);
    }
    var created := CreateUser(newId, f.username.value, f.firstName, f.lastName, Hash(f.password.value),
                              check.q1, HashAnswer(f.securityAnswer1), check.q2, HashAnswer(f.securityAnswer2), false);
    match created
    case None =>
      r := CreateFailed;
    case Some(u) =>
      AppendUserPreservesInv(store.State(), u);
      store.Commit(Db(store.users + [u], store.checklists, store.assignments));
      r := UserCreated(u);
  }

  /** What a successful creation stored: one new row at the end, built from the form. */
  lemma CreatedRow(d: Db, d2: Db, f: CreateUserForm, newId: Id, u: User)
    requires CreatePost(d, d2, f, newId, UserCreated(u))
    ensures d2.users == d.users + [u] && d2.checklists == d.checklists && d2.assignments == d.assignments
    ensures f.username.Some? && f.password.Some? && f.securityQuestion1Id.Some? && f.securityQuestion2Id.Some?
    ensures u.id == newId && u.username == f.username.value && !u.isAdmin
    ensures u.passwordHash == Hash(f.password.value)
    ensures Some(u.securityQuestion1Id) == ParseInt(f.securityQuestion1Id.value)
    ensures Some(u.securityQuestion2Id) == ParseInt(f.securityQuestion2Id.value)
    ensures u.securityQuestion1Id != u.securityQuestion2Id
    ensures u.securityAnswer1Hash == HashAnswer(f.securityAnswer1)
    ensures u.securityAnswer2Hash == HashAnswer(f.securityAnswer2)
  {
  }

  /**
   * A user the form creates can sign in through the API with the username
   * and password given, once a signing secret is configured.
   */
  lemma CreatedUserCanLogIn(d: Db, d2: Db, f: CreateUserForm, newId: Id, u: User, secret: string)
    requires Inv(d2)
    requires CreatePost(d, d2, f, newId, UserCreated(u))
    requires secret != ""
    ensures LoginApi(d2, f.username, f.password, Some(secret)).LoginOk?
    ensures LoginApi(d2, f.username, f.password, Some(secret)).userId == newId
  {
    CreatedRow(d, d2, f, newId, u);
    assert d2.users[|d.users|] == u;
    StoredPasswordLogsIn(d2, |d.users|, f.password.value, secret);
  }

  /** A user whose stored hash is that of `password` signs in with it. */
  lemma StoredPasswordLogsIn(d: Db, k: nat, password: string, secret: string)
    requires Inv(d)
    requires k < |d.users| && d.users[k].passwordHash == Hash(password)
    requires MinUsernameLength <= |d.users[k].username| && password != "" && secret != ""
    ensures LoginApi(d, Some(d.users[k].username), Some(password), Some(secret)) ==
      LoginOk(GenerateToken(d.users[k], Some(secret)).value, d.users[k].id, d.users[k].username)
  {
    UserByNameUnique(d.users, d.users[k].username, k);
    CompareHash(password, password);
  }

  /**
   * The created user's stored answers are the ones the form gave: those two
   * answers, under the two question ids, pass the JSON answer check.
   */
  lemma CreatedUserAnswersProve(d: Db, d2: Db, f: CreateUserForm, newId: Id, u: User)
    requires CreatePost(d, d2, f, newId, UserCreated(u))
    ensures AnswersProve([SecurityAnswer(IdText(f.securityQuestion1Id.value), f.securityAnswer1),
                          SecurityAnswer(IdText(f.securityQuestion2Id.value), f.securityAnswer2)], u)
  {
    CreatedRow(d, d2, f, newId, u);
    var a := SecurityAnswer(IdText(f.securityQuestion1Id.value), f.securityAnswer1);
    var b := SecurityAnswer(IdText(f.securityQuestion2Id.value), f.securityAnswer2);
    CompareHashAnswer(f.securityAnswer1, f.securityAnswer1);
    CompareHashAnswer(f.securityAnswer2, f.securityAnswer2);
    AnswersProveTwo(a, b, u);
  }

  // ---------------------------------------------------------------------
  // The manual-assignment form

  datatype AssignField = UserIdField | ChecklistIdField

  const SelectUserMessage: string := "Please select a user."
  const InvalidUserMessage: string := "Invalid user selection."
  const SelectChecklistMessage: string := "Please select a checklist."
  const InvalidChecklistMessage: string := "Invalid checklist selection."
  const SelfAssignMessage: string := "You cannot assign checklists to yourself."

  /** The field errors of `POST /admin/assignments/assign`; a self-assignment overwrites the user error. */
  function AssignFormErrors(userId: Option<string>, checklistId: Option<string>, adminId: Id)
    : (errors: map<AssignField, string>)
    ensures UserIdField in errors <==> Blank(userId) || !IsValidUuid(userId.value) || userId == Some(adminId)
    ensures userId == Some(adminId) ==> errors[UserIdField] == SelfAssignMessage
    ensures ChecklistIdField in errors <==> Blank(checklistId) || !IsValidUuid(checklistId.value)
    ensures errors == map[] <==>
      && userId.Some? && checklistId.Some?
      && IsValidUuid(userId.value) && IsValidUuid(checklistId.value) && userId.value != adminId
  {
    var e0: map<AssignField, string> := map[];
    var e1 := if Blank(userId) then e0[UserIdField := SelectUserMessage]
              else if !IsValidUuid(userId.value) then e0[UserIdField := InvalidUserMessage]
              else e0;
    var e2 := if Blank(checklistId) then e1[ChecklistIdField := SelectChecklistMessage]
              else if !IsValidUuid(checklistId.value) then e1[ChecklistIdField := InvalidChecklistMessage]
              else e1;
    if userId == Some(adminId) then e2[UserIdField := SelfAssignMessage] else e2
  }

  /** A well-formed id is not blank: it has 36 characters and no white space. */
  lemma UuidNotBlank(s: string)
    requires IsValidUuid(s)
    ensures Trim(s) != ""
  {
    assert IsHex(s[0]);
    BlankIffAllSpace(s);
  }

  /** The `overrideExisting` field: a checkbox sends `'on'`, a JSON body may send `true`. */
  datatype FormFlag = FlagText(text: string) | FlagBool(value: bool) | FlagAbsent

  predicate OverrideRequested(x: FormFlag) {
    x == FlagText("on") || x == FlagBool(true)
  }

  datatype AssignFormOutcome =
    | AssignFormInvalid(errors: map<AssignField, string>)
    | ManualOutcome(result: ManualResult)

  method SubmitAssignForm(store: Store, userId: Option<string>, checklistId: Option<string>,
                          overrideExisting: FormFlag, adminId: Id, now: Time, newId: Id)
    returns (r: AssignFormOutcome)
    requires store.Valid()
    requires newId !in AssignmentIds(store.assignments)
    modifies store
    ensures store.Valid()
    ensures AssignFormErrors(userId, checklistId, adminId) != map[] ==>
      r == AssignFormInvalid(AssignFormErrors(userId, checklistId, adminId)) && store.State() == old(store.State())
    ensures AssignFormErrors(userId, checklistId, adminId) == map[] ==>
      r.ManualOutcome? && ManualAssignPost(old(store.State()), store.State(), userId, checklistId, Some(adminId),
                                           OverrideRequested(overrideExisting), now, newId, r.result)
  {
    var errors := AssignFormErrors(userId, checklistId, adminId);
    if errors != map[] {
      return AssignFormInvalid(errors);
    }
    var result := store.ManuallyAssignChecklist(userId, checklistId, Some(adminId), OverrideRequested(overrideExisting),
                                                now, newId);
    r := ManualOutcome(result);
  }

  /**
   * A form that passes its own checks never meets the first checks of
   * `manuallyAssignChecklist` on the target and the checklist: the ids are
   * present and well formed and the target is not the acting admin.
   */
  lemma AssignFormCoversFirstChecks(d: Db, userId: Option<string>, checklistId: Option<string>, adminId: Id)
    requires Distinct(UserIds(d.users))
    requires AssignFormErrors(userId, checklistId, adminId) == map[]
    requires IsValidUuid(adminId)
    ensures var e := CheckManualRequest(d, userId, checklistId, Some(adminId));
      && e != Some(MissingParameters) && e != Some(InvalidUserId) && e != Some(InvalidChecklistId)
      && e != Some(InvalidAdminUserId) && e != Some(SelfAssignment)
  {
    var uid, cid := userId.value, checklistId.value;
    assert IsValidUuid(uid) && IsValidUuid(cid) && uid != adminId;
    PassingIdsReachLookups(d, uid, cid, adminId);
  }

  /** Three well-formed ids, the target not the admin, pass the checks before the lookups. */
  lemma PassingIdsReachLookups(d: Db, uid: string, cid: string, aid: string)
    requires Distinct(UserIds(d.users))
    requires IsValidUuid(uid) && IsValidUuid(cid) && IsValidUuid(aid) && uid != aid
    ensures var e := CheckManualRequest(d, Some(uid), Some(cid), Some(aid));
      && e != Some(MissingParameters) && e != Some(InvalidUserId) && e != Some(InvalidChecklistId)
      && e != Some(InvalidAdminUserId) && e != Some(SelfAssignment)
  {
    assert |uid| == 36 && |cid| == 36 && |aid| == 36;
  }

  // ---------------------------------------------------------------------
  // The assignment management page

  /** `x && x !== 'all'`: the filter value, or no filter. */
  function UnlessAll(x: Option<string>): (r: Option<string>)
    ensures r.Some? <==> Present(x) && x.value != "all"
    ensures r.Some? ==> r == x
  {
    if Present(x) && x.value != "all" then x else None
  }

  /**
   * The filters passed to `getCurrentAssignments`. A non-blank date is
   * trimmed and read as a local calendar day: `dayStart` gives its first
   * and `dayEnd` its last millisecond.
   */
  function ManageFilters(status: Option<string>, userId: Option<string>, dateFrom: Option<string>,
                         dateTo: Option<string>, dayStart: string -> Time, dayEnd: string -> Time): (f: Filters)
    ensures !f.activeOnly
    ensures f.status == UnlessAll(status) && f.userId == UnlessAll(userId)
    ensures f.dateFrom.Some? <==> !Blank(dateFrom)
    ensures f.dateFrom.Some? ==> f.dateFrom.value == dayStart(Trim(dateFrom.value))
    ensures f.dateTo.Some? <==> !Blank(dateTo)
    ensures f.dateTo.Some? ==> f.dateTo.value == dayEnd(Trim(dateTo.value))
  {
    Filters(UnlessAll(userId), UnlessAll(status), false,
            if Blank(dateFrom) then None else Some(dayStart(Trim(dateFrom.value))),
            if Blank(dateTo) then None else Some(dayEnd(Trim(dateTo.value))))
  }

  /** The row's user's first name, last name or username, or its checklist's title, contains the term (lower-cased). */
  predicate SearchMatches(d: Db, a: Assignment, term: string) {
    match (FindUser(d.users, a.userId), FindChecklist(d.checklists, a.checklistId))
    case (Some(i), Some(j)) =>
      var u := d.users[i];
      || Contains(ToLower(u.firstName), term) || Contains(ToLower(u.lastName), term)
      || Contains(ToLower(u.username), term) || Contains(ToLower(d.checklists[j].title), term)
    case _ => false
  }

  /** `assignments.filter(…)` with the search term. */
  function SearchRows(d: Db, rows: seq<Assignment>, term: string): (r: seq<Assignment>)
    ensures forall x :: x in r <==> x in rows && SearchMatches(d, x, term)
    ensures multiset(r) <= multiset(rows)
  {
    Filter(rows, (a: Assignment) => SearchMatches(d, a, term))
  }

  /** The search keeps the order of the rows it keeps. */
  lemma SearchKeepsOrder(d: Db, rows: seq<Assignment>, term: string, le: (Assignment, Assignment) -> bool)
    requires SortedBy(rows, le)
    ensures SortedBy(SearchRows(d, rows, term), le)
  {
    FilterKeepsOrder(rows, (a: Assignment) => SearchMatches(d, a, term), le);
  }

  /** The term: the search field lower-cased and trimmed, when it is not blank. */
  function SearchTerm(search: Option<string>): (t: Option<string>)
    ensures t.Some? <==> !Blank(search)
    ensures t.Some? ==> t.value == Trim(ToLower(search.value)) && t.value != ""
  {
    if Blank(search) then None
    else
      assert Trim(ToLower(search.value)) != "" by { LowerTrimNotBlank(search.value); }
      Some(Trim(ToLower(search.value)))
  }

  /** Lower-casing keeps white space and nothing else, so a non-blank text stays non-blank. */
  lemma LowerTrimNotBlank(s: string)
    requires Trim(s) != ""
    ensures Trim(ToLower(s)) != ""
  {
    BlankIffAllSpace(s);
    BlankIffAllSpace(ToLower(s));
    if Trim(ToLower(s)) == "" {
      forall i | 0 <= i < |s| ensures IsSpace(s[i]) {
        assert IsSpace(ToLower(s)[i]);
        LowerCharKeepsSpace(s[i]);
      }
      assert false;
    }
  }

  /** What the management page lists: newest first, each row meeting the filters and the search. */
  method ManageAssignments(store: Store, status: Option<string>, userId: Option<string>, search: Option<string>,
                           dateFrom: Option<string>, dateTo: Option<string>,
                           dayStart: string -> Time, dayEnd: string -> Time)
    returns (rows: seq<Assignment>)
    requires store.Valid()
    ensures SortedBy(rows, NewestFirst())
    ensures forall x :: x in rows <==>
      && x in store.assignments && OwnerIsNonAdmin(store.users, x)
      && FilterHolds(ManageFilters(status, userId, dateFrom, dateTo, dayStart, dayEnd), x)
      && (SearchTerm(search).Some? ==> SearchMatches(store.State(), x, SearchTerm(search).value))
    ensures multiset(rows) <= multiset(store.assignments)
  {
    var filters := ManageFilters(status, userId, dateFrom, dateTo, dayStart, dayEnd);
    var listed := store.GetCurrentAssignments(filters);
    var term := SearchTerm(search);
    rows := listed;
    if term.Some? {
      SearchKeepsOrder(store.State(), listed, term.value, NewestFirst());
      rows := SearchRows(store.State(), listed, term.value);
    }
  }

  // ---------------------------------------------------------------------
  // The submission-data view

  /** `^data_\d+\.json$`: `data_`, one or more ASCII digits, `.json`. */
  predicate IsSubmissionFileName(f: string) {
    && |f| > 10
    && f[..5] == "data_"
    && f[|f| - 5..] == ".json"
    && AllDigits(f[5..|f| - 5])
  }

  /** The check accepts the name of a file id exactly when the id is a run of digits. */
  lemma SubmissionFileNameAccepted(fileId: string)
    ensures IsSubmissionFileName(SubmissionFileName(fileId)) <==> fileId != "" && AllDigits(fileId)
  {
    var f := SubmissionFileName(fileId);
    assert f[..5] == "data_";
    assert f[|f| - 5..] == ".json";
    assert f[5..|f| - 5] == fileId;
  }

  /** Every file a form submission writes, named after its time stamp, passes the check. */
  lemma SubmittedFileViewable(t: nat)
    ensures IsSubmissionFileName(TimestampFileName(t))
  {
    SubmissionFileNameAccepted(NatToString(t));
  }

  /** An accepted name cannot leave the data directory: it holds no `/` and no `..`. */
  lemma SubmissionFileNameIsPlain(f: string)
    requires IsSubmissionFileName(f)
    ensures '/' !in f
    ensures forall i :: 0 <= i < |f| - 1 ==> !(f[i] == '.' && f[i + 1] == '.')
  {
    assert f == f[..5] + f[5..|f| - 5] + f[|f| - 5..];
    forall i | 0 <= i < |f| ensures f[i] != '/' && (f[i] == '.' ==> i == |f| - 5) {
      if 5 <= i < |f| - 5 {
        assert f[i] == f[5..|f| - 5][i - 5];
      } else if i < 5 {
        assert f[i] == "data_"[i];
      } else {
        assert f[i] == ".json"[i - (|f| - 5)];
      }
    }
  }

  datatype ViewOutcome =
    | InvalidFileFormat
    | ViewAssignmentNotFound
    | ViewFileNotFound
    | SubmissionView(assignment: Assignment, data: FormData)

  /**
   * `GET /admin/assignments/submission-data/:filename`: the name is checked
   * first, then some assignment row with that stored path is looked up,
   * then the file is read from the data directory.
   */
  method ViewSubmissionData(store: Store, dir: DataDir, filename: string) returns (r: ViewOutcome)
    ensures r == InvalidFileFormat <==> !IsSubmissionFileName(filename)
    ensures r == ViewAssignmentNotFound <==>
      IsSubmissionFileName(filename) && forall a :: a in store.assignments ==> a.submissionDataFilePath != Some(filename)
    ensures r == ViewFileNotFound ==> filename !in dir.files
    ensures r.SubmissionView? ==>
      && IsSubmissionFileName(filename)
      && r.assignment in store.assignments && r.assignment.submissionDataFilePath == Some(filename)
      && filename in dir.files && r.data == dir.files[filename]
  {
    if !IsSubmissionFileName(filename) {
      return InvalidFileFormat;
    }
    if forall a :: a in store.assignments ==> a.submissionDataFilePath != Some(filename) {
      return ViewAssignmentNotFound;
    }
    var row :| row in store.assignments && row.submissionDataFilePath == Some(filename);
    if filename !in dir.files {
      return ViewFileNotFound;
    }
    r := SubmissionView(row, dir.files[filename]);
  }
}
