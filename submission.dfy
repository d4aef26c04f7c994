/**
 * Submission records and the one-time validation link: `POST /submit-form`
 * in `backend/server.js` writes a record `data_<t>.json` and links the
 * supervisor to `/app/validate-checklist/<t>`; `GET /api/validate/:id` in
 * `dhl_login/app.js` hands the record out once; `POST /api/validate/:id`
 * applies the supervisor's corrections and validates the assignment row.
 * The data directory is a map from file names to records.
 */
module Submission {
  import opened Wrappers
  import opened Strings
  import opened Models
  import opened Engine
  import opened Checkboxes
  import opened Sampling
  import opened Lifecycle

  /** The `supervisorValidation` object a validation writes. */
  datatype SupervisorValidation = SupervisorValidation(
    supervisorName: Option<string>,
    validatedAt: Time,
    validatedCheckboxes: map<string, bool>)

  /**
   * A submission record: the fields of the posted form the handlers read, and
   * the ones they add. `checkboxes` is `None` when missing or not an object,
   * `randomCheckboxes` when missing or not an array; a flag the client did
   * not send is `false`.
   */
  datatype FormData = FormData(
    title: Option<string>,
    checkboxes: Option<seq<Heading>>,
    supervisorEmail: Option<string>,
    checklistFilename: Option<string>,
    userId: Option<string>,
    randomCheckboxes: Option<seq<string>>,
    validationLinkAccessed: bool,
    validationLinkAccessedAt: Option<Time>,
    supervisorValidation: Option<SupervisorValidation>)

  /** The submission files, by file name. */
  class DataDir {
    var files: map<string, FormData>

    constructor()
      ensures files == map[]
    {
      files := map[];
    }

    /**
     * `GET /api/validate/:id`: checks in order that the file exists, that the
     * link was not used, that the record is not validated and that it has a
     * sample; only when all pass is the record stamped as accessed at `now`
     * and its checklist handed out.
     */
    method ValidateGet(fileId: string, now: Time) returns (r: GetOutcome)
      modifies this
      ensures GetPost(old(files), files, fileId, now, r)
    {
      var name := SubmissionFileName(fileId);
      if name !in files {
        return NotFound;
      }
      var rec := files[name];
      if rec.validationLinkAccessed {
        return AlreadyUsed;
      }
      if rec.supervisorValidation.Some? {
        return AlreadyValidated(rec.supervisorValidation.value.supervisorName, rec.supervisorValidation.value.validatedAt);
      }
      if rec.randomCheckboxes.None? {
        return NoRandomCheckboxes;
      }
      files := files[name := rec.(validationLinkAccessed := true, validationLinkAccessedAt := Some(now))];
      r := Granted(fileId, rec.title, rec.checkboxes, rec.randomCheckboxes.value);
    }
  }

  // ---------------------------------------------------------------------
  // Submitting a form

  /** The e-mail sent to the supervisor (`sendEmailToSupervisor`'s arguments). */
  datatype Email = Email(to: string, link: string, attachmentName: string, checklistTitle: string)

  datatype SubmitOutcome =
    | TitleMissing                // 400
    | CheckboxesInvalid           // 400
    | SupervisorEmailRequired     // 400
    | EmailFailed(sent: Email)    // 500, after the file is written
    | Submitted(sent: Email)      // 200

  const DefaultBaseUrl: string := "https://dot1hundred.com"

  /** `process.env.BASE_URL || 'https://dot1hundred.com'`. */
  function BaseUrl(configured: Option<string>): (r: string)
    ensures Present(configured) ==> r == configured.value
    ensures !Present(configured) ==> r == DefaultBaseUrl
  {
    if Present(configured) then configured.value else DefaultBaseUrl
  }

  /** The supervisor's link for the submission stamped `t`. */
  function ValidationLink(base: string, t: nat): (r: string)
    ensures EndsWith(r, "/app/validate-checklist/" + NatToString(t))
  {
    base + "/app/validate-checklist/" + NatToString(t)
  }

  /** The file name of the submission stamped `t`. */
  function TimestampFileName(t: nat): (r: string)
    ensures r == SubmissionFileName(NatToString(t))
  {
    "data_" + NatToString(t) + ".json"
  }

  /** The link's last segment opens the very file the submission was written to. */
  lemma LinkOpensItsFile(base: string, t: nat)
    ensures exists id :: EndsWith(ValidationLink(base, t), "/" + id) && SubmissionFileName(id) == TimestampFileName(t)
  {
    var id := NatToString(t);
    var link := ValidationLink(base, t);
    assert link == base + "/app/validate-checklist" + ("/" + id);
    assert link[|link| - |"/" + id|..] == "/" + id;
  }

  /** Different timestamps name different files. */
  lemma TimestampFileNameInjective(t: nat, u: nat)
    requires TimestampFileName(t) == TimestampFileName(u)
    ensures t == u
  {
    SubmissionFileNameInjective(NatToString(t), NatToString(u));
    ParseIntOfNatToString(t);
    ParseIntOfNatToString(u);
  }

  /** Row `i` is `uid`'s not-completed `assigned` row for checklist `cid`. */
  predicate IsAttachTarget(d: Db, i: int, uid: Id, cid: Id) {
    && 0 <= i < |d.assignments|
    && d.assignments[i].userId == uid && d.assignments[i].checklistId == cid
    && d.assignments[i].completedAt.None? && d.assignments[i].status == Assigned
  }

  predicate HasAttachTarget(d: Db, uid: Id, cid: Id) {
    exists i :: 0 <= i < |d.assignments| && IsAttachTarget(d, i, uid, cid)
  }

  /** The checklist with this file name, if any (`filename` is unique). */
  function ChecklistByFilename(cs: seq<Checklist>, filename: string): (r: Option<nat>)
    ensures r.Some? ==> r.value < |cs| && cs[r.value].filename == filename
    ensures r.None? <==> forall k :: 0 <= k < |cs| ==> cs[k].filename != filename
  {
    var r := Engine.Find(Filenames(cs), filename);
    if r.None? then
      assert forall k :: 0 <= k < |cs| ==> Filenames(cs)[k] == cs[k].filename;
      r
    else
      r
  }

  /** The row `i` with the submission's file name attached. */
  function AttachFile(d: Db, i: nat, filename: string): Db
    requires i < |d.assignments|
  {
    Db(d.users, d.checklists, d.assignments[i := d.assignments[i].(submissionDataFilePath := Some(filename))])
  }

  /**
   * What the submission does to the database: with a file name and a user id
   * in the form, a checklist of that file name and an open `assigned` row of
   * that user for it, that row gets the file name; otherwise nothing changes.
   */
  ghost predicate AttachPost(d: Db, d2: Db, body: FormData, filename: string) {
    if !Present(body.checklistFilename) || !Present(body.userId) then
      d2 == d
    else
      var c := ChecklistByFilename(d.checklists, body.checklistFilename.value);
      if c.None? || !HasAttachTarget(d, body.userId.value, d.checklists[c.value].id) then
        d2 == d
      else
        exists i :: IsAttachTarget(d, i, body.userId.value, d.checklists[c.value].id) && d2 == AttachFile(d, i, filename)
  }

  /**
   * `POST /submit-form`: the three 400s in order and before any write; then
   * the record (the form plus its sample) is written under `data_<now>.json`,
   * the file name is attached to the assignment row, and the e-mail's result
   * decides between 500 and 200.
   */
  ghost predicate SubmitPost(d: Db, d2: Db, files: map<string, FormData>, files2: map<string, FormData>,
                             body: FormData, now: nat, rand: nat -> nat, baseUrl: Option<string>,
                             emailOk: bool, r: SubmitOutcome) {
    if !Present(body.title) then
      r == TitleMissing && d2 == d && files2 == files
    else if body.checkboxes.None? then
      r == CheckboxesInvalid && d2 == d && files2 == files
    else if !Present(body.supervisorEmail) then
      r == SupervisorEmailRequired && d2 == d && files2 == files
    else
      var name := TimestampFileName(now);
      var email := Email(body.supervisorEmail.value, ValidationLink(BaseUrl(baseUrl), now), name, body.title.value);
      && files2 == files[name := body.(randomCheckboxes := Some(Sample(body.checkboxes.value, rand)))]
      && AttachPost(d, d2, body, name)
      && r == if emailOk then Submitted(email) else EmailFailed(email)
  }

  /** The attach step: at most one row can be the target, so the latest is it. */
  method AttachSubmission(store: Store, body: FormData, filename: string)
    requires store.Valid()
    modifies store
    ensures store.Valid()
    ensures AttachPost(old(store.State()), store.State(), body, filename)
  {
    if !Present(body.checklistFilename) || !Present(body.userId) {
      return;
    }
    var c := ChecklistByFilename(store.checklists, body.checklistFilename.value);
    if c.None? {
      return;
    }
    var uid, cid := body.userId.value, store.checklists[c.value].id;
    if !HasAttachTarget(store.State(), uid, cid) {
      return;
    }
    var i :| 0 <= i < |store.assignments| && IsAttachTarget(store.State(), i, uid, cid);
    var d := store.State();
    var row := store.assignments[i].(submissionDataFilePath := Some(filename));
    UpdateRowPreservesInv(d, i, row);
    store.Commit(Db(d.users, d.checklists, d.assignments[i := row]));
    assert store.State() == AttachFile(d, i, filename);
  }

  /** Under the invariant the attach target is unique, hence the most recently assigned one. */
  lemma AttachTargetUnique(d: Db, i: nat, j: nat, uid: Id, cid: Id)
    requires Inv(d)
    requires IsAttachTarget(d, i, uid, cid) && IsAttachTarget(d, j, uid, cid)
    ensures i == j
    ensures d.assignments[j].assignedAt <= d.assignments[i].assignedAt
  {
    ActiveRowUnique(d, i, j, uid);
  }

  method SubmitForm(store: Store, dir: DataDir, body: FormData, now: nat, rand: nat -> nat,
                    baseUrl: Option<string>, emailOk: bool)
    returns (r: SubmitOutcome)
    requires store.Valid()
    modifies store, dir
    ensures store.Valid()
    ensures SubmitPost(old(store.State()), store.State(), old(dir.files), dir.files, body, now, rand, baseUrl, emailOk, r)
  {
    if !Present(body.title) {
      return TitleMissing;
    }
    if body.checkboxes.None? {
      return CheckboxesInvalid;
    }
    if !Present(body.supervisorEmail) {
      return SupervisorEmailRequired;
    }
    var filename := "data_" + NatToString(now) + ".json";
    var sample := GetRandomCheckboxes(body.checkboxes.value, rand);
    var rec := body.(randomCheckboxes := Some(sample));
    dir.files := dir.files[filename := rec];
    AttachSubmission(store, body, filename);
    var link := BaseUrl(baseUrl) + "/app/validate-checklist/" + NatToString(now);
    var email := Email(body.supervisorEmail.value, link, filename, body.title.value);
    if !emailOk {
      return EmailFailed(email);
    }
    r := Submitted(email);
  }

  // ---------------------------------------------------------------------
  // The validation link

  datatype GetOutcome =
    | NotFound                                                   // 404
    | AlreadyUsed                                                // 410
    | AlreadyValidated(validatedBy: Option<string>, validatedAt: Time)  // 410
    | NoRandomCheckboxes                                         // 400
    | Granted(fileId: string, title: Option<string>, checkboxes: Option<seq<Heading>>, randomCheckboxes: seq<string>)

  /** The outcome of the `GET` for each state of the file, and the only write it makes. */
  ghost predicate GetPost(files: map<string, FormData>, files2: map<string, FormData>, fileId: string, now: Time,
                          r: GetOutcome) {
    var name := SubmissionFileName(fileId);
    if name !in files then
      r == NotFound && files2 == files
    else
      var rec := files[name];
      if rec.validationLinkAccessed then
        r == AlreadyUsed && files2 == files
      else if rec.supervisorValidation.Some? then
        && r == AlreadyValidated(rec.supervisorValidation.value.supervisorName, rec.supervisorValidation.value.validatedAt)
        && files2 == files
      else if rec.randomCheckboxes.None? then
        r == NoRandomCheckboxes && files2 == files
      else
        && r == Granted(fileId, rec.title, rec.checkboxes, rec.randomCheckboxes.value)
        && files2 == files[name := rec.(validationLinkAccessed := true, validationLinkAccessedAt := Some(now))]
  }

  /** The link is single-use: after a granted `GET`, the next `GET` is refused and writes nothing. */
  lemma GetIsSingleUse(f0: map<string, FormData>, f1: map<string, FormData>, f2: map<string, FormData>,
                       fileId: string, now: Time, later: Time, r1: GetOutcome, r2: GetOutcome)
    requires GetPost(f0, f1, fileId, now, r1) && r1.Granted?
    requires GetPost(f1, f2, fileId, later, r2)
    ensures r2 == AlreadyUsed && f2 == f1
  {
  }

  /** Only a granted `GET` writes, and then only the accessed flag and time of that one file. */
  lemma GetWritesOnlyFlags(f0: map<string, FormData>, f1: map<string, FormData>, fileId: string, now: Time,
                           r: GetOutcome)
    requires GetPost(f0, f1, fileId, now, r)
    ensures f1.Keys == f0.Keys
    ensures forall n :: n in f0 && n != SubmissionFileName(fileId) ==> f1[n] == f0[n]
    ensures !r.Granted? ==> f1 == f0
    ensures r.Granted? ==> f1[SubmissionFileName(fileId)].validationLinkAccessed
    ensures r.Granted? ==>
      f1[SubmissionFileName(fileId)].(validationLinkAccessed := false, validationLinkAccessedAt := None) ==
      f0[SubmissionFileName(fileId)].(validationLinkAccessed := false, validationLinkAccessedAt := None)
  {
  }

  /**
   * A form the client sent without the two flags, once submitted, is handed
   * out through its link's id with the sample the submission drew; the e-mail
   * outcome does not matter.
   */
  lemma SubmitThenGetGrants(d: Db, d2: Db, f0: map<string, FormData>, f1: map<string, FormData>,
                            f2: map<string, FormData>, body: FormData, now: nat, rand: nat -> nat,
                            baseUrl: Option<string>, emailOk: bool, r: SubmitOutcome, later: Time, g: GetOutcome)
    requires SubmitPost(d, d2, f0, f1, body, now, rand, baseUrl, emailOk, r)
    requires r.Submitted? || r.EmailFailed?
    requires !body.validationLinkAccessed && body.supervisorValidation.None?
    requires GetPost(f1, f2, NatToString(now), later, g)
    ensures g == Granted(NatToString(now), body.title, body.checkboxes, Sample(body.checkboxes.value, rand))
  {
  }

  // ---------------------------------------------------------------------
  // The supervisor's validation

  datatype PostOutcome =
    | PostNotFound   // 404
    | PostCrashed    // the corrections are not an array: the handler throws before any write
    | PostOk         // 200, whatever happened to the assignment row

  /** The record after a validation by `supervisorName` at `now` with these corrections. */
  function Validated(rec: FormData, supervisorName: Option<string>, cs: seq<Correction>, now: Time): (r: FormData)
    ensures r.validationLinkAccessed == rec.validationLinkAccessed
    ensures r.randomCheckboxes == rec.randomCheckboxes && r.title == rec.title
    ensures r.supervisorValidation == Some(SupervisorValidation(supervisorName, now, SupervisorMap(cs)))
    ensures rec.checkboxes.None? ==> r.checkboxes.None?
    ensures rec.checkboxes.Some? ==> r.checkboxes == Some(ApplyAll(rec.checkboxes.value, cs))
  {
    rec.(checkboxes := if rec.checkboxes.Some? then Some(ApplyAll(rec.checkboxes.value, cs)) else None,
         supervisorValidation := Some(SupervisorValidation(supervisorName, now, SupervisorMap(cs))))
  }

  /**
   * `POST /api/validate/:id`: 404 for a missing file; a crash with no write
   * when the corrections are not an array; otherwise the record is rewritten
   * with the corrections applied and `supervisorValidation` set, and the
   * assignment row is validated as `markAssignmentValidated` does. Neither
   * the accessed flag nor an earlier validation is consulted.
   */
  ghost predicate PostPost(d: Db, d2: Db, files: map<string, FormData>, files2: map<string, FormData>,
                           fileId: string, supervisorName: Option<string>, corrections: Option<seq<Correction>>,
                           now: Time, r: PostOutcome, rowValidated: bool) {
    var name := SubmissionFileName(fileId);
    if name !in files then
      r == PostNotFound && files2 == files && d2 == d && !rowValidated
    else if corrections.None? then
      r == PostCrashed && files2 == files && d2 == d && !rowValidated
    else
      && r == PostOk
      && files2 == files[name := Validated(files[name], supervisorName, corrections.value, now)]
      && MarkValidatedPost(d, d2, fileId, supervisorName, now, rowValidated)
  }

  method ValidatePost(store: Store, dir: DataDir, fileId: string, supervisorName: Option<string>,
                      corrections: Option<seq<Correction>>, now: Time)
    returns (r: PostOutcome, rowValidated: bool)
    requires store.Valid()
    modifies store, dir
    ensures store.Valid()
    ensures PostPost(old(store.State()), store.State(), old(dir.files), dir.files, fileId, supervisorName,
                     corrections, now, r, rowValidated)
  {
    var name := SubmissionFileName(fileId);
    if name !in dir.files {
      return PostNotFound, false;
    }
    if corrections.None? {
      return PostCrashed, false;
    }
    var rec := dir.files[name];
    var checkboxes := rec.checkboxes;
    if checkboxes.Some? {
      var updated := UpdateCheckboxes(checkboxes.value, corrections);
      checkboxes := Some(updated);
    }
    var validation := SupervisorValidation(supervisorName, now, SupervisorMap(corrections.value));
    dir.files := dir.files[name := rec.(checkboxes := checkboxes, supervisorValidation := Some(validation))];
    rowValidated := MarkAssignmentValidated(store, fileId, supervisorName, now);
    r := PostOk;
  }

  /**
   * Once validated, the link never grants again: a later `GET` reports the
   * link used or the checklist validated, and writes nothing.
   */
  lemma NoGrantAfterValidation(d: Db, d2: Db, f0: map<string, FormData>, f1: map<string, FormData>,
                               f2: map<string, FormData>, fileId: string, name: Option<string>,
                               cs: Option<seq<Correction>>, now: Time, later: Time, r: PostOutcome, ok: bool,
                               g: GetOutcome)
    requires PostPost(d, d2, f0, f1, fileId, name, cs, now, r, ok) && r == PostOk
    requires GetPost(f1, f2, fileId, later, g)
    ensures g.AlreadyUsed? || g == AlreadyValidated(name, now)
    ensures f2 == f1
  {
  }

  /** A validation keeps an earlier `GET`'s stamp, so a used link stays used. */
  lemma UsedLinkStaysUsed(d: Db, d2: Db, f0: map<string, FormData>, f1: map<string, FormData>,
                          fileId: string, id: string, name: Option<string>, cs: Option<seq<Correction>>,
                          now: Time, r: PostOutcome, ok: bool)
    requires PostPost(d, d2, f0, f1, fileId, name, cs, now, r, ok)
    requires SubmissionFileName(id) in f0 && f0[SubmissionFileName(id)].validationLinkAccessed
    ensures SubmissionFileName(id) in f1 && f1[SubmissionFileName(id)].validationLinkAccessed
  {
  }

  /**
   * The `POST` repeats: a second validation of the same file succeeds again,
   * rewrites `supervisorValidation` with the later name, time and corrections,
   * and applies its corrections on top of the first ones.
   */
  lemma PostAcceptsRevalidation(d: Db, d2: Db, d3: Db, f0: map<string, FormData>, f1: map<string, FormData>,
                                f2: map<string, FormData>, fileId: string, n1: Option<string>, n2: Option<string>,
                                c1: seq<Correction>, c2: seq<Correction>, t1: Time, t2: Time,
                                r1: PostOutcome, r2: PostOutcome, ok1: bool, ok2: bool)
    requires PostPost(d, d2, f0, f1, fileId, n1, Some(c1), t1, r1, ok1) && r1 == PostOk
    requires PostPost(d2, d3, f1, f2, fileId, n2, Some(c2), t2, r2, ok2)
    ensures r2 == PostOk
    ensures f2[SubmissionFileName(fileId)].supervisorValidation == Some(SupervisorValidation(n2, t2, SupervisorMap(c2)))
    ensures f0[SubmissionFileName(fileId)].checkboxes.Some? ==>
      f2[SubmissionFileName(fileId)].checkboxes == Some(ApplyAll(ApplyAll(f0[SubmissionFileName(fileId)].checkboxes.value, c1), c2))
  {
  }
}
