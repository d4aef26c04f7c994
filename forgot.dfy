/**
 * The three-step forgot-password form of `dhl_login/routes/forgotPassword.js`:
 * step 1 takes a username and shows its two security questions, step 2
 * checks the two answers, step 3 sets the new password. Between the steps
 * the server session carries `resetUsername` and `resetVerified`. Users live
 * in the `Store` of module `Engine`; the clock is a parameter.
 *
 * Two members here model the code as written where it lets a password be
 * reset without both answers (`StepTwoAnswersMatch`, `StartReset`); next to
 * each stands the corrected definition with the property the flow is meant
 * to have (`StepTwoAnswersMatchFixed`, `StartResetFixed`).
 */
module Forgot {
  import opened Wrappers
  import opened Strings
  import opened Bcrypt
  import opened Models
  import opened Security
  import opened Validation
  import opened Engine
  import opened Throttle
  import opened AuthApi

  /** The two session keys of the flow; a deleted key is `None` or `false`. */
  datatype Session = Session(resetUsername: Option<string>, resetVerified: bool)

  class ResetSession {
    var resetUsername: Option<string>
    var resetVerified: bool

    function State(): Session
      reads this
    {
      Session(resetUsername, resetVerified)
    }

    constructor ()
      ensures State() == Session(None, false)
    {
      resetUsername := None;
      resetVerified := false;
    }
  }

  // ---------------------------------------------------------------------
  // Step 1: the username

  datatype StartOutcome =
    | UsernameRequired
    | UnknownUsername           // the generic "if this username exists" message
    | StartLocked
    | QuestionsUnavailable
    | ShowQuestions(username: string, question1: Question, question2: Question)

  /** The user's row after step 1: an expired lockout restarts the counter (the time stays). */
  function RestartIfExpired(u: User, now: Time): (v: User)
    ensures LockExpired(u, now) ==> v.passwordResetAttemptCount == 0 && !Locked(v, now)
    ensures !LockExpired(u, now) ==> v == u
    ensures v.(passwordResetAttemptCount := 0) == u.(passwordResetAttemptCount := 0)
  {
    if LockExpired(u, now) then u.(passwordResetAttemptCount := 0) else u
  }

  /**
   * `POST /forgot-password`: a missing or blank username and an unknown one
   * change nothing; a locked user changes nothing; otherwise an expired
   * lockout is saved as restarted, and when both stored question ids name a
   * predefined question the trimmed username is remembered in the session.
   * `resetVerified` is left as it was (see `StartResetFixed`).
   */
  ghost predicate StartPost(d: Db, d2: Db, s: Session, s2: Session, username: Option<string>, now: Time,
                            r: StartOutcome) {
    if username.None? || Trim(username.value) == "" then
      r == UsernameRequired && d2 == d && s2 == s
    else
      var name := Trim(username.value);
      match UserByName(d.users, name)
      case None => r == UnknownUsername && d2 == d && s2 == s
      case Some(k) =>
        var u := d.users[k];
        if Locked(u, now) then
          r == StartLocked && d2 == d && s2 == s
        else
          && d2 == d.(users := d.users[k := RestartIfExpired(u, now)])
          && match (GetSecurityQuestionById(IdNumber(u.securityQuestion1Id)),
                    GetSecurityQuestionById(IdNumber(u.securityQuestion2Id)))
             case (Some(q1), Some(q2)) => r == ShowQuestions(name, q1, q2) && s2 == s.(resetUsername := Some(name))
             case _ => r == QuestionsUnavailable && s2 == s
  }

  method StartReset(store: Store, session: ResetSession, username: Option<string>, now: Time)
    returns (r: StartOutcome)
    requires store.Valid()
    modifies store, session
    ensures store.Valid()
    ensures StartPost(old(store.State()), store.State(), old(session.State()), session.State(), username, now, r)
  {
    if username.None? || Trim(username.value) == "" {
      return UsernameRequired;
    }
    var name := Trim(username.value);
    var found := UserByName(store.users, name);
    if found.None? {
      return UnknownUsername;
    }
    var k := found.value;
    var user := store.users[k];
    if Locked(user, now) {
      return StartLocked;
    }
    var restarted := RestartIfExpired(user, now);
    UpdateUserPreservesInv(store.State(), k, restarted);
    store.Commit(Db(store.users[k := restarted], store.checklists, store.assignments));
    var q1 := GetSecurityQuestionById(IdNumber(user.securityQuestion1Id));
    var q2 := GetSecurityQuestionById(IdNumber(user.securityQuestion2Id));
    if q1.None? || q2.None? {
      return QuestionsUnavailable;
    }
    session.resetUsername := Some(name);
    r := ShowQuestions(name, q1.value, q2.value);
  }

  /**
   * Step 1 as evidently intended: the same, except that showing the
   * questions of a username also withdraws any verification the session
   * still holds from an earlier username.
   */
  ghost predicate StartFixedPost(d: Db, d2: Db, s: Session, s2: Session, username: Option<string>, now: Time,
                                 r: StartOutcome) {
    if r.ShowQuestions? then
      exists s1 :: StartPost(d, d2, s, s1, username, now, r) && s2 == s1.(resetVerified := false)
    else
      StartPost(d, d2, s, s2, username, now, r)
  }

  method StartResetFixed(store: Store, session: ResetSession, username: Option<string>, now: Time)
    returns (r: StartOutcome)
    requires store.Valid()
    modifies store, session
    ensures store.Valid()
    ensures StartFixedPost(old(store.State()), store.State(), old(session.State()), session.State(), username, now, r)
    ensures r.ShowQuestions? ==> session.State() == Session(Some(r.username), false)
  {
    r := StartReset(store, session, username, now);
    ghost var s1 := session.State();
    if r.ShowQuestions? {
      session.resetVerified := false;
      assert session.State() == s1.(resetVerified := false);
    }
  }

  // ---------------------------------------------------------------------
  // Step 2: the answers

  /**
   * One submitted answer as step 2 routes it: its question id, read with
   * `parseInt(…, 10)`, chooses the stored hash of the first stored question,
   * else of the second; an id naming neither is wrong. This is exactly what
   * the JSON route accepts for that one answer.
   */
  function StepTwoAnswerCorrect(u: User, answer: string, questionId: string): (ok: bool)
    ensures ok <==> ProvesFirst(SecurityAnswer(IdText(questionId), Some(answer)), u)
                    || ProvesSecond(SecurityAnswer(IdText(questionId), Some(answer)), u)
  {
    var id := ParseInt(questionId);
    if id == Some(u.securityQuestion1Id) then CompareAnswer(Some(answer), u.securityAnswer1Hash)
    else if id == Some(u.securityQuestion2Id) then CompareAnswer(Some(answer), u.securityAnswer2Hash)
    else false
  }

  /** Step 2 as written: each submitted answer is correct for whichever stored question its id names. */
  predicate StepTwoAnswersMatch(u: User, answer1: string, answer2: string, questionId1: string, questionId2: string) {
    StepTwoAnswerCorrect(u, answer1, questionId1) && StepTwoAnswerCorrect(u, answer2, questionId2)
  }

  /**
   * As written, the answer to the first stored question, sent twice under
   * that question's id, passes step 2 whatever the second answer is.
   */
  lemma OneAnswerPassesStepTwo(u: User, answer: string)
    requires u.securityQuestion1Id >= 0
    requires CompareAnswer(Some(answer), u.securityAnswer1Hash)
    ensures StepTwoAnswersMatch(u, answer, answer, NatToString(u.securityQuestion1Id), NatToString(u.securityQuestion1Id))
    ensures !StepTwoAnswersMatchFixed(u, answer, answer, NatToString(u.securityQuestion1Id),
                                      NatToString(u.securityQuestion1Id))
  {
    ParseIntOfNatToString(u.securityQuestion1Id);
    var id := NatToString(u.securityQuestion1Id);
    AnswersProveNeedsBothQuestions(SecurityAnswer(IdText(id), Some(answer)), SecurityAnswer(IdText(id), Some(answer)), u);
  }

  /**
   * Step 2 as evidently intended, and as `POST /verify-security-answers`
   * checks it: the first stored question and the second stored question
   * are each answered correctly by one of the two answers.
   */
  predicate StepTwoAnswersMatchFixed(u: User, answer1: string, answer2: string, questionId1: string,
                                     questionId2: string) {
    AnswersProve([SecurityAnswer(IdText(questionId1), Some(answer1)), SecurityAnswer(IdText(questionId2), Some(answer2))], u)
  }

  /**
   * The corrected check needs both stored answers: it never passes on two
   * answers under the same question id, and it passes exactly when one
   * answer proves the first stored question and the other the second.
   */
  lemma StepTwoFixedNeedsBothAnswers(u: User, answer1: string, answer2: string, questionId1: string,
                                     questionId2: string)
    ensures StepTwoAnswersMatchFixed(u, answer1, answer2, questionId1, questionId2) ==>
      ParseInt(questionId1) != ParseInt(questionId2)
    ensures StepTwoAnswersMatchFixed(u, answer1, answer2, questionId1, questionId2) <==>
      (|| (ProvesFirst(SecurityAnswer(IdText(questionId1), Some(answer1)), u)
           && ProvesSecond(SecurityAnswer(IdText(questionId2), Some(answer2)), u))
       || (ProvesSecond(SecurityAnswer(IdText(questionId1), Some(answer1)), u)
           && ProvesFirst(SecurityAnswer(IdText(questionId2), Some(answer2)), u)))
  {
    var a := SecurityAnswer(IdText(questionId1), Some(answer1));
    var b := SecurityAnswer(IdText(questionId2), Some(answer2));
    AnswersProveTwo(a, b, u);
    if ParseInt(questionId1) == ParseInt(questionId2) {
      AnswersProveNeedsBothQuestions(a, b, u);
    }
  }

  /** The corrected check is stricter than the one as written. */
  lemma StepTwoFixedImpliesAsWritten(u: User, answer1: string, answer2: string, questionId1: string,
                                     questionId2: string)
    ensures StepTwoAnswersMatchFixed(u, answer1, answer2, questionId1, questionId2) ==>
      StepTwoAnswersMatch(u, answer1, answer2, questionId1, questionId2)
  {
    StepTwoFixedNeedsBothAnswers(u, answer1, answer2, questionId1, questionId2);
  }

  /** The step-2 check: as written, or the corrected one. */
  predicate StepTwoPasses(u: User, answer1: string, answer2: string, questionId1: string, questionId2: string,
                          corrected: bool) {
    if corrected then StepTwoAnswersMatchFixed(u, answer1, answer2, questionId1, questionId2)
    else StepTwoAnswersMatch(u, answer1, answer2, questionId1, questionId2)
  }

  datatype AnswersOutcome =
    | SessionExpired
    | BothAnswersRequired
    | AnswersUserNotFound
    | AnswersLocked
    | AnswersIncorrect
    | AnswersAccepted(username: string)

  /**
   * `POST /forgot-password/verify-answers`: without a remembered username or
   * with a missing field nothing changes; an unknown or locked user ends the
   * flow by deleting `resetUsername`; a failed check counts one more attempt
   * at `now` (an expired lockout is not restarted here); a passing check
   * clears the counter and sets `resetVerified`. The check is the one as
   * written, or the corrected `StepTwoAnswersMatchFixed` when `corrected`.
   */
  ghost predicate AnswersPost(d: Db, d2: Db, s: Session, s2: Session, answer1: Option<string>, answer2: Option<string>,
                              questionId1: Option<string>, questionId2: Option<string>, now: Time, r: AnswersOutcome,
                              corrected: bool) {
    if !Present(s.resetUsername) then
      r == SessionExpired && d2 == d && s2 == s
    else if !Present(answer1) || !Present(answer2) || !Present(questionId1) || !Present(questionId2) then
      r == BothAnswersRequired && d2 == d && s2 == s
    else match UserByName(d.users, s.resetUsername.value)
      case None => r == AnswersUserNotFound && d2 == d && s2 == s.(resetUsername := None)
      case Some(k) =>
        var u := d.users[k];
        if Locked(u, now) then
          r == AnswersLocked && d2 == d && s2 == s.(resetUsername := None)
        else if !StepTwoPasses(u, answer1.value, answer2.value, questionId1.value, questionId2.value, corrected) then
          r == AnswersIncorrect && d2 == d.(users := d.users[k := AfterFailure(u, now)]) && s2 == s
        else
          && r == AnswersAccepted(s.resetUsername.value)
          && d2 == d.(users := d.users[k := Cleared(u)])
          && s2 == s.(resetVerified := true)
  }

  method VerifyResetAnswers(store: Store, session: ResetSession, answer1: Option<string>, answer2: Option<string>,
                            questionId1: Option<string>, questionId2: Option<string>, now: Time, corrected: bool)
    returns (r: AnswersOutcome)
    requires store.Valid()
    modifies store, session
    ensures store.Valid()
    ensures AnswersPost(old(store.State()), store.State(), old(session.State()), session.State(),
                        answer1, answer2, questionId1, questionId2, now, r, corrected)
  {
    var username := session.resetUsername;
    if !Present(username) {
      return SessionExpired;
    }
    if !Present(answer1) || !Present(answer2) || !Present(questionId1) || !Present(questionId2) {
      return BothAnswersRequired;
    }
    var found := UserByName(store.users, username.value);
    if found.None? {
      session.resetUsername := None;
      return AnswersUserNotFound;
    }
    var k := found.value;
    var user := store.users[k];
    if Locked(user, now) {
      session.resetUsername := None;
      return AnswersLocked;
    }
    var answer1Correct := StepTwoAnswerCorrect(user, answer1.value, questionId1.value);
    var answer2Correct := StepTwoAnswerCorrect(user, answer2.value, questionId2.value);
    var passed := if corrected then StepTwoAnswersMatchFixed(user, answer1.value, answer2.value, questionId1.value,
                                                            questionId2.value)
                  else answer1Correct && answer2Correct;
    if !passed {
      UpdateUserPreservesInv(store.State(), k, AfterFailure(user, now));
      store.Commit(Db(store.users[k := AfterFailure(user, now)], store.checklists, store.assignments));
      return AnswersIncorrect;
    }
    UpdateUserPreservesInv(store.State(), k, Cleared(user));
    store.Commit(Db(store.users[k := Cleared(user)], store.checklists, store.assignments));
    session.resetVerified := true;
    r := AnswersAccepted(username.value);
  }

  /**
   * With the corrected check, step 2 accepts only answers given under two
   * different question ids, so one answer sent twice never verifies.
   */
  lemma CorrectedStepTwoNeedsTwoQuestions(d: Db, d2: Db, s: Session, s2: Session, a1: Option<string>,
                                          a2: Option<string>, q1: Option<string>, q2: Option<string>, now: Time,
                                          r: AnswersOutcome)
    requires AnswersPost(d, d2, s, s2, a1, a2, q1, q2, now, r, true) && r.AnswersAccepted?
    ensures q1.Some? && q2.Some? && ParseInt(q1.value) != ParseInt(q2.value)
  {
    var k := UserByName(d.users, s.resetUsername.value).value;
    StepTwoFixedNeedsBothAnswers(d.users[k], a1.value, a2.value, q1.value, q2.value);
  }

  /**
   * A failure that brings the counter to five ends the flow for fifteen
   * minutes: the next try within them deletes the remembered username and
   * changes no user.
   */
  lemma FailuresLockStepTwo(d: Db, d2: Db, d3: Db, s: Session, s2: Session, s3: Session,
                            a1: Option<string>, a2: Option<string>, q1: Option<string>, q2: Option<string>,
                            b1: Option<string>, b2: Option<string>, p1: Option<string>, p2: Option<string>,
                            now: Time, later: Time, r2: AnswersOutcome, corrected: bool)
    requires AnswersPost(d, d2, s, s2, a1, a2, q1, q2, now, AnswersIncorrect, corrected)
    requires AnswersPost(d2, d3, s2, s3, b1, b2, p1, p2, later, r2, corrected)
    requires Present(b1) && Present(b2) && Present(p1) && Present(p2)
    requires d2.users[UserByName(d.users, s.resetUsername.value).value].passwordResetAttemptCount >= MaxAttempts
    requires later - now < LockoutMs
    ensures r2 == AnswersLocked && d3 == d2 && s3 == s2.(resetUsername := None)
  {
    var k := UserByName(d.users, s.resetUsername.value).value;
    UserByNameAfterUpdate(d.users, k, d2.users[k], s.resetUsername.value);
  }

  // ---------------------------------------------------------------------
  // Step 3: the new password

  datatype ResetOutcome =
    | NotVerified
    | PasswordsRequired
    | PasswordsDiffer
    | PasswordTooShort
    | ResetUserGone
    | PasswordReset(username: string)

  /** The user row after a reset: the new hash, the counter and its time cleared. */
  function WithNewPassword(u: User, newPassword: string): (v: User)
    ensures Compare(newPassword, v.passwordHash)
    ensures v.passwordResetAttemptCount == 0 && v.lastPasswordResetAttempt.None?
    ensures v.(passwordHash := u.passwordHash) == Cleared(u)
  {
    CompareHash(newPassword, newPassword);
    Cleared(u).(passwordHash := Hash(newPassword))
  }

  /**
   * `POST /forgot-password/reset`: only a session holding a username and the
   * verification goes on; then both fields are required, must agree and be
   * at least eight characters long, changing nothing otherwise. The last two
   * outcomes end the flow by deleting both session keys; a known user gets
   * the new password.
   */
  ghost predicate ResetPost(d: Db, d2: Db, s: Session, s2: Session, newPassword: Option<string>,
                            confirmPassword: Option<string>, r: ResetOutcome) {
    if !Present(s.resetUsername) || !s.resetVerified then
      r == NotVerified && d2 == d && s2 == s
    else if !Present(newPassword) || !Present(confirmPassword) then
      r == PasswordsRequired && d2 == d && s2 == s
    else if newPassword.value != confirmPassword.value then
      r == PasswordsDiffer && d2 == d && s2 == s
    else if |newPassword.value| < MinPasswordLength then
      r == PasswordTooShort && d2 == d && s2 == s
    else match UserByName(d.users, s.resetUsername.value)
      case None => r == ResetUserGone && d2 == d && s2 == Session(None, false)
      case Some(k) =>
        && r == PasswordReset(s.resetUsername.value)
        && d2 == d.(users := d.users[k := WithNewPassword(d.users[k], newPassword.value)])
        && s2 == Session(None, false)
  }

  method ResetForgottenPassword(store: Store, session: ResetSession, newPassword: Option<string>,
                                confirmPassword: Option<string>)
    returns (r: ResetOutcome)
    requires store.Valid()
    modifies store, session
    ensures store.Valid()
    ensures ResetPost(old(store.State()), store.State(), old(session.State()), session.State(),
                      newPassword, confirmPassword, r)
  {
    var username := session.resetUsername;
    if !Present(username) || !session.resetVerified {
      return NotVerified;
    }
    if !Present(newPassword) || !Present(confirmPassword) {
      return PasswordsRequired;
    }
    if newPassword.value != confirmPassword.value {
      return PasswordsDiffer;
    }
    if |newPassword.value| < MinPasswordLength {
      return PasswordTooShort;
    }
    var found := UserByName(store.users, username.value);
    if found.None? {
      session.resetUsername, session.resetVerified := None, false;
      return ResetUserGone;
    }
    var k := found.value;
    var user := WithNewPassword(store.users[k], newPassword.value);
    UpdateUserPreservesInv(store.State(), k, user);
    store.Commit(Db(store.users[k := user], store.checklists, store.assignments));
    session.resetUsername, session.resetVerified := None, false;
    r := PasswordReset(username.value);
  }

  /** A reset ends the flow: a second one in the same session is refused and changes nothing. */
  lemma ResetSingleUse(d: Db, d2: Db, d3: Db, s: Session, s2: Session, s3: Session,
                       p1: Option<string>, c1: Option<string>, p2: Option<string>, c2: Option<string>,
                       name: string, r2: ResetOutcome)
    requires ResetPost(d, d2, s, s2, p1, c1, PasswordReset(name))
    requires ResetPost(d2, d3, s2, s3, p2, c2, r2)
    ensures r2 == NotVerified && d3 == d2 && s3 == s2
  {
  }

  /**
   * The flow end to end: the questions of a username shown, both answers
   * accepted, then two equal passwords of eight or more characters give that
   * user the new password.
   */
  lemma FlowResetsPassword(d: Db, d1: Db, d2: Db, d3: Db, s: Session, s1: Session, s2: Session, s3: Session,
                           username: Option<string>, now: Time, later: Time, r1: StartOutcome,
                           a1: Option<string>, a2: Option<string>, q1: Option<string>, q2: Option<string>,
                           name: string, newPassword: string, r3: ResetOutcome, corrected: bool)
    requires StartPost(d, d1, s, s1, username, now, r1) && r1.ShowQuestions?
    requires AnswersPost(d1, d2, s1, s2, a1, a2, q1, q2, later, AnswersAccepted(name), corrected)
    requires |newPassword| >= MinPasswordLength
    requires ResetPost(d2, d3, s2, s3, Some(newPassword), Some(newPassword), r3)
    ensures name == r1.username && r3 == PasswordReset(name)
    ensures exists k :: (0 <= k < |d3.users| && d3.users[k].username == name
                         && Compare(newPassword, d3.users[k].passwordHash))
  {
    var k := UserByName(d.users, r1.username).value;
    UserByNameAfterUpdate(d.users, k, d1.users[k], r1.username);
    UserByNameAfterUpdate(d1.users, k, d2.users[k], r1.username);
    assert d3.users[k] == WithNewPassword(d2.users[k], newPassword);
  }

  /**
   * As written, a verification outlives a change of username: after user A's
   * answers are accepted, step 1 with user B's name keeps `resetVerified`, and
   * step 3 then sets B's password without any of B's answers.
   */
  lemma StaleVerificationResetsOtherUser(d: Db, d1: Db, d2: Db, d3: Db, s: Session, s1: Session, s2: Session,
                                         s3: Session, a1: Option<string>, a2: Option<string>, q1: Option<string>,
                                         q2: Option<string>, nameA: string, usernameB: Option<string>, now: Time,
                                         r2: StartOutcome, newPassword: string, r3: ResetOutcome,
                                         corrected: bool)
    requires AnswersPost(d, d1, s, s1, a1, a2, q1, q2, now, AnswersAccepted(nameA), corrected)
    requires StartPost(d1, d2, s1, s2, usernameB, now, r2) && r2.ShowQuestions?
    requires |newPassword| >= MinPasswordLength
    requires ResetPost(d2, d3, s2, s3, Some(newPassword), Some(newPassword), r3)
    ensures r3 == PasswordReset(r2.username)
    ensures exists k :: (0 <= k < |d3.users| && d3.users[k].username == r2.username
                         && Compare(newPassword, d3.users[k].passwordHash))
  {
    var k := UserByName(d1.users, r2.username).value;
    UserByNameAfterUpdate(d1.users, k, d2.users[k], r2.username);
    assert d3.users[k] == WithNewPassword(d2.users[k], newPassword);
  }

  /**
   * With the corrected step 1 a change of username withdraws the
   * verification: step 3 right after it is refused and changes nothing,
   * whatever the session held before.
   */
  lemma FixedStartRequiresNewAnswers(d: Db, d1: Db, d2: Db, s: Session, s1: Session, s2: Session,
                                     username: Option<string>, now: Time, r1: StartOutcome,
                                     p: Option<string>, c: Option<string>, r2: ResetOutcome)
    requires StartFixedPost(d, d1, s, s1, username, now, r1) && r1.ShowQuestions?
    requires ResetPost(d1, d2, s1, s2, p, c, r2)
    ensures !s1.resetVerified
    ensures r2 == NotVerified && d2 == d1 && s2 == s1
  {
  }
}
