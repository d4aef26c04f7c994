/**
 * The JSON authentication routes of `dhl_login/routes/auth.js`: registration,
 * API login, the security questions of a user, answer verification with its
 * throttle and reset tokens, and the password reset. Users live in the
 * `Store` of module `Engine`; the reset tokens in a map keyed by username.
 * The random token and the clock are parameters.
 */
module AuthApi {
  import opened Wrappers
  import opened Strings
  import opened Bcrypt
  import opened Models
  import opened Security
  import opened Validation
  import opened Engine
  import opened Throttle

  /** The user with this username, if any (`username` is unique). */
  function UserByName(us: seq<User>, name: string): (r: Option<nat>)
    ensures r.Some? ==> r.value < |us| && us[r.value].username == name
    ensures r.None? <==> forall k :: 0 <= k < |us| ==> us[k].username != name
  {
    var r := Engine.Find(Usernames(us), name);
    if r.None? then
      assert forall k :: 0 <= k < |us| ==> Usernames(us)[k] == us[k].username;
      r
    else
      r
  }

  /** Under unique usernames the lookup finds the one user with that name. */
  lemma UserByNameUnique(us: seq<User>, name: string, k: nat)
    requires Distinct(Usernames(us))
    requires k < |us| && us[k].username == name
    ensures UserByName(us, name) == Some(k)
  {
    var j := UserByName(us, name).value;
    assert Usernames(us)[j] == Usernames(us)[k];
  }

  /** Rewriting other columns of users keeps the lookup's answer. */
  lemma UserByNameAfterUpdate(us: seq<User>, k: nat, u: User, name: string)
    requires k < |us| && u.username == us[k].username
    ensures UserByName(us[k := u], name) == UserByName(us, name)
  {
    assert Usernames(us[k := u]) == Usernames(us);
  }

  // ---------------------------------------------------------------------
  // Registration

  datatype RegisterOutcome =
    | RegisterInvalid(error: ValidationError)   // 400
    | UsernameExists                           // 409
    | RegistrationError                        // 500
    | Registered(user: User)                   // 201

  /**
   * `POST /register`: username, then password, then the security answers are
   * validated, then an existing username is refused; all before any write.
   * The row is then created without a first or last name, which the ORM
   * refuses, so the route answers 500.
   */
  function Register(d: Db, newId: Id, username: Option<string>, password: Option<string>,
                    answers: Option<seq<SecurityAnswer>>): (r: RegisterOutcome)
    ensures ValidateUsername(username).Some? ==> r == RegisterInvalid(UsernameLength)
    ensures ValidateUsername(username).None? && ValidatePassword(password).Some? ==> r == RegisterInvalid(PasswordLength)
    ensures ValidateUsername(username).None? && ValidatePassword(password).None? && ValidateSecurityAnswers(answers).Some?
            ==> r == RegisterInvalid(ValidateSecurityAnswers(answers).value)
    ensures r == UsernameExists <==>
      && ValidateUsername(username).None? && ValidatePassword(password).None? && ValidateSecurityAnswers(answers).None?
      && username.value in Usernames(d.users)
    ensures !r.Registered?
  {
    if ValidateUsername(username).Some? then RegisterInvalid(ValidateUsername(username).value)
    else if ValidatePassword(password).Some? then RegisterInvalid(ValidatePassword(password).value)
    else if ValidateSecurityAnswers(answers).Some? then RegisterInvalid(ValidateSecurityAnswers(answers).value)
    else if username.value in Usernames(d.users) then UsernameExists
    else
      var sa := answers.value;
      match ParseId(sa[0].questionId)
      case None => RegistrationError
      case Some(q1) =>
        match ParseId(sa[1].questionId)
        case None => RegistrationError
        case Some(q2) =>
          var created := CreateUser(newId, username.value, None, None, Hash(password.value), q1,
                                    HashAnswer(sa[0].answer), q2, HashAnswer(sa[1].answer), false);
          match created
          case None => RegistrationError
          case Some(user) => Registered(user)
  }

  // ---------------------------------------------------------------------
  // API login

  datatype LoginOutcome =
    | CredentialsRequired                                  // 400
    | InvalidCredentials                                   // 401, unknown user and wrong password alike
    | LoginError                                           // 500: no signing secret
    | LoginOk(token: Token, userId: Id, username: string)  // 200

  /** `POST /login-api`. */
  function LoginApi(d: Db, username: Option<string>, password: Option<string>, secret: Option<string>): (r: LoginOutcome)
    requires Distinct(Usernames(d.users))
    ensures r == CredentialsRequired <==> !Present(username) || !Present(password)
    ensures r == InvalidCredentials <==> (Present(username) && Present(password) &&
      forall k :: 0 <= k < |d.users| && d.users[k].username == username.value ==> !Compare(password.value, d.users[k].passwordHash))
    ensures r.LoginOk? ==> exists k :: (0 <= k < |d.users| && d.users[k].username == username.value
      && Compare(password.value, d.users[k].passwordHash)
      && Some(r.token) == GenerateToken(d.users[k], secret) && r.userId == d.users[k].id && r.username == username.value)
    ensures r == LoginError ==> secret.None? || secret.value == ""
  {
    if !Present(username) || !Present(password) then CredentialsRequired
    else match UserByName(d.users, username.value)
      case None => InvalidCredentials
      case Some(k) =>
        var u := d.users[k];
        if !Compare(password.value, u.passwordHash) then
          assert forall j :: 0 <= j < |d.users| && d.users[j].username == username.value ==> j == k by {
            forall j | 0 <= j < |d.users| && d.users[j].username == username.value ensures j == k {
              UserByNameUnique(d.users, username.value, j);
            }
          }
          InvalidCredentials
        else match GenerateToken(u, secret)
          case None => LoginError
          case Some(t) => LoginOk(t, u.id, u.username)
  }

  // ---------------------------------------------------------------------
  // The questions of a user

  datatype QuestionsOutcome =
    | QuestionsUsernameRequired                                  // 400
    | QuestionsUserNotFound                                      // 404
    | QuestionsMisconfigured                                     // 500
    | QuestionsFor(username: string, first: Question, second: Question)

  /** `POST /request-password-reset-questions`: the two stored questions of the user, in order. */
  function RequestResetQuestions(d: Db, username: Option<string>): (r: QuestionsOutcome)
    ensures r == QuestionsUsernameRequired <==> !Present(username)
    ensures r == QuestionsUserNotFound <==> Present(username) && username.value !in Usernames(d.users)
    ensures r == QuestionsMisconfigured ==> exists k :: (0 <= k < |d.users| && d.users[k].username == username.value
      && !(1 <= d.users[k].securityQuestion1Id <= 4 && 1 <= d.users[k].securityQuestion2Id <= 4))
    ensures r.QuestionsFor? ==> exists k :: (0 <= k < |d.users| && d.users[k].username == username.value
      && 1 <= d.users[k].securityQuestion1Id <= 4 && 1 <= d.users[k].securityQuestion2Id <= 4
      && r.first == PredefinedQuestions[d.users[k].securityQuestion1Id - 1]
      && r.second == PredefinedQuestions[d.users[k].securityQuestion2Id - 1])
  {
    if !Present(username) then QuestionsUsernameRequired
    else match UserByName(d.users, username.value)
      case None =>
        assert forall k :: 0 <= k < |d.users| ==> Usernames(d.users)[k] == d.users[k].username;
        QuestionsUserNotFound
      case Some(k) =>
        var u := d.users[k];
        assert Usernames(d.users)[k] == username.value;
        QuestionByIdSpec(IdNumber(u.securityQuestion1Id));
        QuestionByIdSpec(IdNumber(u.securityQuestion2Id));
        var q1 := GetSecurityQuestionById(IdNumber(u.securityQuestion1Id));
        var q2 := GetSecurityQuestionById(IdNumber(u.securityQuestion2Id));
        if q1.None? || q2.None? then QuestionsMisconfigured
        else QuestionsFor(u.username, q1.value, q2.value)
  }

  // ---------------------------------------------------------------------
  // Verifying the answers

  /** A reset token and the time after which it is refused. */
  datatype ResetToken = ResetToken(token: string, expiresAt: Time)

  /** Fifteen minutes in milliseconds. */
  const ResetTokenLifetimeMs: int := 15 * 60 * 1000

  /** The module-level `passwordResetTokens` map, by username. */
  class ResetTokens {
    var entries: map<string, ResetToken>

    constructor()
      ensures entries == map[]
    {
      entries := map[];
    }
  }

  /** The answer names the user's first stored question and matches its hash. */
  predicate ProvesFirst(a: SecurityAnswer, u: User) {
    ParseId(a.questionId) == Some(u.securityQuestion1Id) && CompareAnswer(a.answer, u.securityAnswer1Hash)
  }

  /** The answer names the second stored question (and not the first) and matches its hash. */
  predicate ProvesSecond(a: SecurityAnswer, u: User) {
    ParseId(a.questionId) != Some(u.securityQuestion1Id) && ParseId(a.questionId) == Some(u.securityQuestion2Id)
    && CompareAnswer(a.answer, u.securityAnswer2Hash)
  }

  /** Both stored questions are answered correctly, each by an answer carrying its id. */
  predicate AnswersProve(answers: seq<SecurityAnswer>, u: User) {
    (exists k :: 0 <= k < |answers| && ProvesFirst(answers[k], u))
    && (exists k :: 0 <= k < |answers| && ProvesSecond(answers[k], u))
  }

  /** Some element of `s` satisfies `p`, read from the last element back. */
  predicate AnyOf<T>(s: seq<T>, p: T -> bool) {
    s != [] && (AnyOf(s[..|s| - 1], p) || p(s[|s| - 1]))
  }

  lemma {:induction false} AnyOfSpec<T>(s: seq<T>, p: T -> bool)
    ensures AnyOf(s, p) <==> exists k :: 0 <= k < |s| && p(s[k])
  {
    if s != [] {
      var init := s[..|s| - 1];
      AnyOfSpec(init, p);
      if exists k :: 0 <= k < |s| && p(s[k]) {
        var k :| 0 <= k < |s| && p(s[k]);
        if k < |init| { assert init[k] == s[k]; }
      }
      if AnyOf(init, p) {
        var k :| 0 <= k < |init| && p(init[k]);
        assert s[k] == init[k];
      }
    }
  }

  /** The loop over the answers, setting `answer1Correct` and `answer2Correct`. */
  method CheckAnswers(answers: seq<SecurityAnswer>, u: User) returns (answer1Correct: bool, answer2Correct: bool)
    ensures answer1Correct <==> exists k :: 0 <= k < |answers| && ProvesFirst(answers[k], u)
    ensures answer2Correct <==> exists k :: 0 <= k < |answers| && ProvesSecond(answers[k], u)
  {
    ghost var first := (a: SecurityAnswer) => ProvesFirst(a, u);
    ghost var second := (a: SecurityAnswer) => ProvesSecond(a, u);
    answer1Correct, answer2Correct := false, false;
    for i := 0 to |answers|
      invariant answer1Correct == AnyOf(answers[..i], first)
      invariant answer2Correct == AnyOf(answers[..i], second)
    {
      var a := answers[i];
      assert answers[..i + 1][..i] == answers[..i];
      var questionId := ParseId(a.questionId);
      if questionId == Some(u.securityQuestion1Id) {
        if CompareAnswer(a.answer, u.securityAnswer1Hash) {
          answer1Correct := true;
        }
      } else if questionId == Some(u.securityQuestion2Id) {
        if CompareAnswer(a.answer, u.securityAnswer2Hash) {
          answer2Correct := true;
        }
      }
    }
    assert answers[..|answers|] == answers;
    AnyOfSpec(answers, first);
    AnyOfSpec(answers, second);
  }

  /** For two answers: one of them proves the first question and one proves the second. */
  lemma AnswersProveTwo(a: SecurityAnswer, b: SecurityAnswer, u: User)
    ensures AnswersProve([a, b], u) <==>
      (ProvesFirst(a, u) || ProvesFirst(b, u)) && (ProvesSecond(a, u) || ProvesSecond(b, u))
  {
    var s := [a, b];
    assert s[0] == a && s[1] == b;
  }

  /** The order of the two answers does not matter. */
  lemma AnswersProveOrderFree(a: SecurityAnswer, b: SecurityAnswer, u: User)
    ensures AnswersProve([a, b], u) <==> AnswersProve([b, a], u)
  {
    AnswersProveTwo(a, b, u);
    AnswersProveTwo(b, a, u);
  }

  /**
   * Two answers to the same stored question never pass: one answer cannot
   * stand for both questions, so each question must be answered.
   */
  lemma AnswersProveNeedsBothQuestions(a: SecurityAnswer, b: SecurityAnswer, u: User)
    requires ParseId(a.questionId) == ParseId(b.questionId)
    ensures !AnswersProve([a, b], u)
  {
    AnswersProveTwo(a, b, u);
  }

  /**
   * `POST /verify-security-answers`: a missing username or not exactly two
   * answers is a 400 and an unknown user a 404, with no change; a locked user
   * gets 429 and the counter stays; an expired lockout restarts the counter
   * from zero; a failure counts one more attempt at `now`; a success clears
   * the counter and stores a new token for fifteen minutes, replacing any
   * earlier one of that username.
   */
  ghost predicate VerifyPost(d: Db, d2: Db, toks: map<string, ResetToken>, toks2: map<string, ResetToken>,
                             username: Option<string>, answers: Option<seq<SecurityAnswer>>, now: Time,
                             newToken: string, r: VerifyOutcome) {
    if !Present(username) || answers.None? || |answers.value| != 2 then
      r == AnswersRequired && d2 == d && toks2 == toks
    else match UserByName(d.users, username.value)
      case None => r == VerifyUserNotFound && d2 == d && toks2 == toks
      case Some(k) =>
        var u := d.users[k];
        if Locked(u, now) then
          r == TooManyAttempts && d2 == d && toks2 == toks
        else
          var restarted := if LockExpired(u, now) then u.(passwordResetAttemptCount := 0) else u;
          if !AnswersProve(answers.value, u) then
            r == IncorrectAnswers && d2 == d.(users := d.users[k := AfterFailure(restarted, now)]) && toks2 == toks
          else
            && r == AnswersVerified(newToken)
            && d2 == d.(users := d.users[k := Cleared(u)])
            && toks2 == toks[username.value := ResetToken(newToken, now + ResetTokenLifetimeMs)]
  }

  datatype VerifyOutcome =
    | AnswersRequired           // 400
    | VerifyUserNotFound        // 404
    | TooManyAttempts           // 429
    | IncorrectAnswers          // 401
    | AnswersVerified(token: string)

  method VerifySecurityAnswers(store: Store, tokens: ResetTokens, username: Option<string>,
                               answers: Option<seq<SecurityAnswer>>, now: Time, newToken: string)
    returns (r: VerifyOutcome)
    requires store.Valid()
    modifies store, tokens
    ensures store.Valid()
    ensures VerifyPost(old(store.State()), store.State(), old(tokens.entries), tokens.entries, username, answers,
                       now, newToken, r)
  {
    if !Present(username) || answers.None? || |answers.value| != 2 {
      return AnswersRequired;
    }
    var found := UserByName(store.users, username.value);
    if found.None? {
      return VerifyUserNotFound;
    }
    var k := found.value;
    var user := store.users[k];
    if Locked(user, now) {
      return TooManyAttempts;
    }
    if LockExpired(user, now) {
      user := user.(passwordResetAttemptCount := 0);
    }
    var answer1Correct, answer2Correct := CheckAnswers(answers.value, store.users[k]);
    var d := store.State();
    if !(answer1Correct && answer2Correct) {
      user := AfterFailure(user, now);
      UpdateUserPreservesInv(d, k, user);
      store.Commit(Db(d.users[k := user], d.checklists, d.assignments));
      return IncorrectAnswers;
    }
    user := Cleared(user);
    assert user == Cleared(d.users[k]);
    UpdateUserPreservesInv(d, k, user);
    store.Commit(Db(d.users[k := user], d.checklists, d.assignments));
    tokens.entries := tokens.entries[username.value := ResetToken(newToken, now + ResetTokenLifetimeMs)];
    r := AnswersVerified(newToken);
  }

  /**
   * The fifth failure in a row locks the account: the next verification
   * within fifteen minutes is refused with 429, before the answers are read.
   */
  lemma FailuresLockVerification(d: Db, d2: Db, d3: Db, t0: map<string, ResetToken>, t1: map<string, ResetToken>,
                                 t2: map<string, ResetToken>, username: Option<string>,
                                 a1: Option<seq<SecurityAnswer>>, a2: Option<seq<SecurityAnswer>>,
                                 now: Time, later: Time, f1: string, f2: string, r2: VerifyOutcome)
    requires VerifyPost(d, d2, t0, t1, username, a1, now, f1, IncorrectAnswers)
    requires VerifyPost(d2, d3, t1, t2, username, a2, later, f2, r2)
    requires a2.Some? && |a2.value| == 2
    requires d2.users[UserByName(d.users, username.value).value].passwordResetAttemptCount >= MaxAttempts
    requires later - now < LockoutMs
    ensures r2 == TooManyAttempts && d3 == d2 && t2 == t1
  {
    var k := UserByName(d.users, username.value).value;
    UserByNameAfterUpdate(d.users, k, d2.users[k], username.value);
  }

  // ---------------------------------------------------------------------
  // Resetting the password

  datatype ResetOutcome =
    | ResetFieldsRequired       // 400
    | ResetPasswordTooShort     // 400
    | ResetTokenInvalid         // 401
    | ResetUserNotFound         // 404
    | PasswordChanged           // 200

  /** The stored token of `username` is this one and has not expired at `now`. */
  predicate TokenAccepted(toks: map<string, ResetToken>, username: string, token: string, now: Time) {
    username in toks && toks[username].token == token && now <= toks[username].expiresAt
  }

  /**
   * `POST /reset-password`: the three fields, then the length, then the token;
   * a refused token is deleted. A success sets the new hash, clears the
   * counter and deletes the token.
   */
  ghost predicate ResetPost(d: Db, d2: Db, toks: map<string, ResetToken>, toks2: map<string, ResetToken>,
                            username: Option<string>, token: Option<string>, newPassword: Option<string>,
                            now: Time, r: ResetOutcome) {
    if !Present(username) || !Present(token) || !Present(newPassword) then
      r == ResetFieldsRequired && d2 == d && toks2 == toks
    else if |newPassword.value| < MinPasswordLength then
      r == ResetPasswordTooShort && d2 == d && toks2 == toks
    else if !TokenAccepted(toks, username.value, token.value, now) then
      r == ResetTokenInvalid && d2 == d && toks2 == toks - {username.value}
    else match UserByName(d.users, username.value)
      case None => r == ResetUserNotFound && d2 == d && toks2 == toks
      case Some(k) =>
        && r == PasswordChanged
        && d2 == d.(users := d.users[k := Cleared(d.users[k]).(passwordHash := Hash(newPassword.value))])
        && toks2 == toks - {username.value}
  }

  method ResetPassword(store: Store, tokens: ResetTokens, username: Option<string>, token: Option<string>,
                       newPassword: Option<string>, now: Time)
    returns (r: ResetOutcome)
    requires store.Valid()
    modifies store, tokens
    ensures store.Valid()
    ensures ResetPost(old(store.State()), store.State(), old(tokens.entries), tokens.entries, username, token,
                      newPassword, now, r)
  {
    if !Present(username) || !Present(token) || !Present(newPassword) {
      return ResetFieldsRequired;
    }
    if |newPassword.value| < MinPasswordLength {
      return ResetPasswordTooShort;
    }
    var name := username.value;
    if name !in tokens.entries || tokens.entries[name].token != token.value || now > tokens.entries[name].expiresAt {
      tokens.entries := tokens.entries - {name};
      return ResetTokenInvalid;
    }
    var found := UserByName(store.users, name);
    if found.None? {
      return ResetUserNotFound;
    }
    var k := found.value;
    var user := Cleared(store.users[k]).(passwordHash := Hash(newPassword.value));
    UpdateUserPreservesInv(store.State(), k, user);
    store.Commit(Db(store.users[k := user], store.checklists, store.assignments));
    tokens.entries := tokens.entries - {name};
    r := PasswordChanged;
  }

  /** A verification's token resets the password once, within its fifteen minutes. */
  lemma VerifiedTokenResets(d: Db, d2: Db, d3: Db, t0: map<string, ResetToken>, t1: map<string, ResetToken>,
                            t2: map<string, ResetToken>, username: Option<string>,
                            answers: Option<seq<SecurityAnswer>>, now: Time, newToken: string,
                            newPassword: string, later: Time, r: ResetOutcome)
    requires VerifyPost(d, d2, t0, t1, username, answers, now, newToken, AnswersVerified(newToken))
    requires newToken != "" && |newPassword| >= MinPasswordLength && later <= now + ResetTokenLifetimeMs
    requires ResetPost(d2, d3, t1, t2, username, Some(newToken), Some(newPassword), later, r)
    ensures r == PasswordChanged
    ensures username.value !in t2
    ensures exists k :: (0 <= k < |d3.users| && d3.users[k].username == username.value
      && d3.users[k].passwordHash == Hash(newPassword))
  {
    var name := username.value;
    var k := UserByName(d.users, name).value;
    assert d2.users == d.users[k := Cleared(d.users[k])];
    assert t1 == t0[name := ResetToken(newToken, now + ResetTokenLifetimeMs)];
    assert TokenAccepted(t1, name, newToken, later);
    UserByNameAfterUpdate(d.users, k, d2.users[k], name);
    assert d3.users == d2.users[k := Cleared(d2.users[k]).(passwordHash := Hash(newPassword))];
    assert d3.users[k].username == name;
  }

  /** After the fifteen minutes the token is refused, and deleted. */
  lemma ExpiredTokenRefused(d: Db, d2: Db, d3: Db, t0: map<string, ResetToken>, t1: map<string, ResetToken>,
                            t2: map<string, ResetToken>, username: Option<string>,
                            answers: Option<seq<SecurityAnswer>>, now: Time, newToken: string,
                            newPassword: string, later: Time, r: ResetOutcome)
    requires VerifyPost(d, d2, t0, t1, username, answers, now, newToken, AnswersVerified(newToken))
    requires newToken != "" && |newPassword| >= MinPasswordLength && later > now + ResetTokenLifetimeMs
    requires ResetPost(d2, d3, t1, t2, username, Some(newToken), Some(newPassword), later, r)
    ensures r == ResetTokenInvalid && d3 == d2 && username.value !in t2
  {
  }

  /** A token works at most once: after a reset, no later reset of that username succeeds without a new token. */
  lemma ResetTokenSingleUse(d: Db, d2: Db, d3: Db, t0: map<string, ResetToken>, t1: map<string, ResetToken>,
                            t2: map<string, ResetToken>, username: Option<string>, token: Option<string>,
                            token2: Option<string>, p1: Option<string>, p2: Option<string>, now: Time, later: Time,
                            r2: ResetOutcome)
    requires ResetPost(d, d2, t0, t1, username, token, p1, now, PasswordChanged)
    requires ResetPost(d2, d3, t1, t2, username, token2, p2, later, r2)
    ensures r2 != PasswordChanged && d3 == d2
  {
  }
}
