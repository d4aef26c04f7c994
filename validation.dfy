/**
 * The input validators of `dhl_login/utils/validation.js`. Each returns the
 * first rule that fails (its message is `Message`), or `None` when all pass.
 */
module Validation {
  import opened Wrappers
  import opened Strings
  import opened Models
  import opened Security

  const MinPasswordLength: nat := 8

  /** The rule a validator found broken. */
  datatype ValidationError = UsernameLength | PasswordLength | AnswerCount | QuestionsNotUnique | InvalidAnswer

  function Message(e: ValidationError): string {
    match e
    case UsernameLength => "Username must be 3-30 characters long."
    case PasswordLength => "Password must be at least 8 characters long."
    case AnswerCount => "Exactly two security answers are required."
    case QuestionsNotUnique => "Security questions must be unique."
    case InvalidAnswer => "Invalid security question or answer provided."
  }

  /** `validateUsername`: a username is acceptable when it has 3 to 30 characters once trimmed. */
  function ValidateUsername(username: Option<string>): (err: Option<ValidationError>)
    ensures err.None? <==> username.Some? && MinUsernameLength <= |Trim(username.value)| <= MaxUsernameLength
    ensures err.Some? ==> err.value == UsernameLength
  {
    if username.None? || username.value == ""
       || !(MinUsernameLength <= |Trim(username.value)| <= MaxUsernameLength)
    then Some(UsernameLength)
    else None
  }

  /** White space around a username never changes the verdict. */
  lemma ValidateUsernameIgnoresPadding(name: string, p: string, q: string)
    requires AllSpace(p) && AllSpace(q)
    ensures ValidateUsername(Some(p + name + q)) == ValidateUsername(Some(name))
  {
    TrimPadded(name, p, q);
  }

  /** `validatePassword`: at least 8 characters, no trimming. */
  function ValidatePassword(password: Option<string>): (err: Option<ValidationError>)
    ensures err.None? <==> password.Some? && |password.value| >= MinPasswordLength
    ensures err.Some? ==> err.value == PasswordLength
  {
    if password.None? || password.value == "" || |password.value| < MinPasswordLength
    then Some(PasswordLength)
    else None
  }

  /** One element of `securityAnswers`; `answer` is `None` when it is not a string. */
  datatype SecurityAnswer = SecurityAnswer(questionId: JsId, answer: Option<string>)

  /** The per-answer rule: a truthy id naming a known question, and a non-blank string answer. */
  predicate AnswerAcceptable(sa: SecurityAnswer) {
    IsTruthy(sa.questionId) && GetSecurityQuestionById(sa.questionId).Some?
    && sa.answer.Some? && !IsBlank(sa.answer.value)
  }

  /** The loop over the answers: an error for the first unacceptable one. */
  function FirstInvalidAnswer(answers: seq<SecurityAnswer>): (err: Option<ValidationError>)
    ensures err.None? <==> forall k :: 0 <= k < |answers| ==> AnswerAcceptable(answers[k])
    ensures err.Some? ==> err.value == InvalidAnswer
  {
    if answers == [] then None
    else if !AnswerAcceptable(answers[0]) then Some(InvalidAnswer)
    else FirstInvalidAnswer(answers[1..])
  }

  /**
   * `validateSecurityAnswers`: `None` for a value that is not an array.
   * Count, then uniqueness of the raw ids, then each answer.
   */
  function ValidateSecurityAnswers(answers: Option<seq<SecurityAnswer>>): (err: Option<ValidationError>)
    ensures err.None? <==>
      answers.Some? && |answers.value| == 2
      && answers.value[0].questionId != answers.value[1].questionId
      && forall k :: 0 <= k < |answers.value| ==> AnswerAcceptable(answers.value[k])
    ensures err == Some(AnswerCount) <==> answers.None? || |answers.value| != 2
    ensures err == Some(QuestionsNotUnique) <==>
      answers.Some? && |answers.value| == 2 && answers.value[0].questionId == answers.value[1].questionId
  {
    if answers.None? || |answers.value| != 2 then Some(AnswerCount)
    else if answers.value[0].questionId == answers.value[1].questionId then Some(QuestionsNotUnique)
    else FirstInvalidAnswer(answers.value)
  }

  /**
   * Uniqueness compares the raw ids, not the questions they name: the number
   * 1 and the string "1" pass as two different questions.
   */
  lemma RawIdsNotNormalised()
    ensures ValidateSecurityAnswers(Some([SecurityAnswer(IdNumber(1), Some("cat")), SecurityAnswer(IdText("1"), Some("dog"))])).None?
  {
    ParseIntOfNatToString(1);
    assert NatToString(1) == "1";
    QuestionByIdSpec(IdNumber(1));
    QuestionByIdSpec(IdText("1"));
    assert "cat" == [] + "cat" + [];
    TrimUnique("cat", [], "cat", []);
    assert "dog" == [] + "dog" + [];
    TrimUnique("dog", [], "dog", []);
    assert AnswerAcceptable(SecurityAnswer(IdNumber(1), Some("cat")));
    assert AnswerAcceptable(SecurityAnswer(IdText("1"), Some("dog")));
  }

  // ---------------------------------------------------------------------
  // UUIDs

  predicate IsHex(c: char) {
    '0' <= c <= '9' || 'a' <= c <= 'f' || 'A' <= c <= 'F'
  }

  predicate AllHex(s: string) {
    forall i :: 0 <= i < |s| ==> IsHex(s[i])
  }

  /** Positions of the four hyphens in the 36-character text form. */
  predicate IsHyphenPosition(i: int) {
    i == 8 || i == 13 || i == 18 || i == 23
  }

  /** The version digit of RFC 4122 section 4.1.3: versions 1 to 5. */
  predicate IsVersionDigit(c: char) {
    '1' <= c <= '5'
  }

  /** The variant of RFC 4122 section 4.1.1: the first hex digit of the fourth group is 8, 9, a or b. */
  predicate IsVariantDigit(c: char) {
    c == '8' || c == '9' || c == 'a' || c == 'b' || c == 'A' || c == 'B'
  }

  /**
   * `isValidUUID`: the case-insensitive pattern of 8-4-4-4-12 hex digits with
   * the version and variant digits restricted, anchored at both ends. Stated
   * position by position.
   */
  predicate IsValidUuid(s: string) {
    && |s| == 36
    && (forall i :: 0 <= i < 36 && IsHyphenPosition(i) ==> s[i] == '-')
    && (forall i :: 0 <= i < 36 && !IsHyphenPosition(i) ==> IsHex(s[i]))
    && IsVersionDigit(s[14])
    && IsVariantDigit(s[19])
  }

  /** The same format stated on the hyphen-separated groups (RFC 4122 section 3). */
  predicate IsUuidGroups(s: string) {
    var g := Split(s, '-');
    && |g| == 5
    && |g[0]| == 8 && |g[1]| == 4 && |g[2]| == 4 && |g[3]| == 4 && |g[4]| == 12
    && AllHex(g[0]) && AllHex(g[1]) && AllHex(g[2]) && AllHex(g[3]) && AllHex(g[4])
    && IsVersionDigit(g[2][0]) && IsVariantDigit(g[3][0])
  }

  /** Splitting at a hyphen that follows a run of hex digits peels off that run. */
  lemma SplitAtHyphen(s: string, k: nat, n: nat)
    requires k + n < |s| && s[k + n] == '-'
    requires forall i :: k <= i < k + n ==> IsHex(s[i])
    ensures Split(s[k..], '-') == [s[k..k + n]] + Split(s[k + n + 1..], '-')
  {
    var t := s[k..];
    forall i | 0 <= i < n ensures t[i] != '-' { assert t[i] == s[k + i]; }
    assert t[n] == '-';
    assert IndexOf(t, '-') == n;
    assert t[..n] == s[k..k + n];
    assert t[n + 1..] == s[k + n + 1..];
  }

  lemma SplitNoHyphen(s: string, k: nat)
    requires k <= |s|
    requires forall i :: k <= i < |s| ==> IsHex(s[i])
    ensures Split(s[k..], '-') == [s[k..]]
  {
    var t := s[k..];
    forall i | 0 <= i < |t| ensures t[i] != '-' { assert t[i] == s[k + i]; }
    assert IndexOf(t, '-') == |t|;
  }

  lemma HexRange(s: string, lo: nat, hi: nat)
    requires lo <= hi <= |s|
    requires forall i :: lo <= i < hi ==> IsHex(s[i])
    ensures AllHex(s[lo..hi])
  {
  }

  /** The hex digits of a valid UUID stand where the pattern puts them. */
  lemma UuidHexRuns(s: string)
    requires IsValidUuid(s)
    ensures forall i :: 0 <= i < 8 ==> IsHex(s[i])
    ensures forall i :: 9 <= i < 13 ==> IsHex(s[i])
    ensures forall i :: 14 <= i < 18 ==> IsHex(s[i])
    ensures forall i :: 19 <= i < 23 ==> IsHex(s[i])
    ensures forall i :: 24 <= i < 36 ==> IsHex(s[i])
    ensures s[8] == '-' && s[13] == '-' && s[18] == '-' && s[23] == '-'
  {
    assert IsHyphenPosition(8) && IsHyphenPosition(13) && IsHyphenPosition(18) && IsHyphenPosition(23);
  }

  lemma SplitOfUuid(s: string)
    requires IsValidUuid(s)
    ensures Split(s, '-') == [s[0..8], s[9..13], s[14..18], s[19..23], s[24..]]
  {
    UuidHexRuns(s);
    SplitOfHexRuns(s);
  }

  /** The five groups of the split, from the hex runs and the hyphens between them. */
  lemma SplitOfHexRuns(s: string)
    requires |s| == 36
    requires forall i :: 0 <= i < 8 ==> IsHex(s[i])
    requires forall i :: 9 <= i < 13 ==> IsHex(s[i])
    requires forall i :: 14 <= i < 18 ==> IsHex(s[i])
    requires forall i :: 19 <= i < 23 ==> IsHex(s[i])
    requires forall i :: 24 <= i < 36 ==> IsHex(s[i])
    requires s[8] == '-' && s[13] == '-' && s[18] == '-' && s[23] == '-'
    ensures Split(s, '-') == [s[0..8], s[9..13], s[14..18], s[19..23], s[24..]]
  {
    var a, b, c, d, e := s[0..8], s[9..13], s[14..18], s[19..23], s[24..];
    assert Split(s[24..], '-') == [e] by { SplitNoHyphen(s, 24); }
    assert Split(s[19..], '-') == [d] + [e] by { SplitAtHyphen(s, 19, 4); }
    assert Split(s[14..], '-') == [c] + ([d] + [e]) by { SplitAtHyphen(s, 14, 4); }
    assert Split(s[9..], '-') == [b] + ([c] + ([d] + [e])) by { SplitAtHyphen(s, 9, 4); }
    assert Split(s, '-') == [a] + ([b] + ([c] + ([d] + [e]))) by {
      SplitAtHyphen(s, 0, 8);
      assert s[0..] == s;
    }
    ConsFive(a, b, c, d, e);
  }

  lemma ConsFive<T>(a: T, b: T, c: T, d: T, e: T)
    ensures [a] + ([b] + ([c] + ([d] + [e]))) == [a, b, c, d, e]
  {
  }

  lemma UuidPositionsGiveGroups(s: string)
    requires IsValidUuid(s)
    ensures IsUuidGroups(s)
  {
    UuidHexRuns(s);
    SplitOfUuid(s);
    HexRange(s, 0, 8);
    HexRange(s, 9, 13);
    HexRange(s, 14, 18);
    HexRange(s, 19, 23);
    HexRange(s, 24, 36);
    assert s[14..18][0] == s[14] && s[19..23][0] == s[19];
  }

  lemma JoinFive(a: string, b: string, c: string, d: string, e: string, h: string)
    ensures Join([a, b, c, d, e], h) == a + h + (b + h + (c + h + (d + h + e)))
  {
    assert [d, e][1..] == [e];
    assert Join([d, e], h) == d + h + e;
    assert [c, d, e][1..] == [d, e];
    assert Join([c, d, e], h) == c + h + Join([d, e], h);
    assert [b, c, d, e][1..] == [c, d, e];
    assert Join([b, c, d, e], h) == b + h + Join([c, d, e], h);
    assert [a, b, c, d, e][1..] == [b, c, d, e];
    assert Join([a, b, c, d, e], h) == a + h + Join([b, c, d, e], h);
  }

  lemma UuidGroupsGivePositions(s: string)
    requires IsUuidGroups(s)
    ensures IsValidUuid(s)
  {
    var g := Split(s, '-');
    var h := "-";
    JoinSplit(s, '-');
    assert g == [g[0], g[1], g[2], g[3], g[4]];
    JoinFive(g[0], g[1], g[2], g[3], g[4], h);
    var t4 := g[3] + h + g[4];
    var t3 := g[2] + h + t4;
    var t2 := g[1] + h + t3;
    assert s == g[0] + h + t2;
    assert |t4| == 17 && |t3| == 22 && |t2| == 27 && |s| == 36;
    forall i | 0 <= i < 36 && !IsHyphenPosition(i) ensures IsHex(s[i]) {
      if i < 8 { assert s[i] == g[0][i]; }
      else if i < 13 { assert s[i] == t2[i - 9] == g[1][i - 9]; }
      else if i < 18 { assert s[i] == t2[i - 9] == t3[i - 14] == g[2][i - 14]; }
      else if i < 23 { assert s[i] == t2[i - 9] == t3[i - 14] == t4[i - 19] == g[3][i - 19]; }
      else { assert s[i] == t2[i - 9] == t3[i - 14] == t4[i - 19] == g[4][i - 24]; }
    }
    assert s[8] == '-' && s[13] == t2[4] == '-' && s[18] == t3[4] == '-' && s[23] == t4[4] == '-';
    assert s[14] == t3[0] == g[2][0];
    assert s[19] == t4[0] == g[3][0];
  }

  /** The positional pattern and the group-wise description accept the same strings. */
  lemma UuidFormsAgree(s: string)
    ensures IsValidUuid(s) <==> IsUuidGroups(s)
  {
    if IsValidUuid(s) { UuidPositionsGiveGroups(s); }
    if IsUuidGroups(s) { UuidGroupsGivePositions(s); }
  }
}
