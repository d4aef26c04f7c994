/**
 * Security questions, answer normalisation and token payloads
 * (`dhl_login/utils/auth.js`). Hashing is the model of module `Bcrypt`;
 * signing a token is left abstract in that only its payload and lifetime
 * are recorded.
 */
module Security {
  import opened Wrappers
  import opened Strings
  import opened Bcrypt
  import opened Models

  datatype Question = Question(id: int, text: string)

  const PredefinedQuestions: seq<Question> := [
    Question(1, "What was your first pet's name?"),
    Question(2, "What is your mother's maiden name?"),
    Question(3, "What was the name of your elementary school?"),
    Question(4, "In what city were you born?")
  ]

  /** The predefined question ids are 1, 2, 3 and 4, in that order, hence distinct. */
  lemma PredefinedQuestionIds()
    ensures |PredefinedQuestions| == 4
    ensures forall k :: 0 <= k < |PredefinedQuestions| ==> PredefinedQuestions[k].id == k + 1
    ensures forall j, k :: 0 <= j < k < |PredefinedQuestions| ==>
      PredefinedQuestions[j].id != PredefinedQuestions[k].id
  {
  }

  /** A copy of the predefined list: the same id/text pairs in the same order. */
  function GetSecurityQuestions(): (qs: seq<Question>)
    ensures qs == PredefinedQuestions
  {
    seq(|PredefinedQuestions|, i requires 0 <= i < |PredefinedQuestions| =>
      Question(PredefinedQuestions[i].id, PredefinedQuestions[i].text))
  }

  /** A question id as it arrives in a request body: a JSON number, a string, or absent. */
  datatype JsId = IdNumber(n: int) | IdText(s: string) | IdMissing

  /** JavaScript truthiness of the id: `0`, `''` and absence are false. */
  predicate IsTruthy(x: JsId) {
    match x
    case IdNumber(n) => n != 0
    case IdText(s) => s != ""
    case IdMissing => false
  }

  /** `parseInt(x, 10)`, with `NaN` as `None`. */
  function ParseId(x: JsId): Option<int> {
    match x
    case IdNumber(n) => Some(n)
    case IdText(s) => ParseInt(s)
    case IdMissing => None
  }

  /** The first question in `qs` with id `n`. */
  function FindQuestion(qs: seq<Question>, n: int): (r: Option<Question>)
    ensures r.Some? ==> r.value in qs && r.value.id == n
    ensures r.None? ==> forall k :: 0 <= k < |qs| ==> qs[k].id != n
  {
    if qs == [] then None
    else if qs[0].id == n then Some(qs[0])
    else FindQuestion(qs[1..], n)
  }

  /** `getSecurityQuestionById`: the id is parsed as a decimal integer and looked up. */
  function GetSecurityQuestionById(x: JsId): (r: Option<Question>)
  {
    match ParseId(x)
    case None => None
    case Some(n) => FindQuestion(PredefinedQuestions, n)
  }

  /** Exactly the ids that parse to 1..4 name a question, and the answer carries that id. */
  lemma QuestionByIdSpec(x: JsId)
    ensures GetSecurityQuestionById(x).Some? <==> ParseId(x).Some? && 1 <= ParseId(x).value <= 4
    ensures GetSecurityQuestionById(x).Some? ==>
      GetSecurityQuestionById(x).value == PredefinedQuestions[ParseId(x).value - 1]
  {
    PredefinedQuestionIds();
    match ParseId(x)
    case None =>
    case Some(n) =>
      if 1 <= n <= 4 {
        assert PredefinedQuestions[n - 1].id == n;
      }
  }

  /** A numeral string works as well as a number: `'2'` names the second question. */
  lemma QuestionByTextId()
    ensures GetSecurityQuestionById(IdText("2")) == Some(PredefinedQuestions[1])
    ensures GetSecurityQuestionById(IdNumber(2)) == Some(PredefinedQuestions[1])
    ensures GetSecurityQuestionById(IdNumber(5)).None?
  {
    ParseIntOfNatToString(2);
    assert NatToString(2) == "2";
    QuestionByIdSpec(IdText("2"));
    QuestionByIdSpec(IdNumber(2));
    QuestionByIdSpec(IdNumber(5));
  }

  /** `normalizeAnswer`: a non-string (`None`) becomes `''`, a string is trimmed and lower-cased. */
  function NormalizeAnswer(answer: Option<string>): (r: string)
  {
    match answer
    case None => ""
    case Some(s) => ToLower(Trim(s))
  }

  lemma NormalizeAnswerIdempotent(answer: Option<string>)
    ensures NormalizeAnswer(Some(NormalizeAnswer(answer))) == NormalizeAnswer(answer)
  {
    if answer.Some? {
      var x := Trim(answer.value);
      LowerOfTrimmedIsTrimmed(x);
      ToLowerIdempotent(x);
    } else {
      assert Trim("") == "";
    }
  }

  /** Lower-casing text with no white space at its ends leaves none there. */
  lemma LowerOfTrimmedIsTrimmed(x: string)
    requires x == [] || (!IsSpace(x[0]) && !IsSpace(x[|x| - 1]))
    ensures Trim(ToLower(x)) == ToLower(x)
  {
    var y := ToLower(x);
    if x != [] {
      LowerCharKeepsSpace(x[0]);
      LowerCharKeepsSpace(x[|x| - 1]);
    }
    assert y == [] + y + [];
    TrimUnique(y, [], y, []);
  }

  /** White space around an answer does not affect its normal form. */
  lemma NormalizeAnswerIgnoresPadding(s: string, p: string, q: string)
    requires AllSpace(p) && AllSpace(q)
    ensures NormalizeAnswer(Some(p + s + q)) == NormalizeAnswer(Some(s))
  {
    TrimPadded(s, p, q);
  }

  function HashAnswer(answer: Option<string>): Digest {
    Hash(NormalizeAnswer(answer))
  }

  predicate CompareAnswer(submitted: Option<string>, stored: Digest) {
    Compare(NormalizeAnswer(submitted), stored)
  }

  /**
   * A submitted answer matches the hash of an original answer exactly when
   * their normal forms agree on the first 72 characters; for normal forms of
   * at most 72 characters, exactly when the normal forms are equal.
   */
  lemma CompareHashAnswer(submitted: Option<string>, original: Option<string>)
    ensures CompareAnswer(submitted, HashAnswer(original)) <==>
      Key(NormalizeAnswer(submitted)) == Key(NormalizeAnswer(original))
    ensures |NormalizeAnswer(submitted)| <= MaxKeyBytes && |NormalizeAnswer(original)| <= MaxKeyBytes ==>
      (CompareAnswer(submitted, HashAnswer(original)) <==> NormalizeAnswer(submitted) == NormalizeAnswer(original))
  {
    CompareHash(NormalizeAnswer(submitted), NormalizeAnswer(original));
  }

  /** An answer hash accepts the same answer with different surrounding white space. */
  lemma CompareAnswerPadded(s: string, p: string, q: string)
    requires AllSpace(p) && AllSpace(q)
    ensures CompareAnswer(Some(p + s + q), HashAnswer(Some(s)))
  {
    NormalizeAnswerIgnoresPadding(s, p, q);
  }

  datatype TokenPayload = TokenPayload(userId: Id, username: string, firstName: string, lastName: string)

  /** Lifetime of a session token: one hour. */
  const TokenLifetimeMs: int := 3_600_000

  datatype Token = Token(payload: TokenPayload, lifetimeMs: int)

  /**
   * `generateToken`: fails (the source throws) when no signing secret is
   * configured, otherwise signs exactly the four identifying fields of the
   * user for one hour.
   */
  function GenerateToken(user: User, secret: Option<string>): (t: Option<Token>)
    ensures t.None? <==> secret.None? || secret.value == ""
    ensures t.Some? ==> t.value.payload == TokenPayload(user.id, user.username, user.firstName, user.lastName)
    ensures t.Some? ==> t.value.lifetimeMs == TokenLifetimeMs
  {
    if secret.None? || secret.value == "" then None
    else Some(Token(TokenPayload(user.id, user.username, user.firstName, user.lastName), TokenLifetimeMs))
  }
}
