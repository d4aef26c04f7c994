# Checklist assignment and validation, modelled in Dafny

The system hands sanitation checklists to associates, collects the filled-in
checklists, and asks a supervisor to validate a random sample of their
checkboxes through a one-time link. This project models its core and proves
properties of that model:

- **Assignment engine.** Automatic rotation gives a non-admin user the daily
  checklist that waited longest, never-assigned ones first. An administrator
  can also assign a checklist by hand: a fixed chain of checks runs first,
  and an optional override cancels the user's active assignment and puts its
  checklist back in the queue. The headline invariant `Engine.Inv` holds that
  no user has two `assigned` rows and that no admin has one. Every operation
  that changes the store keeps it.
- **Assignment lifecycle.** A submission attaches its file to the active row.
  Completion marks the row `completed` and runs the rotation again. A
  supervisor's validation marks the row `validated`/`approved`.
- **Submission records.** Submitting writes a record. The one-time link hands
  the record out once. The supervisor's corrections are then applied to the
  record's nested checkbox map.
- **Checkbox sample.** About a fifth of the checkbox ids are drawn by a
  Fisher-Yates shuffle. `Math.random` is an index oracle.
- **Input rules.** The validators (username, password, security answers,
  UUID) and the security-question lookup and answer normalisation. Also the
  administrator's forms, the checklist seeder's filename parsing, and the
  rules of the browser script.
- **Password resets.** The JSON routes with their per-user throttle (five
  failures lock a user for fifteen minutes) and single-use reset tokens. The
  three-step forgot-password form with its session keys.

Records are Dafny datatypes (`Models`). The database is the class
`Engine.Store`, whose fields hold the three tables as sequences. Every change
goes through `Store.Commit`, which only accepts a state that satisfies `Inv`.
Handlers that update rows in place are methods on the store. Their `ensures`
state the whole new state through a ghost predicate, and lemmas relate
successive calls. Pure code (validators, parsers, lookups) is modelled as
functions with contracts.

Modules, one per file: `Wrappers`, `Models`, `Strings`, `Sorting`, `Bcrypt`,
`Validation`, `Security`, `Throttle`, `Engine`, `Lifecycle`, `Checkboxes`,
`Sampling`, `Submission`, `AuthApi`, `Forgot`, `Admin`, `Seeder`, `Client`.

Where the design notes and the code differ, the model follows the code:

- Completion (`dhl_login/app.js:117-129`) looks for a row with no
  `completedAt` and does not check its status. A `cancelled` row can
  therefore be completed, although the design calls status changes one-way
  (`Lifecycle.CancelledRowIsCandidate`).
- An override stores the cancellation time and the actor in `validatedAt`
  and `validatedByUserId`, as the code does. No separate fields are added.
- `POST /register` creates the user without a first or last name. The model
  of the user table (`dhl_login/models/user.js:23-30`) refuses such a row, so
  registration never succeeds (`AuthApi.Register`).
- In `manuallyAssignChecklist`, the "same checklist already assigned" branch
  (`dhl_login/utils/assignmentLogic.js:177-188`) cannot be reached, because
  the guard at line 165 returns first. The model has only the reachable
  outcome.

## Model

| member | source | states |
|---|---|---|
| Models.ParseStatus | dhl_login/models/assignment.js:24-28 | a column value is read as a status only when it is that status's enum name |
| Models.ParseStatusName | dhl_login/models/assignment.js:24-28 | each of the five statuses is read back from its own name, so the enum names are distinct |
| Models.ParseType | dhl_login/models/checklist.js:22-25 | a column value is read as a checklist type only when it is that type's enum name |
| Models.ParseTypeName | dhl_login/models/checklist.js:22-25 | each of daily, weekly, quarterly is read back from its own name |
| Models.NewUser | dhl_login/models/user.js:51-64 | a new user row keeps its id, username and admin flag, with the reset-attempt counter at its default 0 and no last attempt |
| Models.CreateUser | dhl_login/models/user.js:13-30 | `User.create` yields a row exactly when first and last name are given and the username has 3 to 30 characters, and the row is then the defaults-filled one |
| Models.NewAssignment | dhl_login/models/assignment.js:15-44 | a new assignment has status `assigned`, no completion, file path, validation status, validation time or validator, and `assignedByUserId` as given (absent for the automatic rotation) |
| Validation.ValidateUsername | dhl_login/utils/validation.js:4-10 | no error exactly when a username is given and its trimmed length is 3 to 30; the only error is the length message |
| Validation.ValidateUsernameIgnoresPadding | dhl_login/utils/validation.js:5 | white space added around a username never changes the verdict |
| Validation.ValidatePassword | dhl_login/utils/validation.js:12-17 | no error exactly when a password is given with at least 8 characters (untrimmed); the only error is the length message |
| Validation.FirstInvalidAnswer | dhl_login/utils/validation.js:27-31 | the loop passes exactly when every answer has a truthy id naming a predefined question and a non-blank string answer |
| Validation.ValidateSecurityAnswers | dhl_login/utils/validation.js:19-33 | passes exactly when there are two answers with different raw ids, each acceptable; "Exactly two" exactly for a non-array or a length other than 2; "unique" exactly for two equal raw ids, checked before the per-answer rule |
| Validation.RawIdsNotNormalised | dhl_login/utils/validation.js:23-26 | the number 1 and the string "1" pass the uniqueness test although they name the same question |
| Validation.SplitOfUuid | dhl_login/utils/validation.js:35-38 | a string the pattern accepts splits at its hyphens into the five groups at positions 0-8, 9-13, 14-18, 19-23 and 24-36 |
| Validation.UuidPositionsGiveGroups | dhl_login/utils/validation.js:35-38 | a string the anchored pattern accepts has five hyphen-separated hex groups of 8, 4, 4, 4 and 12 digits, the third starting with 1-5 and the fourth with 8, 9, a or b |
| Validation.UuidGroupsGivePositions | dhl_login/utils/validation.js:35-38 | conversely, such five groups make a string the pattern accepts |
| Validation.UuidFormsAgree | dhl_login/utils/validation.js:35-38 | the pattern (case-insensitive hex) and the group-wise RFC 4122 form accept the same strings |
| Bcrypt.Key | dhl_login/utils/auth.js:26-33 | the part of a plain text a digest depends on is its first 72 characters, and all of a text of at most 72 |
| Bcrypt.CompareHash | dhl_login/utils/auth.js:31-33 | `comparePassword(c, hash(o))` holds exactly when `c` and `o` agree on their first 72 characters, and for texts of at most 72 exactly when they are equal |
| Bcrypt.HashIgnoresTail | dhl_login/utils/auth.js:26-33 | characters after the 72nd never change whether a text matches a hash |
| Security.PredefinedQuestionIds | dhl_login/utils/auth.js:4-10 | there are four predefined questions with ids 1, 2, 3, 4 in that order, all distinct |
| Security.GetSecurityQuestions | dhl_login/utils/auth.js:53-55 | the copy has the same id/text pairs in the same order |
| Security.FindQuestion | dhl_login/utils/auth.js:58 | a found question is in the list and carries the id searched for; nothing found means no question has that id |
| Security.QuestionByIdSpec | dhl_login/utils/auth.js:57-60 | a question is found exactly for ids that parse to 1..4, and it is the question at that position |
| Security.QuestionByTextId | dhl_login/utils/auth.js:57-60 | the string `'2'` and the number 2 find the second question; 5 finds none |
| Security.NormalizeAnswerIdempotent | dhl_login/utils/auth.js:35-38 | normalising a normalised answer changes nothing |
| Security.LowerOfTrimmedIsTrimmed | dhl_login/utils/auth.js:37 | lower-casing text with no white space at its ends keeps its ends free of white space |
| Security.NormalizeAnswerIgnoresPadding | dhl_login/utils/auth.js:35-38 | white space around an answer does not change its normal form |
| Security.CompareHashAnswer | dhl_login/utils/auth.js:40-51 | `compareAnswer(a, hashAnswer(b))` holds exactly when the normal forms of `a` and `b` agree on 72 characters, and for normal forms of at most 72 characters exactly when they are equal |
| Security.CompareAnswerPadded | dhl_login/utils/auth.js:40-51 | an answer hash accepts the same answer with other surrounding white space |
| Security.GenerateToken | dhl_login/utils/auth.js:12-24 | no token without a signing secret; otherwise the payload is exactly the user's id, username, first and last name, for one hour |
| Throttle.LastAttemptTime | dhl_login/routes/auth.js:177 | the last attempt time is the stored one, or 0 when none is stored |
| Throttle.AfterFailure | dhl_login/routes/auth.js:209-212 | a failure adds one to the counter and records `now`, and changes no other column |
| Throttle.Cleared | dhl_login/routes/auth.js:216-219 | a success zeroes the counter and clears the time, after which the user is neither locked nor in an expired lockout at any time |
| Throttle.FifthFailureLocks | dhl_login/routes/auth.js:179-185 | after the failure that brings the counter to five, the user is locked exactly for the fifteen minutes that follow and in an expired lockout from then on |
| Throttle.FewFailuresNeverLock | dhl_login/routes/auth.js:179-185 | below five failures a user is never locked and never reset, whatever the time |
| AuthApi.UserByName | dhl_login/routes/auth.js:64 | `User.findOne({ where: { username } })`: a found index holds that username; nothing found exactly when no user has it |
| AuthApi.UserByNameUnique | dhl_login/models/user.js:13-16 | with unique usernames the lookup finds the one user with the name |
| AuthApi.UserByNameAfterUpdate | dhl_login/routes/auth.js:212 | saving other columns of a user keeps every lookup's answer |
| AuthApi.Register | dhl_login/routes/auth.js:51-87 | a username error comes first, then a password error, then an answers error, and 409 exactly when all pass and the username is taken; no call ever registers a user, since `User.create` gets no first or last name |
| AuthApi.LoginApi | dhl_login/routes/auth.js:92-120 | 400 exactly when a field is missing; the same 401 exactly when no user with that name has a matching password hash; a 200 carries the token of the matching user; a 500 only without a signing secret |
| AuthApi.RequestResetQuestions | dhl_login/routes/auth.js:123-155 | 400 exactly without a username and 404 exactly for an unknown one; 500 only for a user with a stored question id outside 1..4; otherwise the user's two stored questions in order |
| AuthApi.ResetTokens.constructor | dhl_login/routes/auth.js:158 | the token map starts empty |
| AuthApi.AnyOfSpec | dhl_login/routes/auth.js:191-202 | the flag the loop builds holds exactly when some answer satisfies the test |
| AuthApi.CheckAnswers | dhl_login/routes/auth.js:187-202 | `answer1Correct` holds exactly when some answer names the first stored question and matches its hash; `answer2Correct` exactly when some answer names the second (and not the first) and matches its hash |
| AuthApi.AnswersProveTwo | dhl_login/routes/auth.js:191-206 | for two answers, the check passes exactly when one proves the first question and one proves the second |
| AuthApi.AnswersProveOrderFree | dhl_login/routes/auth.js:191-206 | the order of the two answers does not matter |
| AuthApi.AnswersProveNeedsBothQuestions | dhl_login/routes/auth.js:191-206 | two answers naming the same question never pass |
| AuthApi.VerifySecurityAnswers | dhl_login/routes/auth.js:161-235 | 400 without a username or two answers and 404 for an unknown user, with no change; 429 for a locked user with the counter kept; an expired lockout restarts the counter; a failure adds one attempt at `now`; a success clears the counter and stores a fifteen-minute token under the username, replacing any earlier one |
| AuthApi.FailuresLockVerification | dhl_login/routes/auth.js:179-213 | a failure that leaves the counter at five or more makes the next verification within fifteen minutes a 429 with no change |
| AuthApi.ResetPassword | dhl_login/routes/auth.js:238-272 | 400 for a missing field or a password under eight characters; a token that is absent, different or expired is deleted and refused with 401; 404 for an unknown user; a success stores the new hash, clears the counter and deletes the token |
| AuthApi.VerifiedTokenResets | dhl_login/routes/auth.js:221-265 | the token a verification issues resets the password of that user within its fifteen minutes, and is then gone |
| AuthApi.ExpiredTokenRefused | dhl_login/routes/auth.js:222-252 | after its fifteen minutes the token is refused, deleted, and nothing else changes |
| AuthApi.ResetTokenSingleUse | dhl_login/routes/auth.js:265 | after a successful reset no later reset for that username succeeds until a new verification |
| Forgot.ResetSession.constructor | dhl_login/routes/forgotPassword.js:197-198 | a fresh session holds neither `resetUsername` nor `resetVerified` |
| Forgot.RestartIfExpired | dhl_login/routes/forgotPassword.js:67-71 | an expired lockout restarts the counter at 0 (the user is then not locked); otherwise the row is unchanged; no other column changes |
| Forgot.StartReset | dhl_login/routes/forgotPassword.js:41-103 | a missing or blank username and an unknown one change nothing; a locked user changes nothing; otherwise an expired lockout is saved as restarted and, when both stored ids name predefined questions, the trimmed username goes into the session and its two questions are shown; `resetVerified` is left as it was |
| Forgot.StartResetFixed | dhl_login/routes/forgotPassword.js:82-83 | the corrected step 1: the same outcomes and user rows, and showing the questions leaves the session holding only the new username, unverified |
| Forgot.StepTwoAnswerCorrect | dhl_login/routes/forgotPassword.js:144-157 | one step-2 answer is correct exactly when the stored question its parsed id names (the first stored question first) is matched by its hash, which is the same per-answer rule as the JSON route's |
| Forgot.OneAnswerPassesStepTwo | dhl_login/routes/forgotPassword.js:144-157 | as written, the answer to the first stored question sent twice under that question's id passes step 2, while the corrected check refuses it |
| Forgot.StepTwoFixedNeedsBothAnswers | dhl_login/routes/forgotPassword.js:144-157 | the corrected check passes only for two different parsed ids, and exactly when one answer proves the first stored question and the other the second |
| Forgot.StepTwoFixedImpliesAsWritten | dhl_login/routes/forgotPassword.js:144-157 | whatever the corrected check accepts, the check as written accepts too |
| Forgot.VerifyResetAnswers | dhl_login/routes/forgotPassword.js:106-192 | with no session username or a missing field nothing changes; an unknown or locked user loses `resetUsername`; a failed check adds one attempt at `now` with no restart of an expired lockout; a pass clears the counter and sets `resetVerified`; the answers face the check as written, or the corrected one when `corrected` |
| Forgot.CorrectedStepTwoNeedsTwoQuestions | dhl_login/routes/forgotPassword.js:144-175 | with the corrected check, step 2 verifies only answers given under two question ids that parse differently |
| Forgot.FailuresLockStepTwo | dhl_login/routes/forgotPassword.js:133-163 | a failure that leaves the counter at five or more makes the next step 2 within fifteen minutes drop `resetUsername` and change no user |
| Forgot.WithNewPassword | dhl_login/routes/forgotPassword.js:231-234 | the reset row matches the new password, has the counter and its time cleared, and differs from the old row in nothing else |
| Forgot.ResetForgottenPassword | dhl_login/routes/forgotPassword.js:195-248 | without username and verification, a missing field, two different values or fewer than eight characters nothing changes; otherwise both session keys are deleted and a known user gets the new password |
| Forgot.ResetSingleUse | dhl_login/routes/forgotPassword.js:236-238 | after a reset, a second step 3 in the same session is refused and changes nothing |
| Forgot.FlowResetsPassword | dhl_login/routes/forgotPassword.js:41-248 | step 1 showing the questions of a username, step 2 accepting, then two equal passwords of eight or more characters give that user the new password |
| Forgot.StaleVerificationResetsOtherUser | dhl_login/routes/forgotPassword.js:82-200 | as written, after one user's answers are accepted, step 1 with another username keeps the verification and step 3 sets the other user's password |
| Forgot.FixedStartRequiresNewAnswers | dhl_login/routes/forgotPassword.js:82-203 | with the corrected step 1, a step 3 right after showing the questions is refused and changes nothing |
| Engine.Find | dhl_login/utils/assignmentLogic.js:112 | a primary-key lookup returns a position holding the key, and nothing exactly when the key is absent |
| Engine.FindUser | dhl_login/utils/assignmentLogic.js:112-133 | `User.findByPk` finds a row with that id, and none exactly when no user has it |
| Engine.FindChecklist | dhl_login/utils/assignmentLogic.js:142-148 | `Checklist.findByPk` finds a row with that id, and none exactly when no checklist has it |
| Engine.CountActiveZero | dhl_login/utils/assignmentLogic.js:13-24 | a user has no `assigned` row exactly when the count of their `assigned` rows is zero |
| Engine.CountActiveAppend | dhl_login/utils/assignmentLogic.js:47-51 | adding a row raises a user's active count by one exactly when the new row is active for them |
| Engine.CountActiveUpdate | dhl_login/utils/assignmentLogic.js:221-225 | rewriting one row changes a user's active count only by what that row contributes before and after |
| Engine.TwoActiveCount | dhl_login/utils/assignmentLogic.js:13-24 | two distinct active rows of one user make their active count at least two |
| Engine.ActiveRowUnique | dhl_login/utils/assignmentLogic.js:12-30 | under the store invariant a user has at most one `assigned` row, so any two active rows of a user are the same row |
| Engine.StampChecklist | dhl_login/utils/assignmentLogic.js:53 | setting `lastAssignedAt` keeps the checklist count, the ids and the unique filenames |
| Engine.StampPreservesInv | dhl_login/utils/assignmentLogic.js:53 | stamping a checklist keeps the store invariant |
| Engine.UpdateRowPreservesInv | dhl_login/utils/assignmentLogic.js:221-225 | rewriting an assignment row under the same id, user and checklist, never turning it active, keeps the invariant |
| Engine.AppendActivePreservesInv | dhl_login/utils/assignmentLogic.js:238-244 | a new `assigned` row with a fresh id, for an existing non-admin user without an active row and an existing checklist, keeps the invariant |
| Engine.UpdateUserPreservesInv | dhl_login/models/user.js:8-66 | rewriting a user's mutable columns under the same id, username and admin flag keeps the invariant |
| Engine.AppendUserPreservesInv | dhl_login/models/user.js:8-17 | a new non-admin user with a fresh id and an unused username keeps the invariant |
| Engine.ExistsFairestPick | dhl_login/utils/assignmentLogic.js:35-44 | whenever some daily checklist is eligible, one exists that no eligible checklist ranks before under `lastAssignedAt ASC NULLS FIRST` |
| Engine.FairestPrefersNeverAssigned | dhl_login/utils/assignmentLogic.js:39-43 | if an eligible checklist was never assigned, the pick was never assigned either |
| Engine.FairestIsOldest | dhl_login/utils/assignmentLogic.js:40-43 | among assigned eligible checklists, the pick has the oldest `lastAssignedAt` |
| Engine.ExistsLatestActive | dhl_login/utils/assignmentLogic.js:13-24 | a user with an active row has one with the latest `assignedAt` among their active rows |
| Engine.CheckManualRequest | dhl_login/utils/assignmentLogic.js:74-148 | the validation chain reports no error exactly when all three ids are present and UUID-shaped, the admin is not the target, the admin exists and is an admin, the target exists and is not, and the checklist exists |
| Engine.AbsentId | dhl_login/utils/assignmentLogic.js:112-133 | an id missing from the key column is neither an admin's nor a non-admin's |
| Engine.DistinctKey | dhl_login/models/user.js:8-12 | with distinct primary keys, the row carrying a given id is the only one |
| Engine.CancelRow | dhl_login/utils/assignmentLogic.js:220-235 | the override cancels the prior row and re-queues its checklist without adding or dropping checklists |
| Engine.WhereMeansFilters | dhl_login/utils/assignmentLogic.js:347-388 | the `where` clause built from the filters selects a row exactly when it matches the truthy user id, `activeOnly` or else the truthy status, and the inclusive date bounds |
| Engine.FilterRows | dhl_login/utils/assignmentLogic.js:390-400 | the query keeps exactly the rows matching the `where` clause whose owner is a non-admin user, each at most as often as stored |
| Engine.LexLeTotal | dhl_login/utils/assignmentLogic.js:306 | the text order of the database compares any two strings |
| Engine.LexLeTransitive | dhl_login/utils/assignmentLogic.js:306 | the text order is transitive |
| Engine.LexLeAntisymmetric | dhl_login/utils/assignmentLogic.js:306 | two strings each at most the other are equal |
| Engine.NewestFirstIsPreorder | dhl_login/utils/assignmentLogic.js:419 | `assignedAt DESC` is a total preorder |
| Engine.ByNameIsPreorder | dhl_login/utils/assignmentLogic.js:306 | ordering by first name then last name is a total preorder |
| Engine.ByTypeThenOrderIsPreorder | dhl_login/utils/assignmentLogic.js:326 | ordering by the type's text then by `order` is a total preorder |
| Engine.TypeTextOrder | dhl_login/utils/assignmentLogic.js:326 | sorted as text, the types come daily, quarterly, weekly |
| Engine.NonAdminUsers | dhl_login/utils/assignmentLogic.js:301-304 | `isAdmin: false` keeps exactly the non-admin users |
| Engine.ChecklistsOfType | dhl_login/utils/assignmentLogic.js:322-324 | the optional type filter keeps exactly the checklists of that type, or all of them |
| Engine.Store.constructor | dhl_login/models/assignment.js:1-115 | the tables start as a database meeting the invariant: distinct keys and unique columns, valid references, at most one active row per user, none for an admin |
| Engine.Store.Commit | dhl_login/utils/assignmentLogic.js:221-247 | the tables are replaced by a database that meets the invariant |
| Engine.Store.AssignNextChecklist | dhl_login/utils/assignmentLogic.js:5-61 | admins get nothing; an existing active row is returned unchanged (the latest one); otherwise the fairest eligible daily checklist gets one new automatic row stamped with `now`, or nothing when none is eligible; the invariant is kept |
| Engine.Store.ManuallyAssignChecklist | dhl_login/utils/assignmentLogic.js:72-293 | the first failing check is reported; without override an active row or a same-checklist completion within 24 hours blocks; otherwise the active row is cancelled and re-queued, a row assigned by the admin is added and the checklist stamped; failures change nothing; the invariant is kept |
| Engine.Store.GetCurrentAssignments | dhl_login/utils/assignmentLogic.js:345-427 | the result is newest first and holds exactly the stored rows of non-admin users that meet the filters |
| Engine.Store.GetAssignableUsers | dhl_login/utils/assignmentLogic.js:299-313 | the result is sorted by first then last name and is a permutation of the non-admin users |
| Engine.Store.GetAvailableChecklists | dhl_login/utils/assignmentLogic.js:320-333 | the result is sorted by type then order and holds exactly the checklists of the truthy type, or all |
| Engine.SameMembers | dhl_login/utils/assignmentLogic.js:419 | reordering rows keeps which rows are present |
| Engine.RotationRowAllowed | dhl_login/utils/assignmentLogic.js:5-10 | a non-admin user found in the table is an existing non-admin id |
| Engine.ManualRowAllowed | dhl_login/utils/assignmentLogic.js:126-148 | a target that passed the checks is an existing non-admin id |
| Engine.CancelPreservesInv | dhl_login/utils/assignmentLogic.js:220-235 | cancelling a user's active row keeps the invariant, the users, the ids and the row count, and leaves the user with no active row |
| Engine.AssignNextPreservesInv | dhl_login/utils/assignmentLogic.js:5-61 | whatever `assignNextChecklist` does keeps the invariant and the users |
| Engine.AssignNextIdempotent | dhl_login/utils/assignmentLogic.js:12-30 | calling it again after it returned a row returns the same row and changes nothing, at any later time |
| Engine.AssignNextNewRowFacts | dhl_login/utils/assignmentLogic.js:35-51 | a row is added only for a non-admin without an active row, is automatic and `assigned`, and is for an eligible daily checklist |
| Engine.ManualAssignPreservesInv | dhl_login/utils/assignmentLogic.js:72-293 | every outcome keeps the invariant and every failure leaves the database unchanged |
| Engine.ManualSuccessFacts | dhl_login/utils/assignmentLogic.js:219-284 | after a success the target has exactly one active row, the new one by the admin at `now`; earlier rows keep their ids; the override is reported exactly when an active row existed |
| Engine.ManualSuccessPost | dhl_login/utils/assignmentLogic.js:219-247 | the cancel-then-add step gives a database meeting the invariant and the method's postcondition |
| Engine.ManualSuccessShapeOf | dhl_login/utils/assignmentLogic.js:219-284 | a success implies all three ids were given and the database took one of the two success shapes |
| Engine.ManualSuccessCore | dhl_login/utils/assignmentLogic.js:219-284 | either success shape keeps the invariant, leaves one active row for the target and keeps the earlier row ids |
| Lifecycle.ChecklistFilePath | dhl_login/utils/validationHelpers.js:4-7 | the path of a submission is `backend/data/` followed by `data_<fileId>.json` |
| Lifecycle.SubmissionFileNameInjective | dhl_login/utils/validationHelpers.js:38 | different file ids name different submission files |
| Lifecycle.CompleteChecklist | dhl_login/app.js:100-159 | a missing file name gives 400 and a missing row 404, both without change; otherwise one not-yet-completed row of the user for a checklist with that file name becomes `completed` at `now` and rotation runs for the user; the invariant is kept |
| Lifecycle.AssignNextKeepsRows | dhl_login/utils/assignmentLogic.js:46-53 | rotation only appends rows: every existing row is kept as it was |
| Lifecycle.CompletionMarksRow | dhl_login/app.js:117-151 | after a successful completion the reported row is `completed` at `now`, whatever its status was before |
| Lifecycle.CancelledRowIsCandidate | dhl_login/app.js:117-129 | the lookup does not look at the status: a cancelled, never completed row of the user's checklist can be completed |
| Lifecycle.WebLogin | dhl_login/app.js:432-465 | a rejection flashes the strategy's message or the default one and changes nothing; an accepted user gets a rotation run and is redirected to the captured `returnTo`, or to `/dashboard` |
| Lifecycle.SecondLoginKeepsStore | dhl_login/app.js:443-462 | once a user has an open row, logging in again changes nothing and redirects to the same place |
| Lifecycle.SupervisorFirstName | dhl_login/utils/validationHelpers.js:56 | the supervisor is looked up by the text up to the first space of the given name, or by the whole name when that text is empty; an absent name gives no lookup value |
| Lifecycle.FirstNameOfOneWord | dhl_login/utils/validationHelpers.js:56 | a one-word name is looked up as itself |
| Lifecycle.FirstNameIsFirstWord | dhl_login/utils/validationHelpers.js:56 | a name whose first space follows a non-empty word is looked up by that word, so `Jane Doe` by `Jane` |
| Lifecycle.MarkAssignmentValidated | dhl_login/utils/validationHelpers.js:35-73 | `false` without change when no `completed` row has the file or the name is absent; otherwise such a row becomes `validated` and `approved` at `now`, attributed to an admin with the looked-up first name or to nobody; the invariant is kept |
| Lifecycle.ValidatedAtMostOnce | dhl_login/utils/validationHelpers.js:40-52 | when one row carries the file, a second validation finds nothing, returns `false` and changes nothing |
| Lifecycle.DashboardRows | dhl_login/app.js:480-492 | the dashboard keeps exactly the user's `assigned`, not completed rows, no more of them than the user's active count |
| Lifecycle.Dashboard | dhl_login/app.js:477-506 | the dashboard rows are newest first, are exactly the user's open `assigned` rows, and under the invariant number at most one |
| Checkboxes.EntryIndex | dhl_login/utils/validationHelpers.js:27 | the position of the first item with this id under a heading, and none exactly when no item has it |
| Checkboxes.FirstHolding | dhl_login/utils/validationHelpers.js:26-31 | the first heading in enumeration order that holds the id, with no earlier heading holding it, and none exactly when no heading does |
| Checkboxes.SetChecked | dhl_login/utils/validationHelpers.js:28 | setting `checked` on one item changes only that item's flag, keeping every heading, id and label |
| Checkboxes.LastFor | dhl_login/utils/validationHelpers.js:23-32 | an id has a last correction exactly when some correction names it |
| Checkboxes.SameEntryShapeIndex | dhl_login/utils/validationHelpers.js:27 | items of the same shape find the same position for every id |
| Checkboxes.SameShapeHolding | dhl_login/utils/validationHelpers.js:26-31 | checkbox maps of the same shape send every id to the same heading |
| Checkboxes.SameShapePrimary | dhl_login/utils/validationHelpers.js:26-31 | whether a correction reaches an item depends only on the shape, not on the flags |
| Checkboxes.ApplyEffect | dhl_login/utils/validationHelpers.js:24-31 | one correction changes exactly the flag of the first item of the first heading holding its id |
| Checkboxes.ApplyAllEffect | dhl_login/utils/validationHelpers.js:21-33 | after all corrections each reached item holds the last correction for its id, and every other flag and every label is unchanged |
| Checkboxes.ShapeAndFlagsDetermine | dhl_login/utils/validationHelpers.js:21-33 | two checkbox maps of the same shape with the same flags are equal |
| Checkboxes.ApplyAllIdempotent | dhl_login/utils/validationHelpers.js:21-33 | applying the same corrections a second time changes nothing |
| Checkboxes.UnmatchedCorrection | dhl_login/app.js:272-274 | a correction whose id no heading holds leaves the checkboxes unchanged |
| Checkboxes.UpdateCheckboxes | dhl_login/utils/validationHelpers.js:21-33 | a non-array argument changes nothing; otherwise the corrections are applied in order, each stopping at the first heading that holds its id |
| Checkboxes.SupervisorMap | dhl_login/app.js:281-284 | the saved map has exactly the corrected ids, each with the value of its last correction |
| Checkboxes.LaterDuplicateWins | dhl_login/app.js:281-284 | of two corrections of one id the later wins, in the map and in the checkboxes |
| Sampling.ItemIds | backend/server.js:67-74 | the ids under a heading holding an object of items are those items' ids in order; a non-object value contributes none |
| Sampling.HeadingKeys | backend/server.js:61 | `Object.keys` gives every heading's key in order |
| Sampling.Without | backend/server.js:79 | the filter keeps exactly the ids that are no heading key, each at most as often as before |
| Sampling.EligibleIdsSpec | backend/server.js:61-79 | an id is eligible exactly when it is an item id under some heading and no heading has it as key |
| Sampling.CandidatesSpec | backend/server.js:64-76 | an id is a candidate exactly when some heading holds an item with it |
| Sampling.CeilFifth | backend/server.js:87 | the least count whose fivefold reaches the number of eligible ids, i.e. the ceiling of a fifth |
| Sampling.SampleCountIsFifth | backend/server.js:85-89 | for at least one eligible id the clamps to one and to the total never bind: the size is the ceiling of a fifth, between one and the total |
| Sampling.Swap | backend/server.js:96 | the destructuring swap exchanges the two positions and leaves every other one |
| Sampling.ShuffleFrom | backend/server.js:94-97 | the shuffle steps keep the length |
| Sampling.Shuffle | backend/server.js:93-97 | the whole shuffle keeps the length |
| Sampling.SwapPermutes | backend/server.js:96 | a swap is a permutation and keeps the ids distinct |
| Sampling.ShufflePermutes | backend/server.js:92-97 | the Fisher-Yates shuffle is a permutation and keeps the ids distinct, whatever the random draws |
| Sampling.PrefixBelow | backend/server.js:99 | a prefix holds each element at most as often as the whole and keeps distinctness |
| Sampling.Sample | backend/server.js:60-100 | nothing eligible gives `[]`; otherwise the sample has the ceiling of a fifth of the eligible ids, is drawn from them, and has no duplicates when they have none |
| Sampling.CollectCandidates | backend/server.js:62-76 | the nested loops push exactly the item ids of every heading in order |
| Sampling.ShuffleInPlace | backend/server.js:94-97 | the loop leaves the array holding the shuffle of its old contents for the given random draws |
| Sampling.GetRandomCheckboxes | backend/server.js:60-100 | `[]` when nothing is eligible; otherwise the first `SampleCount` ids of the shuffled eligible ids: the ceiling of a fifth of them, drawn from the eligible ids, without duplicates when those have none |
| Sampling.SampleIsFromEligible | backend/server.js:92-99 | for every random oracle the cut shuffle is drawn from the eligible ids and keeps their distinctness |
| Sampling.SampleMembers | backend/server.js:99 | every sampled id is an eligible id |
| Submission.DataDir.constructor | backend/server.js:56-57 | the data directory starts empty |
| Submission.DataDir.ValidateGet | dhl_login/app.js:187-240 | 404 for a missing file, 410 for a used link, 410 with the validator for a validated record, 400 without a sample; only when all checks pass is the record stamped accessed at `now` and handed out |
| Submission.BaseUrl | backend/server.js:209 | a configured, non-empty base URL is used, otherwise the default host |
| Submission.ValidationLink | backend/server.js:210 | the supervisor's link ends in `/app/validate-checklist/` and the submission's timestamp |
| Submission.TimestampFileName | backend/server.js:144-145 | the submission file name is the submission file of the timestamp's decimal text |
| Submission.LinkOpensItsFile | backend/server.js:144-210 | the last segment of the link is an id whose submission file is the file the form was written to |
| Submission.TimestampFileNameInjective | backend/server.js:144-145 | different timestamps name different files |
| Submission.ChecklistByFilename | backend/server.js:168-170 | finds a checklist with that file name, and none exactly when no checklist has it |
| Submission.AttachSubmission | backend/server.js:162-201 | with a file name and user id in the form, a checklist of that name and an open `assigned` row of that user for it, that row gets the submission file; otherwise nothing changes; the invariant is kept |
| Submission.AttachTargetUnique | backend/server.js:174-182 | under the invariant there is at most one open `assigned` row to attach to, so `assignedAt DESC` picks the only one |
| Submission.SubmitForm | backend/server.js:122-223 | the three 400s in order with no write; otherwise the form plus its sample is written as `data_<now>.json`, the file is attached to the row, and the e-mail result decides between 500 and 200; the invariant is kept |
| Submission.GetIsSingleUse | dhl_login/app.js:199-227 | after a granted `GET` the next one is refused as used and writes nothing |
| Submission.GetWritesOnlyFlags | dhl_login/app.js:222-227 | only a granted `GET` writes, and only the accessed flag and time of its own record |
| Submission.SubmitThenGetGrants | backend/server.js:144-155 | a submitted form without the two flags is handed out through its link's id, with the sample drawn at submission |
| Submission.Validated | dhl_login/app.js:259-288 | the validated record has the corrections applied to its checkboxes and `supervisorValidation` set to the name, the time and the corrections map, the rest unchanged |
| Submission.ValidatePost | dhl_login/app.js:243-335 | 404 for a missing file and a crash with no write for non-array corrections; otherwise the record is rewritten with the corrections and the validation, and the row is validated as `markAssignmentValidated` does; the invariant is kept |
| Submission.NoGrantAfterValidation | dhl_login/app.js:199-215 | after a validation a later `GET` reports the link used or the checklist validated, and writes nothing |
| Submission.UsedLinkStaysUsed | dhl_login/app.js:278-288 | a validation keeps a used link's accessed flag |
| Submission.PostAcceptsRevalidation | dhl_login/app.js:243-335 | a second validation of the same file is accepted, overwrites the validation and applies its corrections on top of the first |
| Admin.FormInt | dhl_login/routes/admin.js:61-62 | `parseInt(x, 10)` of a form field is the integer prefix of its text, and `NaN` (no value) for an absent field |
| Admin.CheckFormAnswers | dhl_login/routes/admin.js:83-94 | the answer check throws exactly when both question ids are truthy and an answer it trims is absent; it passes exactly when both ids are known questions (1 to 4), differ, and both answers are non-blank, with those ids; otherwise it records one of its three messages |
| Admin.CreateUserErrors | dhl_login/routes/admin.js:65-119 | one error per failing field: blank names, a trimmed username outside 3-30, a password under 8, a failing answer check; a well-formed username already stored is the only taken case; no errors exactly when every check passes and the username is free |
| Admin.ErrorMap | dhl_login/routes/admin.js:68-102 | the map has each field exactly when its check failed, the username entry is the taken message exactly when the name is taken, and it is empty exactly when nothing failed |
| Admin.NameTaken | dhl_login/routes/admin.js:97-102 | the lookup runs only for a well-formed username and finds it exactly when a user has it |
| Admin.AddIf | dhl_login/routes/admin.js:68-93 | a failed check sets its field's message and touches no other field; a passing one changes nothing |
| Admin.CreateUserFromForm | dhl_login/routes/admin.js:58-170 | a throwing answer check, field errors, or a refused row change nothing; otherwise one non-admin user built from the form is appended; the invariant is kept |
| Admin.CreatedRow | dhl_login/routes/admin.js:135-151 | a created user is appended as the only change, with the form's username, the password's hash, the two parsed and distinct question ids, the answers' hashes and no admin flag |
| Admin.CreatedUserCanLogIn | dhl_login/routes/admin.js:135-151 | a user the form creates can sign in through the API with the username and password given, once a signing secret is set |
| Admin.StoredPasswordLogsIn | dhl_login/routes/auth.js:92-120 | a user whose stored hash is that of the password signs in with it and gets a token for their own id |
| Admin.CreatedUserAnswersProve | dhl_login/routes/admin.js:137-148 | the answers given on the form, under their question ids, pass the answer check of the reset flow for the created user |
| Admin.AssignFormErrors | dhl_login/routes/admin.js:205-231 | the user field fails exactly when blank, not UUID-shaped or the acting admin's id, the last one with the self-assignment message; the checklist field fails exactly when blank or not UUID-shaped; no errors exactly when both are well formed and the user is not the admin |
| Admin.UuidNotBlank | dhl_login/routes/admin.js:208-226 | a UUID-shaped id is never blank |
| Admin.SubmitAssignForm | dhl_login/routes/admin.js:202-300 | field errors change nothing and are reported; otherwise the result is that of `manuallyAssignChecklist` for the form's ids, the acting admin, and override exactly when the field was `on` or `true` |
| Admin.AssignFormCoversFirstChecks | dhl_login/routes/admin.js:205-231 | a form that passes its own checks never fails the first five checks of `manuallyAssignChecklist` |
| Admin.PassingIdsReachLookups | dhl_login/utils/assignmentLogic.js:74-109 | three UUID-shaped ids with the target not the admin get past the checks before the lookups |
| Admin.UnlessAll | dhl_login/routes/admin.js:310-315 | a filter is set exactly when the query value is truthy and not `all`, and then to that value |
| Admin.ManageFilters | dhl_login/routes/admin.js:306-321 | the filters never ask for active rows only, carry status and user only when not `all`, and carry a date bound exactly when its field is not blank, read from the trimmed text |
| Admin.SearchRows | dhl_login/routes/admin.js:331-339 | the search keeps exactly the rows whose user's first name, last name or username, or whose checklist's title, lower-cased contains the term |
| Admin.SearchKeepsOrder | dhl_login/routes/admin.js:333 | the search keeps the order of the rows it keeps |
| Admin.SearchTerm | dhl_login/routes/admin.js:331-332 | a term exists exactly when the search field is not blank, and is then the lower-cased, trimmed, non-empty text |
| Admin.LowerTrimNotBlank | dhl_login/routes/admin.js:331-332 | lower-casing keeps a non-blank text non-blank |
| Admin.ManageAssignments | dhl_login/routes/admin.js:303-361 | the page lists, newest first, exactly the stored rows of non-admin users that meet the filters and, when a term is given, the search |
| Admin.SubmissionFileNameAccepted | dhl_login/routes/admin.js:369 | the name check accepts `data_<id>.json` exactly when the id is a non-empty run of digits |
| Admin.SubmittedFileViewable | dhl_login/routes/admin.js:369 | every file a submission writes passes the name check |
| Admin.SubmissionFileNameIsPlain | dhl_login/routes/admin.js:368-372 | an accepted name holds no `/` and no `..`, so it cannot leave the data directory |
| Admin.ViewSubmissionData | dhl_login/routes/admin.js:364-430 | a bad name is refused first, then a name no row stores, then a missing file; a view shows a row storing that name and the file's contents |
| Seeder.TypeFromFilename | dhl_login/seeders/20250702152524-populate-checklists.js:8-13 | `daily` wins when the lower-cased name contains it, then `weekly`, then `quarterly`; otherwise no type; a found type's word is in the name |
| Seeder.TypeIgnoresCase | dhl_login/seeders/20250702152524-populate-checklists.js:9-11 | the case of the name does not change its type |
| Seeder.TypeWordIsSeeded | dhl_login/seeders/20250702152524-populate-checklists.js:8-13 | a name containing a type word always has a type |
| Seeder.OrderOfFile | dhl_login/seeders/20250702152524-populate-checklists.js:21 | the order is `parseInt` of the text before the first `_` |
| Seeder.IndexOfAfter | dhl_login/seeders/20250702152524-populate-checklists.js:21 | the first separator is the one after a separator-free prefix |
| Seeder.SplitAfter | dhl_login/seeders/20250702152524-populate-checklists.js:21-22 | splitting after a separator-free prefix gives that prefix followed by the split of the rest |
| Seeder.SplitJoin | dhl_login/seeders/20250702152524-populate-checklists.js:22 | splitting words joined by a character none of them holds gives the words back |
| Seeder.CharNotInJoin | dhl_login/seeders/20250702152524-populate-checklists.js:22 | joining words without a character by a separator without it gives a text without it |
| Seeder.ReplaceExtension | dhl_login/seeders/20250702152524-populate-checklists.js:22 | in a name with no other dot, `.replace('.html', '')` strips just the extension |
| Seeder.SeedNameParsed | dhl_login/seeders/20250702152524-populate-checklists.js:21-22 | a name `<n>_<word>_..._<word>.html` gives order `n` and the words joined by spaces as title |
| Seeder.SeedRows | dhl_login/seeders/20250702152524-populate-checklists.js:20-36 | each seeded row has the type, title and order read off its own file name, and there are no more rows than files |
| Seeder.SeededNames | dhl_login/seeders/20250702152524-populate-checklists.js:28 | the names of the rows in order |
| Seeder.SeedRowsCoverTypedFiles | dhl_login/seeders/20250702152524-populate-checklists.js:20-36 | exactly the files whose name gives a type are seeded, in the order of the listing |
| Seeder.SeedRowIdsDrawn | dhl_login/seeders/20250702152524-populate-checklists.js:27 | each row carries one of the fresh ids drawn |
| Seeder.SeedRowsStep | dhl_login/seeders/20250702152524-populate-checklists.js:20-36 | one more file adds its row exactly when its name gives a type |
| Seeder.Up | dhl_login/seeders/20250702152524-populate-checklists.js:16-39 | the loop collects exactly the rows of the typed files, each described by its name, in listing order |
| Client.ElementById | Public/scripts.js:179 | `getElementById` returns the first element in document order with that id, or none |
| Client.FilledName | Public/scripts.js:34-58 | the `name` input is filled with first name, a space and last name only when the user, both names and the input exist and the input is blank; otherwise it is unchanged |
| Client.FilledNameIdempotent | Public/scripts.js:74-76 | running `populateAssociateName` again, as both callers may, changes nothing more |
| Client.FilledNameKeepsTypedValue | Public/scripts.js:48-52 | a non-blank value already in the input is never overwritten |
| Client.FilledNamePassesValidation | Public/scripts.js:273-281 | a filled-in name whose first name is not all spaces passes `validateForm` |
| Client.ValidateForm | Public/scripts.js:273-281 | the form is invalid exactly when a `name` input exists and holds only white space |
| Client.EmailCheckSound | Public/scripts.js:285 | the direct check implies a match of `^[^\s@]+@[^\s@]+\.[^\s@]+$` |
| Client.EmailCheckComplete | Public/scripts.js:285 | every match of the pattern passes the direct check |
| Client.ValidateEmail | Public/scripts.js:284-287 | an address is accepted exactly when its lower-cased text matches the pattern |
| Client.ValidateEmailIgnoresCase | Public/scripts.js:286 | lower-casing the address first never changes the verdict |
| Client.MenuLabel | Public/scripts.js:126 | a menu label is `Checklist # ` and the entry without its first `.html`, with no `_` left after the prefix |
| Client.MenuLabelOfEntry | Public/scripts.js:96-126 | an entry `<base>.html` with no other dot is labelled by its base with `_` read as spaces |
| Client.FindHtmlSuffix | Public/scripts.js:126 | the first `.html` of such an entry is its suffix |
| Client.LastSegment | Public/scripts.js:310 | the last segment of a path holds no `/`, ends the path, and follows a `/` unless it is the whole path |
| Client.SegmentOfRest | Public/scripts.js:310 | a segment that ends the rest of the path after a `/` also ends the path |
| Client.LastSegmentIsPop | Public/scripts.js:310 | the last segment is `path.split('/').pop()` |
| Client.LastSegmentStep | Public/scripts.js:310 | the last segment of a path is that of the part after its first `/` |
| Client.LastOfSplitStep | Public/scripts.js:310 | the last part of the split is that of the part after the first `/` |
| Client.LastOfCons | Public/scripts.js:310 | a leading part does not change the last one |
| Client.CompletionFilename | Public/scripts.js:307-335 | a file name is posted exactly when the last segment is non-empty, ends in `.html` and a token is held; it is then that segment |
| Client.CompletionOfServedPage | Public/scripts.js:307-335 | a checklist page served from any directory reports its own file name |
| Client.Scanned | Public/scripts.js:174-182 | after Enter, only the checkbox that `getElementById` finds for the trimmed input flips, and nothing else changes |
| Client.ScanMessage | Public/scripts.js:177-196 | the not-found message appears exactly when the trimmed input is non-empty and names no checkbox |
| Client.ScanTogglesAtMostOne | Public/scripts.js:179-182 | a scan changes at most one element, and only its `checked` flag |
| Client.ScanTwiceRestores | Public/scripts.js:174-182 | scanning the same code twice leaves every checkbox as it was |
| Client.Page.constructor | Public/scripts.js:80-134 | a page starts with its name input and elements, an empty scanner and no message |
| Client.Page.PopulateAssociateName | Public/scripts.js:34-58 | the name input becomes the filled name and nothing else on the page changes |
| Client.Page.ScanEnter | Public/scripts.js:169-202 | the elements become the scanned ones, the message is set exactly when the id names no checkbox, and the scanner input is cleared |
| Strings.LeadingSpaces | dhl_login/utils/validation.js:5 | the count of leading white-space characters: every one of them is white space and the next character is not |
| Strings.Trim | dhl_login/utils/validation.js:5 | `trim()` returns the slice of the input after its leading white space that neither starts nor ends with white space, and every character outside it is white space |
| Strings.BlankIffAllSpace | dhl_login/routes/admin.js:68-71 | `x.trim() === ''` holds exactly when every character of `x` is white space |
| Strings.TrimIdempotent | dhl_login/routes/forgotPassword.js:50-83 | trimming a trimmed string changes nothing |
| Strings.TrimUnique | dhl_login/routes/forgotPassword.js:50-83 | when the input is white space, then a text that neither starts nor ends with white space, then white space, `trim()` returns exactly that text |
| Strings.TrimPadded | dhl_login/utils/auth.js:37 | adding white space on either side of any string does not change what it trims to |
| Strings.ToLower | dhl_login/utils/auth.js:37 | `toLowerCase()` keeps the length and maps each character through the ASCII lower-case map |
| Strings.ToLowerIdempotent | dhl_login/utils/auth.js:37 | lower-casing twice is lower-casing once |
| Strings.ContainsIffOccurs | dhl_login/seeders/20250702152524-populate-checklists.js:9-11 | `includes` holds exactly when the substring occurs at some position |
| Strings.IndexOf | dhl_login/seeders/20250702152524-populate-checklists.js:21 | the index of the first occurrence of the character, or the length when there is none |
| Strings.Find | dhl_login/seeders/20250702152524-populate-checklists.js:22 | the first position where the pattern matches, or past the end when none does |
| Strings.ReplaceAllChar | Public/scripts.js:126 | every occurrence of one character becomes the other and nothing else changes |
| Strings.JoinSplit | dhl_login/seeders/20250702152524-populate-checklists.js:22 | joining the parts of a split with the separator gives back the original text |
| Strings.SplitHead | dhl_login/app.js:312 | the first part of a split is the text before the first separator |
| Strings.NatToString | dhl_login/routes/admin.js:61-62 | the decimal form of a number is digits with no leading zero |
| Strings.DigitPrefix | dhl_login/routes/admin.js:61-62 | the longest leading run of digits |
| Strings.DigitsValueOfNatToString | dhl_login/routes/admin.js:61-62 | reading back the decimal form of a number gives the number |
| Strings.ParseIntOfNatToString | dhl_login/routes/forgotPassword.js:144-145 | `parseInt(String(n), 10)` is `n` |
| Strings.ParseIntStopsAtNonDigit | dhl_login/routes/forgotPassword.js:144-145 | `parseInt` reads the leading digits and ignores what follows the first non-digit |
| Sorting.InsertPermutes | dhl_login/utils/assignmentLogic.js:306 | inserting one element adds exactly that element |
| Sorting.InsertSorted | dhl_login/utils/assignmentLogic.js:306 | inserting into a sorted sequence keeps it sorted, for any total preorder |
| Sorting.InsertionSortCorrect | dhl_login/utils/assignmentLogic.js:326 | the `ORDER BY` result is sorted by the key and is a permutation of the rows |
| Sorting.Filter | dhl_login/utils/assignmentLogic.js:419 | a `WHERE` keeps exactly the rows that satisfy it, and no row more often than before |
| Sorting.FilterKeepsOrder | dhl_login/utils/assignmentLogic.js:419 | filtering a sorted sequence leaves it sorted |

## Left out

- HTTP plumbing: routing, rendering and flash messages, CSRF, sessions as a
  transport, and rate limiters. Handler results are outcome datatypes, and
  the session is a two-field object.
- Exceptions and their 500 answers. A thrown ORM or file-system error is not
  modelled, except where the source turns it into a result (`CreateThrew`,
  and `false` from `markAssignmentValidated`).
- bcrypt salts and cost factors. A digest records the first 72 characters of
  its input, and characters count as single bytes.
- JWT signing and verification. Only the token's payload and lifetime are
  recorded. The signing secret is a parameter that may be absent.
- File and e-mail I/O. The data directory is a map from file names to
  records. Whether an e-mail was sent is the parameter `emailOk`, and the
  link's base URL is the parameter `baseUrl`.
- Clocks and time zones. `now`, the start of today and the day bounds of a
  date filter (local midnight and end of day) are parameters. Parsing
  `YYYY-MM-DD` into local time is not modelled.
- Randomness. `Math.random` in the shuffle is the oracle `rand`, and fresh
  UUIDs and reset tokens are parameters. The seeder is given an id for every
  file, while the source draws one only for files that have a type.
- Floating point. `Math.ceil(n * 0.20)` is modelled as the exact ceiling of
  `n / 5`, which is what it computes for any realistic `n`.
- Concurrency. Two requests racing on the single-active rule or on the
  one-time link are not modelled; calls run one after the other.
- Ordering ties. An `ORDER BY` is modelled by an insertion sort under the
  same key, which fixes one order among equal keys. The database may return
  ties in a different order.
- Unicode. `trim`, `toLowerCase` and `validator.isLength` use ASCII white
  space and ASCII case, and count characters rather than UTF-16 code units.
- Path traversal through a `fileId` is not modelled. A file id is an opaque
  string that names a key of the data directory.
- `dhl_login/app.js:310-322` inlines the lookup of `markAssignmentValidated`.
  A missing or null supervisor name throws there; the throw is caught, the
  row is left unchanged and the response is 200.
- Lifecycle.MarkAssignmentValidated: `None` stands for an undefined name,
  which the ORM rejects, so the result is `false`. A `null` name is not
  modelled. In the source it is looked up as `firstName: null`, matches no
  admin, and the row is validated with no validator. The function has no
  caller in the code, and `dhl_login/app.js:312` throws on a null name.
- Browser script: the DOM is reduced to the name input, the elements
  reachable by id, the scanner input and the last message.
  `getCheckboxStates`, focus handling and the fetch chain of
  `markAssignmentCompleted` are not modelled; its filename choice is. The
  menu's entry list is not modelled as data, and `Client.MenuLabel` is
  applied to one entry at a time.
- The duplicate and deprecated validation endpoints at the end of
  `backend/server.js`, migrations, configuration and maintenance scripts are
  not part of this model.
- Admin create-user: the render with the collected errors is not modelled;
  only the error set and whether a user is created are.
- Engine.GetCurrentAssignments: the query is modelled as a filter plus a
  descending sort by `assignedAt`. The row shape the ORM includes (user and
  checklist attributes) is not modelled.
- Sampling.CeilFifth: the exact integer ceiling; the floating-point
  rounding of `n * 0.20` is not modelled.

## Findings

| source | as written | input that shows it | evidently intended | confidence | as-written member | corrected member |
|---|---|---|---|---|---|---|
| dhl_login/routes/forgotPassword.js:144-157 | each answer in step 2 is checked against whichever stored question its own id names, and both checks only need to pass | the answer to the first stored question, sent as both answers under that question's id | both stored questions must be answered, one answer each, as `POST /verify-security-answers` requires | not executed | Forgot.OneAnswerPassesStepTwo | Forgot.StepTwoFixedNeedsBothAnswers |
| dhl_login/routes/forgotPassword.js:82-83 | step 1 stores the new `resetUsername` but keeps a `resetVerified` left from an earlier username | user A passes step 2, then step 1 is run with user B's name, then step 3 | showing a username's questions withdraws any earlier verification, so step 3 needs that user's answers | not executed | Forgot.StaleVerificationResetsOtherUser | Forgot.FixedStartRequiresNewAnswers |
