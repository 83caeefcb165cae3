# StackWave answers and accounts, modelled in Dafny

StackWave is a question-and-answer site with an Express back end over a
MongoDB database. This project models its back-end core:

- the answer workflow: adding, editing, deleting, up-voting and
  down-voting an answer;
- the account workflow: sign-up with an e-mailed one-time password (OTP),
  login, reading one's profile and verifying the OTP;
- the Answer and Comment schemas that decide which records may be stored.

The three collections (users, answers, comments) are the value `Db`
(`database.dfy`). Every handler runs a fixed chain of guards. Each guard
ends the request with its own status. After the guards come one or more
changes to the collections, in the handler's order: adding an answer
inserts it and then raises its author's count, and deleting one removes it,
lowers the count and then removes its comments. Each handler is modelled:

- as a function from the collections before the request to the collections
  after it plus the reply (`answer_controller.dfy`, `auth_controller.dfy`);
  the contracts of these functions say which status each input gets and what
  changes;
- for every handler that writes (all but login and profile), also as a
  method of the class `Store.Store` (`store.dfy`), which holds the three
  tables as fields and updates them in place, step by step, in the
  handler's order; each method is proved to end in the state and reply the
  function specifies. Login and profile only read, so they stay functions
  of the collections (`Store.Store.State()` gives them as one value).

The lemmas in `answer_properties.dfy` and `auth_properties.dfy` relate
several requests to each other. They cover:

- answer counters staying consistent with the answers table;
- repeated votes and an up-vote undone by a down-vote;
- what a sign-up lets the new account do next;
- how long an OTP is accepted.

The schemas (`answer_model.dfy`, `comment_model.dfy`) are a normalising
function (defaults and trimming) plus a validity predicate (required fields,
ObjectId casts, maximum length). Trimming follows JavaScript's
`String.prototype.trim`, and lengths count UTF-16 code units (`text.dfy`).

Errors thrown inside a handler and caught by its `catch` block are the reply
`Thrown`. It carries status 500, except in the profile handler, whose catch
answers 400. Such errors are a schema validation failure, an id that cannot
be cast to an ObjectId, or reading a field of a missing object. The
following are parameters of the model:

- the current time, `now`, in milliseconds;
- the password hash, `hash`, and the password comparison, `matches`;
- the generated OTP;
- whether the OTP e-mail was sent;
- the id the database gives a new document.

## Model

| member | source | states |
|---|---|---|
| Common.IsObjectId | Backend/src/models/answer.model.js:5-8 | the cast rule for ids and references: exactly 24 hexadecimal digits cast, anything else fails (a 500 in the handlers) |
| Common.Present | Backend/src/controllers/answer.controller.js:12-30 | JavaScript truthiness of an optional string field: absent and empty are both falsy |
| Text.IsSpace | Backend/src/models/answer.model.js:12 | the characters `trim` removes: ECMAScript white space and line terminators |
| Text.Trim | Backend/src/models/answer.model.js:12 | trimmed content starts and ends with a non-white-space character, or is empty |
| Text.TrimIsInfix | Backend/src/models/answer.model.js:12 | trimming removes only white space, and only at the two ends |
| Text.TrimFixesTrimmed | Backend/src/models/answer.model.js:12 | a string that neither starts nor ends with white space is left as it is |
| Text.TrimIdempotent | Backend/src/models/answer.model.js:12 | trimming twice is trimming once |
| Text.TrimEmptyIff | Backend/src/models/answer.model.js:11-12 | a string trims to empty exactly when it is all white space |
| Text.Utf16Length | Backend/src/models/answer.model.js:13 | the length `maxLength` compares lies between the number of code points and twice that |
| AnswerModel.Valid | Backend/src/models/answer.model.js:4-24 | a stored answer: references castable if present, content trimmed, non-empty and at most 2000 UTF-16 units |
| AnswerModel.Normalise | Backend/src/models/answer.model.js:5-22 | a new answer keeps its references, has its content trimmed and a vote of 0 |
| AnswerModel.Create | Backend/src/models/answer.model.js:4-24 | `create` stores a record only when the normalised record is valid, and the stored record is that one |
| AnswerModel.Save | Backend/src/models/answer.model.js:4-24 | `save` validates the whole document and stores it unchanged when valid |
| AnswerModel.SetContent | Backend/src/controllers/answer.controller.js:92-93 | assigning content and saving keeps question, author and vote; the content is stored trimmed |
| AnswerModel.CreateAcceptsIff | Backend/src/models/answer.model.js:5-18 | `create` succeeds exactly for castable optional references, content not all white space, and trimmed content of at most 2000 units |
| AnswerModel.ReferencesOptional | Backend/src/models/answer.model.js:5-18 | an answer with no question and no author is accepted |
| AnswerModel.WhitespaceContentRejected | Backend/src/models/answer.model.js:11-12 | all-white-space content fails `required` on create and on edit |
| AnswerModel.TooLongRejected | Backend/src/models/answer.model.js:13 | trimmed content over 2000 units fails on create and on edit |
| AnswerModel.NormaliseIdempotent | Backend/src/models/answer.model.js:12 | normalising stored content again changes nothing |
| CommentModel.Valid | Backend/src/models/comment.model.js:4-26 | a stored comment: answer and author present and castable, parent castable if present, content trimmed, non-empty and at most 1000 units |
| CommentModel.Normalise | Backend/src/models/comment.model.js:5-25 | a comment keeps its references and parent (absent for a top-level comment) and has its content trimmed |
| CommentModel.Create | Backend/src/models/comment.model.js:5-20 | a stored comment is valid; one without `answerId` or without `authorId` is refused |
| CommentModel.CreateAcceptsIff | Backend/src/models/comment.model.js:5-25 | `create` succeeds exactly for castable required answer and author ids, a castable or absent parent, content not all white space, and trimmed content of at most 1000 units |
| UserModel.Load | Backend/src/controllers/auth.controller.js:76 | a loaded user document carries the password hash only when it was selected |
| UserModel.WithoutOtp | Backend/src/controllers/auth.controller.js:123-124 | deleting the OTP fields removes those two and keeps the rest |
| UserModel.WithoutSecrets | Backend/src/controllers/auth.controller.js:51-53 | deleting password, OTP and expiry removes those three and keeps the rest |
| UserModel.FindById | Backend/src/controllers/answer.controller.js:38 | `findById` finds the first user with the id, and finds nothing only when no user has it |
| UserModel.FindByEmail | Backend/src/controllers/auth.controller.js:15 | `findOne({email})` finds the first user with the email, and nothing only when no user has it |
| UserModel.FindByIdSameIds | Backend/src/controllers/auth.controller.js:146 | the id lookup depends on the users' ids only |
| UserModel.FindByEmailSameEmails | Backend/src/controllers/auth.controller.js:76 | the email lookup depends on the users' emails only |
| UserModel.FindByIdAppend | Backend/src/controllers/auth.controller.js:41-47 | a user created under a new id is found by it |
| UserModel.FindByEmailAppend | Backend/src/controllers/auth.controller.js:15-21 | a user created under a new email is found by it |
| Database.AuthoredBy | Backend/src/controllers/answer.controller.js:38-40 | the answers a user authored, which `answerGivenCount` is meant to count |
| Database.ConsistentCountersNonNegative | Backend/src/controllers/answer.controller.js:140-142 | while counters match the answers table, the unclamped decrement never makes one negative |
| AnswerController.AddAnswer | Backend/src/controllers/answer.controller.js:7-53 | the question id is checked first (400), then the caller (401), then the content (400), each with no change. A schema failure is a 500 with no change. Success replies 201, stores the answer under the caller as author with trimmed content and vote 0, raises the author's count by exactly one and touches nothing else. A missing author record is a 500 after the answer is stored. Validity of the collections is kept |
| AnswerController.Reaches | Backend/src/controllers/answer.controller.js:60-77 | the request passes the identity, id, cast and existence checks on an answer that has an author |
| AnswerController.Authorless | Backend/src/controllers/answer.controller.js:79 | the named answer exists but has no author, so comparing ids throws |
| AnswerController.IsAuthor | Backend/src/controllers/answer.controller.js:79-83 | the caller's id equals the stored answer's author id |
| AnswerController.Locate | Backend/src/controllers/answer.controller.js:60-83 | the shared guard chain passes exactly when the caller, the id, its cast and the answer's author all check out, and then yields the stored answer |
| AnswerController.EditAnswer | Backend/src/controllers/answer.controller.js:55-106 | 401, 400, 500 for an uncastable id, 404, 500 for an answer without author, and the ownership 403, in that order; the ownership 403 comes before the content 400; a schema failure on save (all white space, or over 2000 units once trimmed) is a 500. Each of these leaves the collections unchanged. Success replies 200 and replaces only the content (trimmed), keeping vote, author and question. Validity is kept |
| AnswerController.CascadeDelete | Backend/src/controllers/answer.controller.js:144 | exactly the comments pointing at the answer are removed; every other comment stays as it was |
| AnswerController.DeleteAnswer | Backend/src/controllers/answer.controller.js:108-156 | 401, 400, 500 for an uncastable id, 404, 500 for an answer without author, and 403, in that order, each with no change. Success replies 200, removes the answer, lowers the author's count by exactly one without a floor, and removes exactly its comments. A missing author record is a 500 after the answer is gone and before its comments are. Validity is kept |
| AnswerController.Vote | Backend/src/controllers/answer.controller.js:182-193 | an answer without author is a 500 and the author gets 403, both with no change; a record the schema refuses on save is a 500 with no change. Anyone else gets 200, the stored tally moves by exactly the step and comes back in the reply. Nothing else changes |
| AnswerController.UpVote | Backend/src/controllers/answer.controller.js:158-202 | 401, 400, 500 for an uncastable id, 404 for an unknown answer, 500 for an answer without author, 403 for the author, in that order, and a 500 when save fails; none of these changes anything. Any other caller succeeds with 200 exactly when the answer itself passes the schema, the tally rises by one and the reply carries the stored tally |
| AnswerController.DownVote | Backend/src/controllers/answer.controller.js:204-247 | as for the up-vote, except that an unknown answer gets 403 and the tally falls by one, below zero if need be |
| AnswerProperties.AuthoredByInsert | Backend/src/controllers/answer.controller.js:32-40 | a new answer joins its author's set of answers and no other user's |
| AnswerProperties.AuthoredByRemove | Backend/src/controllers/answer.controller.js:138-142 | a deleted answer leaves its author's set and no other user's |
| AnswerProperties.AuthoredByReplace | Backend/src/controllers/answer.controller.js:92-93 | rewriting an answer without changing its author changes no user's set |
| AnswerProperties.CountMovedKeepsCounters | Backend/src/controllers/answer.controller.js:38-40 | moving one user's count by the change in that user's answers keeps every counter consistent |
| AnswerProperties.UnknownAuthorKeepsCounters | Backend/src/controllers/answer.controller.js:38-40 | answers of an id no user has do not disturb any counter |
| AnswerProperties.AddAnswerKeepsCounters | Backend/src/controllers/answer.controller.js:32-45 | an add, whatever its outcome, keeps counters consistent with the answers table |
| AnswerProperties.DeleteAnswerKeepsCounters | Backend/src/controllers/answer.controller.js:138-144 | a delete, whatever its outcome, keeps counters consistent with the answers table |
| AnswerProperties.EditAnswerKeepsCounters | Backend/src/controllers/answer.controller.js:92-93 | an edit keeps counters consistent |
| AnswerProperties.VoteKeepsCounters | Backend/src/controllers/answer.controller.js:188-189 | a vote keeps counters consistent |
| AnswerProperties.RepeatedUpVotesAccumulate | Backend/src/controllers/answer.controller.js:188-189 | no voter is recorded: n up-votes by the same non-author raise the tally by exactly n |
| AnswerProperties.UpVoteThenDownVoteRestores | Backend/src/controllers/answer.controller.js:188-235 | an up-vote followed by a down-vote from any non-author restores the collections exactly |
| AnswerProperties.CascadeDeleteIdempotent | Backend/src/controllers/answer.controller.js:144 | deleting an answer's comments twice is deleting them once |
| AnswerProperties.CascadeDeleteWithoutCommentsIsNoop | Backend/src/controllers/answer.controller.js:144 | an answer without comments leaves the comments untouched |
| AnswerProperties.TwoUpVotesCount | Backend/src/controllers/answer.controller.js:188-194 | two up-votes by the same non-author succeed and raise the tally by two |
| AnswerProperties.AnswerHello | Backend/src/controllers/answer.controller.js:32-45 | adding "hello" as an existing user stores it with vote 0 and raises that user's count by one |
| AnswerProperties.DeleteByOtherThenByAuthor | Backend/src/controllers/answer.controller.js:132-146 | a delete by someone else is a 403 with no change; the author's delete then succeeds |
| AnswerProperties.Session | Backend/src/controllers/answer.controller.js:7-247 | add, two up-votes by another user, a foreign delete and the author's delete end with the answer gone and the author's count back where it was |
| AnswerProperties.WhitespaceEditThrows | Backend/src/controllers/answer.controller.js:85-93 | white-space content passes the edit handler's check but fails the schema: a 500 and no change |
| AnswerProperties.OverlongAddThrows | Backend/src/controllers/answer.controller.js:32-40 | overlong content fails in the schema: a 500, no answer stored and no counter moved |
| AuthController.NewUser | Backend/src/controllers/auth.controller.js:24-47 | a new user has the hashed password, the generated OTP and an expiry 300000 ms after now, and is unverified |
| AuthController.SignUp | Backend/src/controllers/auth.controller.js:6-65 | a missing field is 400, a taken email is 409, and a failed OTP mail is 500, all with no change. Success appends exactly the new user with hashed password, expiry now + 300000, unverified and with an answer count of 0, and replies 201 with that user's document without password, OTP or expiry. Emails stay unique, and so do ids for a fresh id |
| AuthController.Login | Backend/src/controllers/auth.controller.js:67-107 | a missing field is 400. An unknown email and a wrong password both get 401 with the same message. Success exactly for a stored email whose hash matches; the reply is that user's document without password, OTP or expiry. Login never writes and never checks verification |
| AuthController.Profile | Backend/src/controllers/auth.controller.js:109-136 | no user object is a 400 from the catch, and a missing id is 401; an id that cannot be cast or finds no user is a 400 from the catch. Success exactly when the id finds a user, and the reply is that user's document without password, OTP or expiry |
| AuthController.OtpExpired | Backend/src/controllers/auth.controller.js:151 | expired strictly after the stored instant; a user without an expiry never expires |
| AuthController.Located | Backend/src/controllers/auth.controller.js:141-146 | the verify handler's user lookup: defined for a castable id, and then finds the caller or proves there is none |
| AuthController.Verify | Backend/src/controllers/auth.controller.js:138-180 | the expiry check (strictly after the expiry) comes before the code check, each a 400 with no change. Success exactly for a live, equal code, and it sets only `isVerified`. The reply is the verified user's document without password, OTP or expiry. Validity is kept |
| AuthProperties.SignUpThenVerify | Backend/src/controllers/auth.controller.js:25-164 | the mailed OTP verifies the new account up to and including now + 300000; one millisecond later it is expired, and before then any other code is invalid |
| AuthProperties.VerifyRepeatable | Backend/src/controllers/auth.controller.js:157-164 | the OTP is not cleared: repeating a successful verify while it is live succeeds with the same result |
| AuthProperties.SignUpTwiceConflicts | Backend/src/controllers/auth.controller.js:15-21 | after a sign-up, any sign-up with the same email is a 409 |
| AuthProperties.SignUpThenLogin | Backend/src/controllers/auth.controller.js:38-101 | a new, still unverified account can log in with its password |
| AuthProperties.LoginIgnoresVerification | Backend/src/controllers/auth.controller.js:76-101 | whether login succeeds does not depend on any user's verification flag |
| AuthProperties.SignUpKeepsInvariants | Backend/src/controllers/auth.controller.js:15-47 | sign-up keeps the collections valid and the answer counters consistent |
| AuthProperties.VerifyKeepsCounters | Backend/src/controllers/auth.controller.js:163-164 | verification keeps the answer counters consistent |
| Store.Store.BumpCount | Backend/src/controllers/answer.controller.js:38-40 | the in-place counter update changes exactly that user's count by the step |
| Store.Store.AddAnswer | Backend/src/controllers/answer.controller.js:7-53 | the in-place add ends in the state and reply `AnswerController.AddAnswer` specifies |
| Store.Store.EditAnswer | Backend/src/controllers/answer.controller.js:55-106 | the in-place edit ends in the state and reply `AnswerController.EditAnswer` specifies |
| Store.Store.DeleteAnswer | Backend/src/controllers/answer.controller.js:108-156 | the in-place delete ends in the state and reply `AnswerController.DeleteAnswer` specifies |
| Store.Store.UpVote | Backend/src/controllers/answer.controller.js:158-202 | the in-place up-vote ends in the state and reply `AnswerController.UpVote` specifies |
| Store.Store.DownVote | Backend/src/controllers/answer.controller.js:204-247 | the in-place down-vote ends in the state and reply `AnswerController.DownVote` specifies |
| Store.Store.SignUp | Backend/src/controllers/auth.controller.js:6-65 | the in-place sign-up ends in the state and reply `AuthController.SignUp` specifies |
| Store.Store.Verify | Backend/src/controllers/auth.controller.js:138-180 | the in-place verification ends in the state and reply `AuthController.Verify` specifies |

## Left out

- Behaviour the code has and that the model keeps on purpose:
  - An id that cannot be cast to an ObjectId makes the lookup throw. The
    reply is 500, or 400 in the profile handler.
  - A stored answer without an author makes `authorId.toString()` throw, so
    the reply is 500.
  - The add handler stores the answer before it loads the author. An author
    missing from the user collection therefore gets a 500 with the answer
    stored.
  - The delete handler removes the answer before it loads the author. A
    missing author gets a 500 with the answer gone and its comments kept.
- AuthController.Verify: the handler sends 401 when the user is not found,
  but it has no `return` after that. It then reads a field of the missing
  user, and the catch block's attempt to send a 500 fails because a reply
  was already sent. The model records the 401 with no change and does not
  model the second failure.
- A user without an expiry never expires, because `now > undefined` is false.
- The user schema is not part of this model. Four things follow from that:
  - A new user is taken to be unverified with a count of 0.
  - The password is taken to be left out of a loaded user unless selected
    with `select("+password")`. Login does select it; profile and verify
    do not.
  - Creating a user is taken never to fail validation, and neither is
    saving one (`user.save()` after the counter changes and after
    verification).
  - The email is taken to have no unique index behind the 409 check, so
    the check in the handler is the only thing that keeps emails unique.
- OTP codes are compared as strings; the JavaScript type of the generated
  code, number or string, is not modelled.
- Not modelled, because they are opaque helpers outside the controllers:
  - token generation;
  - the OTP e-mail's contents;
  - the password hash and comparison functions, beyond being parameters;
  - OTP generation, beyond being a parameter.
- Not modelled, because they are infrastructure:
  - time stamps (`timestamps: true`);
  - the error message text of caught errors;
  - the JSON layout of replies (message fields, the token).
- Concurrency is not modelled. Each request runs alone from start to end.
  The lost updates of two interleaved read-modify-write requests on `vote`
  or `answerGivenCount` are therefore not captured.
- Request fields are strings or absent. Non-string JSON values (numbers,
  arrays, objects) in the body are not modelled.
- ObjectIds are compared as the strings given. Two spellings of one id
  that differ in letter case are not identified.
- CommentModel.Normalise: an omitted `parentComment` and an explicit null
  are the same value (None), so the model cannot tell the schema's default
  from a null the caller sent; both mean a top-level comment.
- AnswerModel.Valid asks for content that equals its own trim. That is the
  form the schema's `trim` setter produces, and every record the modelled
  handlers store has it; a record written by other code with untrimmed
  content, which `save()` would accept, is rejected by the model instead.
- Common.IsObjectId takes castable ids to be exactly 24 hexadecimal digits.
  Older versions of the database driver also cast any 12-character string;
  the version in use is not part of this model.
- `vote` and `answerGivenCount` are unbounded integers. In JavaScript they
  are doubles, which lose precision above 2^53; that is not modelled.
- CommentModel.Valid checks that a `parentComment` is castable. It does not
  check that the parent exists, and neither does the schema. Comments are
  never created by the modelled handlers; only the delete handler removes
  them.
- The front end and the server start-up are not part of this model.
