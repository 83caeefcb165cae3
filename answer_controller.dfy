/** The answer workflow: adding, editing, deleting, up-voting and
    down-voting an answer. Each operation runs a fixed chain of guards, each
    of which ends the request with one status, and then makes one change to
    the collections. Here each operation is a function from the collections
    before the request to the collections after it and the reply; the class
    in module Store performs the same steps in place. */
module AnswerController {
  import opened Common
  import opened Text
  import AnswerModel
  import CommentModel
  import opened UserModel
  import opened Database

  type Answer = AnswerModel.Answer
  type Comment = CommentModel.Comment

  /** A reply and its status: a guard's early return with its message, an
      error thrown and caught by the handler (500, with the error's message,
      which is not modelled), or one of the success replies (201 for a new
      answer, 200 otherwise). */
  datatype Reply =
    | Rejected(code: int, message: string)
    | Thrown(code: int)
    | Created(code: int, id: Id, answer: Answer)
    | Updated(code: int, answer: Answer)
    | Deleted(code: int)
    | Voted(code: int, newVoteCount: int)

  /** The collections after a request, and the reply it got. */
  datatype Step = Step(db: Db, reply: Reply)

  /** `user.answerGivenCount += delta` on the user at position k. */
  function Bump(users: seq<User>, k: nat, delta: int): seq<User>
    requires k < |users|
  {
    users[k := users[k].(answerGivenCount := users[k].answerGivenCount + delta)]
  }

  /** `after` is `before` with the count of the user that `findById(uid)`
      finds moved by exactly `delta`, and nothing else changed. */
  predicate CountMoved(before: seq<User>, after: seq<User>, uid: Id, delta: int)
  {
    && |after| == |before|
    && FindById(before, uid).Some?
    && var k := FindById(before, uid).value;
       && after[k] == before[k].(answerGivenCount := before[k].answerGivenCount + delta)
       && forall j :: 0 <= j < |before| && j != k ==> after[j] == before[j]
  }

  /** The request passes the identity, id, cast and existence guards, and the
      loaded answer has an author to compare with. */
  predicate Reaches(db: Db, userId: Option<Id>, answerId: Option<Id>)
  {
    && Present(userId)
    && Present(answerId)
    && IsObjectId(answerId.value)
    && answerId.value in db.answers
    && db.answers[answerId.value].authorId.Some?
  }

  /** The request names a stored answer that has no author, whose id
      therefore cannot be compared with the caller's (a 500). */
  predicate Authorless(db: Db, userId: Option<Id>, answerId: Option<Id>)
  {
    && Present(userId)
    && Present(answerId)
    && IsObjectId(answerId.value)
    && answerId.value in db.answers
    && db.answers[answerId.value].authorId.None?
  }

  /** The caller is the author of the answer the request names. */
  predicate IsAuthor(db: Db, userId: Option<Id>, answerId: Option<Id>)
  {
    Reaches(db, userId, answerId) && db.answers[answerId.value].authorId.value == userId.value
  }

  // ---------------------------------------------------------------------
  // Add

  /** `addAnswerController`: the question id is checked before the caller's
      identity, and both before the content; the answer is inserted before
      the author's record is loaded, so an author missing from the user
      collection leaves the new answer in place behind a 500. */
  function AddAnswer(db: Db, questionId: Option<Id>, userId: Option<Id>, content: Option<string>, newId: Id): (r: Step)
    requires newId !in db.answers
    ensures !Present(questionId) ==> r == Step(db, Rejected(400, "Question not found"))
    ensures Present(questionId) && !Present(userId) ==> r == Step(db, Rejected(401, "User not authenticated"))
    ensures Present(questionId) && Present(userId) && !Present(content) ==>
      r == Step(db, Rejected(400, "Content is required"))
    ensures (Present(questionId) && Present(userId) && Present(content) &&
      AnswerModel.Create(questionId, userId, content.value).None?) ==> r == Step(db, Thrown(500))
    ensures (Present(questionId) && Present(userId) && Present(content) &&
      AnswerModel.Create(questionId, userId, content.value).Some? && FindById(db.users, userId.value).None?) ==>
      r.reply == Thrown(500) && r.db == db.(answers := db.answers[newId := AnswerModel.Create(questionId, userId, content.value).value])
    ensures r.reply.Created? <==>
      Present(questionId) && Present(userId) && Present(content) &&
      AnswerModel.Create(questionId, userId, content.value).Some? && FindById(db.users, userId.value).Some?
    ensures r.reply.Created? ==>
      && r.reply.code == 201
      && r.reply.id == newId
      && r.db.answers == db.answers[newId := r.reply.answer]
      && r.reply.answer.authorId == userId
      && r.reply.answer.questionId == questionId
      && r.reply.answer.vote == 0
      && r.reply.answer.content == Trim(content.value)
      && r.db.comments == db.comments
      && CountMoved(db.users, r.db.users, userId.value, 1)
    ensures r.reply.Rejected? ==> r.db == db
    ensures Valid(db) && IsObjectId(newId) ==> Valid(r.db)
  {
    if !Present(questionId) then Step(db, Rejected(400, "Question not found"))
    else if !Present(userId) then Step(db, Rejected(401, "User not authenticated"))
    else if !Present(content) then Step(db, Rejected(400, "Content is required"))
    else match AnswerModel.Create(questionId, userId, content.value)
      case None => Step(db, Thrown(500))
      case Some(answer) =>
        var inserted := db.(answers := db.answers[newId := answer]);
        match FindById(db.users, userId.value)
        case None => Step(inserted, Thrown(500))
        case Some(k) => Step(inserted.(users := Bump(db.users, k, 1)), Created(201, newId, answer))
  }

  // ---------------------------------------------------------------------
  // The guard chain of edit, delete and the votes

  datatype Lookup = Stop(reply: Reply) | Found(answer: Answer)

  /** Identity (401 with the operation's message), answer id (400), cast
      (500), existence (`missingCode`), then a loaded answer without an
      author, whose id cannot be compared (500). */
  function Locate(db: Db, userId: Option<Id>, answerId: Option<Id>, unauthorized: string, missingCode: int): (r: Lookup)
    ensures r.Found? <==> Reaches(db, userId, answerId)
    ensures r.Found? ==> r.answer == db.answers[answerId.value]
  {
    if !Present(userId) then Stop(Rejected(401, unauthorized))
    else if !Present(answerId) then Stop(Rejected(400, "AnswerId is required"))
    else if !IsObjectId(answerId.value) then Stop(Thrown(500))
    else if answerId.value !in db.answers then Stop(Rejected(missingCode, "Answer not found"))
    else if db.answers[answerId.value].authorId.None? then Stop(Thrown(500))
    else Found(db.answers[answerId.value])
  }

  // ---------------------------------------------------------------------
  // Edit

  /** `editAnswerController`: ownership is checked before the content, so a
      caller who is not the author gets 403 whatever the content; on success
      only the (trimmed) content of the answer changes. */
  function EditAnswer(db: Db, userId: Option<Id>, answerId: Option<Id>, content: Option<string>): (r: Step)
    ensures !Present(userId) ==> r == Step(db, Rejected(401, "User not authenticated"))
    ensures Present(userId) && !Present(answerId) ==> r == Step(db, Rejected(400, "AnswerId is required"))
    ensures Present(userId) && Present(answerId) && !IsObjectId(answerId.value) ==> r == Step(db, Thrown(500))
    ensures Present(userId) && Present(answerId) && IsObjectId(answerId.value) && answerId.value !in db.answers ==>
      r == Step(db, Rejected(404, "Answer not found"))
    ensures Authorless(db, userId, answerId) ==> r == Step(db, Thrown(500))
    ensures Reaches(db, userId, answerId) && !IsAuthor(db, userId, answerId) ==>
      r == Step(db, Rejected(403, "User is not authorized to edit this answer"))
    ensures IsAuthor(db, userId, answerId) && !Present(content) ==> r == Step(db, Rejected(400, "Content is required"))
    ensures (IsAuthor(db, userId, answerId) && Present(content) &&
      AnswerModel.SetContent(db.answers[answerId.value], content.value).None?) ==> r == Step(db, Thrown(500))
    ensures r.reply.Updated? <==>
      IsAuthor(db, userId, answerId) && Present(content) &&
      AnswerModel.SetContent(db.answers[answerId.value], content.value).Some?
    ensures r.reply.Updated? ==>
      var before := db.answers[answerId.value];
      && r.reply.code == 200
      && r.reply.answer == before.(content := Trim(content.value))
      && r.db == db.(answers := db.answers[answerId.value := r.reply.answer])
    ensures !r.reply.Updated? ==> r.db == db
    ensures Valid(db) ==> Valid(r.db)
  {
    match Locate(db, userId, answerId, "User not authenticated", 404)
    case Stop(reply) => Step(db, reply)
    case Found(answer) =>
      if userId.value != answer.authorId.value then
        Step(db, Rejected(403, "User is not authorized to edit this answer"))
      else if !Present(content) then Step(db, Rejected(400, "Content is required"))
      else match AnswerModel.SetContent(answer, content.value)
        case None => Step(db, Thrown(500))
        case Some(saved) => Step(db.(answers := db.answers[answerId.value := saved]), Updated(200, saved))
  }

  // ---------------------------------------------------------------------
  // Delete

  /** `deleteMany({answerId})` on the comment collection: exactly the
      comments that point at `aid` go, and every other comment stays as it
      was. */
  function CascadeDelete(comments: map<Id, Comment>, aid: Id): (r: map<Id, Comment>)
    ensures forall c :: c in r <==> c in comments && comments[c].answerId != Some(aid)
    ensures forall c :: c in r ==> r[c] == comments[c]
  {
    map c | c in comments && comments[c].answerId != Some(aid) :: comments[c]
  }

  /** `deleteAnswerController`: after the guards, the answer is removed,
      then the author's counter is lowered by one (without a floor), then
      the answer's comments are removed. An author missing from the user
      collection stops the request with a 500 after the answer is gone but
      before its comments are. */
  function DeleteAnswer(db: Db, userId: Option<Id>, answerId: Option<Id>): (r: Step)
    ensures !Present(userId) ==> r == Step(db, Rejected(401, "unauthorized"))
    ensures Present(userId) && !Present(answerId) ==> r == Step(db, Rejected(400, "AnswerId is required"))
    ensures Present(userId) && Present(answerId) && !IsObjectId(answerId.value) ==> r == Step(db, Thrown(500))
    ensures Present(userId) && Present(answerId) && IsObjectId(answerId.value) && answerId.value !in db.answers ==>
      r == Step(db, Rejected(404, "Answer not found"))
    ensures Authorless(db, userId, answerId) ==> r == Step(db, Thrown(500))
    ensures Reaches(db, userId, answerId) && !IsAuthor(db, userId, answerId) ==>
      r == Step(db, Rejected(403, "User is not authorized to delete this answer"))
    ensures r.reply.Deleted? <==> IsAuthor(db, userId, answerId) && FindById(db.users, userId.value).Some?
    ensures r.reply.Deleted? ==>
      && r.reply.code == 200
      && r.db.answers == db.answers - {answerId.value}
      && CountMoved(db.users, r.db.users, userId.value, -1)
      && r.db.comments == CascadeDelete(db.comments, answerId.value)
    ensures IsAuthor(db, userId, answerId) && FindById(db.users, userId.value).None? ==>
      r == Step(db.(answers := db.answers - {answerId.value}), Thrown(500))
    ensures !IsAuthor(db, userId, answerId) ==> r.db == db
    ensures Valid(db) ==> Valid(r.db)
  {
    match Locate(db, userId, answerId, "unauthorized", 404)
    case Stop(reply) => Step(db, reply)
    case Found(answer) =>
      if userId.value != answer.authorId.value then
        Step(db, Rejected(403, "User is not authorized to delete this answer"))
      else
        var removed := db.(answers := db.answers - {answerId.value});
        match FindById(db.users, userId.value)
        case None => Step(removed, Thrown(500))
        case Some(k) =>
          Step(removed.(users := Bump(db.users, k, -1), comments := CascadeDelete(db.comments, answerId.value)), Deleted(200))
  }

  // ---------------------------------------------------------------------
  // Votes

  /** The step both vote controllers share: after the guards, an author may
      not vote on their own answer (403); anyone else moves the tally by
      `delta` and gets the stored tally back. */
  function Vote(db: Db, userId: Option<Id>, answerId: Option<Id>, delta: int, missingCode: int): (r: Step)
    ensures Authorless(db, userId, answerId) ==> r == Step(db, Thrown(500))
    ensures IsAuthor(db, userId, answerId) ==> r == Step(db, Rejected(403, "User cannot vote on their own answer"))
    ensures (Reaches(db, userId, answerId) && !IsAuthor(db, userId, answerId) &&
      !AnswerModel.Valid(db.answers[answerId.value])) ==> r == Step(db, Thrown(500))
    ensures r.reply.Voted? <==>
      Reaches(db, userId, answerId) && !IsAuthor(db, userId, answerId) &&
      AnswerModel.Valid(db.answers[answerId.value])
    ensures r.reply.Voted? ==>
      var before := db.answers[answerId.value];
      && r.reply.code == 200
      && r.db == db.(answers := db.answers[answerId.value := before.(vote := before.vote + delta)])
      && r.reply.newVoteCount == r.db.answers[answerId.value].vote == before.vote + delta
    ensures !r.reply.Voted? ==> r.db == db
    ensures Valid(db) ==> Valid(r.db)
  {
    match Locate(db, userId, answerId, "unauthorized", missingCode)
    case Stop(reply) => Step(db, reply)
    case Found(answer) =>
      if userId.value == answer.authorId.value then
        Step(db, Rejected(403, "User cannot vote on their own answer"))
      else match AnswerModel.Save(answer.(vote := answer.vote + delta))
        case None => Step(db, Thrown(500))
        case Some(saved) => Step(db.(answers := db.answers[answerId.value := saved]), Voted(200, saved.vote))
  }

  /** `upVoteAnswerController`: an unknown answer is a 404; a vote by anyone
      but the author adds exactly one, with no record of who voted. */
  function UpVote(db: Db, userId: Option<Id>, answerId: Option<Id>): (r: Step)
    ensures !Present(userId) ==> r == Step(db, Rejected(401, "unauthorized"))
    ensures Present(userId) && !Present(answerId) ==> r == Step(db, Rejected(400, "AnswerId is required"))
    ensures Present(userId) && Present(answerId) && !IsObjectId(answerId.value) ==> r == Step(db, Thrown(500))
    ensures Present(userId) && Present(answerId) && IsObjectId(answerId.value) && answerId.value !in db.answers ==>
      r == Step(db, Rejected(404, "Answer not found"))
    ensures Authorless(db, userId, answerId) ==> r == Step(db, Thrown(500))
    ensures IsAuthor(db, userId, answerId) ==> r == Step(db, Rejected(403, "User cannot vote on their own answer"))
    ensures (Reaches(db, userId, answerId) && !IsAuthor(db, userId, answerId) &&
      !AnswerModel.Valid(db.answers[answerId.value])) ==> r == Step(db, Thrown(500))
    ensures r.reply.Voted? <==>
      Reaches(db, userId, answerId) && !IsAuthor(db, userId, answerId) &&
      AnswerModel.Valid(db.answers[answerId.value])
    ensures r.reply.Voted? ==>
      var before := db.answers[answerId.value];
      && r.reply.code == 200
      && r.db == db.(answers := db.answers[answerId.value := before.(vote := before.vote + 1)])
      && r.reply.newVoteCount == r.db.answers[answerId.value].vote
    ensures !r.reply.Voted? ==> r.db == db
  {
    Vote(db, userId, answerId, 1, 404)
  }

  /** `downVoteAnswerController`: like the up-vote, but an unknown answer is
      a 403, and the tally goes down by exactly one, below zero if need be. */
  function DownVote(db: Db, userId: Option<Id>, answerId: Option<Id>): (r: Step)
    ensures !Present(userId) ==> r == Step(db, Rejected(401, "unauthorized"))
    ensures Present(userId) && !Present(answerId) ==> r == Step(db, Rejected(400, "AnswerId is required"))
    ensures Present(userId) && Present(answerId) && !IsObjectId(answerId.value) ==> r == Step(db, Thrown(500))
    ensures Present(userId) && Present(answerId) && IsObjectId(answerId.value) && answerId.value !in db.answers ==>
      r == Step(db, Rejected(403, "Answer not found"))
    ensures Authorless(db, userId, answerId) ==> r == Step(db, Thrown(500))
    ensures IsAuthor(db, userId, answerId) ==> r == Step(db, Rejected(403, "User cannot vote on their own answer"))
    ensures (Reaches(db, userId, answerId) && !IsAuthor(db, userId, answerId) &&
      !AnswerModel.Valid(db.answers[answerId.value])) ==> r == Step(db, Thrown(500))
    ensures r.reply.Voted? <==>
      Reaches(db, userId, answerId) && !IsAuthor(db, userId, answerId) &&
      AnswerModel.Valid(db.answers[answerId.value])
    ensures r.reply.Voted? ==>
      var before := db.answers[answerId.value];
      && r.reply.code == 200
      && r.db == db.(answers := db.answers[answerId.value := before.(vote := before.vote - 1)])
      && r.reply.newVoteCount == r.db.answers[answerId.value].vote
    ensures !r.reply.Voted? ==> r.db == db
  {
    Vote(db, userId, answerId, -1, 403)
  }
}
