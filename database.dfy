/** The three collections the controllers read and write, taken together,
    and the invariants the model keeps over them. */
module Database {
  import opened Common
  import AnswerModel
  import CommentModel
  import opened UserModel

  /** Users in insertion order (so that `findOne` has a first match),
      answers and comments by id. */
  datatype Db = Db(
    users: seq<User>,
    answers: map<Id, AnswerModel.Answer>,
    comments: map<Id, CommentModel.Comment>)

  predicate UniqueIds(users: seq<User>)
  {
    forall i, j :: 0 <= i < j < |users| ==> users[i].id != users[j].id
  }

  predicate UniqueEmails(users: seq<User>)
  {
    forall i, j :: 0 <= i < j < |users| ==> users[i].email != users[j].email
  }

  /** What every stored record satisfies: ids and emails are unique among
      users, and every answer and comment is keyed by an ObjectId and passes
      its schema. */
  predicate Valid(db: Db)
  {
    && UniqueIds(db.users)
    && UniqueEmails(db.users)
    && (forall id :: id in db.answers ==> IsObjectId(id) && AnswerModel.Valid(db.answers[id]))
    && (forall id :: id in db.comments ==> IsObjectId(id) && CommentModel.Valid(db.comments[id]))
  }

  /** The ids of the answers whose author is `uid`. */
  function AuthoredBy(answers: map<Id, AnswerModel.Answer>, uid: Id): (s: set<Id>)
    ensures forall id :: id in s <==> id in answers && answers[id].authorId == Some(uid)
  {
    set id | id in answers && answers[id].authorId == Some(uid)
  }

  /** The denormalised counter agrees with the answers table: every user's
      `answerGivenCount` is the number of answers they authored. */
  predicate CountersConsistent(db: Db)
  {
    forall i :: 0 <= i < |db.users| ==>
      db.users[i].answerGivenCount == |AuthoredBy(db.answers, db.users[i].id)|
  }

  /** With consistent counters no user's count is negative, even though the
      decrement is not clamped. */
  lemma ConsistentCountersNonNegative(db: Db)
    requires CountersConsistent(db)
    ensures forall i :: 0 <= i < |db.users| ==> db.users[i].answerGivenCount >= 0
  {
  }
}
