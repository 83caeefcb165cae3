/** Properties of the answer workflow that relate several requests or hold
    across all of them: the answer counter stays in step with the answers
    table, votes are not tracked per voter, an up-vote and a down-vote
    cancel, and the comment cascade is idempotent. */
module AnswerProperties {
  import opened Common
  import opened Text
  import AnswerModel
  import opened UserModel
  import opened Database
  import opened AnswerController

  // ---------------------------------------------------------------------
  // Facts about the tables

  /** Inserting an answer under a fresh id adds it to its author's set and to
      no other. */
  lemma AuthoredByInsert(answers: map<Id, Answer>, newId: Id, a: Answer, uid: Id)
    requires newId !in answers
    ensures a.authorId == Some(uid) ==> |AuthoredBy(answers[newId := a], uid)| == |AuthoredBy(answers, uid)| + 1
    ensures a.authorId != Some(uid) ==> AuthoredBy(answers[newId := a], uid) == AuthoredBy(answers, uid)
  {
    if a.authorId == Some(uid) {
      assert AuthoredBy(answers[newId := a], uid) == AuthoredBy(answers, uid) + {newId};
    } else {
      assert AuthoredBy(answers[newId := a], uid) == AuthoredBy(answers, uid);
    }
  }

  /** Removing an answer takes it out of its author's set and of no other. */
  lemma AuthoredByRemove(answers: map<Id, Answer>, aid: Id, uid: Id)
    requires aid in answers
    ensures answers[aid].authorId == Some(uid) ==> |AuthoredBy(answers - {aid}, uid)| == |AuthoredBy(answers, uid)| - 1
    ensures answers[aid].authorId != Some(uid) ==> AuthoredBy(answers - {aid}, uid) == AuthoredBy(answers, uid)
  {
    if answers[aid].authorId == Some(uid) {
      assert AuthoredBy(answers - {aid}, uid) == AuthoredBy(answers, uid) - {aid};
    } else {
      assert AuthoredBy(answers - {aid}, uid) == AuthoredBy(answers, uid);
    }
  }

  /** Replacing an answer by one with the same author changes no author's
      set. */
  lemma AuthoredByReplace(answers: map<Id, Answer>, aid: Id, a: Answer, uid: Id)
    requires aid in answers && a.authorId == answers[aid].authorId
    ensures AuthoredBy(answers[aid := a], uid) == AuthoredBy(answers, uid)
  {
    assert AuthoredBy(answers[aid := a], uid) == AuthoredBy(answers, uid);
  }

  /** Moving the counter of the user with id `uid` by `delta` while the
      answers authored by `uid` change in number by `delta` (and nobody
      else's change) keeps the counters consistent. */
  lemma CountMovedKeepsCounters(db: Db, db': Db, uid: Id, delta: int)
    requires UniqueIds(db.users) && CountersConsistent(db)
    requires CountMoved(db.users, db'.users, uid, delta)
    requires |AuthoredBy(db'.answers, uid)| == |AuthoredBy(db.answers, uid)| + delta
    requires forall v :: v != uid ==> AuthoredBy(db'.answers, v) == AuthoredBy(db.answers, v)
    ensures CountersConsistent(db')
  {
    var k := FindById(db.users, uid).value;
    forall i | 0 <= i < |db'.users|
      ensures db'.users[i].answerGivenCount == |AuthoredBy(db'.answers, db'.users[i].id)|
    {
      if i != k {
        assert db.users[i].id != uid by {
          if i < k { assert db.users[i].id != db.users[k].id; }
          else { assert db.users[k].id != db.users[i].id; }
        }
      }
    }
  }

  /** When no user has id `uid` and only answers by `uid` change, the
      counters stay consistent. */
  lemma UnknownAuthorKeepsCounters(db: Db, answers': map<Id, Answer>, uid: Id)
    requires CountersConsistent(db)
    requires FindById(db.users, uid).None?
    requires forall v :: v != uid ==> AuthoredBy(answers', v) == AuthoredBy(db.answers, v)
    ensures CountersConsistent(db.(answers := answers'))
  {
    forall i | 0 <= i < |db.users|
      ensures db.users[i].answerGivenCount == |AuthoredBy(answers', db.users[i].id)|
    {
      assert db.users[i].id != uid;
    }
  }

  // ---------------------------------------------------------------------
  // The denormalised counter

  /** Adding an answer keeps every user's `answerGivenCount` equal to the
      number of answers they authored, including when the author's record
      is missing and the request ends in a 500 after the insert. */
  lemma AddAnswerKeepsCounters(db: Db, questionId: Option<Id>, userId: Option<Id>, content: Option<string>, newId: Id)
    requires newId !in db.answers
    requires UniqueIds(db.users) && CountersConsistent(db)
    ensures CountersConsistent(AddAnswer(db, questionId, userId, content, newId).db)
  {
    var r := AddAnswer(db, questionId, userId, content, newId);
    if Present(questionId) && Present(userId) && Present(content) {
      var created := AnswerModel.Create(questionId, userId, content.value);
      if created.Some? {
        var uid := userId.value;
        forall v | v != uid ensures AuthoredBy(r.db.answers, v) == AuthoredBy(db.answers, v) {
          AuthoredByInsert(db.answers, newId, created.value, v);
        }
        AuthoredByInsert(db.answers, newId, created.value, uid);
        if FindById(db.users, uid).Some? {
          CountMovedKeepsCounters(db, r.db, uid, 1);
        } else {
          UnknownAuthorKeepsCounters(db, r.db.answers, uid);
        }
      }
    }
  }

  /** Deleting an answer keeps the counters consistent: the author's counter
      goes down by one exactly when one of their answers goes. */
  lemma DeleteAnswerKeepsCounters(db: Db, userId: Option<Id>, answerId: Option<Id>)
    requires UniqueIds(db.users) && CountersConsistent(db)
    ensures CountersConsistent(DeleteAnswer(db, userId, answerId).db)
  {
    var r := DeleteAnswer(db, userId, answerId);
    if IsAuthor(db, userId, answerId) {
      var uid, aid := userId.value, answerId.value;
      forall v | v != uid ensures AuthoredBy(r.db.answers, v) == AuthoredBy(db.answers, v) {
        AuthoredByRemove(db.answers, aid, v);
      }
      AuthoredByRemove(db.answers, aid, uid);
      if FindById(db.users, uid).Some? {
        CountMovedKeepsCounters(db, r.db, uid, -1);
      } else {
        UnknownAuthorKeepsCounters(db, r.db.answers, uid);
      }
    }
  }

  /** Editing never touches the counters or the authors of answers. */
  lemma EditAnswerKeepsCounters(db: Db, userId: Option<Id>, answerId: Option<Id>, content: Option<string>)
    requires CountersConsistent(db)
    ensures CountersConsistent(EditAnswer(db, userId, answerId, content).db)
  {
    var r := EditAnswer(db, userId, answerId, content);
    if r.reply.Updated? {
      forall v ensures AuthoredBy(r.db.answers, v) == AuthoredBy(db.answers, v) {
        AuthoredByReplace(db.answers, answerId.value, r.reply.answer, v);
      }
    }
  }

  /** Voting either way never touches the counters or the authors of
      answers. */
  lemma VoteKeepsCounters(db: Db, userId: Option<Id>, answerId: Option<Id>, delta: int, missingCode: int)
    requires CountersConsistent(db)
    ensures CountersConsistent(Vote(db, userId, answerId, delta, missingCode).db)
  {
    var r := Vote(db, userId, answerId, delta, missingCode);
    if r.reply.Voted? {
      var aid := answerId.value;
      forall v ensures AuthoredBy(r.db.answers, v) == AuthoredBy(db.answers, v) {
        AuthoredByReplace(db.answers, aid, r.db.answers[aid], v);
      }
    }
  }

  // ---------------------------------------------------------------------
  // Votes

  /** The collections after the same caller up-votes the same answer n
      times in a row. */
  function UpVoteTimes(db: Db, userId: Option<Id>, answerId: Option<Id>, n: nat): Db
    decreases n
  {
    if n == 0 then db else UpVoteTimes(UpVote(db, userId, answerId).db, userId, answerId, n - 1)
  }

  /** No vote is recorded per voter: n up-votes by the same caller (who is
      not the author) raise the tally by exactly n and change nothing
      else. */
  lemma {:induction false} RepeatedUpVotesAccumulate(db: Db, userId: Option<Id>, answerId: Option<Id>, n: nat)
    requires Reaches(db, userId, answerId) && !IsAuthor(db, userId, answerId)
    requires AnswerModel.Valid(db.answers[answerId.value])
    ensures var before := db.answers[answerId.value];
      UpVoteTimes(db, userId, answerId, n) == db.(answers := db.answers[answerId.value := before.(vote := before.vote + n)])
    decreases n
  {
    if n > 0 {
      var aid := answerId.value;
      var before := db.answers[aid];
      var db1 := UpVote(db, userId, answerId).db;
      RepeatedUpVotesAccumulate(db1, userId, answerId, n - 1);
      assert db1.answers[aid := before.(vote := before.vote + 1 + (n - 1))] ==
             db.answers[aid := before.(vote := before.vote + n)];
    }
  }

  /** An up-vote followed by a down-vote on the same answer, by any callers
      who are not its author (the same one or two different ones), restores
      the collections, and the down-vote reports the original tally. */
  lemma UpVoteThenDownVoteRestores(db: Db, voter: Option<Id>, otherVoter: Option<Id>, answerId: Option<Id>)
    requires UpVote(db, voter, answerId).reply.Voted?
    requires Present(otherVoter) && !IsAuthor(db, otherVoter, answerId)
    ensures DownVote(UpVote(db, voter, answerId).db, otherVoter, answerId) ==
      Step(db, Voted(200, db.answers[answerId.value].vote))
  {
    var aid := answerId.value;
    var up := UpVote(db, voter, answerId);
    assert up.db.answers[aid := db.answers[aid]] == db.answers;
  }

  // ---------------------------------------------------------------------
  // The comment cascade

  /** Running the cascade twice removes nothing more the second time. */
  lemma CascadeDeleteIdempotent(comments: map<Id, Comment>, aid: Id)
    ensures CascadeDelete(CascadeDelete(comments, aid), aid) == CascadeDelete(comments, aid)
  {
    assert CascadeDelete(CascadeDelete(comments, aid), aid) == CascadeDelete(comments, aid);
  }

  /** The cascade on an answer without comments changes nothing. */
  lemma CascadeDeleteWithoutCommentsIsNoop(comments: map<Id, Comment>, aid: Id)
    requires forall c :: c in comments ==> comments[c].answerId != Some(aid)
    ensures CascadeDelete(comments, aid) == comments
  {
    assert CascadeDelete(comments, aid) == comments;
  }

  // ---------------------------------------------------------------------
  // A whole session

  /** Two up-votes in a row by a caller who is not the author both count. */
  lemma TwoUpVotesCount(db: Db, voter: Id, aid: Id)
    requires Valid(db)
    requires voter != "" && IsObjectId(aid) && aid in db.answers
    requires db.answers[aid].authorId.Some? && db.answers[aid].authorId.value != voter
    ensures var s2 := UpVote(db, Some(voter), Some(aid));
      && s2.reply == Voted(200, db.answers[aid].vote + 1)
      && var s3 := UpVote(s2.db, Some(voter), Some(aid));
         && s3.reply == Voted(200, db.answers[aid].vote + 2)
         && s3.db == db.(answers := db.answers[aid := db.answers[aid].(vote := db.answers[aid].vote + 2)])
  {
    var s2 := UpVote(db, Some(voter), Some(aid));
    assert Valid(s2.db);
  }

  /** Answering with "hello" stores exactly that text with no votes. */
  lemma AnswerHello(db: Db, q: Id, a: Id, newId: Id)
    requires Valid(db)
    requires IsObjectId(q) && IsObjectId(newId) && newId !in db.answers
    requires IsObjectId(a) && FindById(db.users, a).Some?
    ensures var s1 := AddAnswer(db, Some(q), Some(a), Some("hello"), newId);
      && s1.reply == Created(201, newId, AnswerModel.Answer(Some(q), Some(a), "hello", 0))
      && Valid(s1.db)
      && s1.db.comments == db.comments
      && s1.db.users == Bump(db.users, FindById(db.users, a).value, 1)
  {
    assert Trim("hello") == "hello";
  }

  /** A caller who is not the author may not delete the answer; the author
      may, and its comments go with it. */
  lemma DeleteByOtherThenByAuthor(db: Db, a: Id, b: Id, aid: Id)
    requires IsObjectId(aid) && aid in db.answers && db.answers[aid].authorId == Some(a)
    requires a != "" && b != "" && a != b
    requires FindById(db.users, a).Some?
    ensures var s4 := DeleteAnswer(db, Some(b), Some(aid));
      && s4 == Step(db, Rejected(403, "User is not authorized to delete this answer"))
      && var s5 := DeleteAnswer(s4.db, Some(a), Some(aid));
         && s5.reply == Deleted(200)
         && aid !in s5.db.answers
         && (forall c :: c in s5.db.comments ==> s5.db.comments[c].answerId != Some(aid))
         && s5.db.users == Bump(db.users, FindById(db.users, a).value, -1)
  {
  }

  /** User A answers question q with "hello"; user B up-votes it twice (both
      count); B may not delete it (403, nothing changes); A deletes it, and
      then no comment of it is left and A's counter is back where it was. */
  lemma Session(db: Db, q: Id, a: Id, b: Id, newId: Id)
    requires Valid(db)
    requires IsObjectId(q) && IsObjectId(newId) && newId !in db.answers
    requires IsObjectId(a) && b != "" && a != b
    requires FindById(db.users, a).Some?
    ensures
      var s1 := AddAnswer(db, Some(q), Some(a), Some("hello"), newId);
      && s1.reply.Created? && s1.reply.answer.vote == 0 && s1.reply.answer.authorId == Some(a)
      && var s2 := UpVote(s1.db, Some(b), Some(newId));
         && s2.reply == Voted(200, 1)
         && var s3 := UpVote(s2.db, Some(b), Some(newId));
            && s3.reply == Voted(200, 2)
            && var s4 := DeleteAnswer(s3.db, Some(b), Some(newId));
               && s4 == Step(s3.db, Rejected(403, "User is not authorized to delete this answer"))
               && var s5 := DeleteAnswer(s4.db, Some(a), Some(newId));
                  && s5.reply == Deleted(200)
                  && newId !in s5.db.answers
                  && (forall c :: c in s5.db.comments ==> s5.db.comments[c].answerId != Some(newId))
                  && s5.db.users == db.users
  {
    var k := FindById(db.users, a).value;
    AnswerHello(db, q, a, newId);
    var s1 := AddAnswer(db, Some(q), Some(a), Some("hello"), newId);
    TwoUpVotesCount(s1.db, b, newId);
    var s3 := UpVote(UpVote(s1.db, Some(b), Some(newId)).db, Some(b), Some(newId));
    FindByIdSameIds(db.users, s3.db.users, a);
    DeleteByOtherThenByAuthor(s3.db, a, b, newId);
    assert Bump(s3.db.users, k, -1) == db.users;
  }

  /** White-space content passes the edit handler's own check (it is a
      non-empty string) but the schema rejects it once trimmed: the author
      gets a 500 and the answer keeps its old content. */
  lemma WhitespaceEditThrows(db: Db, userId: Option<Id>, answerId: Option<Id>, content: string)
    requires IsAuthor(db, userId, answerId)
    requires content != "" && AllSpace(content)
    ensures EditAnswer(db, userId, answerId, Some(content)) == Step(db, Thrown(500))
  {
    AnswerModel.WhitespaceContentRejected(None, None, content);
  }

  /** Content over the length limit after trimming gets past the add
      handler's checks and fails in the schema: a 500, no answer stored and
      no counter moved. */
  lemma OverlongAddThrows(db: Db, questionId: Id, userId: Id, content: string, newId: Id)
    requires newId !in db.answers
    requires questionId != "" && userId != ""
    requires Utf16Length(Trim(content)) > AnswerModel.MaxContentLength
    ensures AddAnswer(db, Some(questionId), Some(userId), Some(content), newId) == Step(db, Thrown(500))
  {
    AnswerModel.TooLongRejected(Some(questionId), Some(userId), content);
  }
}
