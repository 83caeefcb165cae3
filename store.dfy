/** The collections as the controllers see them: one object whose tables
    each request updates in place, guard by guard, as the handlers do. Each
    method's reply and new state are the ones the controller functions in
    AnswerController and AuthController specify, so every property proved
    about those functions holds of the store. */
module Store {
  import opened Common
  import opened UserModel
  import opened Database
  import AnswerModel
  import CommentModel
  import AC = AnswerController
  import Auth = AuthController

  class Store {
    var users: seq<User>
    var answers: map<Id, AnswerModel.Answer>
    var comments: map<Id, CommentModel.Comment>

    /** The tables as one value. */
    function State(): Db
      reads this
    {
      Db(users, answers, comments)
    }

    /** An empty store, which is valid and has consistent counters. */
    constructor ()
      ensures State() == Db([], map[], map[])
      ensures Valid(State()) && CountersConsistent(State())
    {
      users := [];
      answers := map[];
      comments := map[];
    }

    /** `user.answerGivenCount += delta; user.save()` on users[k]. */
    method BumpCount(k: nat, delta: int)
      requires k < |users|
      modifies this
      ensures users == AC.Bump(old(users), k, delta)
      ensures answers == old(answers) && comments == old(comments)
    {
      var user := users[k];
      users := users[k := user.(answerGivenCount := user.answerGivenCount + delta)];
    }

    /** `addAnswerController`, step by step. */
    method AddAnswer(questionId: Option<Id>, userId: Option<Id>, content: Option<string>, newId: Id)
      returns (reply: AC.Reply)
      requires newId !in answers
      modifies this
      ensures AC.Step(State(), reply) == AC.AddAnswer(old(State()), questionId, userId, content, newId)
    {
      if !Present(questionId) { return AC.Rejected(400, "Question not found"); }
      if !Present(userId) { return AC.Rejected(401, "User not authenticated"); }
      if !Present(content) { return AC.Rejected(400, "Content is required"); }
      var created := AnswerModel.Create(questionId, userId, content.value);
      if created.None? { return AC.Thrown(500); }
      answers := answers[newId := created.value];
      var k := FindById(users, userId.value);
      if k.None? { return AC.Thrown(500); }
      BumpCount(k.value, 1);
      reply := AC.Created(201, newId, created.value);
    }

    /** `editAnswerController`, step by step. */
    method EditAnswer(userId: Option<Id>, answerId: Option<Id>, content: Option<string>)
      returns (reply: AC.Reply)
      modifies this
      ensures AC.Step(State(), reply) == AC.EditAnswer(old(State()), userId, answerId, content)
    {
      if !Present(userId) { return AC.Rejected(401, "User not authenticated"); }
      if !Present(answerId) { return AC.Rejected(400, "AnswerId is required"); }
      if !IsObjectId(answerId.value) { return AC.Thrown(500); }
      if answerId.value !in answers { return AC.Rejected(404, "Answer not found"); }
      var answer := answers[answerId.value];
      if answer.authorId.None? { return AC.Thrown(500); }
      if userId.value != answer.authorId.value {
        return AC.Rejected(403, "User is not authorized to edit this answer");
      }
      if !Present(content) { return AC.Rejected(400, "Content is required"); }
      var saved := AnswerModel.SetContent(answer, content.value);
      if saved.None? { return AC.Thrown(500); }
      answers := answers[answerId.value := saved.value];
      reply := AC.Updated(200, saved.value);
    }

    /** `deleteAnswerController`, step by step: the answer goes first, then
        its author's count, then its comments. */
    method DeleteAnswer(userId: Option<Id>, answerId: Option<Id>)
      returns (reply: AC.Reply)
      modifies this
      ensures AC.Step(State(), reply) == AC.DeleteAnswer(old(State()), userId, answerId)
    {
      if !Present(userId) { return AC.Rejected(401, "unauthorized"); }
      if !Present(answerId) { return AC.Rejected(400, "AnswerId is required"); }
      if !IsObjectId(answerId.value) { return AC.Thrown(500); }
      if answerId.value !in answers { return AC.Rejected(404, "Answer not found"); }
      var answer := answers[answerId.value];
      if answer.authorId.None? { return AC.Thrown(500); }
      if userId.value != answer.authorId.value {
        return AC.Rejected(403, "User is not authorized to delete this answer");
      }
      answers := answers - {answerId.value};
      var k := FindById(users, userId.value);
      if k.None? { return AC.Thrown(500); }
      BumpCount(k.value, -1);
      comments := AC.CascadeDelete(comments, answerId.value);
      reply := AC.Deleted(200);
    }

    /** `upVoteAnswerController`, step by step. */
    method UpVote(userId: Option<Id>, answerId: Option<Id>)
      returns (reply: AC.Reply)
      modifies this
      ensures AC.Step(State(), reply) == AC.UpVote(old(State()), userId, answerId)
    {
      if !Present(userId) { return AC.Rejected(401, "unauthorized"); }
      if !Present(answerId) { return AC.Rejected(400, "AnswerId is required"); }
      if !IsObjectId(answerId.value) { return AC.Thrown(500); }
      if answerId.value !in answers { return AC.Rejected(404, "Answer not found"); }
      var answer := answers[answerId.value];
      if answer.authorId.None? { return AC.Thrown(500); }
      if userId.value == answer.authorId.value {
        return AC.Rejected(403, "User cannot vote on their own answer");
      }
      var saved := AnswerModel.Save(answer.(vote := answer.vote + 1));
      if saved.None? { return AC.Thrown(500); }
      answers := answers[answerId.value := saved.value];
      reply := AC.Voted(200, saved.value.vote);
    }

    /** `downVoteAnswerController`, step by step; an unknown answer is a 403
        here. */
    method DownVote(userId: Option<Id>, answerId: Option<Id>)
      returns (reply: AC.Reply)
      modifies this
      ensures AC.Step(State(), reply) == AC.DownVote(old(State()), userId, answerId)
    {
      if !Present(userId) { return AC.Rejected(401, "unauthorized"); }
      if !Present(answerId) { return AC.Rejected(400, "AnswerId is required"); }
      if !IsObjectId(answerId.value) { return AC.Thrown(500); }
      if answerId.value !in answers { return AC.Rejected(403, "Answer not found"); }
      var answer := answers[answerId.value];
      if answer.authorId.None? { return AC.Thrown(500); }
      if userId.value == answer.authorId.value {
        return AC.Rejected(403, "User cannot vote on their own answer");
      }
      var saved := AnswerModel.Save(answer.(vote := answer.vote - 1));
      if saved.None? { return AC.Thrown(500); }
      answers := answers[answerId.value := saved.value];
      reply := AC.Voted(200, saved.value.vote);
    }

    /** `signUpController`, step by step. */
    method SignUp(username: Option<string>, email: Option<string>, password: Option<string>,
                  now: int, otp: string, mailSent: bool, hash: string -> string, newId: Id)
      returns (reply: Auth.Reply)
      modifies this
      ensures Auth.Step(State(), reply) ==
        Auth.SignUp(old(State()), username, email, password, now, otp, mailSent, hash, newId)
    {
      if !Present(username) || !Present(email) || !Present(password) {
        return Auth.Rejected(400, "All fields are required");
      }
      var existing := FindByEmail(users, email.value);
      if existing.Some? { return Auth.Rejected(409, "User already exist"); }
      if !mailSent { return Auth.Thrown(500); }
      var user := Auth.NewUser(newId, username.value, email.value, hash(password.value), otp, now);
      users := users + [user];
      reply := Auth.Success(201, WithoutSecrets(Load(user, true)));
    }

    /** `verifyController`, step by step. */
    method Verify(caller: Caller, otp: Option<string>, now: int)
      returns (reply: Auth.Reply)
      modifies this
      ensures Auth.Step(State(), reply) == Auth.Verify(old(State()), caller, otp, now)
    {
      if caller.Anonymous? { return Auth.Thrown(500); }
      var id := caller.id;
      if id.Some? && !IsObjectId(id.value) { return Auth.Thrown(500); }
      if id.None? { return Auth.Rejected(401, "Unauthorized"); }
      var k := FindById(users, id.value);
      if k.None? { return Auth.Rejected(401, "Unauthorized"); }
      var user := users[k.value];
      if Auth.OtpExpired(now, user.otpExpiary) { return Auth.Rejected(400, "Otp is expired"); }
      if otp != user.otp { return Auth.Rejected(400, "Invalid OTP"); }
      user := user.(isVerified := true);
      users := users[k.value := user];
      reply := Auth.Success(200, WithoutOtp(Load(user, false)));
    }
  }
}
