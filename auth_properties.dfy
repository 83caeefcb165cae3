/** Properties of the account controllers across several requests: what a
    sign-up lets the new user do next, how long its OTP is accepted, and
    which invariants of the collections the account requests keep. */
module AuthProperties {
  import opened Common
  import opened UserModel
  import opened Database
  import opened AuthController

  /** The OTP mailed at sign-up verifies the new account until five minutes
      after sign-up, inclusive; one millisecond later it is expired, and any
      other code is rejected while it is still live. */
  lemma SignUpThenVerify(db: Db, username: string, email: string, password: string,
                         now: int, otp: string, hash: string -> string, newId: Id, code: Option<string>, at: int)
    requires FindById(db.users, newId).None? && IsObjectId(newId)
    requires SignUp(db, Some(username), Some(email), Some(password), now, otp, true, hash, newId).reply.Success?
    ensures var s := SignUp(db, Some(username), Some(email), Some(password), now, otp, true, hash, newId);
      var v := Verify(s.db, Authenticated(Some(newId)), code, at);
      && (at > now + 300000 ==> v.reply == Rejected(400, "Otp is expired"))
      && (at <= now + 300000 && code != Some(otp) ==> v.reply == Rejected(400, "Invalid OTP"))
      && (at <= now + 300000 && code == Some(otp) ==> v.reply.Success? && v.db.users[|db.users|].isVerified)
  {
    var s := SignUp(db, Some(username), Some(email), Some(password), now, otp, true, hash, newId);
    FindByIdAppend(db.users, s.db.users[|db.users|]);
    assert Located(s.db, Authenticated(Some(newId))) == Some(Some(|db.users|));
  }

  /** Verifying is idempotent while the OTP is live: the code that verified
      the account once verifies it again, leaving the same collections and
      sending the same reply. */
  lemma {:induction false} VerifyRepeatable(db: Db, caller: Caller, otp: Option<string>, now: int, later: int, k: nat)
    requires Located(db, caller) == Some(Some(k))
    requires Verify(db, caller, otp, now).reply.Success?
    requires !OtpExpired(later, db.users[k].otpExpiary)
    ensures var first := Verify(db, caller, otp, now);
      Verify(first.db, caller, otp, later) == first
  {
    var first := Verify(db, caller, otp, now);
    FindByIdSameIds(db.users, first.db.users, caller.id.value);
  }

  /** A second sign-up with an email already taken is a conflict, whatever
      the other fields are. */
  lemma SignUpTwiceConflicts(db: Db, username: string, email: string, password: string,
                             now: int, otp: string, hash: string -> string, newId: Id,
                             username': Option<string>, password': Option<string>,
                             now': int, otp': string, mailSent': bool, newId': Id)
    requires SignUp(db, Some(username), Some(email), Some(password), now, otp, true, hash, newId).reply.Success?
    requires Present(username') && Present(password')
    ensures var s := SignUp(db, Some(username), Some(email), Some(password), now, otp, true, hash, newId);
      SignUp(s.db, username', Some(email), password', now', otp', mailSent', hash, newId').reply ==
        Rejected(409, "User already exist")
  {
    var s := SignUp(db, Some(username), Some(email), Some(password), now, otp, true, hash, newId);
    FindByEmailAppend(db.users, s.db.users[|db.users|]);
  }

  /** A new account can log in straight away with the password it signed up
      with: login does not require the account to be verified. */
  lemma SignUpThenLogin(db: Db, username: string, email: string, password: string,
                        now: int, otp: string, hash: string -> string, newId: Id,
                        matches: (string, string) -> bool)
    requires SignUp(db, Some(username), Some(email), Some(password), now, otp, true, hash, newId).reply.Success?
    requires matches(password, hash(password))
    ensures var s := SignUp(db, Some(username), Some(email), Some(password), now, otp, true, hash, newId);
      var l := Login(s.db, Some(email), Some(password), matches);
      l.Success? && !s.db.users[|db.users|].isVerified
  {
    var s := SignUp(db, Some(username), Some(email), Some(password), now, otp, true, hash, newId);
    FindByEmailAppend(db.users, s.db.users[|db.users|]);
  }

  /** Whether login succeeds does not depend on any user's verification
      flag. */
  lemma {:induction false} LoginIgnoresVerification(db: Db, k: nat, verified: bool,
                                                    email: Option<string>, password: Option<string>,
                                                    matches: (string, string) -> bool)
    requires k < |db.users|
    ensures var db' := db.(users := db.users[k := db.users[k].(isVerified := verified)]);
      Login(db', email, password, matches).Success? <==> Login(db, email, password, matches).Success?
  {
    var db' := db.(users := db.users[k := db.users[k].(isVerified := verified)]);
    if Present(email) {
      FindByEmailSameEmails(db.users, db'.users, email.value);
    }
  }

  /** Sign-up keeps the collections valid when the new id is a fresh
      ObjectId, and keeps the answer counters consistent when no answer is
      already attributed to that id. */
  lemma SignUpKeepsInvariants(db: Db, username: Option<string>, email: Option<string>, password: Option<string>,
                              now: int, otp: string, mailSent: bool, hash: string -> string, newId: Id)
    requires Valid(db) && CountersConsistent(db)
    requires FindById(db.users, newId).None?
    requires AuthoredBy(db.answers, newId) == {}
    ensures var s := SignUp(db, username, email, password, now, otp, mailSent, hash, newId);
      Valid(s.db) && CountersConsistent(s.db)
  {
    var s := SignUp(db, username, email, password, now, otp, mailSent, hash, newId);
    if s.reply.Success? {
      forall i | 0 <= i < |s.db.users|
        ensures s.db.users[i].answerGivenCount == |AuthoredBy(s.db.answers, s.db.users[i].id)|
      {
        if i == |db.users| {
          assert s.db.users[i].answerGivenCount == 0;
        } else {
          assert s.db.users[i] == db.users[i];
        }
      }
    }
  }

  /** Verification changes only a flag, so the answer counters stay
      consistent. */
  lemma VerifyKeepsCounters(db: Db, caller: Caller, otp: Option<string>, now: int)
    requires CountersConsistent(db)
    ensures CountersConsistent(Verify(db, caller, otp, now).db)
  {
    var s := Verify(db, caller, otp, now);
    if s.reply.Success? {
      var k := Located(db, caller).value.value;
      forall i | 0 <= i < |s.db.users|
        ensures s.db.users[i].answerGivenCount == |AuthoredBy(s.db.answers, s.db.users[i].id)|
      {
        assert s.db.users[i].id == db.users[i].id;
      }
    }
  }
}
