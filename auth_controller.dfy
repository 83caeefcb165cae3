/** The account controllers: sign-up, login, profile and OTP verification.
    Password hashing and comparison are passed in as functions, the
    generated OTP and the current time as values, and the OTP e-mail as
    whether sending it succeeded. Token issuing is not modelled. */
module AuthController {
  import opened Common
  import opened UserModel
  import opened Database

  /** How long a sign-up OTP stays valid: five minutes, in milliseconds. */
  const OtpLifetimeMs: int := 5 * 60 * 1000

  /** A reply: a guard's early return, an error thrown and caught by the
      handler (500, or 400 in the profile handler) with the error's message
      (not modelled), or a success status with the user document sent. */
  datatype Reply =
    | Rejected(code: int, message: string)
    | Thrown(code: int)
    | Success(code: int, user: UserView)

  /** The collections after a request, and the reply it got. */
  datatype Step = Step(db: Db, reply: Reply)

  /** The record `signUpController` creates. The user schema's defaults are
      not part of this model: a new user is taken to be unverified with no
      answers. */
  function NewUser(id: Id, username: string, email: string, passwordHash: string, otp: string, now: int): (u: User)
    ensures u.otpExpiary == Some(now + 300000)
    ensures u.otp == Some(otp) && u.password == passwordHash
    ensures !u.isVerified && u.answerGivenCount == 0
  {
    User(id, username, email, passwordHash, false, Some(otp), Some(now + OtpLifetimeMs), 0)
  }

  // ---------------------------------------------------------------------
  // Sign-up

  /** `signUpController`: all three fields are required (400); an email
      already stored is a conflict (409); a failure to send the OTP mail is a
      500 before anything is stored; otherwise the user is appended with the
      hashed password and an OTP that expires five minutes from now, and the
      reply leaves out the password, the OTP and its expiry. */
  function SignUp(db: Db, username: Option<string>, email: Option<string>, password: Option<string>,
                  now: int, otp: string, mailSent: bool, hash: string -> string, newId: Id): (r: Step)
    ensures !(Present(username) && Present(email) && Present(password)) ==>
      r == Step(db, Rejected(400, "All fields are required"))
    ensures Present(username) && Present(email) && Present(password) && FindByEmail(db.users, email.value).Some? ==>
      r == Step(db, Rejected(409, "User already exist"))
    ensures (Present(username) && Present(email) && Present(password) && FindByEmail(db.users, email.value).None? &&
      !mailSent) ==> r == Step(db, Thrown(500))
    ensures r.reply.Success? <==>
      Present(username) && Present(email) && Present(password) && FindByEmail(db.users, email.value).None? && mailSent
    ensures r.reply.Success? ==>
      && |r.db.users| == |db.users| + 1
      && var u := r.db.users[|db.users|];
      && r.db == db.(users := db.users + [u])
      && u.id == newId && u.username == username.value && u.email == email.value
      && u.password == hash(password.value)
      && u.otp == Some(otp) && u.otpExpiary == Some(now + 300000) && !u.isVerified
      && u.answerGivenCount == 0
      && r.reply.code == 201
      && r.reply.user == WithoutSecrets(Load(u, true))
    ensures !r.reply.Success? ==> r.db == db
    ensures UniqueEmails(db.users) ==> UniqueEmails(r.db.users)
    ensures UniqueIds(db.users) && FindById(db.users, newId).None? ==> UniqueIds(r.db.users)
  {
    if !Present(username) || !Present(email) || !Present(password) then
      Step(db, Rejected(400, "All fields are required"))
    else if FindByEmail(db.users, email.value).Some? then
      Step(db, Rejected(409, "User already exist"))
    else if !mailSent then
      Step(db, Thrown(500))
    else
      var u := NewUser(newId, username.value, email.value, hash(password.value), otp, now);
      Step(db.(users := db.users + [u]), Success(201, WithoutSecrets(Load(u, true))))
  }

  // ---------------------------------------------------------------------
  // Login

  /** `loginController`: both fields are required (400); an unknown email
      and a wrong password get the same 401, so the reply does not tell
      which was wrong; on success the reply leaves out the password, the OTP
      and its expiry. Whether the account is verified is not consulted. */
  function Login(db: Db, email: Option<string>, password: Option<string>, matches: (string, string) -> bool): (r: Reply)
    ensures !(Present(email) && Present(password)) ==> r == Rejected(400, "All fields are required")
    ensures Present(email) && Present(password) && FindByEmail(db.users, email.value).None? ==>
      r == Rejected(401, "Invalid email or password")
    ensures (Present(email) && Present(password) && FindByEmail(db.users, email.value).Some? &&
      !matches(password.value, db.users[FindByEmail(db.users, email.value).value].password)) ==>
      r == Rejected(401, "Invalid email or password")
    ensures r.Rejected? && r.code == 401 ==> r.message == "Invalid email or password"
    ensures r.Success? <==>
      Present(email) && Present(password) && FindByEmail(db.users, email.value).Some? &&
      matches(password.value, db.users[FindByEmail(db.users, email.value).value].password)
    ensures r.Success? ==>
      && r.code == 200
      && r.user == WithoutSecrets(Load(db.users[FindByEmail(db.users, email.value).value], true))
    ensures r.Rejected? || r.Success?
  {
    if !Present(email) || !Present(password) then Rejected(400, "All fields are required")
    else match FindByEmail(db.users, email.value)
      case None => Rejected(401, "Invalid email or password")
      case Some(k) =>
        if !matches(password.value, db.users[k].password) then Rejected(401, "Invalid email or password")
        else Success(200, WithoutSecrets(Load(db.users[k], true)))
  }

  // ---------------------------------------------------------------------
  // Profile

  /** `profileController`: no user object at all makes the destructuring
      throw, and this handler's catch answers 400; a missing id is a 401; an
      id that cannot be cast, or that finds no user, also ends in the 400 of
      the catch. The document is loaded without the password (the schema
      does not select it unless asked) and the OTP fields are deleted. */
  function Profile(db: Db, caller: Caller): (r: Reply)
    ensures caller.Anonymous? ==> r == Thrown(400)
    ensures caller.Authenticated? && !Present(caller.id) ==> r == Rejected(401, "Unauthorized")
    ensures caller.Authenticated? && Present(caller.id) && !IsObjectId(caller.id.value) ==> r == Thrown(400)
    ensures (caller.Authenticated? && Present(caller.id) && IsObjectId(caller.id.value) &&
      FindById(db.users, caller.id.value).None?) ==> r == Thrown(400)
    ensures r.Success? <==>
      caller.Authenticated? && Present(caller.id) && IsObjectId(caller.id.value) &&
      FindById(db.users, caller.id.value).Some?
    ensures r.Success? ==>
      && r.code == 200
      && r.user == WithoutOtp(Load(db.users[FindById(db.users, caller.id.value).value], false))
    ensures !r.Success? && !r.Rejected? ==> r == Thrown(400)
  {
    match caller
    case Anonymous => Thrown(400)
    case Authenticated(id) =>
      if !Present(id) then Rejected(401, "Unauthorized")
      else if !IsObjectId(id.value) then Thrown(400)
      else match FindById(db.users, id.value)
        case None => Thrown(400)
        case Some(k) => Success(200, WithoutOtp(Load(db.users[k], false)))
  }

  // ---------------------------------------------------------------------
  // Verification

  /** `Date.now() > user.otpExpiary`: strictly after the expiry instant. A
      user without an expiry never expires, since comparing with an
      undefined value is false. */
  predicate OtpExpired(now: int, expiry: Option<int>)
  {
    expiry.Some? && now > expiry.value
  }

  /** The lookup of an authenticated caller with a castable id: Some(None)
      when no user has the id, Some(Some(k)) when users[k] is the caller;
      None when there is no castable id to look up. */
  function Located(db: Db, caller: Caller): (r: Option<Option<nat>>)
    ensures r.Some? <==> caller.Authenticated? && caller.id.Some? && IsObjectId(caller.id.value)
    ensures r.Some? && r.value.Some? ==> r.value.value < |db.users| && db.users[r.value.value].id == caller.id.value
    ensures r.Some? && r.value.None? ==> forall j :: 0 <= j < |db.users| ==> db.users[j].id != caller.id.value
  {
    if caller.Authenticated? && caller.id.Some? && IsObjectId(caller.id.value)
    then Some(FindById(db.users, caller.id.value))
    else None
  }

  /** `verifyController`: without a user object reading its id throws (500);
      an id that cannot be cast throws (500); a missing user gets 401 (the
      handler then falls through and fails again, but the 401 is what is
      sent and nothing is written). The expiry is checked before the code,
      and the code must equal the stored one exactly; on success the user
      becomes verified, and the OTP is kept, so it can be used again until it
      expires. */
  function Verify(db: Db, caller: Caller, otp: Option<string>, now: int): (r: Step)
    ensures caller.Anonymous? ==> r == Step(db, Thrown(500))
    ensures caller.Authenticated? && caller.id.Some? && !IsObjectId(caller.id.value) ==> r == Step(db, Thrown(500))
    ensures caller.Authenticated? && caller.id.None? ==> r == Step(db, Rejected(401, "Unauthorized"))
    ensures Located(db, caller) == Some(None) ==> r == Step(db, Rejected(401, "Unauthorized"))
    ensures Located(db, caller).Some? && Located(db, caller).value.Some? ==>
      var k := Located(db, caller).value.value;
      && (OtpExpired(now, db.users[k].otpExpiary) ==> r == Step(db, Rejected(400, "Otp is expired")))
      && (!OtpExpired(now, db.users[k].otpExpiary) && otp != db.users[k].otp ==> r == Step(db, Rejected(400, "Invalid OTP")))
      && (r.reply.Success? <==> !OtpExpired(now, db.users[k].otpExpiary) && otp == db.users[k].otp)
      && (r.reply.Success? ==>
            && r.db == db.(users := db.users[k := db.users[k].(isVerified := true)])
            && r.reply.code == 200
            && r.reply.user == WithoutOtp(Load(db.users[k].(isVerified := true), false)))
    ensures !r.reply.Success? ==> r.db == db
    ensures Valid(db) ==> Valid(r.db)
  {
    match caller
    case Anonymous => Step(db, Thrown(500))
    case Authenticated(id) =>
      if id.Some? && !IsObjectId(id.value) then Step(db, Thrown(500))
      else
        var found := if id.None? then None else FindById(db.users, id.value);
        match found
        case None => Step(db, Rejected(401, "Unauthorized"))
        case Some(k) =>
          var user := db.users[k];
          if OtpExpired(now, user.otpExpiary) then Step(db, Rejected(400, "Otp is expired"))
          else if otp != user.otp then Step(db, Rejected(400, "Invalid OTP"))
          else
            var verified := user.(isVerified := true);
            Step(db.(users := db.users[k := verified]), Success(200, WithoutOtp(Load(verified, false))))
  }
}
