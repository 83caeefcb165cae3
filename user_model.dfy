/** The User record as the controllers use it (the user schema itself is
    not part of this model), the user document that responses carry, and
    the two lookups the controllers make on the user collection. */
module UserModel {
  import opened Common

  /** A stored user. `answerGivenCount` is an unbounded integer: nothing in
      the controllers clamps it. */
  datatype User = User(
    id: Id,
    username: string,
    email: string,
    password: string,
    isVerified: bool,
    otp: Option<string>,
    otpExpiary: Option<int>,
    answerGivenCount: int)

  /** The user document a response carries; a field deleted from the
      document (or never selected) is None. */
  datatype UserView = UserView(
    id: Id,
    username: string,
    email: string,
    isVerified: bool,
    answerGivenCount: int,
    password: Option<string>,
    otp: Option<string>,
    otpExpiary: Option<int>)

  /** The document of a loaded user. The password hash is part of it only
      when the query selected it (`select("+password")`) or the document was
      just created. */
  function Load(u: User, withPassword: bool): (v: UserView)
    ensures v.id == u.id && v.username == u.username && v.email == u.email
    ensures v.isVerified == u.isVerified && v.answerGivenCount == u.answerGivenCount
    ensures v.password == (if withPassword then Some(u.password) else None)
    ensures v.otp == u.otp && v.otpExpiary == u.otpExpiary
  {
    UserView(u.id, u.username, u.email, u.isVerified, u.answerGivenCount,
             if withPassword then Some(u.password) else None, u.otp, u.otpExpiary)
  }

  /** Deleting `otp` and `otpExpiary` from a document. */
  function WithoutOtp(v: UserView): (r: UserView)
    ensures r.otp.None? && r.otpExpiary.None?
    ensures r.(otp := v.otp, otpExpiary := v.otpExpiary) == v
  {
    v.(otp := None, otpExpiary := None)
  }

  /** Deleting `password`, `otp` and `otpExpiary` from a document. */
  function WithoutSecrets(v: UserView): (r: UserView)
    ensures r.password.None? && r.otp.None? && r.otpExpiary.None?
    ensures r.(password := v.password, otp := v.otp, otpExpiary := v.otpExpiary) == v
  {
    WithoutOtp(v).(password := None)
  }

  /** `findById`: the position of the first user with this id, if any. */
  function FindById(users: seq<User>, id: Id): (r: Option<nat>)
    ensures r.Some? ==> r.value < |users| && users[r.value].id == id
    ensures r.Some? ==> forall j :: 0 <= j < r.value ==> users[j].id != id
    ensures r.None? ==> forall j :: 0 <= j < |users| ==> users[j].id != id
  {
    if users == [] then None
    else if users[0].id == id then Some(0)
    else match FindById(users[1..], id)
      case None => None
      case Some(k) => Some(k + 1)
  }

  /** `findOne({email})`: the position of the first user with this email, if
      any. */
  function FindByEmail(users: seq<User>, email: string): (r: Option<nat>)
    ensures r.Some? ==> r.value < |users| && users[r.value].email == email
    ensures r.Some? ==> forall j :: 0 <= j < r.value ==> users[j].email != email
    ensures r.None? ==> forall j :: 0 <= j < |users| ==> users[j].email != email
  {
    if users == [] then None
    else if users[0].email == email then Some(0)
    else match FindByEmail(users[1..], email)
      case None => None
      case Some(k) => Some(k + 1)
  }

  /** `findById` only looks at ids, so changing other fields leaves its
      answer unchanged. */
  lemma {:induction false} FindByIdSameIds(a: seq<User>, b: seq<User>, id: Id)
    requires |a| == |b|
    requires forall i :: 0 <= i < |a| ==> a[i].id == b[i].id
    ensures FindById(a, id) == FindById(b, id)
  {
    if a != [] && a[0].id != id {
      FindByIdSameIds(a[1..], b[1..], id);
    }
  }

  /** `findOne({email})` only looks at emails, so changing other fields
      leaves its answer unchanged. */
  lemma {:induction false} FindByEmailSameEmails(a: seq<User>, b: seq<User>, email: string)
    requires |a| == |b|
    requires forall i :: 0 <= i < |a| ==> a[i].email == b[i].email
    ensures FindByEmail(a, email) == FindByEmail(b, email)
  {
    if a != [] && a[0].email != email {
      FindByEmailSameEmails(a[1..], b[1..], email);
    }
  }

  /** A user appended under an id not yet present is found at the end. */
  lemma {:induction false} FindByIdAppend(users: seq<User>, u: User)
    requires FindById(users, u.id).None?
    ensures FindById(users + [u], u.id) == Some(|users|)
  {
    if users != [] {
      assert (users + [u])[1..] == users[1..] + [u];
      FindByIdAppend(users[1..], u);
    }
  }

  /** A user appended under an email not yet present is found at the end. */
  lemma {:induction false} FindByEmailAppend(users: seq<User>, u: User)
    requires FindByEmail(users, u.email).None?
    ensures FindByEmail(users + [u], u.email) == Some(|users|)
  {
    if users != [] {
      assert (users + [u])[1..] == users[1..] + [u];
      FindByEmailAppend(users[1..], u);
    }
  }
}
