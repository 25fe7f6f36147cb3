/**
  controllers/authController.js: resolving an email to an account, login,
  and the two steps of a password reset (request a one-time code, then
  confirm it with a new password).

  The clock (`Date.now()` in milliseconds), the random draw behind the code,
  the signing secret and the outcome of sending mail are parameters.
*/
module AuthController {
  import opened Wrappers
  import opened Bcrypt
  import opened Accounts
  import opened Store
  import Jwt
  import Text

  // ------------------------------------------------------------ lookup

  /** The position of a kind in the resolution order. */
  function Rank(k: Kind): nat
  {
    match k
    case AdminKind => 0
    case AlumniKind => 1
    case FacultyKind => 2
    case UserKind => 3
  }

  predicate HasEmail(rows: seq<Account>, email: string)
  {
    exists i :: 0 <= i < |rows| && rows[i].email == email
  }

  /** The filter `{ email }`. */
  function EmailIs(email: string): Account -> bool
  {
    (a: Account) => a.email == email
  }

  /** Model.findOne({ email }). */
  function FindByEmail(rows: seq<Account>, email: string): (r: Option<nat>)
    ensures r.Some? ==> r.value < |rows| && rows[r.value].email == email
    ensures r.Some? ==> forall j :: 0 <= j < r.value ==> rows[j].email != email
    ensures r.None? <==> !HasEmail(rows, email)
  {
    FindFirst(rows, EmailIs(email))
  }

  /** Replacing a document by one with the same email leaves findOne({ email })
      unchanged in that collection. */
  lemma FindByEmailAfterUpdate(rows: seq<Account>, i: nat, rec: Account, email: string)
    requires i < |rows| && rec.email == rows[i].email
    ensures FindByEmail(rows[i := rec], email) == FindByEmail(rows, email)
  {
    FindFirstAfterUpdate(rows, EmailIs(email), i, rec);
  }

  /** getUserByEmail: Admin, then Alumni, then Faculty, then User; the first
      collection holding the email wins and no later one is consulted. */
  function GetUserByEmail(db: Tables, email: string): (r: Option<Hit>)
    ensures r.Some? ==> db.Has(r.value) && db.At(r.value).email == email
    ensures r.Some? ==> forall k: Kind :: Rank(k) < Rank(r.value.kind) ==> !HasEmail(db.Table(k), email)
    ensures r.Some? ==> forall j :: 0 <= j < r.value.index ==> db.Table(r.value.kind)[j].email != email
    ensures r.None? <==> forall k: Kind :: !HasEmail(db.Table(k), email)
  {
    match FindByEmail(db.admins, email)
    case Some(i) => Some(Hit(AdminKind, i))
    case None =>
      match FindByEmail(db.alumni, email)
      case Some(i) => Some(Hit(AlumniKind, i))
      case None =>
        match FindByEmail(db.faculty, email)
        case Some(i) => Some(Hit(FacultyKind, i))
        case None =>
          match FindByEmail(db.users, email)
          case Some(i) => Some(Hit(UserKind, i))
          case None => None
  }

  /** An email held by an Admin resolves to the Admin account, whatever the
      other collections hold. */
  lemma AdminWins(db: Tables, email: string)
    requires HasEmail(db.admins, email)
    ensures GetUserByEmail(db, email).Some? && GetUserByEmail(db, email).value.kind == AdminKind
  {
  }

  /** The account an email resolves to is determined by the collections alone:
      its kind is the first in the order that holds the email. */
  lemma ResolvedKindIsFirstHolder(db: Tables, email: string, k: Kind)
    requires HasEmail(db.Table(k), email)
    requires forall k': Kind :: Rank(k') < Rank(k) ==> !HasEmail(db.Table(k'), email)
    ensures GetUserByEmail(db, email).Some? && GetUserByEmail(db, email).value.kind == k
  {
    var r := GetUserByEmail(db, email);
    assert r.Some?;
    assert HasEmail(db.Table(r.value.kind), email) by {
      assert db.Table(r.value.kind)[r.value.index].email == email;
    }
    assert Rank(r.value.kind) >= Rank(k);
  }

  /** Replacing a document by one with the same email leaves the resolution of
      every email unchanged; so a reset request does not redirect later flows. */
  lemma ResolutionStable(db: Tables, h: Hit, rec: Account, email: string)
    requires db.Has(h) && rec.email == db.At(h).email
    ensures GetUserByEmail(db.Put(h, rec), email) == GetUserByEmail(db, email)
  {
    var t := db.Put(h, rec);
    FindByEmailAfterUpdate(db.Table(h.kind), h.index, rec, email);
    assert t.Table(h.kind) == db.Table(h.kind)[h.index := rec];
    assert FindByEmail(t.admins, email) == FindByEmail(db.admins, email) by {
      if h.kind != AdminKind { assert t.admins == db.admins; }
    }
    assert FindByEmail(t.alumni, email) == FindByEmail(db.alumni, email) by {
      if h.kind != AlumniKind { assert t.alumni == db.alumni; }
    }
    assert FindByEmail(t.faculty, email) == FindByEmail(db.faculty, email) by {
      if h.kind != FacultyKind { assert t.faculty == db.faculty; }
    }
    assert FindByEmail(t.users, email) == FindByEmail(db.users, email) by {
      if h.kind != UserKind { assert t.users == db.users; }
    }
  }

  // ------------------------------------------------------------ login

  /** The account as login returns it: everything but the password, otp and
      otpExpires. */
  datatype UserView = UserView(id: nat, email: string, role: string,
                               createdAt: Option<int>, updatedAt: Option<int>, profile: Profile)

  function ViewOf(a: Account): (v: UserView)
    ensures v.id == a.id && v.email == a.email && v.role == a.role
    ensures v.createdAt == a.createdAt && v.updatedAt == a.updatedAt && v.profile == a.profile
  {
    UserView(a.id, a.email, a.role, a.createdAt, a.updatedAt, a.profile)
  }

  datatype LoginReply = LoginReply(status: int, message: string,
                                   token: Option<Jwt.Token>, user: Option<UserView>)

  /** bcryptjs rejects a missing plaintext. */
  const IllegalCompare: string := "Illegal arguments: undefined, string"

  /** exports.login. It only reads: the collections are an input and not a
      result. `password` is None when the request body has none. */
  function Login(db: Tables, email: string, password: Option<string>, nowMs: int,
                 secret: Option<string>): (r: LoginReply)
    ensures GetUserByEmail(db, email).None? ==> r == LoginReply(404, "User not found", None, None)
    ensures GetUserByEmail(db, email).Some? && password.None? ==>
      r == LoginReply(500, IllegalCompare, None, None)
    ensures GetUserByEmail(db, email).Some? && password.Some? &&
            !Compare(password.value, db.At(GetUserByEmail(db, email).value).password) ==>
      r == LoginReply(400, "Invalid credentials", None, None)
    ensures r.token.Some? <==> r.status == 200
    ensures r.status == 200 <==>
      && GetUserByEmail(db, email).Some? && password.Some?
      && Compare(password.value, db.At(GetUserByEmail(db, email).value).password)
      && secret.Some? && secret.value != ""
    ensures r.status == 200 ==>
      var a := db.At(GetUserByEmail(db, email).value);
      && r.message == "Login successful"
      && r.token.value.claims == Jwt.Claims(a.id, a.role)
      && r.token.value.iat == Jwt.NumericDate(nowMs)
      && r.token.value.exp == r.token.value.iat + Jwt.OneHour
      && r.user == Some(ViewOf(a))
  {
    match GetUserByEmail(db, email)
    case None => LoginReply(404, "User not found", None, None)
    case Some(h) =>
      var user := db.At(h);
      if password.None? then LoginReply(500, IllegalCompare, None, None)
      else if !Compare(password.value, user.password) then LoginReply(400, "Invalid credentials", None, None)
      else
        match Jwt.Sign(Jwt.Claims(user.id, user.role), secret, nowMs)
        case Err(m) => LoginReply(500, m, None, None)
        case Ok(token) => LoginReply(200, "Login successful", Some(token), Some(ViewOf(user)))
  }

  /** A successful login's token verifies under the secret it was signed with,
      carrying the account's id and role, until an hour after issue. */
  lemma LoginTokenVerifies(db: Tables, email: string, password: string, nowMs: int,
                           secret: string, laterMs: int)
    requires Login(db, email, Some(password), nowMs, Some(secret)).status == 200
    ensures var r := Login(db, email, Some(password), nowMs, Some(secret));
            var a := db.At(GetUserByEmail(db, email).value);
      Jwt.Verify(r.token.value, secret, laterMs)
        == if Jwt.NumericDate(laterMs) < Jwt.NumericDate(nowMs) + Jwt.OneHour
           then Ok(Jwt.Claims(a.id, a.role)) else Err("jwt expired")
  {
  }

  // ------------------------------------------------------------ reset state

  /** How long a code is valid: 10 minutes. */
  const OtpLifetimeMs: int := 600000

  /** crypto.randomInt(1000, 10000).toString() for the drawn integer. */
  function OtpCode(draw: int): (code: string)
    requires 1000 <= draw < 10000
    ensures |code| == 4 && Text.AllDigits(code) && code[0] != '0'
    ensures Text.ParseDecimal(code) == draw
  {
    assert Text.Pow10(3) == 1000 && Text.Pow10(4) == 10000 by {
      assert Text.Pow10(1) == 10 && Text.Pow10(2) == 100;
    }
    Text.DecimalLength(draw, 4);
    Text.ParseToDecimal(draw);
    Text.ToDecimal(draw)
  }

  /** Codes from different draws differ. */
  lemma OtpCodeInjective(d1: int, d2: int)
    requires 1000 <= d1 < 10000 && 1000 <= d2 < 10000
    ensures OtpCode(d1) == OtpCode(d2) <==> d1 == d2
  {
    Text.ToDecimalInjective(d1, d2);
  }

  /** The stored document after forgetPassword's save: the code and its expiry
      are assigned, the password is not touched. */
  function RequestReset(schema: KindSchema, rec: Account, code: string, nowMs: int): (r: Account)
    ensures r.otp == Some(code)
    ensures r.otpExpires == (if schema.storesOtpExpires then Some(nowMs + OtpLifetimeMs) else None)
    ensures r.password == rec.password
    ensures r.id == rec.id && r.email == rec.email && r.role == rec.role && r.profile == rec.profile
    ensures r.createdAt == rec.createdAt
  {
    Saved(schema, rec.(otp := Some(code), otpExpires := Some(nowMs + OtpLifetimeMs)), false, false, nowMs)
  }

  /** The check of resetPassword: `user.otp !== otp || user.otpExpires < Date.now()`
      rejects. Absent equals absent under `!==`, and `undefined < now` is false,
      so a missing expiry never counts as expired. */
  function CodeAccepted(rec: Account, submitted: Option<string>, nowMs: int): (ok: bool)
    ensures ok <==> rec.otp == submitted && (rec.otpExpires.None? || nowMs <= rec.otpExpires.value)
  {
    !(rec.otp != submitted || (rec.otpExpires.Some? && rec.otpExpires.value < nowMs))
  }

  /** The stored document after resetPassword's save: the digest of the new
      password is assigned, both reset fields are unset, then the hook runs. */
  function CompleteReset(schema: KindSchema, rec: Account, newPassword: string, nowMs: int): (r: Account)
    ensures r.otp.None? && r.otpExpires.None?
    ensures r.password == (if schema.hashesOnSave then Hash(Hash(Plain(newPassword))) else Hash(Plain(newPassword)))
    ensures r.id == rec.id && r.email == rec.email && r.role == rec.role && r.profile == rec.profile
    ensures r.createdAt == rec.createdAt
  {
    Saved(schema, rec.(password := Hash(Plain(newPassword)), otp := None, otpExpires := None), true, false, nowMs)
  }

  /** forgetPassword stores a 4-digit code with a non-zero first digit; where
      the schema has `otpExpires` it stores now + 600000, elsewhere no expiry;
      the password stays as it was. */
  lemma RequestResetState(schema: KindSchema, rec: Account, draw: int, nowMs: int)
    requires 1000 <= draw < 10000
    ensures var r := RequestReset(schema, rec, OtpCode(draw), nowMs);
      && r.otp.Some? && |r.otp.value| == 4 && Text.AllDigits(r.otp.value) && r.otp.value[0] != '0'
      && r.otpExpires == (if schema.storesOtpExpires then Some(nowMs + OtpLifetimeMs) else None)
      && r.password == rec.password
      && SameIdentity(r, rec)
  {
  }

  /** A freshly requested code is accepted up to and including its expiry
      instant and rejected after it; on a schema without `otpExpires` it is
      accepted at any later time. */
  lemma FreshCodeWindow(schema: KindSchema, rec: Account, code: string, requestedMs: int, laterMs: int)
    ensures CodeAccepted(RequestReset(schema, rec, code, requestedMs), Some(code), laterMs)
        <==> (schema.storesOtpExpires ==> laterMs <= requestedMs + OtpLifetimeMs)
  {
  }

  /** A second request overwrites the code: the first code is then accepted
      only if the random draw repeated. */
  lemma SecondRequestOverwrites(schema: KindSchema, rec: Account, d1: int, d2: int,
                                t1: int, t2: int, t: int)
    requires 1000 <= d1 < 10000 && 1000 <= d2 < 10000
    requires CodeAccepted(RequestReset(schema, RequestReset(schema, rec, OtpCode(d1), t1), OtpCode(d2), t2),
                          Some(OtpCode(d1)), t)
    ensures d1 == d2
  {
    OtpCodeInjective(d1, d2);
  }

  /** After a completed reset the record holds no code and no expiry, so every
      submitted code is rejected: a code cannot be replayed. */
  lemma ReplayRejected(schema: KindSchema, rec: Account, newPassword: string, nowMs: int,
                       code: string, laterMs: int)
    ensures CompleteReset(schema, rec, newPassword, nowMs).otp.None?
    ensures CompleteReset(schema, rec, newPassword, nowMs).otpExpires.None?
    ensures !CodeAccepted(CompleteReset(schema, rec, newPassword, nowMs), Some(code), laterMs)
  {
  }

  /** With no reset pending, a request that submits no code passes the check
      at any time: absent matches absent and no expiry has passed. */
  lemma NoPendingNoCodeAccepted(rec: Account, nowMs: int)
    requires rec.otp.None? && rec.otpExpires.None?
    ensures CodeAccepted(rec, None, nowMs)
  {
  }

  /** The password a completed reset stores. The controller already hashes,
      and the Admin and Alumni hooks hash again, so on those kinds the new
      password does not log in; on a kind without the hook it does, and only
      it does. */
  lemma ResetStoredPassword(schema: KindSchema, rec: Account, newPassword: string, nowMs: int, attempt: string)
    ensures CompleteReset(schema, rec, newPassword, nowMs).password
         == (if schema.hashesOnSave then Hash(Hash(Plain(newPassword))) else Hash(Plain(newPassword)))
    ensures Compare(attempt, CompleteReset(schema, rec, newPassword, nowMs).password)
        <==> !schema.hashesOnSave && attempt == newPassword
  {
    if schema.hashesOnSave {
      DoubleHashVerifiesNothing(newPassword, attempt);
    }
  }

  // ------------------------------------------------------------ flows

  datatype Reply = Reply(status: int, message: string)

  /** What the mail transport reports. */
  datatype Delivery = Delivered | Failed(message: string)

  datatype Mail = Mail(to: string, subject: string, text: string)

  const MailLeadIn: string := "Your OTP for password reset is "

  /** The mail forgetPassword sends: to the account's address, with the code
      in its text right after the fixed lead-in. */
  function ResetMail(to: string, code: string): (m: Mail)
    ensures m.to == to && m.subject == "Password Reset OTP"
    ensures |MailLeadIn| + |code| <= |m.text| && m.text[|MailLeadIn|..|MailLeadIn| + |code|] == code
  {
    Mail(to, "Password Reset OTP", MailLeadIn + code + " (valid for 10 minutes)")
  }

  /** The collections after forgetPassword. */
  function AfterForget(db: Tables, faculty: KindSchema, email: string, nowMs: int, draw: int): (t: Tables)
    requires 1000 <= draw < 10000
    ensures GetUserByEmail(db, email).None? ==> t == db
    ensures GetUserByEmail(db, email).Some? ==>
      var h := GetUserByEmail(db, email).value;
      && t.Has(h) && t.At(h).otp == Some(OtpCode(draw)) && t.At(h).password == db.At(h).password
      && t.At(h).email == email
      && |t.Table(h.kind)| == |db.Table(h.kind)|
      && (forall i :: 0 <= i < |db.Table(h.kind)| && i != h.index ==> t.Table(h.kind)[i] == db.Table(h.kind)[i])
      && (forall k: Kind :: k != h.kind ==> t.Table(k) == db.Table(k))
  {
    match GetUserByEmail(db, email)
    case None => db
    case Some(h) => db.Put(h, RequestReset(SchemaOf(h.kind, faculty), db.At(h), OtpCode(draw), nowMs))
  }

  function ForgetReply(db: Tables, email: string, delivery: Delivery): (r: Reply)
    ensures r.status == 404 <==> GetUserByEmail(db, email).None?
    ensures r.status == 200 <==> GetUserByEmail(db, email).Some? && delivery.Delivered?
    ensures GetUserByEmail(db, email).Some? && delivery.Failed? ==> r == Reply(500, delivery.message)
  {
    if GetUserByEmail(db, email).None? then Reply(404, "User not found")
    else match delivery
      case Delivered => Reply(200, "OTP sent to email")
      case Failed(m) => Reply(500, m)
  }

  /** exports.forgetPassword. The reset state is saved before the mail is sent,
      so a failed delivery is reported as 500 with the state left in place. */
  method ForgetPassword(db: Database, email: string, nowMs: int, draw: int, delivery: Delivery)
    returns (reply: Reply, sent: Option<Mail>)
    requires db.Valid()
    requires 1000 <= draw < 10000
    modifies db
    ensures db.Valid()
    ensures db.tables == AfterForget(old(db.tables), db.faculty, email, nowMs, draw)
    ensures reply == ForgetReply(old(db.tables), email, delivery)
    ensures sent == match GetUserByEmail(old(db.tables), email)
                    case None => None
                    case Some(h) => Some(ResetMail(old(db.tables).At(h).email, OtpCode(draw)))
  {
    var found := GetUserByEmail(db.tables, email);
    if found.None? {
      return Reply(404, "User not found"), None;
    }
    var user := db.Fetch(found.value);
    var otp := OtpCode(draw);
    user.SetOtp(Some(otp));
    user.SetOtpExpires(Some(nowMs + OtpLifetimeMs));
    db.Save(user, nowMs);
    sent := Some(ResetMail(user.record.email, otp));
    match delivery {
      case Delivered => reply := Reply(200, "OTP sent to email");
      case Failed(m) => reply := Reply(500, m);
    }
  }

  /** bcryptjs rejects a missing plaintext to hash. */
  const IllegalHash: string := "Illegal arguments: undefined, number"

  /** The collections after resetPassword. */
  function AfterReset(db: Tables, faculty: KindSchema, email: string, otp: Option<string>,
                      newPassword: Option<string>, nowMs: int): (t: Tables)
    ensures var found := GetUserByEmail(db, email);
      found.None? || !CodeAccepted(db.At(found.value), otp, nowMs) || newPassword.None? ==> t == db
    ensures var found := GetUserByEmail(db, email);
      found.Some? && CodeAccepted(db.At(found.value), otp, nowMs) && newPassword.Some? ==>
      var h := found.value;
      && t.Has(h) && t.At(h).otp.None? && t.At(h).otpExpires.None? && t.At(h).email == email
      && t.At(h).password == HookedPassword(SchemaOf(h.kind, faculty), Hash(Plain(newPassword.value)), true)
      && |t.Table(h.kind)| == |db.Table(h.kind)|
      && (forall i :: 0 <= i < |db.Table(h.kind)| && i != h.index ==> t.Table(h.kind)[i] == db.Table(h.kind)[i])
      && (forall k: Kind :: k != h.kind ==> t.Table(k) == db.Table(k))
  {
    match GetUserByEmail(db, email)
    case None => db
    case Some(h) =>
      if !CodeAccepted(db.At(h), otp, nowMs) || newPassword.None? then db
      else db.Put(h, CompleteReset(SchemaOf(h.kind, faculty), db.At(h), newPassword.value, nowMs))
  }

  function ResetReply(db: Tables, email: string, otp: Option<string>, newPassword: Option<string>,
                      nowMs: int): (r: Reply)
    ensures r.status == 404 <==> GetUserByEmail(db, email).None?
    ensures var found := GetUserByEmail(db, email);
      r.status == 400 <==> found.Some? && !CodeAccepted(db.At(found.value), otp, nowMs)
    ensures var found := GetUserByEmail(db, email);
      r.status == 200 <==> found.Some? && CodeAccepted(db.At(found.value), otp, nowMs) && newPassword.Some?
    ensures var found := GetUserByEmail(db, email);
      found.Some? && CodeAccepted(db.At(found.value), otp, nowMs) && newPassword.None? ==>
      r == Reply(500, IllegalHash)
    ensures r.status == 404 ==> r.message == "User not found"
    ensures r.status == 400 ==> r.message == "Invalid or expired OTP"
    ensures r.status == 200 ==> r.message == "Password reset successful"
  {
    match GetUserByEmail(db, email)
    case None => Reply(404, "User not found")
    case Some(h) =>
      if !CodeAccepted(db.At(h), otp, nowMs) then Reply(400, "Invalid or expired OTP")
      else if newPassword.None? then Reply(500, IllegalHash)
      else Reply(200, "Password reset successful")
  }

  /** exports.resetPassword. */
  method ResetPassword(db: Database, email: string, otp: Option<string>, newPassword: Option<string>,
                       nowMs: int) returns (reply: Reply)
    requires db.Valid()
    modifies db
    ensures db.Valid()
    ensures db.tables == AfterReset(old(db.tables), db.faculty, email, otp, newPassword, nowMs)
    ensures reply == ResetReply(old(db.tables), email, otp, newPassword, nowMs)
  {
    var found := GetUserByEmail(db.tables, email);
    if found.None? {
      return Reply(404, "User not found");
    }
    var user := db.Fetch(found.value);
    if !CodeAccepted(user.record, otp, nowMs) {
      return Reply(400, "Invalid or expired OTP");
    }
    if newPassword.None? {
      return Reply(500, IllegalHash);
    }
    user.SetPassword(Hash(Plain(newPassword.value)));
    user.SetOtp(None);
    user.SetOtpExpires(None);
    db.Save(user, nowMs);
    reply := Reply(200, "Password reset successful");
  }

  // ------------------------------------------------------------ the flows together

  /** An unknown email is answered 404 by each flow and changes nothing. */
  lemma UnknownEmail(db: Tables, faculty: KindSchema, email: string, pw: Option<string>, nowMs: int,
                     secret: Option<string>, draw: int, delivery: Delivery, otp: Option<string>)
    requires 1000 <= draw < 10000
    requires forall k: Kind :: !HasEmail(db.Table(k), email)
    ensures Login(db, email, pw, nowMs, secret).status == 404
    ensures AfterForget(db, faculty, email, nowMs, draw) == db
    ensures ForgetReply(db, email, delivery) == Reply(404, "User not found")
    ensures AfterReset(db, faculty, email, otp, pw, nowMs) == db
    ensures ResetReply(db, email, otp, pw, nowMs) == Reply(404, "User not found")
  {
  }

  /** Requesting a code and confirming it with the mailed code before it
      expires succeeds and clears the reset state. */
  lemma RequestThenConfirm(db: Tables, faculty: KindSchema, email: string, t1: int, draw: int,
                           newPassword: string, t2: int)
    requires 1000 <= draw < 10000
    requires GetUserByEmail(db, email).Some?
    requires t2 <= t1 + OtpLifetimeMs
    ensures var db1 := AfterForget(db, faculty, email, t1, draw);
            var h := GetUserByEmail(db, email).value;
      && GetUserByEmail(db1, email) == Some(h)
      && ResetReply(db1, email, Some(OtpCode(draw)), Some(newPassword), t2) == Reply(200, "Password reset successful")
      && AfterReset(db1, faculty, email, Some(OtpCode(draw)), Some(newPassword), t2).At(h).otp.None?
  {
    var h := GetUserByEmail(db, email).value;
    var rec := RequestReset(SchemaOf(h.kind, faculty), db.At(h), OtpCode(draw), t1);
    ResolutionStable(db, h, rec, email);
  }

  /** Confirming the mailed code more than 10 minutes after the request fails
      with 400 where the schema stores the expiry (Admin, Alumni). */
  lemma ConfirmAfterExpiry(db: Tables, faculty: KindSchema, email: string, t1: int, draw: int,
                           newPassword: Option<string>, t2: int)
    requires 1000 <= draw < 10000
    requires GetUserByEmail(db, email).Some?
    requires SchemaOf(GetUserByEmail(db, email).value.kind, faculty).storesOtpExpires
    requires t2 > t1 + OtpLifetimeMs
    ensures var db1 := AfterForget(db, faculty, email, t1, draw);
      && ResetReply(db1, email, Some(OtpCode(draw)), newPassword, t2) == Reply(400, "Invalid or expired OTP")
      && AfterReset(db1, faculty, email, Some(OtpCode(draw)), newPassword, t2) == db1
  {
    var h := GetUserByEmail(db, email).value;
    var rec := RequestReset(SchemaOf(h.kind, faculty), db.At(h), OtpCode(draw), t1);
    ResolutionStable(db, h, rec, email);
  }

  /** A User account's code never expires: User has no `otpExpires` path, so
      none is stored and the check never sees one. */
  lemma UserCodeNeverExpires(db: Tables, faculty: KindSchema, email: string, t1: int, draw: int,
                             newPassword: string, t2: int)
    requires 1000 <= draw < 10000
    requires GetUserByEmail(db, email).Some? && GetUserByEmail(db, email).value.kind == UserKind
    ensures var db1 := AfterForget(db, faculty, email, t1, draw);
      ResetReply(db1, email, Some(OtpCode(draw)), Some(newPassword), t2).status == 200
  {
    var h := GetUserByEmail(db, email).value;
    var rec := RequestReset(SchemaOf(h.kind, faculty), db.At(h), OtpCode(draw), t1);
    ResolutionStable(db, h, rec, email);
  }

  /** Confirming twice with the same code: the second attempt is rejected. */
  lemma ConfirmTwice(db: Tables, faculty: KindSchema, email: string, code: string,
                     p1: string, p2: Option<string>, t1: int, t2: int)
    requires ResetReply(db, email, Some(code), Some(p1), t1).status == 200
    ensures var db1 := AfterReset(db, faculty, email, Some(code), Some(p1), t1);
      && ResetReply(db1, email, Some(code), p2, t2) == Reply(400, "Invalid or expired OTP")
      && AfterReset(db1, faculty, email, Some(code), p2, t2) == db1
  {
    var h := GetUserByEmail(db, email).value;
    var rec := CompleteReset(SchemaOf(h.kind, faculty), db.At(h), p1, t1);
    ResolutionStable(db, h, rec, email);
  }

  /** After a successful reset the new password logs in exactly on kinds
      without the re-hashing hook; on Admin and Alumni it does not. */
  lemma LoginAfterReset(db: Tables, faculty: KindSchema, email: string, code: Option<string>,
                        newPassword: string, t1: int, t2: int, secret: string)
    requires secret != ""
    requires ResetReply(db, email, code, Some(newPassword), t1).status == 200
    ensures var h := GetUserByEmail(db, email).value;
            var db1 := AfterReset(db, faculty, email, code, Some(newPassword), t1);
      Login(db1, email, Some(newPassword), t2, Some(secret)).status
        == (if SchemaOf(h.kind, faculty).hashesOnSave then 400 else 200)
  {
    var h := GetUserByEmail(db, email).value;
    var rec := CompleteReset(SchemaOf(h.kind, faculty), db.At(h), newPassword, t1);
    ResolutionStable(db, h, rec, email);
    ResetStoredPassword(SchemaOf(h.kind, faculty), db.At(h), newPassword, t1, newPassword);
  }
}
