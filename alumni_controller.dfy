/**
  controllers/alumniController.js: the Alumni registry. Requests arrive after
  the routing layer's express-validator chain, whose messages are given as
  `validationErrors`; the Alumni collection is the `alumni` table of a
  Store.Database.
*/
module AlumniController {
  import opened Wrappers
  import opened Bcrypt
  import opened Accounts
  import opened Store
  import AlumniModel
  import Text
  import opened Numbers
  import AuthController

  /** What the body of a response carries besides status and message. */
  datatype Payload =
    | NoData
    | Created(id: nat, firstName: string, lastName: string, email: string,
              phone: Option<string>, userType: string)
    | One(doc: Account)
    | Page(docs: seq<Account>)

  /** `{ status, responseCode, message, count?, data? }`; status is
      responseCode == 200. */
  datatype ApiReply = ApiReply(responseCode: int, message: string, count: Option<nat>, data: Payload)

  /** A reply that carries only a status and a message. */
  function MessageReply(code: int, message: string): ApiReply
  {
    ApiReply(code, message, None, NoData)
  }

  /** The validator messages joined by ", " in their order. */
  function ValidationReply(validationErrors: seq<string>): (r: ApiReply)
    requires validationErrors != []
    ensures r.responseCode == 400 && r.data.NoData?
    ensures r.message == Text.Join(validationErrors, ", ")
    ensures |r.message| == Text.TotalLength(validationErrors) + 2 * (|validationErrors| - 1)
  {
    Text.JoinLength(validationErrors, ", ");
    MessageReply(400, Text.Join(validationErrors, ", "))
  }

  /** The `:id` route parameter: the text of an ObjectId, or anything else. */
  datatype IdParam = ObjectId(value: nat) | Malformed(text: string)

  /** The double quote and the braces that MongoDB's messages put around
      values, by code point. */
  const Quote: char := 34 as char
  const OpenBrace: char := 123 as char
  const CloseBrace: char := 125 as char

  const CastLeadIn: string := "Cast to ObjectId failed for value " + [Quote]

  /** Mongoose's refusal of an id that is not an ObjectId: it quotes the text
      right after the lead-in. */
  function CastError(text: string): (m: string)
    ensures |CastLeadIn| + |text| <= |m| && m[|CastLeadIn|..|CastLeadIn| + |text|] == text
  {
    CastLeadIn + text + [Quote] + " (type string) at path " + [Quote] + "_id" + [Quote]
      + " for model " + [Quote] + "Alumni" + [Quote]
  }

  /** Model.findById. */
  function FindById(rows: seq<Account>, id: nat): (r: Option<nat>)
    ensures r.Some? ==> r.value < |rows| && rows[r.value].id == id
    ensures r.None? <==> forall j :: 0 <= j < |rows| ==> rows[j].id != id
  {
    FindFirst(rows, (a: Account) => a.id == id)
  }

  /** With unique `_id`s, findById finds the one document holding the id. */
  lemma FindByIdUnique(rows: seq<Account>, i: nat)
    requires UniqueIds(rows) && i < |rows|
    ensures FindById(rows, rows[i].id) == Some(i)
  {
    var r := FindById(rows, rows[i].id);
    assert rows[r.value].id == rows[i].id;
  }

  // ------------------------------------------------------------ create

  /** The fields createAlumni reads from the body; None is a field left out. */
  datatype AlumniBody = AlumniBody(
    name: Option<string>, lastname: Option<string>, department: Option<string>,
    rollNumber: Option<string>, graduationYear: Option<int>, degree: Option<string>,
    currentJobTitle: Option<string>, companyName: Option<string>, contactNumber: Option<string>,
    email: Option<string>, password: Option<string>)

  /** The filter `{ rollNumber, department }` accepts a stored alumnus. A value
      left out of the body is sent as null, which no stored document matches
      on these required paths. */
  function SameRoll(body: AlumniBody, a: Account): (ok: bool)
    ensures ok ==> a.profile.AlumniProfile?
    ensures body.rollNumber.None? || body.department.None? ==> !ok
  {
    && body.rollNumber.Some? && body.department.Some?
    && a.profile.AlumniProfile?
    && a.profile.alumni.rollNumber == body.rollNumber.value
    && a.profile.alumni.department == body.department.value
  }

  /** The filter `{ rollNumber, department }`. */
  function RollIs(body: AlumniBody): Account -> bool
  {
    (a: Account) => SameRoll(body, a)
  }

  /** `findOne({ rollNumber, department })` finds a document. */
  function RollTaken(rows: seq<Account>, body: AlumniBody): (taken: bool)
    ensures taken <==> FindFirst(rows, RollIs(body)).Some?
    ensures taken ==> body.rollNumber.Some? && body.department.Some?
  {
    exists i :: 0 <= i < |rows| && SameRoll(body, rows[i])
  }

  /** `findOne({ email })` finds a document: exactly the emails a login would
      find among the Alumni. */
  function EmailTaken(rows: seq<Account>, body: AlumniBody): (taken: bool)
    ensures taken <==> body.email.Some? && AuthController.HasEmail(rows, body.email.value)
    ensures body.email.Some? ==> (taken <==> AuthController.FindByEmail(rows, body.email.value).Some?)
  {
    body.email.Some? && exists i :: 0 <= i < |rows| && rows[i].email == body.email.value
  }

  const DuplicateRoll: string := "Roll number already exists in this department, please use a different roll number."
  const DuplicateEmail: string := "Email already exists, please use a different email."
  /** bcrypt rejects a missing plaintext. */
  const MissingPassword: string := "data and salt arguments required"

  /** `new Alumni({...})` with the body's fields and the hashed password; role
      and profilePicture are not passed. */
  function InputOf(body: AlumniBody, hashed: Secret): AlumniModel.AlumniInput
  {
    AlumniModel.AlumniInput(body.name, body.lastname, body.department, body.rollNumber,
      body.graduationYear, body.degree, body.currentJobTitle, body.companyName,
      body.contactNumber, body.email, Some(hashed), None, None)
  }

  /** The body passes the schema once its password is hashed. */
  predicate Acceptable(body: AlumniBody)
  {
    body.password.Some? && AlumniModel.Complete(InputOf(body, Hash(Plain(body.password.value))))
  }

  /** The document a successful create stores: the controller's digest, hashed
      once more by the pre-save hook. */
  function CreatedRecord(body: AlumniBody, newId: nat, nowMs: int): (rec: Account)
    requires Acceptable(body)
    ensures rec.id == newId && rec.email == body.email.value && rec.profile.AlumniProfile?
    ensures rec.password != Plain(body.password.value) && rec.password != Hash(Plain(body.password.value))
  {
    var built := AlumniModel.NewAlumni(newId, InputOf(body, Hash(Plain(body.password.value))), nowMs);
    Saved(AlumniModel.Schema, built.value, true, true, nowMs)
  }

  /** The stored record holds the body's email and fields, role "alumni",
      createdAt the creation time and no reset state; its password is neither
      the plaintext nor a digest of any password, so the new alumnus cannot log
      in with the password chosen at signup, nor with any other. */
  lemma CreatedRecordFacts(body: AlumniBody, newId: nat, nowMs: int, attempt: string)
    requires Acceptable(body)
    ensures var rec := CreatedRecord(body, newId, nowMs);
      && rec.id == newId && rec.email == body.email.value && rec.role == AlumniModel.DefaultRole
      && rec.createdAt == Some(nowMs) && rec.otp.None? && rec.otpExpires.None?
      && rec.profile.AlumniProfile?
      && rec.profile.alumni.name == body.name.value && rec.profile.alumni.lastname == body.lastname.value
      && rec.profile.alumni.rollNumber == body.rollNumber.value
      && rec.profile.alumni.department == body.department.value
      && rec.password == Hash(Hash(Plain(body.password.value)))
      && rec.password != Plain(body.password.value)
      && !Compare(attempt, rec.password)
  {
    DoubleHashVerifiesNothing(body.password.value, attempt);
  }

  /** exports.createAlumni. `newId` is the `_id` the driver generates. */
  method CreateAlumni(db: Database, validationErrors: seq<string>, body: AlumniBody, newId: nat, nowMs: int)
    returns (reply: ApiReply)
    requires db.Valid()
    requires forall i :: 0 <= i < |db.tables.alumni| ==> db.tables.alumni[i].id != newId
    modifies db
    ensures db.Valid()
    ensures reply.responseCode == 200 || reply.responseCode == 400
    ensures validationErrors != [] ==> reply == ValidationReply(validationErrors)
    ensures validationErrors == [] && RollTaken(old(db.tables).alumni, body) ==> reply == MessageReply(400, DuplicateRoll)
    ensures validationErrors == [] && !RollTaken(old(db.tables).alumni, body) && EmailTaken(old(db.tables).alumni, body) ==>
      reply == MessageReply(400, DuplicateEmail)
    ensures (&& validationErrors == [] && !RollTaken(old(db.tables).alumni, body)
             && !EmailTaken(old(db.tables).alumni, body) && body.password.None?) ==>
      reply == MessageReply(400, MissingPassword)
    ensures reply.responseCode == 200 <==>
      validationErrors == [] && !RollTaken(old(db.tables).alumni, body) && !EmailTaken(old(db.tables).alumni, body)
      && Acceptable(body)
    ensures reply.responseCode != 200 ==> db.tables == old(db.tables)
    ensures reply.responseCode == 200 ==>
      var rec := CreatedRecord(body, newId, nowMs);
      && db.tables == old(db.tables).With(AlumniKind, old(db.tables).alumni + [rec])
      && reply.message == "Alumni created successfully!"
      && reply.data == Created(newId, body.name.value, body.lastname.value, body.email.value,
                               body.contactNumber, "alumni")
  {
    if validationErrors != [] {
      return ValidationReply(validationErrors);
    }
    var clash := FindFirst(db.tables.alumni, RollIs(body));
    if clash.Some? {
      return MessageReply(400, DuplicateRoll);
    }
    var holder := FindFirst(db.tables.alumni, (a: Account) => body.email.Some? && a.email == body.email.value);
    if holder.Some? {
      return MessageReply(400, DuplicateEmail);
    }
    if body.password.None? {
      return MessageReply(400, MissingPassword);
    }
    var hashed := Hash(Plain(body.password.value));
    var built := AlumniModel.NewAlumni(newId, InputOf(body, hashed), nowMs);
    if built.Err? {
      return MessageReply(400, built.message);
    }
    var alumni := new Document.Create(AlumniKind, AlumniModel.Schema, built.value);
    db.Insert(alumni, nowMs);
    var fields := alumni.record.profile.alumni;
    reply := ApiReply(200, "Alumni created successfully!", None,
      Created(alumni.record.id, fields.name, fields.lastname, alumni.record.email, fields.contactNumber, "alumni"));
  }

  // ------------------------------------------------------------ list

  /** The query string after the defaults `page = 1, limit = 10, search = ''`
      are applied by destructuring; page and limit as parseInt reads them. */
  datatype ListQuery = ListQuery(page: Option<int>, limit: Option<int>, search: Option<string>)

  /** page, 1 when the query has none. */
  function PageOf(q: ListQuery): (r: int)
    ensures q.page.None? ==> r == 1
    ensures q.page.Some? ==> r == q.page.value
  {
    if q.page.Some? then q.page.value else 1
  }

  /** limit, 10 when the query has none. */
  function LimitOf(q: ListQuery): (r: int)
    ensures q.limit.None? ==> r == 10
    ensures q.limit.Some? ==> r == q.limit.value
  {
    if q.limit.Some? then q.limit.value else 10
  }

  /** The trimmed search, "" when the query has none: it neither starts nor
      ends with whitespace. */
  function SearchOf(q: ListQuery): (r: string)
    ensures q.search.None? ==> r == ""
    ensures r == "" || (!Text.IsTrimmable(r[0]) && !Text.IsTrimmable(r[|r| - 1]))
  {
    Text.TrimBlank("");
    Text.Trim(if q.search.Some? then q.search.value else "")
  }

  /** The skip `(page - 1) * limit`: 0 on the first page, and with no limit. */
  function SkipOf(q: ListQuery): (skip: int)
    ensures PageOf(q) == 1 || LimitOf(q) == 0 ==> skip == 0
    ensures q.page.None? ==> skip == 0
  {
    (PageOf(q) - 1) * LimitOf(q)
  }

  /** The `$or` of four case-insensitive `$regex` conditions, with the regular
      expression engine as `regex(pattern, value)`. */
  function Matches(regex: (string, string) -> bool, pattern: string, a: Account): (ok: bool)
    ensures ok ==> a.profile.AlumniProfile?
    ensures (forall v :: !regex(pattern, v)) ==> !ok
  {
    && a.profile.AlumniProfile?
    && (|| regex(pattern, a.profile.alumni.name)
        || regex(pattern, a.profile.alumni.lastname)
        || regex(pattern, a.profile.alumni.department)
        || regex(pattern, a.profile.alumni.rollNumber))
  }

  /** The documents a filter accepts, in collection order. */
  function Filter(rows: seq<Account>, keep: Account -> bool): (r: seq<Account>)
    ensures |r| <= |rows|
    ensures forall a :: a in r <==> a in rows && keep(a)
    ensures forall a :: multiset(r)[a] == if keep(a) then multiset(rows)[a] else 0
    decreases |rows|
  {
    if |rows| == 0 then []
    else
      assert rows == [rows[0]] + rows[1..];
      (if keep(rows[0]) then [rows[0]] else []) + Filter(rows[1..], keep)
  }

  /** A filter that accepts every document returns the collection. */
  lemma {:induction false} FilterAll(rows: seq<Account>, keep: Account -> bool)
    requires forall i :: 0 <= i < |rows| ==> keep(rows[i])
    ensures Filter(rows, keep) == rows
    decreases |rows|
  {
    if |rows| > 0 {
      FilterAll(rows[1..], keep);
    }
  }

  /** Filtering distributes over concatenation: the filter keeps collection
      order. */
  lemma {:induction false} FilterAppend(xs: seq<Account>, ys: seq<Account>, keep: Account -> bool)
    ensures Filter(xs + ys, keep) == Filter(xs, keep) + Filter(ys, keep)
    decreases |xs|
  {
    if |xs| > 0 {
      assert (xs + ys)[1..] == xs[1..] + ys;
      FilterAppend(xs[1..], ys, keep);
    } else {
      assert xs + ys == ys;
    }
  }

  /** `.skip(skip).limit(limit)` as the server applies them: limit 0 is no
      limit and a negative limit counts by its magnitude. */
  function Window(rows: seq<Account>, skip: nat, limit: int): (r: seq<Account>)
    ensures skip >= |rows| ==> r == []
    ensures skip < |rows| ==> |r| == (if limit == 0 then |rows| - skip else Min(Abs(limit), |rows| - skip))
    ensures skip <= |rows| ==> r == rows[skip..skip + |r|]
    ensures limit != 0 ==> |r| <= Abs(limit)
    ensures forall a :: a in r ==> a in rows
  {
    if skip >= |rows| then []
    else rows[skip..skip + (if limit == 0 then |rows| - skip else Min(Abs(limit), |rows| - skip))]
  }

  /** Two consecutive pages of the same size are the one page of twice the
      size: paging neither skips nor repeats a document. */
  lemma ConsecutivePages(rows: seq<Account>, skip: nat, limit: nat)
    requires limit > 0
    ensures Window(rows, skip, limit) + Window(rows, skip + limit, limit) == Window(rows, skip, 2 * limit)
  {
  }

  /** The documents the search accepts, in collection order. */
  function Matching(rows: seq<Account>, regex: (string, string) -> bool, pattern: string): (m: seq<Account>)
    ensures |m| <= |rows|
    ensures forall a :: a in m <==> a in rows && Matches(regex, pattern, a)
    ensures forall a :: multiset(m)[a] == if Matches(regex, pattern, a) then multiset(rows)[a] else 0
  {
    Filter(rows, (a: Account) => Matches(regex, pattern, a))
  }

  /** A search that accepts every document matches the whole collection. */
  lemma MatchingAll(rows: seq<Account>, regex: (string, string) -> bool, pattern: string)
    requires forall i :: 0 <= i < |rows| ==> Matches(regex, pattern, rows[i])
    ensures Matching(rows, regex, pattern) == rows
  {
    FilterAll(rows, (a: Account) => Matches(regex, pattern, a));
  }

  const SkipLeadIn: string := "BSON field 'skip' value must be >= 0, actual value '-"

  /** The server's refusal of a negative skip; the digits after the lead-in
      read back as the skip's magnitude. */
  function NegativeSkip(skip: int): (m: string)
    requires skip < 0
    ensures |m| == |SkipLeadIn| + |Text.ToDecimal(-skip)| + 1
    ensures m[..|SkipLeadIn|] == SkipLeadIn
    ensures Text.AllDigits(m[|SkipLeadIn|..|m| - 1])
    ensures Text.ParseDecimal(m[|SkipLeadIn|..|m| - 1]) == -skip
  {
    Text.ParseToDecimal(-skip);
    var text := SkipLeadIn + Text.ToDecimal(-skip) + "'";
    assert text[|SkipLeadIn|..|text| - 1] == Text.ToDecimal(-skip);
    text
  }

  /** The reply for a search pattern, a skip and a limit. */
  function ListReply(rows: seq<Account>, regex: (string, string) -> bool, pattern: string,
                     skip: int, limit: int): (r: ApiReply)
    ensures skip < 0 ==> r == MessageReply(400, NegativeSkip(skip))
    ensures r.responseCode == 200 <==> skip >= 0
    ensures r.responseCode == 200 ==>
      var matching := Matching(rows, regex, pattern);
      && r.message == "Alumni fetched successfully!"
      && r.count == Some(|matching|)
      && r.data == Page(Window(matching, skip, limit))
      && (limit != 0 ==> |r.data.docs| <= Abs(limit))
      && (skip <= |matching| ==>
            skip + |r.data.docs| <= |matching| && r.data.docs == matching[skip..skip + |r.data.docs|])
      && (forall a :: a in r.data.docs ==> a in rows && Matches(regex, pattern, a))
  {
    if skip < 0 then MessageReply(400, NegativeSkip(skip))
    else
      var matching := Matching(rows, regex, pattern);
      ApiReply(200, "Alumni fetched successfully!", Some(|matching|), Page(Window(matching, skip, limit)))
  }

  lemma SkipSign(a: int, b: int)
    ensures a * b >= 0 <==> a == 0 || b == 0 || (a > 0) == (b > 0)
  {
    if a > 0 && b < 0 {
      assert a * b <= b by { assert a * b == b + (a - 1) * b; assert (a - 1) * b <= 0; }
    }
    if a < 0 && b > 0 {
      assert a * b <= a by { assert a * b == a + a * (b - 1); assert a * (b - 1) <= 0; }
    }
  }

  /** The skip is non-negative exactly when page - 1 and limit do not have
      opposite signs. */
  lemma SkipOfSign(q: ListQuery)
    ensures SkipOf(q) >= 0 <==> PageOf(q) == 1 || LimitOf(q) == 0 || (PageOf(q) > 1) == (LimitOf(q) > 0)
  {
    SkipSign(PageOf(q) - 1, LimitOf(q));
  }

  /** exports.getAllAlumni: the trimmed search, skip `(page - 1) * limit`, and
      the count of every match regardless of the page. */
  function GetAllAlumni(rows: seq<Account>, q: ListQuery, regex: (string, string) -> bool): (r: ApiReply)
    ensures r.responseCode == 200 <==> SkipOf(q) >= 0
    ensures r.responseCode == 200 <==> PageOf(q) == 1 || LimitOf(q) == 0 || (PageOf(q) > 1) == (LimitOf(q) > 0)
    ensures r.responseCode == 200 ==>
      && r.count == Some(|Matching(rows, regex, SearchOf(q))|)
      && r.data == Page(Window(Matching(rows, regex, SearchOf(q)), SkipOf(q), LimitOf(q)))
  {
    SkipOfSign(q);
    ListReply(rows, regex, SearchOf(q), SkipOf(q), LimitOf(q))
  }

  /** The count does not depend on page or limit. */
  lemma CountIgnoresPaging(rows: seq<Account>, q1: ListQuery, q2: ListQuery, regex: (string, string) -> bool)
    requires SkipOf(q1) >= 0 && SkipOf(q2) >= 0 && q1.search == q2.search
    ensures GetAllAlumni(rows, q1, regex).count == GetAllAlumni(rows, q2, regex).count
  {
  }

  /** With no query at all, when the empty pattern matches every value (as an
      empty regular expression does), the count is the whole collection and
      the page is its first ten documents. */
  lemma DefaultListing(rows: seq<Account>, q: ListQuery, regex: (string, string) -> bool)
    requires q == ListQuery(None, None, None)
    requires forall i :: 0 <= i < |rows| ==> rows[i].profile.AlumniProfile?
    requires forall value :: regex("", value)
    ensures GetAllAlumni(rows, q, regex).count == Some(|rows|)
    ensures GetAllAlumni(rows, q, regex).data == Page(rows[..Min(10, |rows|)])
  {
    MatchingAll(rows, regex, "");
    assert Window(rows, 0, 10) == rows[..Min(10, |rows|)];
    assert GetAllAlumni(rows, q, regex) == ListReply(rows, regex, "", 0, 10) by {
      assert SearchOf(q) == "" && SkipOf(q) == 0 && LimitOf(q) == 10;
    }
  }

  // ------------------------------------------------------------ get by id

  /** exports.getAlumniById. The whole stored document is returned. */
  function GetAlumniById(rows: seq<Account>, id: IdParam): (r: ApiReply)
    ensures id.Malformed? ==> r == MessageReply(400, CastError(id.text))
    ensures id.ObjectId? && FindById(rows, id.value).None? ==> r == MessageReply(404, "Alumni not found")
    ensures r.responseCode == 200 <==> id.ObjectId? && FindById(rows, id.value).Some?
    ensures r.responseCode == 200 ==>
      r.message == "Alumni fetched successfully!" && r.data == One(rows[FindById(rows, id.value).value])
  {
    match id
    case Malformed(text) => MessageReply(400, CastError(text))
    case ObjectId(value) =>
      match FindById(rows, value)
      case None => MessageReply(404, "Alumni not found")
      case Some(i) => ApiReply(200, "Alumni fetched successfully!", None, One(rows[i]))
  }

  /** The document returned by id carries the stored password digest and any
      pending reset code with its expiry. */
  lemma ByIdDisclosesResetState(rows: seq<Account>, i: nat)
    requires UniqueIds(rows) && i < |rows|
    ensures var r := GetAlumniById(rows, ObjectId(rows[i].id));
      && r.responseCode == 200
      && r.data.doc.password == rows[i].password
      && r.data.doc.otp == rows[i].otp && r.data.doc.otpExpires == rows[i].otpExpires
  {
    FindByIdUnique(rows, i);
  }

  // ------------------------------------------------------------ update

  /** The paths an update body can set; None is a path it leaves out. The
      password is the string the client sent: ordinary text is `Plain`, and
      text that is a well-formed bcrypt digest is that digest. */
  datatype AlumniUpdate = AlumniUpdate(
    name: Option<string>, lastname: Option<string>, department: Option<string>,
    rollNumber: Option<string>, graduationYear: Option<int>, degree: Option<string>,
    currentJobTitle: Option<string>, companyName: Option<string>, contactNumber: Option<string>,
    email: Option<string>, password: Option<Secret>, role: Option<string>,
    profilePicture: Option<string>, otp: Option<string>, otpExpires: Option<int>,
    createdAt: Option<int>)

  function Pick<T>(current: T, given: Option<T>): T
  {
    if given.Some? then given.value else current
  }

  function PickOption<T>(current: Option<T>, given: Option<T>): (r: Option<T>)
    ensures given.Some? ==> r == given
    ensures given.None? ==> r == current
  {
    if given.Some? then given else current
  }

  /** findByIdAndUpdate's `$set` of the given paths: each given path replaces
      the stored value, every other path keeps it. The password is stored as
      sent: no document is saved, so no hook hashes it. The reset code, its
      expiry and the creation date are schema paths too, so a body may set
      them. */
  function ApplyUpdate(rec: Account, u: AlumniUpdate): (r: Account)
    requires rec.profile.AlumniProfile?
    ensures r.id == rec.id && r.updatedAt == rec.updatedAt
    ensures r.otp == PickOption(rec.otp, u.otp) && r.otpExpires == PickOption(rec.otpExpires, u.otpExpires)
    ensures r.createdAt == PickOption(rec.createdAt, u.createdAt)
    ensures r.email == Pick(rec.email, u.email) && r.role == Pick(rec.role, u.role)
    ensures r.password == Pick(rec.password, u.password)
    ensures r.profile.AlumniProfile?
    ensures var f, g := rec.profile.alumni, r.profile.alumni;
      && g.name == Pick(f.name, u.name) && g.lastname == Pick(f.lastname, u.lastname)
      && g.department == Pick(f.department, u.department) && g.rollNumber == Pick(f.rollNumber, u.rollNumber)
      && g.graduationYear == Pick(f.graduationYear, u.graduationYear) && g.degree == Pick(f.degree, u.degree)
      && g.currentJobTitle == PickOption(f.currentJobTitle, u.currentJobTitle)
      && g.companyName == PickOption(f.companyName, u.companyName)
      && g.contactNumber == PickOption(f.contactNumber, u.contactNumber)
      && g.profilePicture == PickOption(f.profilePicture, u.profilePicture)
  {
    var f := rec.profile.alumni;
    rec.(
      email := Pick(rec.email, u.email),
      password := Pick(rec.password, u.password),
      role := Pick(rec.role, u.role),
      otp := PickOption(rec.otp, u.otp),
      otpExpires := PickOption(rec.otpExpires, u.otpExpires),
      createdAt := PickOption(rec.createdAt, u.createdAt),
      profile := AlumniProfile(AlumniFields(
        Pick(f.name, u.name), Pick(f.lastname, u.lastname), Pick(f.department, u.department),
        Pick(f.rollNumber, u.rollNumber), Pick(f.graduationYear, u.graduationYear), Pick(f.degree, u.degree),
        PickOption(f.currentJobTitle, u.currentJobTitle), PickOption(f.companyName, u.companyName),
        PickOption(f.contactNumber, u.contactNumber), PickOption(f.profilePicture, u.profilePicture))))
  }

  /** An update that gives no path leaves the document as it is. */
  lemma EmptyUpdateIsIdentity(rec: Account)
    requires rec.profile.AlumniProfile?
    ensures ApplyUpdate(rec, AlumniUpdate(None, None, None, None, None, None, None, None, None, None, None, None, None, None, None, None)) == rec
  {
  }

  /** The update data after the uploaded file: its path replaces whatever
      profilePicture the body gave. */
  function WithUpload(u: AlumniUpdate, file: Option<string>): (r: AlumniUpdate)
    ensures file.Some? ==> r.profilePicture == file
    ensures r == u.(profilePicture := r.profilePicture)
    ensures file.None? ==> r == u
  {
    if file.Some? then u.(profilePicture := file) else u
  }

  /** Another document already holds the email the update sets. */
  predicate EmailClash(rows: seq<Account>, i: nat, u: AlumniUpdate)
  {
    u.email.Some? && exists j :: 0 <= j < |rows| && j != i && rows[j].email == u.email.value
  }

  /** A clash is on an email the collection already holds. */
  lemma ClashHoldsEmail(rows: seq<Account>, i: nat, u: AlumniUpdate)
    requires EmailClash(rows, i, u)
    ensures u.email.Some? && AuthController.HasEmail(rows, u.email.value)
  {
  }

  /** Under the unique email index, an update that sends the document's own
      email back clashes with nobody. */
  lemma OwnEmailNoClash(rows: seq<Account>, i: nat, u: AlumniUpdate)
    requires UniqueEmails(rows) && i < |rows| && u.email == Some(rows[i].email)
    ensures !EmailClash(rows, i, u)
  {
  }

  const DuplicateKeyLeadIn: string :=
    "E11000 duplicate key error collection: alumnis index: email_1 dup key: " + [OpenBrace] + " email: " + [Quote]

  /** The unique email index's refusal: it quotes the email right after the
      lead-in. */
  function DuplicateKey(email: string): (m: string)
    ensures |DuplicateKeyLeadIn| + |email| <= |m|
    ensures m[|DuplicateKeyLeadIn|..|DuplicateKeyLeadIn| + |email|] == email
  {
    DuplicateKeyLeadIn + email + [Quote, ' ', CloseBrace]
  }

  /** exports.updateAlumni. `file` is the path multer stored the upload at. */
  method UpdateAlumni(db: Database, validationErrors: seq<string>, id: IdParam, body: AlumniUpdate,
                      file: Option<string>) returns (reply: ApiReply)
    requires db.Valid()
    modifies db
    ensures db.Valid()
    ensures reply.responseCode in {200, 400, 404}
    ensures validationErrors != [] ==> reply == ValidationReply(validationErrors)
    ensures validationErrors == [] && id.Malformed? ==> reply == MessageReply(400, CastError(id.text))
    ensures validationErrors == [] && id.ObjectId? && FindById(old(db.tables).alumni, id.value).None? ==>
      reply == MessageReply(404, "Alumni not found")
    ensures reply.responseCode != 200 ==> db.tables == old(db.tables)
    ensures reply.responseCode == 200 <==>
      && validationErrors == [] && id.ObjectId? && FindById(old(db.tables).alumni, id.value).Some?
      && !EmailClash(old(db.tables).alumni, FindById(old(db.tables).alumni, id.value).value, body)
    ensures reply.responseCode == 200 ==>
      var i := FindById(old(db.tables).alumni, id.value).value;
      var rec := ApplyUpdate(old(db.tables).alumni[i], WithUpload(body, file));
      && db.tables == old(db.tables).Put(Hit(AlumniKind, i), rec)
      && reply == ApiReply(200, "Alumni updated successfully!", None, One(rec))
  {
    if validationErrors != [] {
      return ValidationReply(validationErrors);
    }
    var updateData := body;
    if file.Some? {
      updateData := updateData.(profilePicture := file);
    }
    assert updateData == WithUpload(body, file);
    if id.Malformed? {
      return MessageReply(400, CastError(id.text));
    }
    var found := FindById(db.tables.alumni, id.value);
    if found.None? {
      return MessageReply(404, "Alumni not found");
    }
    var i := found.value;
    TablesValidAt(db.tables, db.faculty, AlumniKind);
    var holder := FindFirst(db.tables.alumni, (a: Account) => updateData.email.Some? && a.email == updateData.email.value);
    var clash := holder.Some? && holder.value != i;
    if !clash && holder.Some? {
      // the first holder is the document itself; being unique, it is the only one
      assert forall j :: 0 <= j < |db.tables.alumni| && j != i ==> db.tables.alumni[j].email != updateData.email.value;
    }
    if clash {
      assert EmailClash(db.tables.alumni, i, body);
      return MessageReply(400, DuplicateKey(updateData.email.value));
    }
    var updated := ApplyUpdate(db.tables.alumni[i], updateData);
    db.Replace(Hit(AlumniKind, i), updated);
    reply := ApiReply(200, "Alumni updated successfully!", None, One(updated));
  }

  /** A password set through an update as ordinary text is stored as that
      text, which no login attempt verifies against: the alumnus is locked out
      until a reset. */
  lemma UpdatedPasswordLocksOut(rec: Account, u: AlumniUpdate, text: string, attempt: string)
    requires rec.profile.AlumniProfile? && u.password == Some(Plain(text))
    ensures ApplyUpdate(rec, u).password == Plain(text)
    ensures !Compare(attempt, ApplyUpdate(rec, u).password)
  {
  }

  /** A body whose password is the text of a bcrypt digest of q is stored as
      that digest, so q then logs in. Create and reset both hash twice, so
      this is the one way an Admin or Alumni account gets a working
      password. */
  lemma UpdateWithDigestLogsIn(db: Tables, i: nat, u: AlumniUpdate, q: string, nowMs: int, secret: string)
    requires i < |db.alumni| && db.alumni[i].profile.AlumniProfile?
    requires u.email.None? && u.password == Some(Hash(Plain(q)))
    requires AuthController.GetUserByEmail(db, db.alumni[i].email) == Some(Hit(AlumniKind, i))
    requires secret != ""
    ensures var updated := db.Put(Hit(AlumniKind, i), ApplyUpdate(db.alumni[i], u));
      AuthController.Login(updated, db.alumni[i].email, Some(q), nowMs, Some(secret)).status == 200
  {
    var h := Hit(AlumniKind, i);
    var rec := ApplyUpdate(db.alumni[i], u);
    AuthController.ResolutionStable(db, h, rec, db.alumni[i].email);
    assert db.Put(h, rec).At(h) == rec;
  }

  /** Nothing keeps the reset code out of an update body: whoever may update
      an alumnus can plant a code and an expiry of their choosing, which
      resetPassword then accepts, and so set the password without the code
      ever being mailed. */
  lemma UpdatePlantsResetCode(rec: Account, u: AlumniUpdate, code: string, expires: int, nowMs: int)
    requires rec.profile.AlumniProfile?
    requires u.otp == Some(code) && u.otpExpires == Some(expires) && nowMs <= expires
    ensures AuthController.CodeAccepted(ApplyUpdate(rec, u), Some(code), nowMs)
  {
  }

  // ------------------------------------------------------------ delete

  /** The reply of a delete and the Alumni collection after it. */
  datatype DeleteOutcome = DeleteOutcome(reply: ApiReply, rows: seq<Account>)

  /** The error every call of exports.deleteAlumni raises: the handler's first
      statement names `mongoose`, which the file never requires. */
  const MongooseUndefined: string := "mongoose is not defined"

  /** exports.deleteAlumni as written: the ReferenceError is caught and
      answered 500, before any lookup or deletion. */
  function DeleteAsWritten(rows: seq<Account>, id: IdParam): (o: DeleteOutcome)
    ensures o.reply.responseCode == 500 && o.rows == rows
  {
    DeleteOutcome(MessageReply(500, MongooseUndefined), rows)
  }

  /** exports.deleteAlumni with `mongoose` in scope: an invalid id is refused,
      an unknown id is 404, a known id's document is removed. */
  function DeleteCorrected(rows: seq<Account>, id: IdParam): (o: DeleteOutcome)
    ensures id.Malformed? ==> o == DeleteOutcome(MessageReply(400, "Invalid ID format"), rows)
    ensures id.ObjectId? && FindById(rows, id.value).None? ==> o == DeleteOutcome(MessageReply(404, "Alumni not found"), rows)
    ensures o.reply.responseCode == 200 <==> id.ObjectId? && FindById(rows, id.value).Some?
    ensures o.reply.responseCode == 200 ==>
      && o.reply == MessageReply(200, "Alumni deleted successfully!")
      && o.rows == Removed(rows, FindById(rows, id.value).value)
  {
    match id
    case Malformed(_) => DeleteOutcome(MessageReply(400, "Invalid ID format"), rows)
    case ObjectId(value) =>
      match FindById(rows, value)
      case None => DeleteOutcome(MessageReply(404, "Alumni not found"), rows)
      case Some(i) => DeleteOutcome(MessageReply(200, "Alumni deleted successfully!"), Removed(rows, i))
  }

  /** With unique `_id`s, the corrected delete removes exactly the document
      holding the id and keeps every other. */
  lemma DeleteRemovesExactly(rows: seq<Account>, i: nat)
    requires UniqueIds(rows) && i < |rows|
    ensures var o := DeleteCorrected(rows, ObjectId(rows[i].id));
      && o.reply.responseCode == 200
      && (forall a :: a in o.rows <==> a in rows && a.id != rows[i].id)
  {
    FindByIdUnique(rows, i);
    var o := DeleteCorrected(rows, ObjectId(rows[i].id));
    forall a ensures a in o.rows <==> a in rows && a.id != rows[i].id {
      if a in o.rows {
        var k :| 0 <= k < |o.rows| && o.rows[k] == a;
        var k0 := if k < i then k else k + 1;
        assert a == rows[k0] && k0 != i;
        if k0 < i { assert rows[k0].id != rows[i].id; } else { assert rows[i].id != rows[k0].id; }
      }
      if a in rows && a.id != rows[i].id {
        var k :| 0 <= k < |rows| && rows[k] == a;
        assert k != i;
        if k < i { assert o.rows[k] == a; } else { assert o.rows[k - 1] == a; }
      }
    }
  }

  /** The discrepancy: on a collection holding one alumnus, deleting it by its
      id succeeds in the corrected handler and fails, removing nothing, in the
      handler as written. */
  lemma DeleteAsWrittenNeverDeletes(rec: Account)
    ensures DeleteCorrected([rec], ObjectId(rec.id)).reply.responseCode == 200
    ensures DeleteCorrected([rec], ObjectId(rec.id)).rows == []
    ensures DeleteAsWritten([rec], ObjectId(rec.id)).reply == MessageReply(500, MongooseUndefined)
    ensures DeleteAsWritten([rec], ObjectId(rec.id)).rows == [rec]
  {
    assert FindById([rec], rec.id) == Some(0);
  }

  /** exports.deleteAlumni as written; it changes nothing. */
  method DeleteAlumni(db: Database, id: IdParam) returns (reply: ApiReply)
    ensures reply == DeleteAsWritten(db.tables.alumni, id).reply
  {
    reply := MessageReply(500, MongooseUndefined);
  }

  /** exports.deleteAlumni as evidently intended. */
  method DeleteAlumniIntended(db: Database, id: IdParam) returns (reply: ApiReply)
    requires db.Valid()
    modifies db
    ensures db.Valid()
    ensures reply == DeleteCorrected(old(db.tables).alumni, id).reply
    ensures db.tables == old(db.tables).With(AlumniKind, DeleteCorrected(old(db.tables).alumni, id).rows)
  {
    if id.Malformed? {
      assert db.tables.With(AlumniKind, db.tables.alumni) == db.tables;
      return MessageReply(400, "Invalid ID format");
    }
    var found := FindById(db.tables.alumni, id.value);
    if found.None? {
      assert db.tables.With(AlumniKind, db.tables.alumni) == db.tables;
      return MessageReply(404, "Alumni not found");
    }
    db.Remove(Hit(AlumniKind, found.value));
    reply := MessageReply(200, "Alumni deleted successfully!");
  }
}
