/**
  The record every account collection shares, what a model's schema says
  about it, and what Mongoose does to a document when it is saved.
*/
module Accounts {
  import opened Wrappers
  import opened Bcrypt
  import Text

  /** The four account collections, in the order login resolves an email. */
  datatype Kind = AdminKind | AlumniKind | FacultyKind | UserKind

  /** models/Admin.js: the descriptive paths of an Admin, all optional. */
  datatype AdminFields = AdminFields(
    name: Option<string>, lastName: Option<string>, department: Option<string>,
    designation: Option<string>, qualification: Option<string>, contactNumber: Option<string>)

  /** models/Alumni.js: the descriptive paths of an Alumni this model keeps;
      `department` is the text of a Department ObjectId. */
  datatype AlumniFields = AlumniFields(
    name: string, lastname: string, department: string, rollNumber: string,
    graduationYear: int, degree: string, currentJobTitle: Option<string>,
    companyName: Option<string>, contactNumber: Option<string>, profilePicture: Option<string>)

  /** models/User.js: the descriptive paths of a User, with its own (never
      written) `otpExpiry`. */
  datatype UserFields = UserFields(name: string, isAdmin: bool, otpExpiry: Option<int>)

  /** The fields only one kind of account has. Faculty's schema is not part of
      this model, so its profile carries nothing. */
  datatype Profile =
    | AdminProfile(admin: AdminFields)
    | AlumniProfile(alumni: AlumniFields)
    | FacultyProfile
    | UserProfile(user: UserFields)

  function ProfileKind(p: Profile): Kind
  {
    match p
    case AdminProfile(_) => AdminKind
    case AlumniProfile(_) => AlumniKind
    case FacultyProfile => FacultyKind
    case UserProfile(_) => UserKind
  }

  /** A stored account document. Times are milliseconds since the epoch. */
  datatype Account = Account(
    id: nat,
    email: string,
    password: Secret,
    role: string,
    otp: Option<string>,
    otpExpires: Option<int>,
    createdAt: Option<int>,
    updatedAt: Option<int>,
    profile: Profile)

  /** What a model's schema decides about saving: whether a pre('save') hook
      re-hashes a modified password, whether `otpExpires` is a schema path (a
      value assigned to any other path is not persisted), and whether the
      schema has `{ timestamps: true }`. */
  datatype KindSchema = KindSchema(
    modelName: string,
    hashesOnSave: bool,
    storesOtpExpires: bool,
    timestamps: bool)

  /** The password the hash-if-modified hook leaves: hashed exactly when the
      schema has the hook and the password path was modified. */
  function HookedPassword(schema: KindSchema, password: Secret, modified: bool): (r: Secret)
    ensures r == Hash(password) <==> schema.hashesOnSave && modified
    ensures r != Hash(password) ==> r == password
  {
    if schema.hashesOnSave && modified then Hash(password) else password
  }

  /** The record that document.save() persists: the pre-save hook's password,
      `otpExpires` only where the schema declares it, and the timestamps. */
  function Saved(schema: KindSchema, doc: Account, passwordModified: bool, isNew: bool, now: int): (r: Account)
    ensures r.id == doc.id && r.email == doc.email && r.role == doc.role
    ensures r.otp == doc.otp && r.profile == doc.profile
    ensures r.password == HookedPassword(schema, doc.password, passwordModified)
    ensures r.otpExpires == (if schema.storesOtpExpires then doc.otpExpires else None)
    ensures r.createdAt == (if schema.timestamps && isNew then Some(now) else doc.createdAt)
    ensures r.updatedAt == (if schema.timestamps then Some(now) else doc.updatedAt)
  {
    doc.(password := HookedPassword(schema, doc.password, passwordModified),
         otpExpires := if schema.storesOtpExpires then doc.otpExpires else None,
         createdAt := if schema.timestamps && isNew then Some(now) else doc.createdAt,
         updatedAt := if schema.timestamps then Some(now) else doc.updatedAt)
  }

  /** A save in which the password was not touched keeps the stored password,
      whatever else changed. */
  lemma SaveKeepsUntouchedPassword(schema: KindSchema, doc: Account, isNew: bool, now: int)
    ensures Saved(schema, doc, false, isNew, now).password == doc.password
  {
  }

  // ------------------------------------------------------------ validation

  /** A `required: true` String path accepts a present, non-empty string. */
  predicate PresentString(v: Option<string>)
  {
    v.Some? && v.value != ""
  }

  /** A `required: true` password path: present, and not the empty string. */
  predicate PresentSecret(v: Option<Secret>)
  {
    v.Some? && NonEmpty(v.value)
  }

  /** The message of a failed `required` validator on a path. */
  function RequiredError(path: string): string
  {
    path + ": Path `" + path + "` is required."
  }

  /** The errors a required path contributes: none when present. */
  function Require(path: string, present: bool): (errs: seq<string>)
    ensures errs == [] <==> present
  {
    if present then [] else [RequiredError(path)]
  }

  /** The message of a ValidationError: the model's name, then every failed
      path in schema order, separated by ", ". */
  function ValidationMessage(modelName: string, errors: seq<string>): (r: string)
    ensures modelName + " validation failed: " <= r
    ensures |errors| == 1 ==> r == modelName + " validation failed: " + errors[0]
  {
    modelName + " validation failed: " + Text.Join(errors, ", ")
  }
}
