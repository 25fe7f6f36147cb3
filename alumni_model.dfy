/** models/Alumni.js: the Alumni schema. */
module AlumniModel {
  import opened Wrappers
  import opened Bcrypt
  import opened Accounts

  /** Alumni re-hashes a modified password on save and declares `otpExpires`;
      it has a createdAt default but no timestamps option. */
  const Schema: KindSchema := KindSchema("Alumni", true, true, false)

  const DefaultRole: string := "alumni"

  /** The values given to `new Alumni({...})`; None is a path left undefined.
      `department` is the text of a Department ObjectId. */
  datatype AlumniInput = AlumniInput(
    name: Option<string>, lastname: Option<string>, department: Option<string>,
    rollNumber: Option<string>, graduationYear: Option<int>, degree: Option<string>,
    currentJobTitle: Option<string>, companyName: Option<string>, contactNumber: Option<string>,
    email: Option<string>, password: Option<Secret>, role: Option<string>,
    profilePicture: Option<string>)

  /** Every required path is given: name, lastname, department, rollNumber,
      graduationYear, degree, email and password. An ObjectId or Number path
      only needs to be present; a String path must also be non-empty. */
  predicate Complete(input: AlumniInput)
  {
    && PresentString(input.name) && PresentString(input.lastname)
    && input.department.Some? && PresentString(input.rollNumber)
    && input.graduationYear.Some? && PresentString(input.degree)
    && PresentString(input.email) && PresentSecret(input.password)
  }

  /** The failed required validators, in schema order. */
  function Failures(input: AlumniInput): (errs: seq<string>)
    ensures errs == [] <==> Complete(input)
  {
    Require("name", PresentString(input.name))
    + Require("lastname", PresentString(input.lastname))
    + Require("department", input.department.Some?)
    + Require("rollNumber", PresentString(input.rollNumber))
    + Require("graduationYear", input.graduationYear.Some?)
    + Require("degree", PresentString(input.degree))
    + Require("email", PresentString(input.email))
    + Require("password", PresentSecret(input.password))
  }

  /** A new Alumni document as validation accepts it: the role defaults to
      "alumni", createdAt defaults to the construction time, otp and otpExpires
      start absent. Emails are unique per collection (enforced by the store);
      rollNumber carries no uniqueness constraint of its own. */
  function NewAlumni(id: nat, input: AlumniInput, now: int): (r: Result<Account>)
    ensures r.Ok? <==> Complete(input)
    ensures r.Err? ==> r.message == ValidationMessage("Alumni", Failures(input))
    ensures r.Ok? ==> && r.value.id == id
                      && r.value.email == input.email.value
                      && r.value.password == input.password.value
                      && r.value.role == (if input.role.Some? then input.role.value else DefaultRole)
                      && r.value.createdAt == Some(now)
                      && r.value.otp.None? && r.value.otpExpires.None?
                      && r.value.profile == AlumniProfile(AlumniFields(
                           input.name.value, input.lastname.value, input.department.value,
                           input.rollNumber.value, input.graduationYear.value, input.degree.value,
                           input.currentJobTitle, input.companyName, input.contactNumber,
                           input.profilePicture))
  {
    var errs := Failures(input);
    if errs != [] then Err(ValidationMessage("Alumni", errs))
    else
      Ok(Account(id, input.email.value, input.password.value,
                 if input.role.Some? then input.role.value else DefaultRole,
                 None, None, Some(now), None,
                 AlumniProfile(AlumniFields(
                   input.name.value, input.lastname.value, input.department.value,
                   input.rollNumber.value, input.graduationYear.value, input.degree.value,
                   input.currentJobTitle, input.companyName, input.contactNumber,
                   input.profilePicture))))
  }

  /** On save the password is re-hashed if and only if it was modified. */
  lemma SaveHashesIffModified(doc: Account, modified: bool, isNew: bool, now: int)
    ensures Saved(Schema, doc, modified, isNew, now).password
         == (if modified then Hash(doc.password) else doc.password)
    ensures Saved(Schema, doc, modified, isNew, now).createdAt == doc.createdAt
  {
  }
}
