/** models/Admin.js: the Admin schema. */
module AdminModel {
  import opened Wrappers
  import opened Bcrypt
  import opened Accounts

  /** Admin re-hashes a modified password on save, declares `otpExpires`, and
      has createdAt/updatedAt timestamps. */
  const Schema: KindSchema := KindSchema("Admin", true, true, true)

  const DefaultRole: string := "admin"

  /** The values given to `new Admin({...})`; None is a path left undefined. */
  datatype AdminInput = AdminInput(
    name: Option<string>, lastName: Option<string>, department: Option<string>,
    designation: Option<string>, qualification: Option<string>, contactNumber: Option<string>,
    email: Option<string>, password: Option<Secret>, role: Option<string>,
    otp: Option<string>, otpExpires: Option<int>)

  /** The failed required validators, in schema order. */
  function Failures(input: AdminInput): (errs: seq<string>)
    ensures errs == [] <==> PresentString(input.email) && PresentSecret(input.password)
  {
    Require("email", PresentString(input.email)) + Require("password", PresentSecret(input.password))
  }

  /** A new Admin document as validation accepts it: email and password are
      required, the descriptive fields, otp and otpExpires are optional, and the
      role defaults to "admin". The timestamps are set by the first save. */
  function NewAdmin(id: nat, input: AdminInput): (r: Result<Account>)
    ensures r.Ok? <==> PresentString(input.email) && PresentSecret(input.password)
    ensures r.Err? ==> r.message == ValidationMessage("Admin", Failures(input))
    ensures r.Ok? ==> && r.value.id == id
                      && r.value.email == input.email.value
                      && r.value.password == input.password.value
                      && r.value.role == (if input.role.Some? then input.role.value else DefaultRole)
                      && r.value.otp == input.otp && r.value.otpExpires == input.otpExpires
                      && r.value.createdAt.None? && r.value.updatedAt.None?
                      && r.value.profile == AdminProfile(AdminFields(
                           input.name, input.lastName, input.department,
                           input.designation, input.qualification, input.contactNumber))
  {
    var errs := Failures(input);
    if errs != [] then Err(ValidationMessage("Admin", errs))
    else
      Ok(Account(id, input.email.value, input.password.value,
                 if input.role.Some? then input.role.value else DefaultRole,
                 input.otp, input.otpExpires, None, None,
                 AdminProfile(AdminFields(input.name, input.lastName, input.department,
                                          input.designation, input.qualification,
                                          input.contactNumber))))
  }

  /** The first save of a new Admin stores the digest of the assigned password
      and stamps createdAt and updatedAt with the save time. */
  lemma FirstSaveHashesAndStamps(doc: Account, now: int)
    ensures Saved(Schema, doc, true, true, now).password == Hash(doc.password)
    ensures Saved(Schema, doc, true, true, now).createdAt == Some(now)
    ensures Saved(Schema, doc, true, true, now).updatedAt == Some(now)
  {
  }

  /** On a later save the password is re-hashed if and only if it was modified. */
  lemma SaveHashesIffModified(doc: Account, modified: bool, now: int)
    ensures Saved(Schema, doc, modified, false, now).password
         == (if modified then Hash(doc.password) else doc.password)
  {
  }
}
