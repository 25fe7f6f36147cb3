/** models/User.js: the User schema. */
module UserModel {
  import opened Wrappers
  import opened Bcrypt
  import opened Accounts

  /** User has no save hook, names its expiry path `otpExpiry` (so `otpExpires`
      is not a path of it) and has no timestamps. */
  const Schema: KindSchema := KindSchema("User", false, false, false)

  const Roles: seq<string> := ["student", "alumni", "faculty", "admin"]

  /** The values given to `new User({...})`; None is a path left undefined. */
  datatype UserInput = UserInput(
    name: Option<string>, email: Option<string>, password: Option<Secret>,
    role: Option<string>, otp: Option<string>, otpExpiry: Option<int>, isAdmin: Option<bool>)

  function EnumError(value: string, path: string): string
  {
    "`" + value + "` is not a valid enum value for path `" + path + "`."
  }

  /** The errors of the role path: required first, then the enum. */
  function RoleFailures(role: Option<string>): (errs: seq<string>)
    ensures errs == [] <==> role.Some? && role.value in Roles
  {
    if !PresentString(role) then [RequiredError("role")]
    else if role.value !in Roles then ["role: " + EnumError(role.value, "role")]
    else []
  }

  /** The failed validators, in schema order. */
  function Failures(input: UserInput): (errs: seq<string>)
    ensures errs == [] <==> && PresentString(input.name) && PresentString(input.email)
                            && PresentSecret(input.password)
                            && input.role.Some? && input.role.value in Roles
  {
    Require("name", PresentString(input.name))
    + Require("email", PresentString(input.email))
    + Require("password", PresentSecret(input.password))
    + RoleFailures(input.role)
  }

  /** A new User document as validation accepts it: name, email, password and
      a role from the enum are required, isAdmin defaults to false. */
  function NewUser(id: nat, input: UserInput): (r: Result<Account>)
    ensures r.Ok? <==> Failures(input) == []
    ensures r.Err? ==> r.message == ValidationMessage("User", Failures(input))
    ensures r.Ok? ==> && r.value.id == id
                      && r.value.email == input.email.value
                      && r.value.password == input.password.value
                      && r.value.role in Roles && Some(r.value.role) == input.role
                      && r.value.otpExpires.None?
                      && r.value.createdAt.None? && r.value.updatedAt.None?
                      && r.value.profile == UserProfile(UserFields(input.name.value,
                           if input.isAdmin.Some? then input.isAdmin.value else false,
                           input.otpExpiry))
  {
    var errs := Failures(input);
    if errs != [] then Err(ValidationMessage("User", errs))
    else
      Ok(Account(id, input.email.value, input.password.value, input.role.value,
                 input.otp, None, None, None,
                 UserProfile(UserFields(input.name.value,
                             if input.isAdmin.Some? then input.isAdmin.value else false,
                             input.otpExpiry))))
  }

  /** With no save hook, whatever was assigned to the password is stored as it
      is, and nothing assigned to `otpExpires` is stored. */
  lemma SaveStoresAssignedPassword(doc: Account, modified: bool, isNew: bool, now: int)
    ensures Saved(Schema, doc, modified, isNew, now).password == doc.password
    ensures Saved(Schema, doc, modified, isNew, now).otpExpires.None?
  {
  }
}
