# DuetCareerHub accounts core in Dafny

This project models the account and identity part of the DuetCareerHub
backend, an Express/Mongoose server for an alumni-management platform, and
proves properties of that model. It covers:

- **Stored accounts.** The Admin, Alumni and User Mongoose models: required
  paths, defaults, the pre-save hook that hashes a modified password, which
  paths a document persists, and timestamps.
- **The document store.** A document is loaded, assigned to in place, and
  saved. The four collections (Admin, Alumni, Faculty, User) keep an
  invariant: documents fit their kind, `_id`s are unique, and emails are
  unique where the schema says so.
- **Authentication** (`controllers/authController.js`):
  - an email is resolved across the four collections in priority order;
  - login issues a one-hour token and never writes;
  - the two-step reset first stores a 4-digit code and its expiry, then
    checks the code and replaces the password.
- **The Alumni registry** (`controllers/alumniController.js`):
  - create checks a unique (rollNumber, department) pair, then a unique email;
  - list pages and counts over an abstract regular-expression matcher;
  - get by id;
  - update merges the body and lets an uploaded file's path win;
  - delete appears twice: as written, and corrected.
- **Statistics** (`controllers/statsController.js`):
  - the "last month" window is built with JavaScript `Date.setMonth` /
    `setDate`, including the day-of-month overflow;
  - `createdAt` is counted in a half-open window;
  - the latest five announcements and latest three events are selected.

## Modules

`wrappers.dfy` holds Option and Result, and `numbers.dfy` the integer helpers
`Abs` and `Min`. The remaining files are:

| file | module | what it models |
|---|---|---|
| `bcrypt.dfy` | `Bcrypt` | Password hashing. A stored secret is a plaintext or a digest of a secret. `Compare` accepts exactly a single digest of the plaintext. |
| `jwt.dfy` | `Jwt` | Token signing and verification. `iat` and `exp` are in whole seconds, as in section 4.1 of RFC 7519. |
| `text.dfy` | `Text` | `Array.prototype.join`, `String.prototype.trim`, and decimal rendering of integers. |
| `accounts.dfy` | `Accounts` | The common account record and one profile per kind. A schema is captured by its flags: hook, `otpExpires` path, timestamps. `Saved` gives the record that `save()` persists. Validation messages. |
| `admin_model.dfy`, `alumni_model.dfy`, `user_model.dfy` | `AdminModel`, `AlumniModel`, `UserModel` | Each schema and the validating constructor of a new document. |
| `store.dfy` | `Store` | The collections as a value (`Tables`, with `findOne` as `FindFirst` and the invariant `TablesValid`). The `Document` class: in-place assignments, the pre-save hook, persisting. The `Database` class: fetch, save, insert, replace, remove. Each keeps the invariant. |
| `auth_controller.dfy` | `AuthController` | The email lookup, login, `forgetPassword` and `resetPassword`. Flow lemmas link the three handlers. |
| `alumni_controller.dfy` | `AlumniController` | The five Alumni handlers. |
| `stats_controller.dfy` | `StatsController` | The `JsDate` class, the window, the counts, the latest-k selections, and `getStats`. |

Parameters stand in for all I/O and outside state:

- the clock (milliseconds);
- the random draw behind the reset code;
- the JWT secret;
- the outcome of sending mail;
- the `_id` the driver generates;
- the express-validator messages;
- the uploaded file's path;
- the error of a failing statistics query;
- the conversion from stored instants to local calendar dates;
- the MongoDB regular-expression engine.

## Behaviour the model follows that a reader might not expect

These come straight from the code. The model proves them rather than
correcting them.

- **The reset code is accepted at the exact expiry instant.** The check is
  `user.otp !== otp || user.otpExpires < Date.now()`, so a code is accepted
  while `now <= expiry`. Two more things follow from JavaScript semantics.
  With no reset pending, a request that submits no code passes the check,
  because absent `!==` absent is false. A missing expiry never counts as
  expired, because `undefined < now` is false.
- **On User accounts the code never expires.** The User schema names its
  expiry path `otpExpiry`. The controller assigns `otpExpires`, which is not
  a User path and is never persisted. So a User account holds a code with no
  expiry.
- **Resetting the password locks Admin and Alumni accounts out.**
  `resetPassword` hashes the new password. The Admin and Alumni save hooks
  then hash it again. The password the user chose does not verify against
  this digest of a digest; only the text of the inner digest would, and that
  text never leaves the handler. `createAlumni` does the same double hash,
  so a newly created alumnus cannot log in with the chosen password either.
  User accounts have no hook, so for them the new password works.
- **A password set through `updateAlumni` is stored as sent.**
  `findByIdAndUpdate` runs neither the hook nor the validators. Ordinary
  text stored this way verifies no login. A body whose password is the text
  of a bcrypt digest of q is stored as that digest, and then q logs in. This
  is the only way an Admin or Alumni account gets a working password.
- **`getAlumniById` and `getAllAlumni` return whole documents,** including
  the password digest and any pending reset code with its expiry.
- **The statistics window can be empty, and it is not midnight-aligned.**
  When today's day of month does not exist in the previous month (for
  example on 31 May, since April has 30 days), `setMonth` rolls over into
  the current month. Then the window's start
  equals its end, and every "last month" count is 0. The window's bounds
  also carry the current time of day.
- **The last-month count of Users is 0.** The User schema has neither a
  `createdAt` path nor timestamps, so no stored User document carries one,
  and a filter on `createdAt` matches none. This holds while Mongoose's
  `strictQuery` is off, as it is by default in Mongoose 7 (see "Left out").
- **An update can plant a reset code.** `updateAlumni` passes the body to
  `findByIdAndUpdate` whole, and `otp` and `otpExpires` are Alumni schema
  paths. A body that sets them plants a code of its sender's choosing, which
  `resetPassword` then accepts.

## Model

| member | source | states |
|---|---|---|
| Bcrypt.Hash | controllers/authController.js:102 | A digest is one hashing round deeper than its input and never equal to it. |
| Bcrypt.Compare | controllers/authController.js:26 | A plaintext verifies only against a digest of exactly that plaintext. |
| Bcrypt.CompareDigestOf | controllers/authController.js:26 | The digest of q verifies the plaintext p exactly when p == q (see "Left out" for the injectivity this assumes). |
| Bcrypt.CompareNeedsOneRound | controllers/authController.js:26 | Only a value hashed exactly once verifies a client string. Stored client text or a double digest verifies none (see "Left out"). |
| Bcrypt.DoubleHashVerifiesNothing | models/Admin.js:32-37 | A password hashed twice is not verified by that password, nor by any client string the model can express (see "Left out"). |
| Jwt.Sign | controllers/authController.js:37-41 | Signing succeeds exactly when the secret is present and non-empty. The token carries the given claims and key, `iat` = floor(now/1000) and `exp` = `iat` + 3600. Otherwise the result is the library's error. |
| Jwt.SignThenVerify | controllers/authController.js:37-41 | A signed token verifies with its claims under its own key while its `exp` has not been reached, and after that fails as "jwt expired". Under any other key it fails as "invalid signature". |
| Jwt.TokenLifetime | controllers/authController.js:40 | A token is valid when issued and has expired 3 600 000 ms later. |
| Text.Join | controllers/alumniController.js:12 | No parts join to "". Otherwise the joined text starts with the first part. |
| Text.JoinLength | controllers/alumniController.js:12 | The joined text is as long as the parts, plus the separator between each pair. |
| Text.JoinPart | controllers/alumniController.js:12 | Part i appears in the joined text at its computed offset. |
| Text.JoinSeparator | controllers/alumniController.js:12 | The separator appears right after every part but the last. |
| Text.JoinSingle | controllers/alumniController.js:12 | A single part joins to itself. |
| Text.Trim | controllers/alumniController.js:83 | The result is an infix of the input with only trimmable characters cut from each end. It neither starts nor ends with one. |
| Text.TrimIdempotent | controllers/alumniController.js:83 | Trimming twice equals trimming once. |
| Text.TrimBlank | controllers/alumniController.js:83 | An all-whitespace string trims to "". |
| Text.ToDecimal | controllers/authController.js:63 | The rendering is all digits, and has a leading '0' only for zero. |
| Text.ParseToDecimal | controllers/authController.js:63 | Reading the rendering back gives the number. |
| Text.ToDecimalInjective | controllers/authController.js:63 | Different numbers render differently. |
| Text.DecimalLength | controllers/authController.js:63 | A number in [10^(k-1), 10^k) renders with exactly k digits. |
| Accounts.HookedPassword | models/Admin.js:32-37 | The hook's password is the digest exactly when the schema hashes and the password was modified. Otherwise it is unchanged. |
| Accounts.Saved | models/Admin.js:4-37 | A save keeps id, email, role, otp and the profile. The password is the hook's result. `otpExpires` is kept only on schemas that declare it. createdAt and updatedAt follow the timestamps option. |
| Accounts.SaveKeepsUntouchedPassword | models/Admin.js:33 | A save that did not modify the password keeps it. |
| Accounts.Require | models/Alumni.js:5-15 | A required path contributes no error exactly when it is present. |
| Accounts.ValidationMessage | models/Alumni.js:5-15 | The message starts with the model's name and " validation failed: ". A single failed path follows verbatim. |
| AdminModel.Failures | models/Admin.js:11-19 | There are no errors exactly when email and password are present. |
| AdminModel.NewAdmin | models/Admin.js:4-29 | A new Admin is accepted exactly when email and password are present. Otherwise the result is the "Admin validation failed" message. An accepted Admin has the given fields, role "admin" by default, the optional otp and otpExpires, and no timestamps before its first save. |
| AdminModel.FirstSaveHashesAndStamps | models/Admin.js:29-37 | The first save stores the digest of the assigned password, and createdAt = updatedAt = the save time. |
| AdminModel.SaveHashesIffModified | models/Admin.js:32-37 | A save stores the digest exactly when the password was modified. Otherwise it stores the password unchanged. |
| AlumniModel.Failures | models/Alumni.js:5-15 | There are no errors exactly when name, lastname, department, rollNumber, graduationYear, degree, email and password are all present. |
| AlumniModel.NewAlumni | models/Alumni.js:4-40 | A new Alumni is accepted exactly when complete. Otherwise the result is the validation message. An accepted Alumni has role "alumni" by default, createdAt = the creation time, and no otp or expiry. |
| AlumniModel.SaveHashesIffModified | models/Alumni.js:42-47 | The password is re-hashed exactly when it was modified. createdAt is kept. |
| UserModel.RoleFailures | models/User.js:18-20 | There is no role error exactly when the role is present and one of student, alumni, faculty or admin. |
| UserModel.Failures | models/User.js:5-20 | There are no errors exactly when name, email, password and a valid role are given. |
| UserModel.NewUser | models/User.js:4-31 | A new User is accepted exactly when valid. isAdmin defaults to false. No `otpExpires` is stored. There are no timestamps. |
| UserModel.SaveStoresAssignedPassword | models/User.js:4-33 | With no hook, a save stores the assigned password as is, and never an `otpExpires`. |
| Store.Tables.Put | controllers/authController.js:66 | Putting a document replaces exactly one document of one collection. |
| Store.FindFirst | controllers/authController.js:12-15 | findOne returns the first document the filter accepts, or None when none does. |
| Store.FindFirstAfterUpdate | controllers/authController.js:12-15 | Replacing a document by one the filter judges alike leaves findOne's answer unchanged. |
| Store.Removed | controllers/alumniController.js:200 | Removing drops exactly the i-th document and keeps the order of the others. |
| Store.PutKeepsValid | models/Admin.js:11-15 | Replacing a document by one with the same id, email and kind keeps the collections' invariant. |
| Store.AppendKeepsValid | models/Alumni.js:14 | Appending a document with a new `_id` and, where unique, a new email keeps the invariant. |
| Store.ReplaceKeepsValid | models/Alumni.js:14 | Replacing a document by one with the same `_id` whose email no other document holds keeps the invariant. |
| Store.RemoveKeepsValid | controllers/alumniController.js:200 | Removing a document keeps the invariant. |
| Store.Document.SetPassword | controllers/authController.js:102 | Assigning the password changes only the password, and marks it modified. |
| Store.Document.SetOtp | controllers/authController.js:64 | Assigning otp changes only otp. |
| Store.Document.SetOtpExpires | controllers/authController.js:65 | Assigning otpExpires changes only otpExpires. |
| Store.Document.PreSave | models/Alumni.js:42-47 | The pre-save hook replaces the password by its digest exactly when the schema has the hook and the password was modified. |
| Store.Document.Persist | models/User.js:24-26 | Persisting drops paths the schema lacks (a User's `otpExpires`), sets the timestamps, and clears the modified flag. |
| Store.Database.Fetch | controllers/authController.js:12-15 | The loaded document is the stored one, unmodified. |
| Store.Database.Save | controllers/authController.js:66 | save() stores `Saved(...)` of the document in its slot, replacing only that document, and keeps the invariant. |
| Store.Database.Insert | controllers/alumniController.js:54 | save() of a new document appends `Saved(...)` to its collection and keeps the invariant. |
| Store.Database.Replace | controllers/alumniController.js:155 | findByIdAndUpdate replaces one document and keeps the invariant. |
| Store.Database.Remove | controllers/alumniController.js:200 | findByIdAndDelete removes one document and keeps the invariant. |
| AuthController.FindByEmail | controllers/authController.js:12-15 | findOne({ email }) gives the first document holding the email, or None exactly when no document holds it. |
| AuthController.FindByEmailAfterUpdate | controllers/authController.js:12-15 | Replacing a document by one with the same email leaves findOne({ email }) unchanged. |
| AuthController.GetUserByEmail | controllers/authController.js:11-16 | The hit holds the email. No collection earlier in the order Admin, Alumni, Faculty, User holds it, and no earlier document of its own collection does. None means no collection holds the email. |
| AuthController.AdminWins | controllers/authController.js:12 | An email any Admin holds resolves to an Admin. |
| AuthController.ResolvedKindIsFirstHolder | controllers/authController.js:11-16 | The resolved kind is the first kind in the order whose collection holds the email. |
| AuthController.ResolutionStable | controllers/authController.js:11-16 | Saving a document with its email unchanged does not change how any email resolves. |
| AuthController.ViewOf | controllers/authController.js:32-35 | The returned user is the account without password, otp and otpExpires. Every other field is kept. |
| AuthController.Login | controllers/authController.js:19-51 | An unknown email gets 404 "User not found". A missing password gets 500 with bcryptjs's error. A non-matching password gets 400 "Invalid credentials". Login gives 200 with a token exactly when the account exists, the password matches and the secret is set. The token carries `Claims(id, role)` of the resolved account and `exp` = `iat` + 3600. The response carries the view. Login takes the collections as input and returns no new state. |
| AuthController.LoginTokenVerifies | controllers/authController.js:37-47 | A successful login's token verifies under the same secret, with the account's id and role, during the hour after issue. |
| AuthController.OtpCode | controllers/authController.js:63 | A draw in [1000, 9999] renders as exactly 4 digits with a non-zero first digit, and parses back to the draw. |
| AuthController.OtpCodeInjective | controllers/authController.js:63 | Two draws give the same code exactly when they are equal. |
| AuthController.RequestReset | controllers/authController.js:63-66 | The saved record holds the code, and an expiry of now + 600000 only where the schema has `otpExpires`. Password, id, email, role, profile and createdAt are kept. |
| AuthController.CodeAccepted | controllers/authController.js:98 | A code is accepted exactly when the stored code equals the submitted one (absent equals absent) and there is no expiry or now <= expiry. |
| AuthController.CompleteReset | controllers/authController.js:102-105 | The saved record holds no code and no expiry. The password is H(H(p)) on hooked schemas and H(p) otherwise. Id, email, role, profile and createdAt are kept. |
| AuthController.RequestResetState | controllers/authController.js:63-66 | After a reset request, the record holds the 4-digit code and an expiry of now + 600000 where the schema has `otpExpires` (none on User). The password is untouched and the identity unchanged. |
| AuthController.FreshCodeWindow | controllers/authController.js:98 | A freshly stored code is accepted exactly while `later <= requested + 600000`, or at any time on a schema without an expiry. |
| AuthController.SecondRequestOverwrites | controllers/authController.js:63-66 | After a second request, the first code is accepted only if both draws were equal. |
| AuthController.ReplayRejected | controllers/authController.js:102-105 | After a reset, no code and no expiry remain, and every submitted code is rejected. |
| AuthController.NoPendingNoCodeAccepted | controllers/authController.js:98 | With no reset pending, a request with no code passes the check. |
| AuthController.ResetStoredPassword | controllers/authController.js:102-105 | A reset stores H(H(p)) on hooked schemas and H(p) otherwise. A client password q verifies against it exactly when the schema has no hook and q == p (see "Left out"). |
| AuthController.ResetMail | controllers/authController.js:77-82 | The mail goes to the given address with subject "Password Reset OTP", and carries the code right after the fixed lead-in. |
| AuthController.AfterForget | controllers/authController.js:57-66 | An unknown email changes nothing. Otherwise only the resolved document changes: it gets the code, and keeps its email and password. |
| AuthController.ForgetReply | controllers/authController.js:58-87 | The reply is 404 exactly for an unknown email, and 200 exactly when the account exists and the mail is delivered. A failed delivery gives 500 with the transport's message. |
| AuthController.ForgetPassword | controllers/authController.js:54-88 | The collections become `AfterForget`: the code and expiry are saved in the resolved document only, or nothing changes for an unknown email. The reply is 404, 200 "OTP sent to email", or 500 with the mail error, with the state still saved. The mail goes to the account's email, with the code in its text. The invariant is kept. |
| AuthController.AfterReset | controllers/authController.js:94-105 | Nothing changes unless the email resolves, the code is accepted and a new password is given. Then only the resolved document changes: no code, no expiry, and the password as the hook leaves H(p). |
| AuthController.ResetReply | controllers/authController.js:94-110 | The reply is 404 "User not found" exactly for an unknown email, 400 "Invalid or expired OTP" exactly when the code is rejected, and 200 "Password reset successful" exactly when it is accepted and a new password is given. An accepted code with no new password gets 500 with bcryptjs's error. |
| AuthController.ResetPassword | controllers/authController.js:91-111 | The collections become `AfterReset`. The reply is 404 for an unknown email; 400 "Invalid or expired OTP" when the check fails; 500 with bcryptjs's error when newPassword is missing; otherwise 200 "Password reset successful", with the password replaced and the reset fields cleared in one save. The invariant is kept. |
| AuthController.UnknownEmail | controllers/authController.js:22-25 | For an email no collection holds, login, forgetPassword and resetPassword all answer 404 and change nothing. |
| AuthController.RequestThenConfirm | controllers/authController.js:54-107 | After a request, the same account still resolves, the mailed code confirms with 200 up to the expiry, and the reset state ends cleared. |
| AuthController.ConfirmAfterExpiry | controllers/authController.js:98-100 | On schemas storing the expiry, confirming more than 600000 ms after the request gets 400 and changes nothing. |
| AuthController.UserCodeNeverExpires | models/User.js:24-26 | On a User account, the mailed code confirms with 200 at any later time. |
| AuthController.ConfirmTwice | controllers/authController.js:98-105 | A second confirm with the same code gets 400 and changes nothing. |
| AuthController.LoginAfterReset | controllers/authController.js:102-105 | After a successful reset, logging in with the new password gets 400 on hooked kinds (Admin, Alumni) and 200 otherwise. |
| AlumniController.ValidationReply | controllers/alumniController.js:7-13 | A validation failure is 400 with no data. Its message is the validator messages joined by ", " in their order, and has the joined length. |
| AlumniController.CastError | controllers/alumniController.js:118 | Mongoose's cast error quotes the malformed id right after its lead-in. |
| AlumniController.FindById | controllers/alumniController.js:118 | findById finds a document with the id, or None exactly when none has it. |
| AlumniController.FindByIdUnique | controllers/alumniController.js:118 | With unique ids, findById(rows[i].id) is i. |
| AlumniController.SameRoll | controllers/alumniController.js:22 | Only an Alumni document can match, and a body lacking rollNumber or department matches none. |
| AlumniController.RollTaken | controllers/alumniController.js:22-23 | `findOne({ rollNumber, department })` finds a document exactly when one has that pair, and only when the body gives both. |
| AlumniController.EmailTaken | controllers/alumniController.js:30-31 | `findOne({ email })` finds a document exactly when the body gives an email that some Alumni holds, which is when the login lookup in that collection finds it. |
| AlumniController.CreatedRecord | controllers/alumniController.js:36-54 | The created document has the new id, the body's email and an Alumni profile. Its password is neither the plaintext nor the controller's single digest. |
| AlumniController.CreatedRecordFacts | controllers/alumniController.js:36-54 | The created document has the new id, the body's email and fields, role "alumni", createdAt = now and no reset state. Its password is H(H(p)): not the plaintext, and no client string verifies against it (see "Left out"). |
| AlumniController.CreateAlumni | controllers/alumniController.js:6-75 | Validation errors come first, then a duplicate (rollNumber, department), then a duplicate email, then a missing password. Each is a 400 with its message. The create succeeds exactly when none applies and the document validates. On success, exactly the created record is appended, and the data is `{_id, first_name, last_name, email, phone, user_type: "alumni"}`. On failure nothing changes. |
| AlumniController.Filter | controllers/alumniController.js:94 | The kept documents are exactly those of the collection that the filter accepts. Each kept document occurs as often as in the collection, and a rejected one not at all. |
| AlumniController.FilterAppend | controllers/alumniController.js:94 | Filtering distributes over concatenation, so the kept documents stay in collection order. |
| AlumniController.FilterAll | controllers/alumniController.js:94 | A filter accepting everything keeps the whole collection. |
| AlumniController.Window | controllers/alumniController.js:95-96 | skip/limit give the contiguous run starting at skip, with min(limit, rest) documents; limit 0 means all and a negative limit counts by its magnitude. |
| AlumniController.ConsecutivePages | controllers/alumniController.js:95-96 | Two consecutive pages of size l together equal one page of size 2l: no document is skipped or repeated. |
| AlumniController.PageOf | controllers/alumniController.js:80-81 | page is the query's value, or 1 when it has none. |
| AlumniController.LimitOf | controllers/alumniController.js:80-82 | limit is the query's value, or 10 when it has none. |
| AlumniController.SearchOf | controllers/alumniController.js:80-83 | The search is "" when the query has none, and it never starts or ends with whitespace. |
| AlumniController.SkipOf | controllers/alumniController.js:95 | The skip is 0 on the first page (the default) and when the limit is 0. |
| AlumniController.Matches | controllers/alumniController.js:85-92 | Only Alumni documents match. A pattern the engine matches against no value selects nothing. |
| AlumniController.Matching | controllers/alumniController.js:85-94 | The search keeps exactly the alumni whose name, lastname, department or rollNumber matches, each as often as it occurs in the collection. |
| AlumniController.MatchingAll | controllers/alumniController.js:85-94 | A pattern matching every document keeps the whole collection. |
| AlumniController.NegativeSkip | controllers/alumniController.js:95-111 | The server's message starts with its fixed lead-in, followed by the digits of the skip's magnitude and a closing quote. |
| AlumniController.ListReply | controllers/alumniController.js:94-106 | A negative skip gets 400 with the server's message. Otherwise the reply is 200 with count = all matches. The page holds at most `limit` matches, is the run starting at skip, and contains only matching documents. It is exactly `Window(matching, skip, limit)`. |
| AlumniController.SkipOfSign | controllers/alumniController.js:95 | The skip `(page - 1) * limit` is non-negative exactly when page - 1 and limit do not have opposite signs. |
| AlumniController.GetAllAlumni | controllers/alumniController.js:80-98 | With defaults page 1 and limit 10 and a trimmed search, the reply is 200 exactly when `(page-1)*limit >= 0`, that is when page - 1 and limit do not have opposite signs. Then count = the number of matches, and the page is `Window` of the matches at that skip and limit. |
| AlumniController.CountIgnoresPaging | controllers/alumniController.js:98 | The count does not depend on page or limit. |
| AlumniController.DefaultListing | controllers/alumniController.js:80-92 | With no query, and an empty pattern that matches everything, count = the collection size and the page is the first ten documents. |
| AlumniController.GetAlumniById | controllers/alumniController.js:116-137 | A malformed id gets 400 with the CastError. An unknown id gets 404 "Alumni not found". Otherwise the reply is 200 with the stored document. |
| AlumniController.ByIdDisclosesResetState | controllers/alumniController.js:125-130 | The document returned by id carries the stored password, otp and otpExpires. |
| AlumniController.PickOption | controllers/alumniController.js:155 | A given optional path replaces the stored value; an absent one keeps it. |
| AlumniController.ApplyUpdate | controllers/alumniController.js:155 | Every given path replaces its value and every other path is kept. This includes otp, otpExpires and createdAt. A given password is stored as sent, unhashed. The id and updatedAt are kept. |
| AlumniController.EmptyUpdateIsIdentity | controllers/alumniController.js:155 | An update giving no paths leaves the document as it is. |
| AlumniController.WithUpload | controllers/alumniController.js:152-154 | An uploaded file's path replaces the body's profilePicture. Nothing else changes. |
| AlumniController.ClashHoldsEmail | controllers/alumniController.js:155 | A clash is on an email some Alumni already holds. |
| AlumniController.OwnEmailNoClash | controllers/alumniController.js:155 | With unique emails, an update that re-sends the document's own email clashes with nobody. |
| AlumniController.DuplicateKey | controllers/alumniController.js:155-173 | The unique index's error quotes the email right after its lead-in. |
| AlumniController.UpdateAlumni | controllers/alumniController.js:140-174 | Failures are validation errors (400), a CastError (400), an unknown id (404), or an email another document holds (400). On any failure nothing changes. Otherwise exactly the found document becomes the merged one (with the upload's path), the reply is 200 with it, and the invariant is kept. |
| AlumniController.UpdatePlantsResetCode | controllers/alumniController.js:155 | An update that sets otp and a future otpExpires leaves a document whose reset check accepts that code. |
| AlumniController.UpdatedPasswordLocksOut | controllers/alumniController.js:155 | A password sent as ordinary text is stored as that text, and no login attempt verifies against it. |
| AlumniController.UpdateWithDigestLogsIn | controllers/alumniController.js:155 | When the body's password is the digest of q and the email resolves to that alumnus, logging in with q after the update gets 200. |
| AlumniController.DeleteAsWritten | controllers/alumniController.js:177-213 | As written, every delete answers 500 and removes nothing. |
| AlumniController.DeleteCorrected | controllers/alumniController.js:177-206 | The corrected delete answers 400 for a malformed id and 404 for an unknown one. Otherwise it answers 200 and removes the found document only. |
| AlumniController.DeleteRemovesExactly | controllers/alumniController.js:191-200 | With unique ids, the corrected delete keeps exactly the documents with other ids. |
| AlumniController.DeleteAsWrittenNeverDeletes | controllers/alumniController.js:182 | On a one-document collection, the corrected delete of that id succeeds and empties it, while as written it gets 500 "mongoose is not defined" and keeps the document. |
| AlumniController.DeleteAlumni | controllers/alumniController.js:177-213 | The handler as written answers 500 "mongoose is not defined" and changes nothing. |
| AlumniController.DeleteAlumniIntended | controllers/alumniController.js:177-206 | Replies and changes the collection as `DeleteCorrected` says, and keeps the invariant. |
| StatsController.DaysInMonth | controllers/statsController.js:14 | A month has 28 to 31 days, and 29 exactly for February of a leap year. |
| StatsController.SetMonthOf | controllers/statsController.js:14 | setMonth normalises the month into a year and month. The day is kept when the target month has it, and otherwise rolls into the next month (day at most 3). The time of day is kept and the result is a valid date. |
| StatsController.JsDate.GetMonth | controllers/statsController.js:14 | getMonth returns the month of the date. |
| StatsController.JsDate.SetMonth | controllers/statsController.js:14 | Moves the date in place to `SetMonthOf` of it. |
| StatsController.JsDate.SetDate | controllers/statsController.js:15-17 | Changes only the day of month. |
| StatsController.WindowStart | controllers/statsController.js:13-15 | The start is a valid date, on day 1 at the current time of day, and never after the end. |
| StatsController.WindowEnd | controllers/statsController.js:16-17 | The end is the first of the current month at the current time of day: a valid date, never after now. |
| StatsController.WindowShape | controllers/statsController.js:13-17 | The end is the first of this month at the current time. The start is day 1 at the same time. When today's day exists in the previous month, the start is in that month (January goes to December of the year before). Otherwise start == end. The window is non-empty exactly in the first case. |
| StatsController.WindowMembers | controllers/statsController.js:13-20 | A non-empty window holds the previous month from the current time of day on its first day, plus the first of this month before that time. |
| StatsController.InWindow | controllers/statsController.js:19-27 | A date in the window is present, and a window holding one is non-empty. |
| StatsController.CountInWindow | controllers/statsController.js:19-27 | The count is the number of positions whose createdAt lies in [start, end). So it is at most the collection size, and equals it exactly when every createdAt lies in the window. |
| StatsController.EmptyWindowCountsNothing | controllers/statsController.js:19-27 | A window with start == end counts 0. |
| StatsController.UndatedCountsNothing | controllers/statsController.js:22-24 | Documents without createdAt count 0. |
| StatsController.CreatedDates | controllers/statsController.js:19-27 | One date per document, absent exactly where createdAt is absent. |
| StatsController.InsertNewest | controllers/statsController.js:30 | Inserting into a newest-first sequence keeps it newest first and adds exactly that posting. |
| StatsController.SortNewestFirst | controllers/statsController.js:30 | The sort is newest first (undated last) and is a permutation of its input. |
| StatsController.Latest | controllers/statsController.js:29-37 | Returns min(k, n) postings, newest first, drawn from the input. |
| StatsController.LatestKeepsNewest | controllers/statsController.js:29-37 | Every posting left out is no newer than any posting kept. |
| StatsController.LastMonthWindow | controllers/statsController.js:13-17 | The two Date objects, moved in place, give `WindowStart(now)` and `WindowEnd(now)`. |
| StatsController.GetStats | controllers/statsController.js:7-61 | A failing query gives 500 with its message. Otherwise the reply is 200 with the collection sizes, last-month counts over the window (each at most its total), the User count 0, the 5 latest announcements and the 3 latest events. |
| StatsController.OverflowDayCountsNothing | controllers/statsController.js:13-27 | On a day the previous month lacks, every last-month count is 0. |
| StatsController.LatestBounds | controllers/statsController.js:31-36 | At most 5 announcements and 3 events are returned, each newest first. |

## Findings

| source | as written | input that shows it | evidently intended | confidence | as-written member | corrected member |
|---|---|---|---|---|---|---|
| controllers/alumniController.js:182 | `deleteAlumni` calls `mongoose.Types.ObjectId.isValid`. The file requires only the Alumni model, express-validator and bcrypt (lines 1-3). Every call therefore throws a ReferenceError, which is caught and answered 500 "mongoose is not defined" before any lookup or deletion. | DELETE with the id of an existing alumnus: the document stays and the reply is 500. | Validate the id (400 "Invalid ID format"), answer 404 for an unknown id, and otherwise remove the document and answer 200 "Alumni deleted successfully!". | not executed | AlumniController.DeleteAsWritten | AlumniController.DeleteCorrected |

## Left out

- Faculty model: models/Faculty.js is not part of this model. Its schema is a parameter (`Database.faculty`): hook, `otpExpires` path and timestamps. Its email is not assumed unique.
- Bcrypt.CompareDigestOf: the free `Digest` constructor assumes that different strings have different digests. bcrypt and bcryptjs read only the first 72 bytes, so two passwords sharing those bytes verify each other.
- Bcrypt.DoubleHashVerifiesNothing: the model keeps client strings apart from digests, but a real digest is text. The text of the inner digest verifies a double digest. The lock-out holds in practice only because that salted text never leaves the handler. The same assumption, and the 72-byte one, stand behind Bcrypt.CompareNeedsOneRound, AuthController.ResetStoredPassword and AlumniController.CreatedRecordFacts.
- Salts and cost factors: a digest is determined by what was hashed. Constant-time comparison is not modelled either. A fresh salted hash of the same value would differ from the old one; the model marks the path as modified either way, as the assignment does.
- JWT: the cryptographic signature is not modelled. A token records the key it was signed with.
- Mail: the transport, its credentials and the `from` address. The outcome is a parameter.
- `crypto.randomInt`: the draw is a parameter in [1000, 9999].
- Database failures in the auth handlers: their 500 paths are not modelled. The stats handler's failure is a parameter.
- MongoDB regular expressions: the matcher is a parameter.
- AlumniController.GetAllAlumni: Mongoose's casting of the `$regex` condition on `department`, an ObjectId path (models/Alumni.js:7), is not modelled. The model hands the department's text to the matcher. Mongoose would likely reject that condition with a cast error such as "Can't use $regex with ObjectId." (not executed). The catch at controllers/alumniController.js:107-111 would answer it 400, so every call would fail. The 200 paths of `ListReply` and `GetAllAlumni` describe the search as if the cast succeeded.
- AlumniController.ApplyUpdate: an update body is the listed typed paths. Not modelled are: an update of `_id`, which MongoDB refuses; the schema paths no handler reads specially; paths the schema lacks, which strict mode drops; and a null value. MongoDB stores null rather than unsetting the path. A stored otp of null makes the reset check reject every request whose otp is absent or a string, since `null !== undefined` holds.
- Mongoose casting beyond ObjectId ids, and `parseInt` of non-numeric page or limit values (NaN): queries take already-parsed integers.
- StatsController.GetStats: `totalUsersLastMonth == 0` rests on two assumptions. First, no stored User document carries a createdAt. This is part of the store invariant, and it holds because every write goes through the User schema, which has neither the path nor timestamps. Second, Mongoose's `strictQuery` is off, the Mongoose 7 default, so the filter on the undeclared path is sent as written. With `strictQuery` on, Mongoose would strip the filter and the count would be every User.
- CreateAlumni: a field left out of the body is taken to match no stored document in the duplicate checks. It is serialised as null, and the checked paths are required on every stored document.
- AlumniController.DuplicateKey: the database-name prefix of the collection namespace in the server's E11000 message is left out.
- AlumniController.NegativeSkip: the message is the server's wording. Driver-side argument checks are not modelled.
- Latest: MongoDB leaves the order of equal createdAt values unspecified. `Latest` fixes one order; what is proved about it (newest first, the top k, drawn from the input) holds for any order.
- Event model: models/Event.js is not part of this model. An event is a posting with an optional createdAt.
- Time zones and daylight-saving shifts: a date is a local calendar date with a time of day. Converting a stored instant to one is the parameter `calendar`.
- The two `new Date()` calls in getStats are taken as one instant.
- Alumni paths that no handler reads specially (resume, portfolioURL, skills and the like) are not modelled.
- Concurrency, async scheduling, HTTP and JSON plumbing beyond status, message, count and data.
- Route wiring, the express-validator chains (their messages are a parameter), multer uploads (the stored path is a parameter), the event controller and the announcement model are not modelled, because they hold no logic beyond pass-through.
