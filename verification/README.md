# Streamly authentication and password reset, modelled in Dafny

Streamly's backend signs users up, logs them in and out, and lets them onboard. It also lets a user reset a forgotten password with a one-time code (OTP) sent by e-mail. This project models that flow as a pure transition system over the user collection. The collection is a `map<string, User>` keyed by e-mail. Each handler of `auth.controller.js` is a function that takes the store and the request fields. It returns the HTTP reply (status, JSON body, what happens to the session cookie) and the store after the request.

Inputs from the outside world are parameters:
- the clock is `now`, in milliseconds;
- each draw of `Math.random()` is a real in [0, 1);
- a new document's `_id` is a parameter that no stored document has;
- sending the OTP e-mail succeeds or fails through a `sent: bool`;
- bcrypt is the opaque constructor `Hashed(plain)`.

A missing or empty request field is the empty string. The handlers reject both through JavaScript falsiness.

Modules:
- `EmailFormat` models the regular expression `/^[^\s@]+@[^\s@]+\.[^\s@]+$/` used by signup and forgotPassword. It is a predicate on strings, with a linear scanner proved equal to it.
- `Decimal` models `Number#toString` for the OTP code and the avatar index.
- `UserModel` covers the User document of `User.js`: its defaults, the hash-on-modify pre-save hook, `matchPassword`, and the OTP lifecycle (`generateOTP`, `verifyOTP`, `clearOTP`).
- `AuthController` holds the eight handlers and the store invariant (`WellFormed`).
- `AuthFlows` holds properties of request sequences. Among them: the invariant along any run of requests, OTP round trips, expiry, supersession by resend, consumption by reset, and concrete scenarios.
- `AsWritten` models resetPassword and verifyOTP as written, and resendOTP's line-255 defect in isolation, with the OTP calls corrected. These back the findings below.

Several OTP and handler calls would misbehave at run time. The model gives them their evidently intended meaning, and a comment at each one notes the divergence:
- The OTP methods are arrow functions, so `this` is not the document (`User.js:75`, `:82`, `:93`).
- The handlers call them without `await` (`auth.controller.js:135`, `:169`, `:201`, `:244`).
- `resetPassword` checks an undeclared `password` where `newPassword` is meant (`:187`).
- `sendPasswordResetSuccessEmail` is called (`:213`) but never imported (`:1`). The surrounding `try` swallows the error, so the reply is unaffected.
- `resendOTP`'s failure branch logs an undeclared `emailError` (`:255`).

Where the code's behaviour differs from what the flow is usually described as doing, the model follows the code:
- An OTP is still accepted at the exact expiry instant. The comparison is `now > expiry` (`OtpValidAtExpiryInstant`).
- forgotPassword gives an unknown address and a registered one the same status, 200, when the OTP e-mail is sent. The messages differ, so the reply does reveal whether the account exists. When the send fails the registered address gets 500 (`ForgotPasswordRevealsAccountByMessage`).
- verifyOTP and resetPassword leak existence the same way: both refuse with 400, but an unknown address gets "Invalid Email or OTP" / "Invalid email or OTP" and a registered one with a wrong code gets a message about an invalid or expired OTP (`VerifyOtpRevealsAccountByMessage`, `ResetPasswordRevealsAccountByMessage`).
- resendOTP does not check the address format. A failed send leaves the fresh code saved; forgotPassword rolls it back.
- A generated code has five or six digits, not always six (`OtpLengthFiveOrSix`).

## Model

| member | source | states |
|---|---|---|
| EmailFormat.IsRegexSpace | backend/src/controllers/auth.controller.js:19 | `\s` holds space, tab, newline and carriage return, and never '@', '.', a digit or an ASCII letter |
| EmailFormat.IsEmailFormat | backend/src/controllers/auth.controller.js:19-20 | a matching address has at least five characters, and neither its first nor its last character is '@' or white space |
| EmailFormat.ScanEmail | backend/src/controllers/auth.controller.js:19-22 | a single linear pass accepts a string exactly when the e-mail regular expression matches it |
| EmailFormat.PartsMatch | backend/src/controllers/auth.controller.js:19 | any `local@domain.tld` built from non-empty runs without white space or '@' matches the pattern |
| EmailFormat.SplitEmail | backend/src/controllers/auth.controller.js:19 | every matching string splits back into such a `local@domain.tld`, so the pattern is exactly that language |
| EmailFormat.MatchHasSingleAt | backend/src/controllers/auth.controller.js:19 | a matching address holds exactly one '@' and no white space |
| Decimal.ToDecimal | backend/src/models/User.js:76 | the code's `toString()` is a non-empty run of decimal digits with no leading zero |
| Decimal.DecimalRoundTrip | backend/src/models/User.js:76 | reading the printed digits back gives the number, so printing loses nothing |
| Decimal.DecimalInjective | backend/src/models/User.js:76 | different codes print as different strings |
| Decimal.DecimalLength | backend/src/models/User.js:76 | a number in [10^(k-1), 10^k) prints with exactly k digits |
| UserModel.PreSave | backend/src/models/User.js:57-67 | after saving the password is hashed; an unmodified password is left as stored, a modified one is hashed from its new plaintext |
| UserModel.Create | backend/src/models/User.js:4-55 | a created user has the given id, name, e-mail and picture, the schema defaults (empty profile, not onboarded, no friends, both OTP fields null), and a hash matching exactly the given password |
| UserModel.MatchPassword | backend/src/models/User.js:69-73 | only a hashed password matches, and a hashed one matches exactly its own plaintext |
| UserModel.SetPassword | backend/src/controllers/auth.controller.js:208 | assigning a password marks it modified with the new plaintext and changes no other field |
| UserModel.MatchesLatestPassword | backend/src/models/User.js:57-73 | over any run of saves the password stays hashed, and matchPassword(p) holds exactly when p is the plaintext most recently set |
| UserModel.OtpCode | backend/src/models/User.js:76 | the code drawn from Math.random() lies in [10000, 909999] |
| UserModel.OtpLengthFiveOrSix | backend/src/models/User.js:76 | every code in that range prints with five or six digits |
| UserModel.GenerateOtp | backend/src/models/User.js:75-80 | generateOTP stores the decimal text of a code in [10000, 909999] (five or six characters) and returns it; the expiry is now + 600000 ms; both overwrite the previous values; nothing else changes |
| UserModel.VerifyOtp | backend/src/models/User.js:82-91 | verifyOTP holds exactly when a non-empty code and an expiry are stored, now is not past the expiry, and the stored code equals the one given |
| UserModel.ClearOtp | backend/src/models/User.js:93-96 | clearOTP nulls both OTP fields and nothing else |
| UserModel.UnsetOtpNeverVerifies | backend/src/models/User.js:83-85 | with either OTP field null no code verifies, at any time |
| UserModel.GenerateThenVerify | backend/src/models/User.js:76-89 | round trip: right after generateOTP at t, the returned code verifies at every time up to t + 600000 and no other code does |
| UserModel.ExpiredOtpNeverVerifies | backend/src/models/User.js:86-88 | strictly after the expiry no code verifies |
| UserModel.OtpValidAtExpiryInstant | backend/src/models/User.js:86-89 | at the expiry instant itself the outcome is still decided by code equality |
| UserModel.RegenerateOverwrites | backend/src/models/User.js:75-89 | after a second generateOTP only its code can verify; the first code verifies only if both printed the same text |
| UserModel.ClearedOtpNeverVerifies | backend/src/models/User.js:82-96 | after clearOTP nothing verifies, for every code and every time |
| UserModel.ClearUndoesGenerate | backend/src/models/User.js:75-96 | clearing after generating leaves the document as clearing alone would |
| AuthController.AvatarIndex | backend/src/controllers/auth.controller.js:28 | the avatar index lies in [1, 100] |
| AuthController.Signup | backend/src/controllers/auth.controller.js:6-65 | the checks run in order, each a 400 with the store unchanged: missing field, then password under 6, then bad format (bare JSON string), then duplicate e-mail. Status 201 holds exactly when all pass and the address is new. Then exactly one user is added with that e-mail and name, defaults, matching password and an avatar URL with index in [1,100]; the other users are unchanged and a 7-day session is issued for the new id. The store invariant is kept |
| AuthController.Login | backend/src/controllers/auth.controller.js:66-104 | 200 with a 7-day session exactly when the address is registered and the password matches. Otherwise the same 401 "Invalid Email or Password" for an unknown address and a wrong password, or 400 when a field is missing. The store never changes |
| AuthController.Logout | backend/src/controllers/auth.controller.js:105-112 | always 200, clears the session cookie, changes no user |
| AuthController.ForgotPassword | backend/src/controllers/auth.controller.js:114-157 | missing or badly formed address: 400. Unknown address: generic 200, store unchanged. Registered address: only that user changes. On a successful send it holds the freshly generated OTP and the reply is 200; on a failed send both OTP fields are cleared and the reply is 500 |
| AuthController.VerifyOtp | backend/src/controllers/auth.controller.js:159-182 | never modifies the store. 200 exactly when both fields are present, the address is registered and its OTP check passes now; 400 otherwise |
| AuthController.ResetPassword | backend/src/controllers/auth.controller.js:184-229 | 200 exactly when the fields are present, the new password has at least 6 characters and the OTP verifies. Then only that user changes: it matches exactly the new password, both OTP fields are null and every other field is kept. Otherwise 400 with the store unchanged |
| AuthController.ResendOtp | backend/src/controllers/auth.controller.js:231-264 | missing address: 400. Unknown address: generic 200, store unchanged. Otherwise only that user changes: it holds a freshly generated OTP, which stays saved whether the send succeeds (200) or fails (500) |
| AuthController.Onboard | backend/src/controllers/auth.controller.js:266-321 | any of the five fields missing: 400 with the `missingFields` list in source order and the store unchanged. 404 exactly when all are present and no user has the id; 200 exactly when all are present and some user has it. Then the users with that id get the five fields, the body's `profilePic` when it carries one, and `isOnboarded = true`; every other field and every other user is untouched, and the reply carries the updated document |
| AuthController.MissingEntry | backend/src/controllers/auth.controller.js:280-286 | an entry of `missingFields` is the field's name exactly when the field is missing, and false otherwise |
| AuthController.AvatarUrl | backend/src/controllers/auth.controller.js:29 | the avatar address is the fixed prefix, the index in decimal without a leading zero and ".png", and the index reads back from it |
| AuthController.CreateIsNewAccount | backend/src/controllers/auth.controller.js:28-36 | the document signup creates has the new id, the e-mail and name given, the schema defaults, a hash matching exactly the given password, and an avatar address with an index in [1, 100] |
| AuthController.AvatarUrlInjective | backend/src/controllers/auth.controller.js:28-29 | distinct indices give distinct avatar addresses |
| AuthController.WellFormedConsequences | backend/src/models/User.js:9-13 | under the store invariant (each document keyed by its e-mail, hashed passwords, distinct ids) two documents never share an e-mail or an id, and each matches exactly one password |
| AuthFlows.LoginHidesAccountExistence | backend/src/controllers/auth.controller.js:72-79 | an unknown address and a wrong password produce byte-identical login replies |
| AuthFlows.ForgotPasswordRevealsAccountByMessage | backend/src/controllers/auth.controller.js:126-151 | when the OTP e-mail is sent, an unknown and a registered address get the same status 200 but different messages; when the send fails, the unknown address still gets 200 and the registered one 500 |
| AuthFlows.VerifyOtpRevealsAccountByMessage | backend/src/controllers/auth.controller.js:165-174 | an unknown address and a registered one with a wrong or expired code both get 400, with different messages |
| AuthFlows.ResetPasswordRevealsAccountByMessage | backend/src/controllers/auth.controller.js:197-206 | with a valid new password, an unknown address and a registered one with a wrong or expired code both get 400, with different messages |
| AuthFlows.SignupThenLogin | backend/src/controllers/auth.controller.js:24-99 | after a signup, login succeeds exactly with the signup password and issues a session for the new id |
| AuthFlows.ForgotThenVerify | backend/src/controllers/auth.controller.js:126-177 | the mailed code verifies up to its expiry inclusive, and no other code does |
| AuthFlows.ForgotThenExpire | backend/src/controllers/auth.controller.js:135-210 | more than ten minutes after forgotPassword no code verifies and resetPassword changes nothing |
| AuthFlows.FailedForgotLeavesNoCode | backend/src/controllers/auth.controller.js:145-152 | after a failed send no code verifies, even one issued earlier |
| AuthFlows.ResendSupersedesForgot | backend/src/controllers/auth.controller.js:244-258 | after resendOTP the new code verifies for ten minutes even if its e-mail failed; the earlier code verifies only if it has the same text |
| AuthFlows.ResetConsumesOtp | backend/src/controllers/auth.controller.js:201-210 | after a successful reset no code verifies and no second reset succeeds, at any later time |
| AuthFlows.ResetThenLogin | backend/src/controllers/auth.controller.js:208-210 | after a successful reset, login accepts exactly the new password |
| AuthFlows.StepPreservesWellFormed | backend/src/models/User.js:9-13 | every handler keeps e-mails unique and keyed, passwords hashed and ids unique, and removes no user, for onboarding bodies holding only the profile fields and `profilePic` |
| AuthFlows.RunPreservesWellFormed | backend/src/models/User.js:9-13 | along any sequence of requests the store invariant holds and no account disappears, for onboarding bodies holding only the profile fields and `profilePic` |
| AuthFlows.ExampleAddressIsValid | backend/src/controllers/auth.controller.js:19-20 | "a@x.com" and "unknown@x.com" match the pattern and "a@x" does not |
| AuthFlows.SignupConflictScenario | backend/src/controllers/auth.controller.js:24-60 | signing up a@x.com succeeds once; a second signup with that address is a 400 conflict that changes nothing |
| AuthFlows.UnknownAddressScenario | backend/src/controllers/auth.controller.js:126-133 | forgotPassword for an unregistered address gives the generic 200 and creates no OTP |
| AuthFlows.OtpScenario | backend/src/controllers/auth.controller.js:135-177 | a draw giving code 123456 stores "123456"; it verifies at exactly ten minutes and fails one millisecond later |
| AsWritten.ResetPasswordAsWritten | backend/src/controllers/auth.controller.js:184-191 | as written, resetPassword never answers 200 and never changes the store; 400 only for a missing e-mail, 500 otherwise |
| AsWritten.VerifyOtpAsWritten | backend/src/controllers/auth.controller.js:165-177 | as written, verifyOTP answers 200 for every registered address whatever the code |
| AsWritten.ResendOtpAsWritten | backend/src/controllers/auth.controller.js:244-263 | the :255 defect alone, with the OTP calls corrected: a failed send gives the generic internal-error reply instead of the delivery-failure message; every other reply and the store are those of the corrected handler |
| AsWritten.ResetPasswordAsWrittenRejectsValidReset | backend/src/controllers/auth.controller.js:187 | a valid code and new password: corrected 200, as written 500 |
| AsWritten.VerifyOtpAsWrittenAcceptsWrongCode | backend/src/controllers/auth.controller.js:169-170 | a wrong code: corrected 400, as written 200 |
| AsWritten.ResendOtpAsWrittenHidesDeliveryFailure | backend/src/controllers/auth.controller.js:254-258 | a failed send: corrected gives the delivery-failure message, as written the generic internal error |

## Left out

- JWT signing and the cookie flags (httpOnly, sameSite, secure) are left out. A session is only "issued for a user id, 7 days".
- bcrypt's salt and cost factor are left out; `Hashed(plain)` is an opaque injective stand-in. bcryptjs hashes and compares only the first 72 UTF-8 bytes of a password, so two passwords that share those bytes both match. The "exactly" of `MatchesLatestPassword`, `Create`, `MatchPassword`, `SignupThenLogin`, `ResetThenLogin` and `WellFormedConsequences` therefore holds for the program only for passwords of at most 72 bytes.
- `upsertStreamUser` (backend/src/lib/stream.js) is left out. It swallows its own errors, so it never affects a reply.
- The e-mail transport and templates (backend/src/lib/email.js) are left out. The OTP send is the `sent` outcome. The success e-mail never throws and its result is ignored, so it is not modelled.
- Database failures and the generic 500 of each outer `catch` are left out, as are concurrent requests racing on one document (last write wins). Mongo persistence itself is not modelled.
- `Math.random()` is a real in [0, 1) and `Date.now()` an integer parameter. Floating-point rounding of `10000 + r * 900000` is not modelled.
- Password length is counted in Unicode code points, not UTF-16 code units as in `password.length`.
- Every request field is taken to be a string. A JSON number or object in the body behaves differently, and these behaviours are lost:
  - an `otp` sent as a number is never `===` to the stored string;
  - a `password` sent as a number has an undefined `.length`, so it passes the length check (`auth.controller.js:13`). Mongoose casts it to its decimal text. When that text has fewer than six characters (`12345`, say), the schema's `minLength` fails and the reply is 500 instead of 400. A longer number (`1234567`) is stored like the string of the same digits, as the model does;
  - an `email` sent as an object such as `{"$ne": null}` acts as a query operator in `findOne` (`:72`, `:165`, `:197`, `:237`) and selects some other document.
- The `success: true` flags in the JSON bodies and the `createdAt`/`updatedAt` timestamps are not modelled.
- AuthController.Onboard: models the five profile fields, the optional `profilePic` and `isOnboarded`. The source spreads the whole request body into `findByIdAndUpdate` (`auth.controller.js:289-296`), so any other key the client sends is written too. That update skips the pre-save hook. A `password` key would be stored unhashed, and an `email` key would move the document away from its key in the store. The function is ghost because the reply names a document found by searching the store.
- AuthFlows.StepPreservesWellFormed: holds because the modelled onboarding body carries no `password` or `email` key. For the program as written the invariant fails: one onboarding request with such a key leaves a plaintext password or a document under the wrong e-mail.
- AuthFlows.RunPreservesWellFormed: depends on the same restriction of onboarding bodies, for the same reason.
- The forgotPassword, verifyOTP and resendOTP handlers as literally written are not modelled beyond the `AsWritten` members. With `this` not bound to the document, generateOTP would store nothing.
- The frontend, the Express bootstrap and the friends feature are out of scope.

## Findings

| source | as written | input that shows it | evidently intended | confidence | as-written member | corrected member |
|---|---|---|---|---|---|---|
| backend/src/controllers/auth.controller.js:187 | `!email \|\| !password \|\| !otp` reads an undeclared `password`; every request with an e-mail ends in a ReferenceError and a 500 | a registered user with a valid OTP "123456", `newPassword` "newpass1" | test `newPassword`, then reset the password | high (not executed) | AsWritten.ResetPasswordAsWritten, AsWritten.ResetPasswordAsWrittenRejectsValidReset | AuthController.ResetPassword |
| backend/src/controllers/auth.controller.js:169-170 | `user.verifyOTP(otp)` is async and not awaited; the Promise it returns is truthy, so the check never fails | a registered user with code "123456" and a request with code "000000" | await the result and reject a wrong or expired code | medium (not executed; the arrow function also rejects its Promise, which Node reports as unhandled) | AsWritten.VerifyOtpAsWritten, AsWritten.VerifyOtpAsWrittenAcceptsWrongCode | AuthController.VerifyOtp |
| backend/src/controllers/auth.controller.js:255 | taking the OTP calls as corrected, the failure branch logs an undeclared `emailError`; the ReferenceError turns the delivery-failure reply into the generic "Internal server error" | a registered address and a failed send | answer 500 "Failed to send OTP email. Please try again later." | high (not executed) | AsWritten.ResendOtpAsWritten, AsWritten.ResendOtpAsWrittenHidesDeliveryFailure | AuthController.ResendOtp |
