/** The request handlers of backend/src/controllers/auth.controller.js as pure
    transitions over the user store: each takes the store and the request fields
    and returns the HTTP reply together with the store after the request.

    Request fields are strings; "" stands for a field that is missing or empty,
    both of which the handlers reject through JavaScript falsiness. The clock
    (`now`, in milliseconds), the draws of Math.random() (`rand`, in [0, 1)), the
    fresh document id and the outcome of sending the OTP e-mail (`sent`) are
    parameters. The handlers call generateOTP and verifyOTP without `await`
    (auth.controller.js:135, :169, :201, :244); the model gives those calls the
    evidently intended synchronous meaning. */
module AuthController {
  import opened UserModel
  import opened EmailFormat
  import Decimal

  /** The user collection, keyed by e-mail (the schema's unique index). */
  type Store = map<string, User>

  /** Lifetime of the `jwt` session cookie: 7 * 24 * 60 * 60 * 1000 milliseconds. */
  const SessionMaxAgeMs: nat := 7 * 24 * 60 * 60 * 1000

  /** What a reply does to the session cookie. `Issued` stands for a signed token
      bound to the user id; signing and cookie flags are not modelled. */
  datatype Session = KeepSession | Issued(userId: UserId, maxAgeMs: nat) | ClearCookie

  /** The JSON body: `{message}`, a bare JSON string, `{success, user}`, or the
      onboarding error with its `missingFields` array, whose entries are `false`
      (None) for a present field and the field's name for a missing one. */
  datatype Body =
    | Message(text: string)
    | BareText(text: string)
    | UserJson(user: User)
    | MissingFields(text: string, fields: seq<Option<string>>)

  datatype Reply = Reply(status: nat, body: Body, session: Session)

  datatype Outcome = Outcome(reply: Reply, store: Store)

  const AllFieldsRequired := "All fields are required"
  const PasswordTooShort := "Password length must be 6 characters"
  const InvalidEmailFormatText := "Invalid email format"
  const EmailAlreadyExists := "Email already exists"
  const InvalidCredentials := "Invalid Email or Password"
  const InternalServerError := "Internal server error"
  const LoggedOut := "Logged out successfully"
  const EmailRequired := "Email is required"
  const InvalidEmailFormat := "Invalid Email format"
  const IfRegisteredEmail := "If your email is registered, you will receive an email shortly"
  const OtpSent := "OTP sent to your email, please check your inbox"
  const OtpSendFailed := "Failed to send OTP email. Please try again later."
  const EmailOrOtpRequired := "Email or OTP are required"
  const InvalidEmailOrOtp := "Invalid Email or OTP"
  const InvalidOrExpiredOtp := "Invalid or expired OTP, Please request a new one"
  const OtpVerified := "OTP Verified successfully"
  const ResetFieldsRequired := "Email, OTP, and new password are required"
  const NewPasswordTooShort := "Password must be at least 6 characters long"
  const ResetInvalidEmailOrOtp := "Invalid email or OTP"
  const ResetInvalidOtp := "Invalid OTP or expired OTP, please request a new one"
  const PasswordResetDone := "Password reset successful. You can now log in with your new password."
  const IfRegisteredOtp := "If your email is registered, you will receive an OTP shortly"
  const OtpResent := "New OTP sent to your email."
  const UserNotFound := "User not found"

  /** The store invariant: each document sits under its own e-mail (so e-mails are
      unique), holds a hashed password, and no two documents share an id. */
  ghost predicate WellFormed(store: Store) {
    && (forall e | e in store :: store[e].email == e && IsPersisted(store[e]))
    && (forall e1, e2 | e1 in store && e2 in store && store[e1].id == store[e2].id :: e1 == e2)
  }

  /** What the invariant gives the handlers: the schema's unique e-mail, distinct
      ids, and for every document exactly one password that matches. */
  lemma WellFormedConsequences(store: Store, e1: string, e2: string, p: string)
    requires WellFormed(store) && e1 in store && e2 in store
    ensures e1 != e2 ==> store[e1].email != store[e2].email && store[e1].id != store[e2].id
    ensures MatchPassword(store[e1], p) <==> p == store[e1].password.plain
  {
  }

  /** No document in the store has id `id` (what a fresh ObjectId guarantees). */
  predicate IdIsFresh(store: Store, id: UserId) {
    forall e | e in store :: store[e].id != id
  }

  predicate HasUserId(store: Store, id: UserId) {
    exists e | e in store :: store[e].id == id
  }

  /** The only change is at key `email`, which the store already holds. */
  ghost predicate ChangesOnly(store: Store, store': Store, email: string) {
    && email in store
    && store'.Keys == store.Keys
    && forall e | e in store && e != email :: store'[e] == store[e]
  }

  /** `Math.floor(Math.random() * 100) + 1` for a draw `rand` in [0, 1). */
  function AvatarIndex(rand: real): (idx: int)
    requires 0.0 <= rand < 1.0
    ensures 1 <= idx <= 100
  {
    (rand * 100.0).Floor + 1
  }

  const AvatarPrefix := "https://avatar.iran.liara.run/public/"

  /** The avatar address for index `idx`: the prefix, the index in decimal, ".png".
      The index can be read back from the address. */
  function AvatarUrl(idx: nat): (url: string)
    ensures AvatarPrefix <= url
    ensures |url| >= |AvatarPrefix| + 5 && url[|url| - 4..] == ".png"
    ensures var digits := url[|AvatarPrefix|..|url| - 4];
      && (forall k | 0 <= k < |digits| :: '0' <= digits[k] <= '9')
      && Decimal.DecimalValue(digits) == idx
      && (|digits| == 1 || digits[0] != '0')
  {
    var digits := Decimal.ToDecimal(idx);
    var url := AvatarPrefix + digits + ".png";
    assert url[|AvatarPrefix|..|url| - 4] == digits;
    Decimal.DecimalRoundTrip(idx);
    url
  }

  /** Distinct indices give distinct avatar addresses. */
  lemma AvatarUrlInjective(i: nat, j: nat)
    ensures AvatarUrl(i) == AvatarUrl(j) <==> i == j
  {
    if AvatarUrl(i) == AvatarUrl(j) {
      var u := AvatarUrl(i);
      assert Decimal.DecimalValue(u[|AvatarPrefix|..|u| - 4]) == i;
    }
  }

  /** The field checks signup makes before looking at the store. */
  ghost predicate SignupFieldsValid(email: string, password: string, fullName: string) {
    email != "" && password != "" && fullName != "" && |password| >= 6 && IsEmailFormat(email)
  }

  /** A document as signup creates it. */
  ghost predicate IsNewAccount(u: User, id: UserId, email: string, password: string, fullName: string) {
    && u.id == id && u.email == email && u.fullName == fullName
    && IsPersisted(u) && HasDefaults(u)
    && (forall p :: MatchPassword(u, p) <==> p == password)
    && exists idx | 1 <= idx <= 100 :: u.profilePic == AvatarUrl(idx)
  }

  /** The document signup creates for a draw `rand` is a new account. */
  lemma CreateIsNewAccount(id: UserId, fullName: string, email: string, password: string, rand: real)
    requires 0.0 <= rand < 1.0
    ensures IsNewAccount(Create(id, fullName, email, password, AvatarUrl(AvatarIndex(rand))),
                         id, email, password, fullName)
  {
    var idx := AvatarIndex(rand);
    assert Create(id, fullName, email, password, AvatarUrl(idx)).profilePic == AvatarUrl(idx);
  }

  /** `signup` (auth.controller.js:6-65). The checks run in order, each answering 400
      and leaving the store alone: a missing field, a password shorter than six, an
      address the pattern rejects, an address already registered. Otherwise exactly
      one document is added under that address and a session is issued for it. */
  function Signup(store: Store, email: string, password: string, fullName: string, newId: UserId, avatarRand: real): (r: Outcome)
    requires 0.0 <= avatarRand < 1.0
    requires IdIsFresh(store, newId)
    ensures email == "" || password == "" || fullName == "" ==>
      r == Outcome(Reply(400, Message(AllFieldsRequired), KeepSession), store)
    ensures email != "" && password != "" && fullName != "" && |password| < 6 ==>
      r == Outcome(Reply(400, Message(PasswordTooShort), KeepSession), store)
    ensures email != "" && password != "" && fullName != "" && |password| >= 6 && !IsEmailFormat(email) ==>
      r == Outcome(Reply(400, BareText(InvalidEmailFormatText), KeepSession), store)
    ensures SignupFieldsValid(email, password, fullName) && email in store ==>
      r == Outcome(Reply(400, Message(EmailAlreadyExists), KeepSession), store)
    ensures r.reply.status == 201 <==> SignupFieldsValid(email, password, fullName) && email !in store
    ensures r.reply.status != 201 ==> r.reply.status == 400 && r.store == store
    ensures r.reply.status == 201 ==>
      && r.store.Keys == store.Keys + {email}
      && (forall e | e in store :: r.store[e] == store[e])
      && IsNewAccount(r.store[email], newId, email, password, fullName)
      && r.reply.body == UserJson(r.store[email])
      && r.reply.session == Issued(newId, SessionMaxAgeMs)
    ensures WellFormed(store) ==> WellFormed(r.store)
  {
    if email == "" || password == "" || fullName == "" then
      Outcome(Reply(400, Message(AllFieldsRequired), KeepSession), store)
    else if |password| < 6 then
      Outcome(Reply(400, Message(PasswordTooShort), KeepSession), store)
    else if !IsEmailFormat(email) then
      Outcome(Reply(400, BareText(InvalidEmailFormatText), KeepSession), store)
    else if email in store then
      Outcome(Reply(400, Message(EmailAlreadyExists), KeepSession), store)
    else
      var u := Create(newId, fullName, email, password, AvatarUrl(AvatarIndex(avatarRand)));
      CreateIsNewAccount(newId, fullName, email, password, avatarRand);
      Outcome(Reply(201, UserJson(u), Issued(newId, SessionMaxAgeMs)), store[email := u])
  }

  /** `login` (auth.controller.js:66-104). An unknown address and a wrong password get
      the same 401 reply; nothing in the store changes. */
  function Login(store: Store, email: string, password: string): (r: Outcome)
    ensures r.store == store
    ensures email == "" || password == "" ==> r.reply == Reply(400, Message(AllFieldsRequired), KeepSession)
    ensures email != "" && password != "" ==>
      (r.reply.status == 200 <==> email in store && MatchPassword(store[email], password))
    ensures email != "" && password != "" && r.reply.status != 200 ==>
      r.reply == Reply(401, Message(InvalidCredentials), KeepSession)
    ensures r.reply.status == 200 ==>
      email in store && r.reply == Reply(200, UserJson(store[email]), Issued(store[email].id, SessionMaxAgeMs))
  {
    if email == "" || password == "" then
      Outcome(Reply(400, Message(AllFieldsRequired), KeepSession), store)
    else if email !in store then
      Outcome(Reply(401, Message(InvalidCredentials), KeepSession), store)
    else if !MatchPassword(store[email], password) then
      Outcome(Reply(401, Message(InvalidCredentials), KeepSession), store)
    else
      var u := store[email];
      Outcome(Reply(200, UserJson(u), Issued(u.id, SessionMaxAgeMs)), store)
  }

  /** `logout` (auth.controller.js:105-112): always succeeds, clears the cookie and
      touches no document. */
  function Logout(store: Store): (r: Outcome)
    ensures r.store == store
    ensures r.reply.status == 200 && r.reply.session == ClearCookie
  {
    Outcome(Reply(200, Message(LoggedOut), ClearCookie), store)
  }

  /** `forgotPassword` (auth.controller.js:114-157). After the address checks, an
      unregistered address gets a generic 200 and no change. For a registered one a
      code is generated and saved; if the e-mail cannot be sent the code is rolled
      back (both OTP fields cleared) and the reply is 500. */
  function ForgotPassword(store: Store, email: string, rand: real, now: int, sent: bool): (r: Outcome)
    requires 0.0 <= rand < 1.0
    ensures email == "" ==> r == Outcome(Reply(400, Message(EmailRequired), KeepSession), store)
    ensures email != "" && !IsEmailFormat(email) ==>
      r == Outcome(Reply(400, Message(InvalidEmailFormat), KeepSession), store)
    ensures IsEmailFormat(email) && email !in store ==>
      r == Outcome(Reply(200, Message(IfRegisteredEmail), KeepSession), store)
    ensures IsEmailFormat(email) && email in store ==>
      && ChangesOnly(store, r.store, email)
      && r.reply.session == KeepSession
      && (sent ==> r.reply == Reply(200, Message(OtpSent), KeepSession)
                   && r.store[email] == GenerateOtp(store[email], rand, now).user)
      && (!sent ==> r.reply == Reply(500, Message(OtpSendFailed), KeepSession)
                    && r.store[email] == ClearOtp(store[email]))
    ensures WellFormed(store) ==> WellFormed(r.store)
  {
    if email == "" then
      Outcome(Reply(400, Message(EmailRequired), KeepSession), store)
    else if !IsEmailFormat(email) then
      Outcome(Reply(400, Message(InvalidEmailFormat), KeepSession), store)
    else if email !in store then
      Outcome(Reply(200, Message(IfRegisteredEmail), KeepSession), store)
    else
      var issued := GenerateOtp(store[email], rand, now);
      var saved := store[email := issued.user];  // the password is not modified, so the hook keeps it
      if sent then
        Outcome(Reply(200, Message(OtpSent), KeepSession), saved)
      else
        Outcome(Reply(500, Message(OtpSendFailed), KeepSession), saved[email := ClearOtp(issued.user)])
  }

  /** `verifyOTP` (auth.controller.js:159-182): a dry run that never changes the store.
      It answers 200 exactly when the address is registered and its stored code
      verifies now, and 400 otherwise. */
  function VerifyOtp(store: Store, email: string, otp: string, now: int): (r: Outcome)
    ensures r.store == store
    ensures r.reply.session == KeepSession
    ensures r.reply.status == 200 <==>
      email != "" && otp != "" && email in store && UserModel.VerifyOtp(store[email], otp, now)
    ensures r.reply.status != 200 ==> r.reply.status == 400
  {
    if email == "" || otp == "" then
      Outcome(Reply(400, Message(EmailOrOtpRequired), KeepSession), store)
    else if email !in store then
      Outcome(Reply(400, Message(InvalidEmailOrOtp), KeepSession), store)
    else if !UserModel.VerifyOtp(store[email], otp, now) then
      Outcome(Reply(400, Message(InvalidOrExpiredOtp), KeepSession), store)
    else
      Outcome(Reply(200, Message(OtpVerified), KeepSession), store)
  }

  /** `resetPassword` (auth.controller.js:184-229) as evidently intended: the field
      check at line 187 names an undeclared `password` where `newPassword` is meant.
      With every field present, a new password of at least six characters and a code
      that verifies, the password is replaced and the code consumed; otherwise the
      reply is 400 and nothing changes. The confirmation e-mail (line 213) is called
      without being imported; its failure is swallowed, so it does not affect the reply. */
  function ResetPassword(store: Store, email: string, otp: string, newPassword: string, now: int): (r: Outcome)
    ensures email == "" || newPassword == "" || otp == "" ==>
      r == Outcome(Reply(400, Message(ResetFieldsRequired), KeepSession), store)
    ensures email != "" && newPassword != "" && otp != "" && |newPassword| < 6 ==>
      r == Outcome(Reply(400, Message(NewPasswordTooShort), KeepSession), store)
    ensures r.reply.status == 200 <==>
      && email != "" && otp != "" && |newPassword| >= 6
      && email in store && UserModel.VerifyOtp(store[email], otp, now)
    ensures r.reply.status != 200 ==> r.reply.status == 400 && r.store == store
    ensures r.reply.status == 200 ==>
      && ChangesOnly(store, r.store, email)
      && (forall p :: MatchPassword(r.store[email], p) <==> p == newPassword)
      && r.store[email].resetPasswordOtp == None && r.store[email].resetPasswordOtpExpires == None
      && r.store[email].(password := store[email].password,
                          resetPasswordOtp := store[email].resetPasswordOtp,
                          resetPasswordOtpExpires := store[email].resetPasswordOtpExpires) == store[email]
    ensures WellFormed(store) ==> WellFormed(r.store)
  {
    if email == "" || newPassword == "" || otp == "" then
      Outcome(Reply(400, Message(ResetFieldsRequired), KeepSession), store)
    else if |newPassword| < 6 then
      Outcome(Reply(400, Message(NewPasswordTooShort), KeepSession), store)
    else if email !in store then
      Outcome(Reply(400, Message(ResetInvalidEmailOrOtp), KeepSession), store)
    else if !UserModel.VerifyOtp(store[email], otp, now) then
      Outcome(Reply(400, Message(ResetInvalidOtp), KeepSession), store)
    else
      var u := PreSave(ClearOtp(SetPassword(store[email], newPassword)));
      Outcome(Reply(200, Message(PasswordResetDone), KeepSession), store[email := u])
  }

  /** `resendOTP` (auth.controller.js:231-264). No address-format check. An
      unregistered address gets a generic 200 and no change; otherwise a fresh code
      overwrites any earlier one and stays saved even when sending fails (500).
      The failure branch logs an undeclared `emailError` (line 255); the model gives
      the reply the handler evidently intends. */
  function ResendOtp(store: Store, email: string, rand: real, now: int, sent: bool): (r: Outcome)
    requires 0.0 <= rand < 1.0
    ensures email == "" ==> r == Outcome(Reply(400, Message(EmailRequired), KeepSession), store)
    ensures email != "" && email !in store ==>
      r == Outcome(Reply(200, Message(IfRegisteredOtp), KeepSession), store)
    ensures email != "" && email in store ==>
      && ChangesOnly(store, r.store, email)
      && r.store[email] == GenerateOtp(store[email], rand, now).user
      && r.reply == (if sent then Reply(200, Message(OtpResent), KeepSession)
                     else Reply(500, Message(OtpSendFailed), KeepSession))
    ensures WellFormed(store) ==> WellFormed(r.store)
  {
    if email == "" then
      Outcome(Reply(400, Message(EmailRequired), KeepSession), store)
    else if email !in store then
      Outcome(Reply(200, Message(IfRegisteredOtp), KeepSession), store)
    else
      var issued := GenerateOtp(store[email], rand, now);
      var saved := store[email := issued.user];  // the password is not modified, so the hook keeps it
      if sent then
        Outcome(Reply(200, Message(OtpResent), KeepSession), saved)
      else
        Outcome(Reply(500, Message(OtpSendFailed), KeepSession), saved)
  }

  /** The `missingFields` entry `!value && name`. */
  function MissingEntry(value: string, name: string): (r: Option<string>)
    ensures r.Some? <==> value == ""
    ensures r.Some? ==> r.value == name
  {
    if value == "" then Some(name) else None
  }

  /** The profile as onboarding leaves it. `profilePic` is the optional key of the
      same name in the request body (the onboarding page always sends it): the body
      is spread into the update, so a present key overwrites the picture. */
  function OnboardedProfile(u: User, fullName: string, bio: string, nativeLanguage: string,
                            learningLanguage: string, location: string, profilePic: Option<string>): User {
    u.(fullName := fullName, bio := bio, nativeLanguage := nativeLanguage,
       learningLanguage := learningLanguage, location := location,
       profilePic := if profilePic.Some? then profilePic.value else u.profilePic,
       isOnboarded := true)
  }

  /** `onboard` (auth.controller.js:266-321) for the authenticated user `userId`. All
      five profile fields are required (400 with the list of missing ones); an id no
      document has gives 404; otherwise that document gets the fields, the picture
      when the body carries one, and `isOnboarded = true`, every other document is
      left alone and the reply is 200. Ghost only because the reply names the
      updated document, found by a search over the keys. */
  ghost function Onboard(store: Store, userId: UserId, fullName: string, bio: string,
                         nativeLanguage: string, learningLanguage: string, location: string,
                         profilePic: Option<string>): (r: Outcome)
    ensures fullName == "" || bio == "" || nativeLanguage == "" || learningLanguage == "" || location == "" ==>
      && r.store == store
      && r.reply.status == 400
      && r.reply.body == MissingFields(AllFieldsRequired,
           [MissingEntry(fullName, "fullName"), MissingEntry(nativeLanguage, "nativeLanguage"),
            MissingEntry(learningLanguage, "learningLanguage"), MissingEntry(bio, "bio"),
            MissingEntry(location, "location")])
    ensures r.reply.status == 404 <==>
      fullName != "" && bio != "" && nativeLanguage != "" && learningLanguage != "" && location != ""
      && !HasUserId(store, userId)
    ensures r.reply.status == 200 <==>
      fullName != "" && bio != "" && nativeLanguage != "" && learningLanguage != "" && location != ""
      && HasUserId(store, userId)
    ensures r.reply.status != 200 ==> r.store == store
    ensures r.reply.status == 200 ==>
      && r.store.Keys == store.Keys
      && (forall e | e in store && store[e].id != userId :: r.store[e] == store[e])
      && (forall e | e in store && store[e].id == userId ::
            && r.store[e].fullName == fullName && r.store[e].bio == bio
            && r.store[e].nativeLanguage == nativeLanguage && r.store[e].learningLanguage == learningLanguage
            && r.store[e].location == location && r.store[e].isOnboarded
            && r.store[e].profilePic == (if profilePic.Some? then profilePic.value else store[e].profilePic)
            && r.store[e].(fullName := store[e].fullName, bio := store[e].bio,
                           nativeLanguage := store[e].nativeLanguage, learningLanguage := store[e].learningLanguage,
                           location := store[e].location, profilePic := store[e].profilePic,
                           isOnboarded := store[e].isOnboarded) == store[e])
      && exists e | e in store && store[e].id == userId :: r.reply.body == UserJson(r.store[e])
    ensures WellFormed(store) ==> WellFormed(r.store)
  {
    if fullName == "" || bio == "" || nativeLanguage == "" || learningLanguage == "" || location == "" then
      Outcome(Reply(400, MissingFields(AllFieldsRequired,
                [MissingEntry(fullName, "fullName"), MissingEntry(nativeLanguage, "nativeLanguage"),
                 MissingEntry(learningLanguage, "learningLanguage"), MissingEntry(bio, "bio"),
                 MissingEntry(location, "location")]), KeepSession), store)
    else if !HasUserId(store, userId) then
      Outcome(Reply(404, Message(UserNotFound), KeepSession), store)
    else
      var updated := map e | e in store ::
        if store[e].id == userId
        then OnboardedProfile(store[e], fullName, bio, nativeLanguage, learningLanguage, location, profilePic)
        else store[e];
      var e :| e in store && store[e].id == userId;
      Outcome(Reply(200, UserJson(updated[e]), KeepSession), updated)
  }
}
