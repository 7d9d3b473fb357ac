/** The User document of backend/src/models/User.js: its fields and defaults, the
    pre-save hook that hashes a modified password, password matching and the
    one-time-password (OTP) lifecycle used by the password-reset flow.

    The source declares generateOTP, verifyOTP and clearOTP as arrow functions, so
    `this` inside them is the module's `this`, not the document (User.js:75, :82, :93).
    The functions below give them the evidently intended meaning: they read and
    write the document they are called on. */
module UserModel {
  import Decimal

  datatype Option<+T> = None | Some(value: T)

  /** The document's `_id`. */
  type UserId = nat

  /** The password field. `Plain` is a value assigned since the last save (what
      Mongoose reports through isModified("password")); `Hashed` is what the
      pre-save hook stores. The hash is an opaque constructor: bcrypt's salt and
      cost factor are not modelled, and a hash never equals its plaintext. */
  datatype Password = Plain(text: string) | Hashed(plain: string)

  datatype User = User(
    id: UserId,
    fullName: string,
    email: string,
    password: Password,
    bio: string,
    profilePic: string,
    nativeLanguage: string,
    learningLanguage: string,
    location: string,
    isOnboarded: bool,
    friends: seq<UserId>,
    resetPasswordOtp: Option<string>,
    resetPasswordOtpExpires: Option<int>)

  /** Lifetime of a reset code: 10 * 60 * 1000 milliseconds. */
  const OtpLifetimeMs: int := 10 * 60 * 1000

  /** Bounds of the OTP code: Math.floor(10000 + Math.random() * 900000). */
  const OtpMin: int := 10000
  const OtpMax: int := 909999

  /** What a user document holds after saving: a hashed password. */
  predicate IsPersisted(u: User) {
    u.password.Hashed?
  }

  /** The profile, friends and OTP fields hold their schema defaults. */
  predicate HasDefaults(u: User) {
    && u.bio == "" && u.nativeLanguage == "" && u.learningLanguage == "" && u.location == ""
    && !u.isOnboarded && u.friends == []
    && u.resetPasswordOtp == None && u.resetPasswordOtpExpires == None
  }

  /** The pre-save hook: hash the password when, and only when, it was modified. */
  function PreSave(u: User): (r: User)
    ensures IsPersisted(r)
    ensures u.password.Hashed? ==> r == u
    ensures u.password.Plain? ==> r == u.(password := Hashed(u.password.text))
  {
    match u.password
    case Plain(text) => u.(password := Hashed(text))
    case Hashed(_) => u
  }

  /** `User.create({fullName, email, password, profilePic})`: a document with the
      schema defaults, saved once (so the pre-save hook hashes the password). */
  function Create(id: UserId, fullName: string, email: string, password: string, profilePic: string): (u: User)
    ensures IsPersisted(u) && HasDefaults(u)
    ensures u.id == id && u.fullName == fullName && u.email == email && u.profilePic == profilePic
    ensures forall p :: MatchPassword(u, p) <==> p == password
  {
    PreSave(User(id, fullName, email, Plain(password), "", profilePic, "", "", "", false, [], None, None))
  }

  /** `matchPassword`: bcrypt.compare of the entered plaintext against the stored hash.
      A value that is not a hash never matches. */
  function MatchPassword(u: User, entered: string): (r: bool)
    ensures r ==> IsPersisted(u)
    ensures IsPersisted(u) ==> (r <==> entered == u.password.plain)
  {
    u.password == Hashed(entered)
  }

  /** `user.password = plain`: marks the field modified until the next save. */
  function SetPassword(u: User, plain: string): (r: User)
    ensures r.password.Plain? && r.password.text == plain
    ensures r.(password := u.password) == u
  {
    u.(password := Plain(plain))
  }

  /** One save of an existing document: `Some(p)` assigns the password `p` first,
      `None` saves without touching it. */
  function SaveWith(u: User, edit: Option<string>): User {
    match edit
    case Some(p) => PreSave(SetPassword(u, p))
    case None => PreSave(u)
  }

  /** A run of saves, oldest first. */
  function SaveAll(u: User, edits: seq<Option<string>>): User
    decreases |edits|
  {
    if |edits| == 0 then u else SaveAll(SaveWith(u, edits[0]), edits[1..])
  }

  /** The plaintext most recently assigned in `edits`, or `current` if none was. */
  function LatestPassword(current: string, edits: seq<Option<string>>): string
    decreases |edits|
  {
    if |edits| == 0 then current
    else LatestPassword(if edits[0].Some? then edits[0].value else current, edits[1..])
  }

  /** Because the hook hashes only a modified password, saves that do not touch it
      never re-hash the hash, and after any run of saves a password matches exactly
      when it is the plaintext most recently set. */
  lemma {:induction false} MatchesLatestPassword(u: User, edits: seq<Option<string>>, p: string)
    requires IsPersisted(u)
    ensures IsPersisted(SaveAll(u, edits))
    ensures MatchPassword(SaveAll(u, edits), p) <==> p == LatestPassword(u.password.plain, edits)
    decreases |edits|
  {
    if |edits| > 0 {
      MatchesLatestPassword(SaveWith(u, edits[0]), edits[1..], p);
    }
  }

  /** The code `Math.floor(10000 + Math.random() * 900000)` for a draw `rand` of
      Math.random() in [0, 1). */
  function OtpCode(rand: real): (code: int)
    requires 0.0 <= rand < 1.0
    ensures OtpMin <= code <= OtpMax
  {
    (10000.0 + rand * 900000.0).Floor
  }

  /** The outcome of generateOTP: the updated document and the code it returns. */
  datatype OtpIssue = OtpIssue(user: User, otp: string)

  /** `generateOTP` at time `now` (milliseconds): a fresh code, stored as its decimal
      text, overwriting any previous code and expiry; it expires 10 minutes later. */
  function GenerateOtp(u: User, rand: real, now: int): (r: OtpIssue)
    requires 0.0 <= rand < 1.0
    ensures 5 <= |r.otp| <= 6
    ensures exists code | OtpMin <= code <= OtpMax :: r.otp == Decimal.ToDecimal(code)
    ensures r.user.resetPasswordOtp == Some(r.otp)
    ensures r.user.resetPasswordOtpExpires == Some(now + OtpLifetimeMs)
    ensures r.user.(resetPasswordOtp := u.resetPasswordOtp, resetPasswordOtpExpires := u.resetPasswordOtpExpires) == u
  {
    var code := OtpCode(rand);
    var otp := Decimal.ToDecimal(code);
    OtpLengthFiveOrSix(code);
    OtpIssue(u.(resetPasswordOtp := Some(otp), resetPasswordOtpExpires := Some(now + OtpLifetimeMs)), otp)
  }

  /** Every code in [10000, 909999] prints with five or six digits. */
  lemma OtpLengthFiveOrSix(code: int)
    requires OtpMin <= code <= OtpMax
    ensures 5 <= |Decimal.ToDecimal(code)| <= 6
  {
    assert Decimal.Pow10(4) == 10000;
    assert Decimal.Pow10(6) == 1000000;
    if code < 100000 {
      Decimal.DecimalLength(code, 5);
    } else {
      Decimal.DecimalLength(code, 6);
    }
  }

  /** `verifyOTP(otp)` at time `now`: false when either stored field is unset (the
      code also when empty, which JavaScript treats as false), false once `now`
      is strictly past the expiry, and otherwise whether the codes are equal. */
  function VerifyOtp(u: User, otp: string, now: int): (ok: bool)
    ensures ok <==> && u.resetPasswordOtp == Some(otp) && otp != ""
                    && u.resetPasswordOtpExpires.Some? && now <= u.resetPasswordOtpExpires.value
  {
    if u.resetPasswordOtp.None? || u.resetPasswordOtp.value == "" || u.resetPasswordOtpExpires.None? then false
    else if now > u.resetPasswordOtpExpires.value then false
    else u.resetPasswordOtp.value == otp
  }

  /** `clearOTP`: unset both OTP fields, nothing else. */
  function ClearOtp(u: User): (r: User)
    ensures r.resetPasswordOtp == None && r.resetPasswordOtpExpires == None
    ensures r.(resetPasswordOtp := u.resetPasswordOtp, resetPasswordOtpExpires := u.resetPasswordOtpExpires) == u
  {
    u.(resetPasswordOtp := None, resetPasswordOtpExpires := None)
  }

  /** With either OTP field unset no code verifies, at any time. */
  lemma UnsetOtpNeverVerifies(u: User, otp: string, now: int)
    requires u.resetPasswordOtp.None? || u.resetPasswordOtpExpires.None?
    ensures !VerifyOtp(u, otp, now)
  {
  }

  /** Round trip: the code generateOTP returns verifies at every time up to and
      including the expiry, and no other code does. */
  lemma GenerateThenVerify(u: User, rand: real, issuedAt: int, now: int, otp: string)
    requires 0.0 <= rand < 1.0
    requires now <= issuedAt + OtpLifetimeMs
    ensures var g := GenerateOtp(u, rand, issuedAt);
      VerifyOtp(g.user, otp, now) <==> otp == g.otp
  {
  }

  /** Strictly after the expiry no code verifies; at the expiry instant itself the
      comparison is still `now > expiry`, so the code is still decided by equality. */
  lemma ExpiredOtpNeverVerifies(u: User, otp: string, now: int)
    requires u.resetPasswordOtpExpires.Some? && now > u.resetPasswordOtpExpires.value
    ensures !VerifyOtp(u, otp, now)
  {
  }

  lemma OtpValidAtExpiryInstant(u: User, otp: string)
    requires u.resetPasswordOtp.Some? && u.resetPasswordOtp.value != ""
    requires u.resetPasswordOtpExpires.Some?
    ensures VerifyOtp(u, otp, u.resetPasswordOtpExpires.value) <==> otp == u.resetPasswordOtp.value
  {
  }

  /** A second generateOTP overwrites the first: afterwards only the latest code can
      verify, and the earlier one does only if the two draws printed the same text. */
  lemma RegenerateOverwrites(u: User, rand1: real, t1: int, rand2: real, t2: int, now: int)
    requires 0.0 <= rand1 < 1.0 && 0.0 <= rand2 < 1.0
    ensures var first := GenerateOtp(u, rand1, t1);
      var second := GenerateOtp(first.user, rand2, t2);
      && (forall otp :: VerifyOtp(second.user, otp, now) ==> otp == second.otp)
      && (VerifyOtp(second.user, first.otp, now) ==> first.otp == second.otp)
      && second.user.resetPasswordOtpExpires == Some(t2 + OtpLifetimeMs)
  {
  }

  /** After clearOTP nothing verifies, whatever the code and the time. */
  lemma ClearedOtpNeverVerifies(u: User, otp: string, now: int)
    ensures !VerifyOtp(ClearOtp(u), otp, now)
  {
  }

  /** Clearing undoes generating: the OTP fields return to unset and every other
      field is the one before generateOTP. */
  lemma ClearUndoesGenerate(u: User, rand: real, now: int)
    requires 0.0 <= rand < 1.0
    ensures ClearOtp(GenerateOtp(u, rand, now).user) == ClearOtp(u)
  {
  }
}
