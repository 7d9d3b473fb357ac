/** Properties of request sequences: what one handler leaves behind for the next
    one, the store invariant along any run of requests, and the scenarios the
    password-reset flow is built for. */
module AuthFlows {
  import opened UserModel
  import opened EmailFormat
  import opened AuthController
  import Decimal

  /** Login gives byte-identical replies for an unknown address and for a wrong
      password, so the reply does not reveal whether an account exists. */
  lemma LoginHidesAccountExistence(without: Store, with: Store, email: string, password: string)
    requires email != "" && password != ""
    requires email !in without
    requires email in with && !MatchPassword(with[email], password)
    ensures Login(without, email, password) == Outcome(Reply(401, Message(InvalidCredentials), KeepSession), without)
    ensures Login(without, email, password).reply == Login(with, email, password).reply
  {
  }

  /** forgotPassword answers an unknown address and a registered one, when the OTP
      e-mail is sent, with the same status 200 but different messages, so the reply
      reveals whether the account exists. When the send fails the registered address
      gets 500, and the status alone tells the two apart. */
  lemma ForgotPasswordRevealsAccountByMessage(without: Store, with: Store, email: string, rand: real, now: int)
    requires 0.0 <= rand < 1.0
    requires IsEmailFormat(email) && email !in without && email in with
    ensures ForgotPassword(without, email, rand, now, true).reply.status == ForgotPassword(with, email, rand, now, true).reply.status
    ensures ForgotPassword(without, email, rand, now, true).reply.body != ForgotPassword(with, email, rand, now, true).reply.body
    ensures ForgotPassword(without, email, rand, now, false).reply.status == 200
    ensures ForgotPassword(with, email, rand, now, false).reply.status == 500
  {
    assert |IfRegisteredEmail| != |OtpSent|;
  }

  /** verifyOTP refuses an unknown address and a registered address with a wrong or
      expired code with the same status 400, but with different messages. */
  lemma VerifyOtpRevealsAccountByMessage(without: Store, with: Store, email: string, otp: string, now: int)
    requires email != "" && otp != "" && email !in without && email in with
    requires !UserModel.VerifyOtp(with[email], otp, now)
    ensures AuthController.VerifyOtp(without, email, otp, now).reply.status == 400
    ensures AuthController.VerifyOtp(with, email, otp, now).reply.status == 400
    ensures AuthController.VerifyOtp(without, email, otp, now).reply.body
         != AuthController.VerifyOtp(with, email, otp, now).reply.body
  {
    assert |InvalidEmailOrOtp| != |InvalidOrExpiredOtp|;
  }

  /** resetPassword does the same: with a valid new password, an unknown address and
      a registered one with a wrong or expired code both get 400, with different
      messages. */
  lemma ResetPasswordRevealsAccountByMessage(without: Store, with: Store, email: string, otp: string,
                                             newPassword: string, now: int)
    requires email != "" && otp != "" && |newPassword| >= 6 && email !in without && email in with
    requires !UserModel.VerifyOtp(with[email], otp, now)
    ensures ResetPassword(without, email, otp, newPassword, now).reply.status == 400
    ensures ResetPassword(with, email, otp, newPassword, now).reply.status == 400
    ensures ResetPassword(without, email, otp, newPassword, now).reply.body
         != ResetPassword(with, email, otp, newPassword, now).reply.body
  {
    assert |ResetInvalidEmailOrOtp| != |ResetInvalidOtp|;
  }

  /** A signup followed by a login with the same password succeeds for the new
      document, and a login with any other password is refused. */
  lemma SignupThenLogin(store: Store, email: string, password: string, fullName: string,
                        newId: UserId, rand: real, attempt: string)
    requires 0.0 <= rand < 1.0 && IdIsFresh(store, newId)
    requires Signup(store, email, password, fullName, newId, rand).reply.status == 201
    ensures var s := Signup(store, email, password, fullName, newId, rand).store;
      Login(s, email, attempt).reply.status == 200 <==> attempt == password
    ensures var s := Signup(store, email, password, fullName, newId, rand).store;
      Login(s, email, password).reply.session == Issued(newId, SessionMaxAgeMs)
  {
  }

  /** The code mailed by forgotPassword verifies until its expiry instant inclusive,
      and no other code does. */
  lemma ForgotThenVerify(store: Store, email: string, rand: real, issuedAt: int, now: int, otp: string)
    requires 0.0 <= rand < 1.0
    requires IsEmailFormat(email) && email in store
    requires now <= issuedAt + OtpLifetimeMs
    ensures var mailed := GenerateOtp(store[email], rand, issuedAt).otp;
      var s := ForgotPassword(store, email, rand, issuedAt, true).store;
      AuthController.VerifyOtp(s, email, otp, now).reply.status == 200 <==> otp == mailed
  {
    GenerateThenVerify(store[email], rand, issuedAt, now, otp);
  }

  /** Once more than ten minutes have passed, no code verifies and no reset succeeds. */
  lemma ForgotThenExpire(store: Store, email: string, rand: real, issuedAt: int, now: int,
                         otp: string, newPassword: string)
    requires 0.0 <= rand < 1.0
    requires IsEmailFormat(email) && email in store
    requires now > issuedAt + OtpLifetimeMs
    ensures var s := ForgotPassword(store, email, rand, issuedAt, true).store;
      && AuthController.VerifyOtp(s, email, otp, now).reply.status == 400
      && ResetPassword(s, email, otp, newPassword, now).store == s
  {
    var s := ForgotPassword(store, email, rand, issuedAt, true).store;
    ExpiredOtpNeverVerifies(s[email], otp, now);
  }

  /** When the OTP e-mail cannot be sent, the rollback leaves no usable code, even if
      an earlier request had left one. */
  lemma FailedForgotLeavesNoCode(store: Store, email: string, rand: real, issuedAt: int, now: int, otp: string)
    requires 0.0 <= rand < 1.0
    requires IsEmailFormat(email) && email in store
    ensures var s := ForgotPassword(store, email, rand, issuedAt, false).store;
      AuthController.VerifyOtp(s, email, otp, now).reply.status == 400
  {
    var s := ForgotPassword(store, email, rand, issuedAt, false).store;
    ClearedOtpNeverVerifies(store[email], otp, now);
  }

  /** resendOTP supersedes the code of an earlier forgotPassword: afterwards the old
      code verifies only if it has the same text as the new one, which verifies until
      ten minutes after the resend, even if its e-mail failed. */
  lemma ResendSupersedesForgot(store: Store, email: string, rand1: real, t1: int, rand2: real, t2: int,
                               sent: bool, now: int)
    requires 0.0 <= rand1 < 1.0 && 0.0 <= rand2 < 1.0
    requires IsEmailFormat(email) && email in store
    requires now <= t2 + OtpLifetimeMs
    ensures var s1 := ForgotPassword(store, email, rand1, t1, true).store;
      var oldCode := GenerateOtp(store[email], rand1, t1).otp;
      var newCode := GenerateOtp(s1[email], rand2, t2).otp;
      var s2 := ResendOtp(s1, email, rand2, t2, sent).store;
      && AuthController.VerifyOtp(s2, email, newCode, now).reply.status == 200
      && (AuthController.VerifyOtp(s2, email, oldCode, now).reply.status == 200 ==> oldCode == newCode)
  {
    var s1 := ForgotPassword(store, email, rand1, t1, true).store;
    RegenerateOverwrites(store[email], rand1, t1, rand2, t2, now);
    GenerateThenVerify(s1[email], rand2, t2, now, GenerateOtp(s1[email], rand2, t2).otp);
  }

  /** A successful reset consumes the code: afterwards no code verifies and no second
      reset succeeds, at any time, until a new code is requested. */
  lemma ResetConsumesOtp(store: Store, email: string, otp: string, newPassword: string, now: int,
                         otp': string, newPassword': string, later: int)
    requires ResetPassword(store, email, otp, newPassword, now).reply.status == 200
    ensures var s := ResetPassword(store, email, otp, newPassword, now).store;
      && AuthController.VerifyOtp(s, email, otp', later).reply.status == 400
      && ResetPassword(s, email, otp', newPassword', later).reply.status == 400
  {
    var s := ResetPassword(store, email, otp, newPassword, now).store;
    UnsetOtpNeverVerifies(s[email], otp', later);
  }

  /** After a successful reset, login accepts the new password and refuses every other. */
  lemma ResetThenLogin(store: Store, email: string, otp: string, newPassword: string, now: int, attempt: string)
    requires ResetPassword(store, email, otp, newPassword, now).reply.status == 200
    ensures var s := ResetPassword(store, email, otp, newPassword, now).store;
      Login(s, email, attempt).reply.status == 200 <==> attempt == newPassword
  {
  }

  /** One request of any kind, with its clock, random draws, fresh id and e-mail outcome. */
  datatype Request =
    | SignupRequest(email: string, password: string, fullName: string, newId: UserId, rand: real)
    | LoginRequest(email: string, password: string)
    | LogoutRequest
    | ForgotRequest(email: string, rand: real, now: int, sent: bool)
    | VerifyRequest(email: string, otp: string, now: int)
    | ResetRequest(email: string, otp: string, newPassword: string, now: int)
    | ResendRequest(email: string, rand: real, now: int, sent: bool)
    | OnboardRequest(userId: UserId, fullName: string, bio: string, nativeLanguage: string,
                     learningLanguage: string, location: string, profilePic: Option<string>)

  /** The request's draws are in range and a signup's id is fresh: what Math.random()
      and ObjectId generation guarantee. */
  ghost predicate Admissible(store: Store, req: Request) {
    match req
    case SignupRequest(_, _, _, newId, rand) => 0.0 <= rand < 1.0 && IdIsFresh(store, newId)
    case ForgotRequest(_, rand, _, _) => 0.0 <= rand < 1.0
    case ResendRequest(_, rand, _, _) => 0.0 <= rand < 1.0
    case _ => true
  }

  ghost function Step(store: Store, req: Request): Store
    requires Admissible(store, req)
  {
    match req
    case SignupRequest(email, password, fullName, newId, rand) => Signup(store, email, password, fullName, newId, rand).store
    case LoginRequest(email, password) => Login(store, email, password).store
    case LogoutRequest => Logout(store).store
    case ForgotRequest(email, rand, now, sent) => ForgotPassword(store, email, rand, now, sent).store
    case VerifyRequest(email, otp, now) => AuthController.VerifyOtp(store, email, otp, now).store
    case ResetRequest(email, otp, newPassword, now) => ResetPassword(store, email, otp, newPassword, now).store
    case ResendRequest(email, rand, now, sent) => ResendOtp(store, email, rand, now, sent).store
    case OnboardRequest(userId, fullName, bio, nativeLanguage, learningLanguage, location, profilePic) =>
      Onboard(store, userId, fullName, bio, nativeLanguage, learningLanguage, location, profilePic).store
  }

  /** The store after serving `reqs` in order; a request that cannot occur is skipped. */
  ghost function Run(store: Store, reqs: seq<Request>): Store
    decreases |reqs|
  {
    if |reqs| == 0 then store
    else Run(if Admissible(store, reqs[0]) then Step(store, reqs[0]) else store, reqs[1..])
  }

  /** Every handler keeps the store invariant and never removes a document. */
  lemma StepPreservesWellFormed(store: Store, req: Request)
    requires WellFormed(store) && Admissible(store, req)
    ensures WellFormed(Step(store, req))
    ensures store.Keys <= Step(store, req).Keys
  {
  }

  /** Along any run of requests from a well-formed store (the empty one included),
      e-mails stay unique, passwords stay hashed, ids stay unique and no account
      disappears. An onboarding request carries the five profile fields and an
      optional picture only; a body that also sets `password` or `email` is outside
      this model, and for it the invariant does not hold. */
  lemma {:induction false} RunPreservesWellFormed(store: Store, reqs: seq<Request>)
    requires WellFormed(store)
    ensures WellFormed(Run(store, reqs))
    ensures store.Keys <= Run(store, reqs).Keys
    decreases |reqs|
  {
    if |reqs| > 0 {
      var next := if Admissible(store, reqs[0]) then Step(store, reqs[0]) else store;
      if Admissible(store, reqs[0]) {
        StepPreservesWellFormed(store, reqs[0]);
      }
      RunPreservesWellFormed(next, reqs[1..]);
    }
  }

  lemma ExampleAddressIsValid()
    ensures IsEmailFormat("a@x.com")
    ensures IsEmailFormat("unknown@x.com")
    ensures !IsEmailFormat("a@x")
  {
    PartsMatch("a", "x", "com");
    assert "a" + "@" + "x" + "." + "com" == "a@x.com";
    PartsMatch("unknown", "x", "com");
    assert "unknown" + "@" + "x" + "." + "com" == "unknown@x.com";
  }

  /** Signup of a@x.com succeeds once; a second signup with the same address is a
      400 conflict that changes nothing. */
  lemma SignupConflictScenario(rand1: real, rand2: real)
    requires 0.0 <= rand1 < 1.0 && 0.0 <= rand2 < 1.0
    ensures var first := Signup(map[], "a@x.com", "secret1", "Ann", 1, rand1);
      && first.reply.status == 201
      && first.store["a@x.com"].email == "a@x.com"
      && Signup(first.store, "a@x.com", "secret2", "Bob", 2, rand2)
         == Outcome(Reply(400, Message(EmailAlreadyExists), KeepSession), first.store)
  {
    ExampleAddressIsValid();
  }

  /** forgotPassword for an unregistered address answers the generic 200 and creates
      no code. */
  lemma UnknownAddressScenario(store: Store, rand: real, now: int, sent: bool)
    requires 0.0 <= rand < 1.0 && "unknown@x.com" !in store
    ensures ForgotPassword(store, "unknown@x.com", rand, now, sent)
      == Outcome(Reply(200, Message(IfRegisteredEmail), KeepSession), store)
  {
    ExampleAddressIsValid();
  }

  /** The draw that makes generateOTP produce 123456. */
  const Draw123456: real := 113456.0 / 900000.0

  /** forgotPassword mails the code "123456"; it verifies within ten minutes and is
      refused once ten minutes have passed. */
  lemma OtpScenario(store: Store, t: int)
    requires "a@x.com" in store
    ensures 0.0 <= Draw123456 < 1.0
    ensures var s := ForgotPassword(store, "a@x.com", Draw123456, t, true).store;
      && s["a@x.com"].resetPasswordOtp == Some("123456")
      && AuthController.VerifyOtp(s, "a@x.com", "123456", t + OtpLifetimeMs).reply.status == 200
      && AuthController.VerifyOtp(s, "a@x.com", "123456", t + OtpLifetimeMs + 1).reply.status == 400
  {
    ExampleAddressIsValid();
    assert OtpCode(Draw123456) == 123456;
    assert Decimal.ToDecimal(123456) == "123456" by {
      assert Decimal.ToDecimal(1) == "1";
      assert Decimal.ToDecimal(12) == "12";
      assert Decimal.ToDecimal(123) == "123";
      assert Decimal.ToDecimal(1234) == "1234";
      assert Decimal.ToDecimal(12345) == "12345";
    }
  }
}
