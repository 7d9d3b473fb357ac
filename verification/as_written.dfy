/** resetPassword and verifyOTP of backend/src/controllers/auth.controller.js as the
    code is written, and resendOTP's line-255 defect in isolation with the OTP calls
    corrected, each next to the corrected handler of AuthController with an input on
    which the pair disagrees. */
module AsWritten {
  import opened UserModel
  import opened AuthController

  /** resetPassword as written: line 187 reads `password`, which is not declared in
      the handler. With an empty `email` the `||` stops before it and the reply is
      400; otherwise the ReferenceError reaches the outer catch and the reply is 500.
      No input ever changes the store. */
  function ResetPasswordAsWritten(store: Store, email: string, otp: string, newPassword: string, now: int): (r: Outcome)
    ensures r.store == store
    ensures r.reply.status != 200
    ensures r.reply.status == 400 <==> email == ""
  {
    if email == "" then Outcome(Reply(400, Message(ResetFieldsRequired), KeepSession), store)
    else Outcome(Reply(500, Message(InternalServerError), KeepSession), store)
  }

  /** verifyOTP as written: `user.verifyOTP(otp)` is an async method called without
      `await`, so the handler tests a Promise, which is always truthy. Every
      registered address passes, whatever the code and whatever the stored fields. */
  function VerifyOtpAsWritten(store: Store, email: string, otp: string, now: int): (r: Outcome)
    ensures r.store == store
    ensures r.reply.status == 200 <==> email != "" && otp != "" && email in store
  {
    if email == "" || otp == "" then Outcome(Reply(400, Message(EmailOrOtpRequired), KeepSession), store)
    else if email !in store then Outcome(Reply(400, Message(InvalidEmailOrOtp), KeepSession), store)
    else Outcome(Reply(200, Message(OtpVerified), KeepSession), store)
  }

  /** resendOTP with the defect of line 255 alone, the OTP method calls taken as
      corrected (as written, generateOTP is an arrow function whose `this` is not the
      document, so the handler fails before line 255 and stores nothing). The failure
      branch logs `emailError`, which is not declared there; the ReferenceError
      reaches the outer catch, so the reply is the generic 500 instead of the
      delivery-failure message. The store is as in the corrected handler. */
  function ResendOtpAsWritten(store: Store, email: string, rand: real, now: int, sent: bool): (r: Outcome)
    requires 0.0 <= rand < 1.0
    ensures r.store == ResendOtp(store, email, rand, now, sent).store
    ensures email != "" && email in store && !sent ==>
      r.reply == Reply(500, Message(InternalServerError), KeepSession)
    ensures !(email != "" && email in store && !sent) ==> r.reply == ResendOtp(store, email, rand, now, sent).reply
  {
    if email == "" then
      Outcome(Reply(400, Message(EmailRequired), KeepSession), store)
    else if email !in store then
      Outcome(Reply(200, Message(IfRegisteredOtp), KeepSession), store)
    else
      var saved := store[email := GenerateOtp(store[email], rand, now).user];
      if sent then Outcome(Reply(200, Message(OtpResent), KeepSession), saved)
      else Outcome(Reply(500, Message(InternalServerError), KeepSession), saved)
  }

  /** A registered user holding the valid code "123456" until time 1000. */
  function SampleStore(): Store {
    map["a@x.com" := User(1, "Ann", "a@x.com", Hashed("secret1"), "", "", "", "", "", false, [],
                           Some("123456"), Some(1000))]
  }

  /** A correct code and a valid new password: the corrected handler resets the
      password, the handler as written answers 500 and changes nothing. */
  lemma ResetPasswordAsWrittenRejectsValidReset()
    ensures ResetPassword(SampleStore(), "a@x.com", "123456", "newpass1", 0).reply.status == 200
    ensures ResetPasswordAsWritten(SampleStore(), "a@x.com", "123456", "newpass1", 0).reply.status == 500
  {
  }

  /** A wrong code: the corrected handler answers 400, the handler as written 200. */
  lemma VerifyOtpAsWrittenAcceptsWrongCode()
    ensures AuthController.VerifyOtp(SampleStore(), "a@x.com", "000000", 0).reply.status == 400
    ensures VerifyOtpAsWritten(SampleStore(), "a@x.com", "000000", 0).reply.status == 200
  {
    assert "000000" != "123456";
  }

  /** A failed send: the corrected handler reports the delivery failure, the handler
      as written the generic internal error. */
  lemma ResendOtpAsWrittenHidesDeliveryFailure(rand: real, now: int)
    requires 0.0 <= rand < 1.0
    ensures ResendOtp(SampleStore(), "a@x.com", rand, now, false).reply.body == Message(OtpSendFailed)
    ensures ResendOtpAsWritten(SampleStore(), "a@x.com", rand, now, false).reply.body == Message(InternalServerError)
    ensures ResendOtpAsWritten(SampleStore(), "a@x.com", rand, now, false).reply.body
         != ResendOtp(SampleStore(), "a@x.com", rand, now, false).reply.body
  {
    assert |OtpSendFailed| != |InternalServerError|;
  }
}
