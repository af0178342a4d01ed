/** Identity rules (backend/controllers/authController.js): the ordered sign-up
    checks, login, sign-up through Google, and the password-reset sequence
    send code / verify code / reset. userModel.js is not part of this model;
    the fields below are the ones the handlers read and write. */
module Auth {
  import opened Js
  import opened Http

  /** Milliseconds, as `Date.now()` gives them. */
  type Time = int

  /** A password hash produced by bcrypt. */
  type Hash = string

  /** A User document. `password` is None for a user created through Google;
      `resetOtp` is the four-digit code, stored as its decimal string, and it
      and `otpExpires` are None while unset. */
  datatype User = User(
    name: string, email: string, role: string, password: Option<Hash>,
    resetOtp: Option<nat>, otpExpires: Option<Time>, isOtpVerifed: bool)

  // ----- sign-up checks -----

  /** `/[lo-hi]/.test(p)`: some character of `p` lies in the range. */
  function HasCharIn(p: string, lo: char, hi: char): (b: bool)
    ensures b <==> exists i :: 0 <= i < |p| && lo <= p[i] <= hi
  {
    if p == [] then false
    else if lo <= p[0] <= hi then true
    else
      var rest := HasCharIn(p[1..], lo, hi);
      assert forall i :: 1 <= i < |p| ==> p[i] == p[1..][i - 1];
      rest
  }

  predicate IsSpecial(c: char)
  {
    c == '@' || c == '$' || c == '!' || c == '%' || c == '*' || c == '?' || c == '&'
  }

  /** `/[@$!%*?&]/.test(p)`. */
  function HasSpecial(p: string): (b: bool)
    ensures b <==> exists i :: 0 <= i < |p| && IsSpecial(p[i])
  {
    if p == [] then false
    else if IsSpecial(p[0]) then true
    else
      var rest := HasSpecial(p[1..]);
      assert forall i :: 1 <= i < |p| ==> p[i] == p[1..][i - 1];
      rest
  }

  /** The password rule sign-up enforces. */
  predicate StrongPassword(p: string)
  {
    && |p| >= 8
    && (exists i :: 0 <= i < |p| && 'A' <= p[i] <= 'Z')
    && (exists i :: 0 <= i < |p| && '0' <= p[i] <= '9')
    && (exists i :: 0 <= i < |p| && IsSpecial(p[i]))
  }

  /** The checks of `signUp`, in the order the handler makes them; None when
      every check passes. `emailTaken` is the result of the lookup by email,
      `emailValid` the verdict of the email-format validator. */
  function SignUpError(name: string, email: string, password: string, role: string,
                       emailTaken: bool, emailValid: bool): Option<Error>
  {
    if name == "" || email == "" || password == "" || role == "" then
      Some(Error(400, "All fields are required"))
    else if emailTaken then Some(Error(400, "Email already exists!"))
    else if !emailValid then Some(Error(400, "Please enter a valid email!"))
    else if |password| < 8 then Some(Error(400, "Please enter a Strong Password!"))
    else if !HasCharIn(password, 'A', 'Z') then
      Some(Error(400, "Password must contain at least one uppercase letter"))
    else if !HasCharIn(password, '0', '9') then
      Some(Error(400, "Password must contain at least one number"))
    else if !HasSpecial(password) then
      Some(Error(400, "Password must contain at least one special character"))
    else None
  }

  /** Sign-up succeeds exactly for complete, new, well-formed requests with a
      strong password; a missing field is reported before anything else, and
      a taken email before a malformed one (the password failures follow, as
      `PasswordCheckOrder` states). */
  lemma SignUpCheckOrder(name: string, email: string, password: string, role: string,
                         emailTaken: bool, emailValid: bool)
    ensures var e := SignUpError(name, email, password, role, emailTaken, emailValid);
      && (e.None? <==> name != "" && email != "" && password != "" && role != ""
                       && !emailTaken && emailValid && StrongPassword(password))
      && (name == "" || email == "" || password == "" || role == "" ==>
            e == Some(Error(400, "All fields are required")))
      && (name != "" && email != "" && password != "" && role != "" && emailTaken ==>
            e == Some(Error(400, "Email already exists!")))
      && (name != "" && email != "" && password != "" && role != "" && !emailTaken && !emailValid ==>
            e == Some(Error(400, "Please enter a valid email!")))
      && (e.Some? ==> e.value.status == 400)
  {
  }

  /** Once the fields and the email pass, the password failures come in the
      order length, upper-case letter, digit, special character, each with its
      own message. */
  lemma PasswordCheckOrder(name: string, email: string, password: string, role: string)
    requires name != "" && email != "" && password != "" && role != ""
    ensures var e := SignUpError(name, email, password, role, false, true);
      && (|password| < 8 ==> e == Some(Error(400, "Please enter a Strong Password!")))
      && (|password| >= 8 && !HasCharIn(password, 'A', 'Z') ==>
            e == Some(Error(400, "Password must contain at least one uppercase letter")))
      && (|password| >= 8 && HasCharIn(password, 'A', 'Z') && !HasCharIn(password, '0', '9') ==>
            e == Some(Error(400, "Password must contain at least one number")))
      && (|password| >= 8 && HasCharIn(password, 'A', 'Z') && HasCharIn(password, '0', '9') && !HasSpecial(password) ==>
            e == Some(Error(400, "Password must contain at least one special character")))
  {
  }

  // ----- one-time codes -----

  /** The lifetime of a reset code: five minutes. */
  const OtpLifetime: int := 5 * 60 * 1000

  /** `Math.floor(1000 + Math.random() * 9000)` for a draw `random` in [0, 1). */
  function OtpCode(random: real): (code: nat)
    requires 0.0 <= random < 1.0
    ensures 1000 <= code <= 9999
  {
    var x := 1000.0 + random * 9000.0;
    assert 1000.0 <= x < 10000.0;
    x.Floor
  }

  function Digit(d: nat): char
    requires d < 10
  {
    ('0' as int + d) as char
  }

  /** `n.toString()` for a natural number. */
  function DecimalString(n: nat): (s: string)
    ensures |s| >= 1
    ensures forall i :: 0 <= i < |s| ==> '0' <= s[i] <= '9'
  {
    if n < 10 then [Digit(n)] else DecimalString(n / 10) + [Digit(n % 10)]
  }

  /** Every code `sendOtp` issues is four characters long. */
  lemma OtpCodeHasFourDigits(code: nat)
    requires 1000 <= code <= 9999
    ensures |DecimalString(code)| == 4
  {
    var n1 := code / 10;
    var n2 := n1 / 10;
    var n3 := n2 / 10;
    assert 1 <= n3 < 10;
    assert |DecimalString(n3)| == 1;
    assert |DecimalString(n2)| == 2;
    assert |DecimalString(n1)| == 3;
  }

  /** `user.resetOtp == otp` with JavaScript's loose equality, for the stored
      value (the code's decimal string, or undefined) against the request's
      value: undefined equals only undefined and null; a string equals the
      same string and the number it spells. */
  predicate LooselyEqualsStored(stored: Option<nat>, given: Value)
  {
    match stored
    case None => given == Undefined || given == Null
    case Some(code) => given == Str(DecimalString(code)) || given == Num(code)
  }

  /** `user.otpExpires < Date.now()`; an undefined expiry compares false. */
  predicate ExpiredAsWritten(expires: Option<Time>, now: Time)
  {
    expires.Some? && expires.value < now
  }

  /** The test of `verifyOtp` as written:
      `!(!user || user.resetOtp != otp || user.otpExpires < Date.now())`. */
  predicate OtpAcceptedAsWritten(u: Option<User>, given: Value, now: Time)
  {
    u.Some? && LooselyEqualsStored(u.value.resetOtp, given) && !ExpiredAsWritten(u.value.otpExpires, now)
  }

  /** The test as intended: a code has been issued and not yet used, the
      request carries it, and it has not expired (the expiry instant itself
      still counts). */
  predicate OtpAccepted(u: Option<User>, given: Value, now: Time)
  {
    && u.Some? && u.value.resetOtp.Some? && u.value.otpExpires.Some?
    && LooselyEqualsStored(u.value.resetOtp, given)
    && now <= u.value.otpExpires.value
  }

  /** As written, a request without an `otp` field verifies any user who has no
      pending code (one who never asked for a code, or whose code was already
      used): undefined equals undefined and `undefined < now` is false. */
  lemma OtpWithoutCodeAcceptedAsWritten(u: User, now: Time)
    requires u.resetOtp == None && u.otpExpires == None
    ensures OtpAcceptedAsWritten(Some(u), Undefined, now)
    ensures OtpAcceptedAsWritten(Some(u), Null, now)
    ensures !OtpAccepted(Some(u), Undefined, now) && !OtpAccepted(Some(u), Null, now)
  {
  }

  /** The whole takeover as written: a request without `otp` verifies a user
      with no pending code, which opens `resetPassword` to whoever sends the
      next request, and the same empty request verifies that user again. */
  lemma ResetWithoutCodeAsWritten(u: User, now: Time, later: Time, hashed: Hash)
    requires u.resetOtp == None && u.otpExpires == None
    ensures OtpAcceptedAsWritten(Some(u), Undefined, now)
    ensures ResetAllowed(Some(AfterVerify(u)))
    ensures AfterReset(AfterVerify(u), hashed).password == Some(hashed)
    ensures OtpAcceptedAsWritten(Some(AfterVerify(u)), Undefined, later)
    ensures OtpAcceptedAsWritten(Some(AfterReset(AfterVerify(u), hashed)), Undefined, later)
  {
  }

  /** While a code is pending the written test and the intended one agree. */
  lemma OtpTestsAgreeWhilePending(u: User, given: Value, now: Time)
    requires u.resetOtp.Some? && u.otpExpires.Some?
    ensures OtpAcceptedAsWritten(Some(u), given, now) <==> OtpAccepted(Some(u), given, now)
  {
  }

  /** `sendOtp`: a fresh code, expiring five minutes from now, and any earlier
      verification withdrawn. */
  function WithOtp(u: User, code: nat, now: Time): User
  {
    u.(resetOtp := Some(code), otpExpires := Some(now + OtpLifetime), isOtpVerifed := false)
  }

  /** `verifyOtp` on success: verified, and the code and expiry cleared. */
  function AfterVerify(u: User): User
  {
    u.(isOtpVerifed := true, resetOtp := None, otpExpires := None)
  }

  /** `resetPassword` on success: the new hash stored and verification spent. */
  function AfterReset(u: User, hashed: Hash): User
  {
    u.(password := Some(hashed), isOtpVerifed := false)
  }

  /** `resetPassword` goes past its first check only for a verified user. */
  predicate ResetAllowed(u: Option<User>)
  {
    u.Some? && u.value.isOtpVerifed
  }

  /** A code issued at `issued` verifies, as a string or as a number, up to
      and including `issued + 300000` and not one millisecond later. */
  lemma OtpExpiryIsInclusive(u: User, code: nat, issued: Time, given: Value)
    ensures OtpAccepted(Some(WithOtp(u, code, issued)), Str(DecimalString(code)), issued + 300000)
    ensures OtpAccepted(Some(WithOtp(u, code, issued)), Num(code), issued + 300000)
    ensures !OtpAccepted(Some(WithOtp(u, code, issued)), given, issued + 300001)
  {
  }

  /** With the intended test a code verifies once: after a successful
      verification no value verifies again until a new code is sent (as
      written, `ResetWithoutCodeAsWritten` shows the opposite). */
  lemma OtpIsSingleUse(u: User, given: Value, now: Time, again: Value, later: Time)
    requires OtpAccepted(Some(u), given, now)
    ensures ResetAllowed(Some(AfterVerify(u)))
    ensures !OtpAccepted(Some(AfterVerify(u)), again, later)
  {
  }

  /** One reset per verification, and a new code withdraws a verification. */
  lemma OneResetPerVerification(u: User, hashed: Hash, code: nat, now: Time)
    ensures !ResetAllowed(Some(AfterReset(u, hashed)))
    ensures !ResetAllowed(Some(WithOtp(u, code, now)))
  {
  }

  /** `googleSignup`: a user is created only for an unknown email. */
  function AfterGoogleSignup(users: map<string, User>, name: string, email: string, role: string): map<string, User>
  {
    if email in users then users else users[email := User(name, email, role, None, None, None, false)]
  }

  /** Repeating a Google sign-up never adds a second user, and never changes
      a user that already exists. */
  lemma GoogleSignupIsIdempotent(users: map<string, User>, name: string, email: string, role: string,
                                 name2: string, role2: string)
    ensures var once := AfterGoogleSignup(users, name, email, role);
      && AfterGoogleSignup(once, name2, email, role2) == once
      && once.Keys == users.Keys + {email}
      && (email in users ==> once == users)
  {
  }

  /** `login`: the user for a known email and a matching password. `matches`
      is bcrypt's comparison; it throws (500) for a user with no password. */
  function Login(users: map<string, User>, email: string, password: string,
                 matches: (string, Hash) -> bool): (r: Result<User>)
    ensures email !in users ==> r == Err(Error(400, "User does not exist!"))
    ensures email in users && users[email].password.Some? && !matches(password, users[email].password.value) ==>
      r == Err(Error(400, "Incorrect Password"))
    ensures email in users && users[email].password.None? ==> r.Err? && r.error.status == 500
    ensures r.Ok? <==> email in users && users[email].password.Some? && matches(password, users[email].password.value)
    ensures r.Ok? ==> r == Ok(200, users[email])
  {
    if email !in users then Err(Error(400, "User does not exist!"))
    else
      var u := users[email];
      if u.password.None? then Err(Error(500, "Login Error: Error: Illegal arguments: string, undefined"))
      else if !matches(password, u.password.value) then Err(Error(400, "Incorrect Password"))
      else Ok(200, u)
  }

  /** The users collection, looked up by email. */
  class Accounts {
    var users: map<string, User>

    /** Each user is filed under their own email, and a pending code is one
        `sendOtp` can issue. */
    ghost predicate Valid()
      reads this
    {
      forall e :: e in users ==> users[e].email == e && (users[e].resetOtp.Some? ==> 1000 <= users[e].resetOtp.value <= 9999)
    }

    constructor ()
      ensures Valid() && users == map[]
    {
      users := map[];
    }

    /** `signUp`. `emailValid` is the format validator's verdict and `hashed`
        the bcrypt hash of `password`; only the hash is stored. */
    method SignUp(name: string, email: string, password: string, role: string,
                  emailValid: bool, hashed: Hash) returns (r: Result<User>)
      requires Valid()
      modifies this
      ensures Valid()
      ensures var e := SignUpError(name, email, password, role, email in old(users), emailValid);
        e.Some? ==> r == Err(e.value) && users == old(users)
      ensures SignUpError(name, email, password, role, email in old(users), emailValid).None? ==>
        && email !in old(users)
        && users == old(users)[email := User(name, email, role, Some(hashed), None, None, false)]
        && r == Ok(201, users[email])
        && users[email].password == Some(hashed)
    {
      var e := SignUpError(name, email, password, role, email in users, emailValid);
      if e.Some? {
        return Err(e.value);
      }
      var u := User(name, email, role, Some(hashed), None, None, false);
      users := users[email := u];
      r := Ok(201, u);
    }

    /** `googleSignup`. */
    method GoogleSignup(name: string, email: string, role: string) returns (r: Result<User>)
      requires Valid()
      modifies this
      ensures Valid()
      ensures users == AfterGoogleSignup(old(users), name, email, role)
      ensures r == Ok(200, users[email]) && r.value.email == email
      ensures email in old(users) ==> users == old(users)
    {
      if email !in users {
        users := users[email := User(name, email, role, None, None, None, false)];
      }
      r := Ok(200, users[email]);
    }

    /** `sendOtp`; `random` is the draw of `Math.random()`. The code handed to
        the mailer is returned in `sent`. */
    method SendOtp(email: string, random: real, now: Time) returns (r: Result<string>, sent: Option<nat>)
      requires Valid() && 0.0 <= random < 1.0
      modifies this
      ensures Valid()
      ensures email !in old(users) ==>
        r == Err(Error(404, "User not found")) && sent == None && users == old(users)
      ensures email in old(users) ==>
        && sent == Some(OtpCode(random))
        && 1000 <= sent.value <= 9999
        && users == old(users)[email := WithOtp(old(users)[email], sent.value, now)]
        && r == Ok(200, "Email Sent Successfully!")
    {
      if email !in users {
        return Err(Error(404, "User not found")), None;
      }
      var code := OtpCode(random);
      users := users[email := WithOtp(users[email], code, now)];
      r, sent := Ok(200, "Email Sent Successfully!"), Some(code);
    }

    /** `verifyOtp`, with the intended test (see `OtpAccepted`). */
    method VerifyOtp(email: string, given: Value, now: Time) returns (r: Result<string>)
      requires Valid()
      modifies this
      ensures Valid()
      ensures !OtpAccepted(Get(old(users), email), given, now) ==>
        r == Err(Error(400, "Invalid OTP!")) && users == old(users)
      ensures OtpAccepted(Get(old(users), email), given, now) ==>
        && users == old(users)[email := AfterVerify(old(users)[email])]
        && r == Ok(200, "OTP varified!")
        && users[email].email == email
      ensures r.Ok? && given.Str? ==> |given.s| == 4
    {
      if !OtpAccepted(Get(users, email), given, now) {
        return Err(Error(400, "Invalid OTP!"));
      }
      OtpCodeHasFourDigits(users[email].resetOtp.value);
      users := users[email := AfterVerify(users[email])];
      r := Ok(200, "OTP varified!");
    }

    /** `resetPassword`. `matches` is bcrypt's comparison and `hashed` the hash
        of the new `password`. */
    method ResetPassword(email: string, password: string, hashed: Hash,
                         matches: (string, Hash) -> bool) returns (r: Result<string>)
      requires Valid()
      modifies this
      ensures Valid()
      ensures !ResetAllowed(Get(old(users), email)) ==>
        r == Err(Error(404, "OTP verification required")) && users == old(users)
      ensures ResetAllowed(Get(old(users), email)) && old(users)[email].password.None? ==>
        r.Err? && r.error.status == 500 && users == old(users)
      ensures ResetAllowed(Get(old(users), email)) && old(users)[email].password.Some? &&
              matches(password, old(users)[email].password.value) ==>
        r == Err(Error(400, "New password cannot be same as the old password")) && users == old(users)
      ensures ResetAllowed(Get(old(users), email)) && old(users)[email].password.Some? &&
              !matches(password, old(users)[email].password.value) ==>
        && users == old(users)[email := AfterReset(old(users)[email], hashed)]
        && r == Ok(200, "Password Reset Successfully")
        && !users[email].isOtpVerifed
    {
      if !ResetAllowed(Get(users, email)) {
        return Err(Error(404, "OTP verification required"));
      }
      var u := users[email];
      if u.password.None? {
        return Err(Error(500, "Reset Password Error: Error: Illegal arguments: string, undefined"));
      }
      if matches(password, u.password.value) {
        return Err(Error(400, "New password cannot be same as the old password"));
      }
      users := users[email := AfterReset(u, hashed)];
      r := Ok(200, "Password Reset Successfully");
    }
  }
}
