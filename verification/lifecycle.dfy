/** The account lifecycle as a sequence of requests against one collection,
    and the properties the router promises across requests: the collection
    invariant, single use of an OTP, the inclusive 10-minute window, uniform
    rejection, and the signup / login / profile round trips. */
module Lifecycle {
  import opened Common
  import opened Hex
  import opened Header
  import opened Jwt
  import opened Bcrypt
  import opened Store
  import opened Router

  /** The opaque primitives the server is configured with. */
  datatype Crypto = Crypto(kdf: Kdf, mac: Mac)

  /** One HTTP request together with the clock reading and random draws it uses. */
  datatype Request =
    | SignupRequest(username: string, email: string, password: string,
                    id: ObjectId, salt: string, random: OtpBytes, now: nat)
    | LoginRequest(loginEmail: BodyField, loginOtp: BodyField, now: nat)
    | GetProfileRequest(header: Option<string>)
    | UpdateProfileRequest(header: Option<string>, username: string, email: string)

  /** Which login handler serves the trace: the router as written (with the
      driver's treatment of `undefined` filter values), or the one that refuses
      body fields that are not strings. */
  datatype LoginMode = AsWritten(undefinedValues: UndefinedValues) | Checked

  /** Dispatches one request to its handler. */
  function Handle(s: Users, req: Request, c: Crypto, mode: LoginMode): (r: Reply)
    ensures req.SignupRequest? ==>
      r == Signup(s, req.username, req.email, req.password, req.id, req.salt, req.random, req.now, c.kdf)
    ensures req.LoginRequest? && mode.AsWritten? ==>
      r == LoginAsWritten(s, req.loginEmail, req.loginOtp, req.now, mode.undefinedValues, c.mac)
    ensures req.LoginRequest? && mode.Checked? ==>
      r == LoginChecked(s, req.loginEmail, req.loginOtp, req.now, c.mac)
    ensures req.GetProfileRequest? ==> r == GetProfile(s, req.header, c.mac) && r.store == s
    ensures req.UpdateProfileRequest? ==> r == UpdateProfile(s, req.header, req.username, req.email, c.mac)
  {
    match req
    case SignupRequest(username, email, password, id, salt, random, now) =>
      Signup(s, username, email, password, id, salt, random, now, c.kdf)
    case LoginRequest(email, otp, now) =>
      if mode.AsWritten? then LoginAsWritten(s, email, otp, now, mode.undefinedValues, c.mac)
      else LoginChecked(s, email, otp, now, c.mac)
    case GetProfileRequest(header) => GetProfile(s, header, c.mac)
    case UpdateProfileRequest(header, username, email) => UpdateProfile(s, header, username, email, c.mac)
  }

  /** The collection after serving `reqs` one after another. */
  function Run(s: Users, reqs: seq<Request>, c: Crypto, mode: LoginMode): Users
    decreases |reqs|
  {
    if reqs == [] then s else Run(Handle(s, reqs[0], c, mode).store, reqs[1..], c, mode)
  }

  // ----- The collection invariant -----

  lemma SignupPreservesValid(s: Users, username: string, email: string, password: string,
                             id: ObjectId, salt: string, random: OtpBytes, now: nat, kdf: Kdf)
    requires Valid(s)
    ensures Valid(Signup(s, username, email, password, id, salt, random, now, kdf).store)
  {
    var s' := Signup(s, username, email, password, id, salt, random, now, kdf).store;
    if forall i :: 0 <= i < |s| ==> s[i].id != id {
      assert s' == s + [s'[|s|]];
    }
  }

  lemma LoginPreservesValid(s: Users, email: string, otp: string, now: nat, mac: Mac)
    requires Valid(s)
    ensures Valid(Login(s, email, otp, now, mac).store)
  {
    var r := FindFirst(s, OtpQuery(email, otp, now));
    if r.Some? {
      var s' := Login(s, email, otp, now, mac).store;
      assert forall j :: 0 <= j < |s| ==> s'[j].id == s[j].id;
    }
  }

  lemma LoginAsWrittenPreservesValid(s: Users, email: BodyField, otp: BodyField, now: nat,
                                     undef: UndefinedValues, mac: Mac)
    requires Valid(s)
    ensures Valid(LoginAsWritten(s, email, otp, now, undef, mac).store)
  {
    var r := FindFirst(s, RawQuery(email, otp, now, undef));
    if r.Some? {
      var s' := LoginAsWritten(s, email, otp, now, undef, mac).store;
      assert forall j :: 0 <= j < |s| ==> s'[j].id == s[j].id;
    }
  }

  lemma UpdateProfilePreservesValid(s: Users, header: Option<string>, username: string,
                                    email: string, mac: Mac)
    requires Valid(s)
    ensures Valid(UpdateProfile(s, header, username, email, mac).store)
  {
    var a := Authenticate(header, mac);
    if a.Authorized? {
      var r := FindById(s, a.userId);
      if r.Some? {
        assert IsFirst(s, HasId(a.userId), r.value);
        var s' := UpdateProfile(s, header, username, email, mac).store;
        assert forall j :: 0 <= j < |s| ==> s'[j].id == s[j].id;
      }
    }
  }

  lemma HandlePreservesValid(s: Users, req: Request, c: Crypto, mode: LoginMode)
    requires Valid(s)
    ensures Valid(Handle(s, req, c, mode).store)
  {
    match req
    case SignupRequest(username, email, password, id, salt, random, now) =>
      SignupPreservesValid(s, username, email, password, id, salt, random, now, c.kdf);
    case LoginRequest(email, otp, now) =>
      if mode.AsWritten? {
        LoginAsWrittenPreservesValid(s, email, otp, now, mode.undefinedValues, c.mac);
      } else if email.Text? && otp.Text? {
        LoginPreservesValid(s, email.text, otp.text, now, c.mac);
      }
    case GetProfileRequest(header) =>
    case UpdateProfileRequest(header, username, email) =>
      UpdateProfilePreservesValid(s, header, username, email, c.mac);
  }

  /** Every sequence of requests keeps ids distinct and OTP fields paired. */
  lemma {:induction false} RunPreservesValid(s: Users, reqs: seq<Request>, c: Crypto, mode: LoginMode)
    requires Valid(s)
    ensures Valid(Run(s, reqs, c, mode))
    decreases |reqs|
  {
    if reqs != [] {
      HandlePreservesValid(s, reqs[0], c, mode);
      RunPreservesValid(Handle(s, reqs[0], c, mode).store, reqs[1..], c, mode);
    }
  }

  // ----- How a record's OTP can evolve -----

  /** `v` is a later state of record `u`: same id, and its OTP is either
      untouched or redeemed. */
  predicate OtpFollows(u: User, v: User) {
    && v.id == u.id
    && ((v.otp == u.otp && v.otpExpiry == u.otpExpiry) || (v.otp.None? && v.otpExpiry.None?))
  }

  /** No request issues a new OTP to an existing record or extends its expiry. */
  lemma HandleOtpFollows(s: Users, req: Request, c: Crypto, mode: LoginMode)
    ensures |Handle(s, req, c, mode).store| >= |s|
    ensures forall i :: 0 <= i < |s| ==> OtpFollows(s[i], Handle(s, req, c, mode).store[i])
  {
    var s' := Handle(s, req, c, mode).store;
    match req
    case SignupRequest(username, email, password, id, salt, random, now) =>
      assert forall i :: 0 <= i < |s| ==> s'[i] == s'[..|s|][i];
    case LoginRequest(email, otp, now) =>
      if mode.AsWritten? {
        var r := FindFirst(s, RawQuery(email, otp, now, mode.undefinedValues));
      } else if email.Text? && otp.Text? {
        var r := FindFirst(s, OtpQuery(email.text, otp.text, now));
      }
    case GetProfileRequest(header) =>
    case UpdateProfileRequest(header, username, email) =>
      var a := Authenticate(header, c.mac);
      if a.Authorized? {
        var r := FindById(s, a.userId);
        if r.Some? {
          assert IsFirst(s, HasId(a.userId), r.value);
        }
      }
  }

  lemma {:induction false} RunOtpFollows(s: Users, reqs: seq<Request>, c: Crypto, mode: LoginMode)
    ensures |Run(s, reqs, c, mode)| >= |s|
    ensures forall i :: 0 <= i < |s| ==> OtpFollows(s[i], Run(s, reqs, c, mode)[i])
    decreases |reqs|
  {
    if reqs != [] {
      var s1 := Handle(s, reqs[0], c, mode).store;
      HandleOtpFollows(s, reqs[0], c, mode);
      RunOtpFollows(s1, reqs[1..], c, mode);
    }
  }

  /** A redeemed record never again satisfies the login query, whatever
      requests follow and whatever the body carries (strings, operators or
      missing fields): a null expiry never satisfies `$gte`. */
  lemma RedeemedNeverMatches(s: Users, reqs: seq<Request>, c: Crypto, mode: LoginMode, i: nat,
                             email: BodyField, otp: BodyField, now: nat, undef: UndefinedValues)
    requires i < |s| && s[i].otpExpiry.None?
    ensures i < |Run(s, reqs, c, mode)|
    ensures !RawQueryMatches(Run(s, reqs, c, mode)[i], email, otp, now, undef)
  {
    RunOtpFollows(s, reqs, c, mode);
  }

  /** An expired OTP stays unusable: no later request revives it, whatever the
      login body carries. */
  lemma ExpiredNeverMatches(s: Users, reqs: seq<Request>, c: Crypto, mode: LoginMode, i: nat,
                            expiry: nat, email: BodyField, otp: BodyField, now: nat, undef: UndefinedValues)
    requires i < |s| && s[i].otpExpiry == Some(expiry) && expiry < now
    ensures i < |Run(s, reqs, c, mode)|
    ensures !RawQueryMatches(Run(s, reqs, c, mode)[i], email, otp, now, undef)
  {
    RunOtpFollows(s, reqs, c, mode);
  }

  // ----- Login -----

  /** Single use: once the login handler as written redeems record `i`, no
      later login, after any sequence of requests and with any body, is
      answered from record `i`. */
  lemma LoginSingleUse(s: Users, email: BodyField, otp: BodyField, now: nat, undef: UndefinedValues,
                       i: nat, reqs: seq<Request>, c: Crypto, mode: LoginMode,
                       email': BodyField, otp': BodyField, now': nat, undef': UndefinedValues)
    requires IsFirst(s, RawQuery(email, otp, now, undef), i)
    ensures i < |Run(LoginAsWritten(s, email, otp, now, undef, c.mac).store, reqs, c, mode)|
    ensures !RawQueryMatches(Run(LoginAsWritten(s, email, otp, now, undef, c.mac).store, reqs, c, mode)[i],
                             email', otp', now', undef')
  {
    var s1 := LoginAsWritten(s, email, otp, now, undef, c.mac).store;
    RedeemedNeverMatches(s1, reqs, c, mode, i, email', otp', now', undef');
  }

  /** Replaying a redeemed OTP fails, unless another record was issued the
      very same OTP for the same email. */
  lemma LoginReplayFails(s: Users, email: string, otp: string, now: nat, later: nat, mac: Mac, i: nat)
    requires IsFirst(s, OtpQuery(email, otp, now), i)
    requires forall j :: 0 <= j < |s| && j != i ==> !(s[j].email == email && s[j].otp == Some(otp))
    ensures var s1 := Login(s, email, otp, now, mac).store;
      Login(s1, email, otp, later, mac) == Reply(s1, Unauthorized(InvalidOtpMessage), [])
  {
    var s1 := Login(s, email, otp, now, mac).store;
    assert forall j :: 0 <= j < |s1| ==> !OtpMatches(s1[j], email, otp, later) by {
      forall j | 0 <= j < |s1| ensures !OtpMatches(s1[j], email, otp, later) {
        if j != i {
          assert s1[j] == s[j];
        }
      }
    }
  }

  /** Wrong OTP, expired OTP and unknown email are indistinguishable: every
      rejected login gets the same reply and changes nothing. */
  lemma LoginRejectionsUniform(s: Users, mac: Mac, email1: string, otp1: string, now1: nat,
                               email2: string, otp2: string, now2: nat)
    requires !Login(s, email1, otp1, now1, mac).response.TokenIssued?
    requires !Login(s, email2, otp2, now2, mac).response.TokenIssued?
    ensures Login(s, email1, otp1, now1, mac) == Login(s, email2, otp2, now2, mac)
    ensures Login(s, email1, otp1, now1, mac).store == s
  {
  }

  /** After signing up at `issued`, the OTP logs in exactly up to and including
      `issued + OtpLifetime`, provided no older record answers the same query. */
  lemma SignupLoginWindow(s: Users, username: string, email: string, password: string,
                          id: ObjectId, salt: string, random: OtpBytes, issued: nat, now: nat, c: Crypto)
    requires forall i :: 0 <= i < |s| ==> s[i].id != id
    requires forall i :: 0 <= i < |s| ==> !OtpMatches(s[i], email, ToHex(random), now)
    ensures var s1 := Signup(s, username, email, password, id, salt, random, issued, c.kdf).store;
      Login(s1, email, ToHex(random), now, c.mac).response.TokenIssued? <==> now <= issued + OtpLifetime
    ensures var s1 := Signup(s, username, email, password, id, salt, random, issued, c.kdf).store;
      now <= issued + OtpLifetime ==>
        Login(s1, email, ToHex(random), now, c.mac)
          == Reply(s + [Redeemed(s1[|s|])], TokenIssued(Sign(id, Secret, c.mac)), [])
  {
    var s1 := Signup(s, username, email, password, id, salt, random, issued, c.kdf).store;
    assert s1 == s + [s1[|s|]];
    if now <= issued + OtpLifetime {
      assert IsFirst(s1, OtpQuery(email, ToHex(random), now), |s|);
      var s2 := Login(s1, email, ToHex(random), now, c.mac).store;
      assert s2 == s + [Redeemed(s1[|s|])];
    } else {
      assert !OtpMatches(s1[|s|], email, ToHex(random), now);
    }
  }

  // ----- Protected endpoints -----

  /** A `Bearer` header carrying a server-signed token authenticates as its id. */
  lemma AuthenticateSignedToken(id: ObjectId, mac: Mac)
    ensures Authenticate(Some(Bearer + Sign(id, Secret, mac)), mac) == Authorized(id)
  {
    StripBearerPrefix(Sign(id, Secret, mac));
  }

  /** A token signed with any other secret is rejected with 401 on both
      profile endpoints, and the collection is left alone. */
  lemma OtherSecretRejected(s: Users, id: ObjectId, secret: string, mac: Mac,
                            username: string, email: string)
    requires mac(ToHex(id), secret) != mac(ToHex(id), Secret)
    ensures var h := Some(Bearer + Sign(id, secret, mac));
      && GetProfile(s, h, mac) == Reply(s, Unauthorized(UnauthorizedMessage), [])
      && UpdateProfile(s, h, username, email, mac) == Reply(s, Unauthorized(UnauthorizedMessage), [])
  {
    StripBearerPrefix(Sign(id, secret, mac));
    VerifyOtherSecret(id, secret, Secret, mac);
  }

  /** Without an `Authorization` header the middleware throws before its
      `try`, on both profile endpoints; nothing is read or written. */
  lemma MissingHeaderThrows(s: Users, mac: Mac, username: string, email: string)
    ensures GetProfile(s, None, mac) == Reply(s, Thrown(MissingHeader), [])
    ensures UpdateProfile(s, None, username, email, mac) == Reply(s, Thrown(MissingHeader), [])
  {
  }

  /** With distinct ids, a token for record `i` reads back exactly record `i`. */
  lemma GetProfileOwnRecord(s: Users, i: nat, mac: Mac)
    requires DistinctIds(s) && i < |s|
    ensures GetProfile(s, Some(Bearer + Sign(s[i].id, Secret, mac)), mac).response == ProfileBody(Some(s[i]))
  {
    AuthenticateSignedToken(s[i].id, mac);
    FindByIdUnique(s, i);
  }

  /** Updating then reading the profile returns the new username and email,
      with the rest of the record as it was. */
  lemma UpdateThenGet(s: Users, i: nat, username: string, email: string, mac: Mac)
    requires DistinctIds(s) && i < |s|
    ensures var h := Some(Bearer + Sign(s[i].id, Secret, mac));
      var s1 := UpdateProfile(s, h, username, email, mac).store;
      GetProfile(s1, h, mac).response == ProfileBody(Some(s[i].(username := username, email := email)))
  {
    var h := Some(Bearer + Sign(s[i].id, Secret, mac));
    AuthenticateSignedToken(s[i].id, mac);
    FindByIdUnique(s, i);
    assert IsFirst(s, HasId(s[i].id), i);
    var s1 := UpdateProfile(s, h, username, email, mac).store;
    assert s1 == s[i := s[i].(username := username, email := email)];
    assert DistinctIds(s1) by {
      assert forall j :: 0 <= j < |s| ==> s1[j].id == s[j].id;
    }
    GetProfileOwnRecord(s1, i, mac);
  }

  /** Signup, login with the mailed OTP, then read the profile with the issued
      token: the profile shows the username and email given at signup. */
  lemma SignupLoginProfile(s: Users, username: string, email: string, password: string,
                           id: ObjectId, salt: string, random: OtpBytes, issued: nat, now: nat, c: Crypto)
    requires Valid(s)
    requires forall i :: 0 <= i < |s| ==> s[i].id != id
    requires forall i :: 0 <= i < |s| ==> !OtpMatches(s[i], email, ToHex(random), now)
    requires now <= issued + OtpLifetime
    ensures var s1 := Signup(s, username, email, password, id, salt, random, issued, c.kdf).store;
      var r2 := Login(s1, email, ToHex(random), now, c.mac);
      && r2.response.TokenIssued?
      && var p := GetProfile(r2.store, Some(Bearer + r2.response.token), c.mac).response;
      && p.ProfileBody? && p.user.Some?
      && p.user.value.username == username
      && p.user.value.email == email
  {
    var s1 := Signup(s, username, email, password, id, salt, random, issued, c.kdf).store;
    SignupLoginWindow(s, username, email, password, id, salt, random, issued, now, c);
    SignupPreservesValid(s, username, email, password, id, salt, random, issued, c.kdf);
    LoginPreservesValid(s1, email, ToHex(random), now, c.mac);
    var r2 := Login(s1, email, ToHex(random), now, c.mac);
    assert r2.store[|s|].id == id;
    GetProfileOwnRecord(r2.store, |s|, c.mac);
  }

  /** On a collection of one pending record, the matching OTP logs in once
      and its replay fails. */
  lemma SingleRecordLoginOnce(u: User, email: string, otp: string, now: nat, later: nat, mac: Mac)
    requires OtpMatches(u, email, otp, now)
    ensures Login([u], email, otp, now, mac).response == TokenIssued(Sign(u.id, Secret, mac))
    ensures Login(Login([u], email, otp, now, mac).store, email, otp, later, mac).response
              == Unauthorized(InvalidOtpMessage)
  {
    assert IsFirst([u], OtpQuery(email, otp, now), 0);
    LoginReplayFails([u], email, otp, now, later, mac, 0);
  }

  /** The worked example: alice signs up, her OTP `a1b2c3` logs her in within
      the window, and replaying it fails. */
  lemma AliceScenario(id: ObjectId, salt: string, issued: nat, c: Crypto)
    ensures var r1 := Signup([], "alice", "alice@x.com", "pw123", id, salt, [0xa1, 0xb2, 0xc3], issued, c.kdf);
      && r1.store[0].otp == Some("a1b2c3")
      && r1.store[0].password != "pw123"
      && r1.outbox[0].text == "Your OTP is a1b2c3"
      && var r2 := Login(r1.store, "alice@x.com", "a1b2c3", issued + 60000, c.mac);
      && r2.response == TokenIssued(Sign(id, Secret, c.mac))
      && Login(r2.store, "alice@x.com", "a1b2c3", issued + 120000, c.mac).response
           == Unauthorized(InvalidOtpMessage)
  {
    var random: OtpBytes := [0xa1, 0xb2, 0xc3];
    assert ToHex(random) == "a1b2c3" by {
      assert ToHex(random[2..]) == "c3";
      assert ToHex(random[1..]) == "b2" + "c3";
    }
    HashIsNotPlaintext("pw123", salt, c.kdf);
    var r1 := Signup([], "alice", "alice@x.com", "pw123", id, salt, random, issued, c.kdf);
    assert r1.store == [r1.store[0]];
    SingleRecordLoginOnce(r1.store[0], "alice@x.com", "a1b2c3", issued + 60000, issued + 120000, c.mac);
  }
}
