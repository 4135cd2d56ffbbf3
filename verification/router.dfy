/** The four request handlers of the user router and the `authenticate`
    middleware, each as one atomic step over the user collection. Time,
    randomness, the new document's id, the bcrypt salt and digest, and the JWT
    signature primitive are inputs. */
module Router {
  import opened Common
  import opened Hex
  import opened Header
  import opened Jwt
  import opened Bcrypt
  import opened Store

  /** OTP lifetime: 10 minutes, in milliseconds. */
  const OtpLifetime: nat := 10 * 60000

  const SignupMessage := "User registered. Check your email for OTP."
  const InvalidOtpMessage := "Invalid or expired OTP"
  const UnauthorizedMessage := "Unauthorized"
  const MailFrom := "your-email@example.com"
  const MailSubject := "OTP Verification"
  const MailPrefix := "Your OTP is "

  /** A message handed to the mail transport; sending is fire-and-forget. */
  datatype Mail = Mail(from: string, to: string, subject: string, text: string)

  /** Why a handler threw instead of answering. */
  datatype Failure =
    | MissingHeader  // `undefined.replace(...)` in the middleware, outside its `try`
    | DuplicateId    // `save()` rejected by the unique `_id` index

  datatype Response =
    | Created(message: string)          // 201, plain text
    | TokenIssued(token: string)        // 200, `{ token }`
    | ProfileBody(user: Option<User>)   // 200, the document or `null`
    | Unauthorized(message: string)     // 401, plain text
    | Thrown(failure: Failure)          // no status chosen by the handler

  /** The new collection, the response and the mail queued by one request. */
  datatype Reply = Reply(store: Users, response: Response, outbox: seq<Mail>)

  /** The outcome of the `authenticate` middleware. */
  datatype AuthResult = Authorized(userId: ObjectId) | Rejected(response: Response)

  /** `crypto.randomBytes(3)`. */
  type OtpBytes = s: seq<byte> | |s| == 3 witness [0, 0, 0]

  /** The record after its OTP has been redeemed. */
  function Redeemed(u: User): (r: User)
    ensures r.(otp := u.otp, otpExpiry := u.otpExpiry) == u
    ensures OtpPaired(r)
    ensures forall email, otp, now, undef :: !RawQueryMatches(r, email, otp, now, undef)
  {
    u.(otp := None, otpExpiry := None)
  }

  /** POST /signup. */
  function Signup(s: Users, username: string, email: string, password: string,
                  id: ObjectId, salt: string, random: OtpBytes, now: nat, kdf: Kdf): (r: Reply)
    ensures (exists i :: 0 <= i < |s| && s[i].id == id) ==> r == Reply(s, Thrown(DuplicateId), [])
    ensures (forall i :: 0 <= i < |s| ==> s[i].id != id) ==>
      && r.response == Created(SignupMessage)
      && |r.store| == |s| + 1
      && r.store[..|s|] == s
      && r.store[|s|].id == id
      && r.store[|s|].username == username
      && r.store[|s|].email == email
      && r.store[|s|].password == Hash(password, salt, kdf)
      && r.store[|s|].otp == Some(ToHex(random))
      && IsOtp(r.store[|s|].otp.value)
      && r.store[|s|].otpExpiry == Some(now + OtpLifetime)
      && r.outbox == [Mail(MailFrom, email, MailSubject, MailPrefix + r.store[|s|].otp.value)]
  {
    match FindById(s, id)
    case Some(_) => Reply(s, Thrown(DuplicateId), [])
    case None =>
      var otp := ToHex(random);
      var user := User(id, username, email, Hash(password, salt, kdf), Some(otp), Some(now + OtpLifetime));
      Reply(s + [user], Created(SignupMessage), [Mail(MailFrom, email, MailSubject, MailPrefix + otp)])
  }

  /** POST /login. */
  function Login(s: Users, email: string, otp: string, now: nat, mac: Mac): (r: Reply)
    ensures r.outbox == []
    ensures r.response.TokenIssued? <==> exists i :: 0 <= i < |s| && OtpMatches(s[i], email, otp, now)
    ensures !r.response.TokenIssued? ==> r.store == s && r.response == Unauthorized(InvalidOtpMessage)
    ensures forall i: nat :: IsFirst(s, OtpQuery(email, otp, now), i) ==>
      && |r.store| == |s|
      && r.store[i] == Redeemed(s[i])
      && (forall j :: 0 <= j < |s| && j != i ==> r.store[j] == s[j])
      && r.response == TokenIssued(Sign(s[i].id, Secret, mac))
  {
    match FindFirst(s, OtpQuery(email, otp, now))
    case None => Reply(s, Unauthorized(InvalidOtpMessage), [])
    case Some(i) =>
      FirstIsUnique(s, OtpQuery(email, otp, now), i);
      Reply(s[i := Redeemed(s[i])], TokenIssued(Sign(s[i].id, Secret, mac)), [])
  }

  /** A field of the parsed JSON body: a string, an explicit `null`, an object
      that MongoDB reads as a query operator (`{ "$ne": operand }` stands for
      all of them), or a field the body does not carry at all, which the
      handler reads as `undefined`. */
  datatype BodyField = Text(text: string) | Null | NotEqual(operand: string) | Absent

  /** What reaches the server for an `undefined` filter value. The router does
      not decide it: the MongoDB driver's `ignoreUndefined` option does, and
      server.js leaves it unset. */
  datatype UndefinedValues =
    | SentAsNull  // the driver's default: `undefined` is serialized as BSON `null`
    | Dropped     // `ignoreUndefined: true`, or a Mongoose that strips `undefined` keys: the key is left out

  /** How MongoDB matches a stored field against a body value used verbatim as
      the query value. `null` matches only a null field, and `$ne` also matches
      a null field. An absent field is `null` in the filter, or no condition
      at all when `undefined` keys are dropped. */
  predicate FieldMatches(stored: Option<string>, f: BodyField, undef: UndefinedValues) {
    match f
    case Text(v) => stored == Some(v)
    case Null => stored.None?
    case NotEqual(v) => stored != Some(v)
    case Absent => undef.Dropped? || stored.None?
  }

  predicate RawQueryMatches(u: User, email: BodyField, otp: BodyField, now: nat, undef: UndefinedValues) {
    && FieldMatches(Some(u.email), email, undef)
    && FieldMatches(u.otp, otp, undef)
    && u.otpExpiry.Some?
    && u.otpExpiry.value >= now
  }

  /** The filter `{ email, otp, otpExpiry: { $gte: now } }` built from the body
      fields without checking them. */
  function RawQuery(email: BodyField, otp: BodyField, now: nat, undef: UndefinedValues): (q: User -> bool)
    ensures forall u: User :: u.otpExpiry.None? ==> !q(u)
    ensures email.Text? && otp.Text? ==>
      forall u: User :: q(u) == OtpMatches(u, email.text, otp.text, now)
    ensures otp.Null? || (otp.Absent? && undef.SentAsNull?) ==> forall u: User :: q(u) ==> u.otp.None?
    ensures email.Text? && otp.NotEqual? ==> forall u: User ::
      (&& u.email == email.text
       && u.otp.Some? && u.otp.value != otp.operand
       && u.otpExpiry.Some? && u.otpExpiry.value >= now) ==> q(u)
  {
    (u: User) => RawQueryMatches(u, email, otp, now, undef)
  }

  /** POST /login exactly as written: `email` and `otp` go from the body into
      the query unchecked. */
  function LoginAsWritten(s: Users, email: BodyField, otp: BodyField, now: nat,
                          undef: UndefinedValues, mac: Mac): (r: Reply)
    ensures r.outbox == []
    ensures r.response.TokenIssued? <==> exists i :: 0 <= i < |s| && RawQueryMatches(s[i], email, otp, now, undef)
    ensures !r.response.TokenIssued? ==> r == Reply(s, Unauthorized(InvalidOtpMessage), [])
    ensures forall i: nat :: IsFirst(s, RawQuery(email, otp, now, undef), i) ==>
      && |r.store| == |s|
      && r.store[i] == Redeemed(s[i])
      && (forall j :: 0 <= j < |s| && j != i ==> r.store[j] == s[j])
      && r.response == TokenIssued(Sign(s[i].id, Secret, mac))
  {
    match FindFirst(s, RawQuery(email, otp, now, undef))
    case None => Reply(s, Unauthorized(InvalidOtpMessage), [])
    case Some(i) =>
      FirstIsUnique(s, RawQuery(email, otp, now, undef), i);
      Reply(s[i := Redeemed(s[i])], TokenIssued(Sign(s[i].id, Secret, mac)), [])
  }

  /** On string fields the handler as written is `Login`. */
  lemma LoginAsWrittenOnStrings(s: Users, email: string, otp: string, now: nat,
                                undef: UndefinedValues, mac: Mac)
    ensures LoginAsWritten(s, Text(email), Text(otp), now, undef, mac) == Login(s, email, otp, now, mac)
  {
    var raw := RawQuery(Text(email), Text(otp), now, undef);
    var query := OtpQuery(email, otp, now);
    assert forall j :: 0 <= j < |s| ==> raw(s[j]) == query(s[j]);
    var a := FindFirst(s, raw);
    var b := FindFirst(s, query);
    if b.Some? {
      assert IsFirst(s, raw, b.value);
      FirstIsUnique(s, raw, b.value);
    }
    assert a == b;
  }

  /** Operator injection: a body `{ "email": e, "otp": { "$ne": "" } }` logs in
      as the owner of any pending OTP without knowing it, while the honest
      guess `""` is refused. */
  lemma LoginAsWrittenWithoutOtp(id: ObjectId, username: string, email: string, password: string,
                                 otp: string, expiry: nat, undef: UndefinedValues, mac: Mac)
    requires IsOtp(otp)
    ensures var s := [User(id, username, email, password, Some(otp), Some(expiry))];
      && LoginAsWritten(s, Text(email), NotEqual(""), expiry, undef, mac).response
           == TokenIssued(Sign(id, Secret, mac))
      && Login(s, email, "", expiry, mac).response == Unauthorized(InvalidOtpMessage)
  {
    var s := [User(id, username, email, password, Some(otp), Some(expiry))];
    assert RawQueryMatches(s[0], Text(email), NotEqual(""), expiry, undef);
    assert !OtpMatches(s[0], email, "", expiry);
  }

  /** A body without `otp`, when `undefined` keys are dropped from the filter
      (`ignoreUndefined: true`, or a Mongoose that strips them),
      logs in as the first user with that email whose OTP is still pending; a
      body with neither field logs in as the first user with any pending OTP.
      With the driver's default the body without `otp` is refused. */
  lemma LoginAsWrittenMissingOtp(id: ObjectId, username: string, email: string, password: string,
                                 otp: string, expiry: nat, now: nat, mac: Mac)
    requires now <= expiry
    ensures var s := [User(id, username, email, password, Some(otp), Some(expiry))];
      && LoginAsWritten(s, Text(email), Absent, now, Dropped, mac).response == TokenIssued(Sign(id, Secret, mac))
      && LoginAsWritten(s, Absent, Absent, now, Dropped, mac).response == TokenIssued(Sign(id, Secret, mac))
      && LoginAsWritten(s, Text(email), Absent, now, SentAsNull, mac).response == Unauthorized(InvalidOtpMessage)
  {
    var s := [User(id, username, email, password, Some(otp), Some(expiry))];
    assert IsFirst(s, RawQuery(Text(email), Absent, now, Dropped), 0);
    assert IsFirst(s, RawQuery(Absent, Absent, now, Dropped), 0);
  }

  /** With the driver's default, a body without `otp` never logs in on a
      collection whose OTPs and expiries are set together: the filter asks for
      a null OTP with a pending expiry. */
  lemma MissingOtpRefusedWhenSentAsNull(s: Users, email: BodyField, now: nat, mac: Mac)
    requires forall i :: 0 <= i < |s| ==> OtpPaired(s[i])
    ensures LoginAsWritten(s, email, Absent, now, SentAsNull, mac) == Reply(s, Unauthorized(InvalidOtpMessage), [])
  {
    forall i | 0 <= i < |s| ensures !RawQueryMatches(s[i], email, Absent, now, SentAsNull) {
      assert OtpPaired(s[i]);
    }
  }

  /** An explicit `"otp": null` reaches the filter as `null` whatever the
      driver does with `undefined`, so it never logs in on a collection whose
      OTPs and expiries are set together. */
  lemma NullOtpRefused(s: Users, email: BodyField, now: nat, undef: UndefinedValues, mac: Mac)
    requires forall i :: 0 <= i < |s| ==> OtpPaired(s[i])
    ensures LoginAsWritten(s, email, Null, now, undef, mac) == Reply(s, Unauthorized(InvalidOtpMessage), [])
  {
    forall i | 0 <= i < |s| ensures !RawQueryMatches(s[i], email, Null, now, undef) {
      assert OtpPaired(s[i]);
    }
  }

  /** POST /login with the body checked: a field that is not a string, or
      that is missing, is refused with the same 401 as a wrong OTP. */
  function LoginChecked(s: Users, email: BodyField, otp: BodyField, now: nat, mac: Mac): (r: Reply)
    ensures r.response.TokenIssued? ==>
      && email.Text? && otp.Text?
      && exists i :: 0 <= i < |s| && s[i].email == email.text && s[i].otp == Some(otp.text)
    ensures !r.response.TokenIssued? ==> r == Reply(s, Unauthorized(InvalidOtpMessage), [])
    ensures email.Text? && otp.Text? ==> r == Login(s, email.text, otp.text, now, mac)
  {
    if email.Text? && otp.Text? then Login(s, email.text, otp.text, now, mac)
    else Reply(s, Unauthorized(InvalidOtpMessage), [])
  }

  lemma FirstIsUnique(s: Users, p: User -> bool, i: nat)
    requires IsFirst(s, p, i)
    ensures forall k :: IsFirst(s, p, k) ==> k == i
  {
  }

  /** Every id whose token is `t` is the id `Verify` returns. */
  lemma VerifyEverySigned(t: string, mac: Mac)
    ensures forall id: ObjectId :: t == Sign(id, Secret, mac) ==> Verify(t, Secret, mac) == Some(id)
  {
    forall id: ObjectId | t == Sign(id, Secret, mac)
      ensures Verify(t, Secret, mac) == Some(id)
    {
      VerifySigned(id, Secret, mac);
    }
  }

  /** The `authenticate` middleware: the header must, after the first
      `Bearer ` is removed, be a token signed with the server secret. */
  function Authenticate(header: Option<string>, mac: Mac): (r: AuthResult)
    ensures header.None? ==> r == Rejected(Thrown(MissingHeader))
    ensures header.Some? && r.Rejected? ==> r.response == Unauthorized(UnauthorizedMessage)
    ensures r.Authorized? ==> header.Some? && StripBearer(header.value) == Sign(r.userId, Secret, mac)
    ensures forall id: ObjectId ::
      header.Some? && StripBearer(header.value) == Sign(id, Secret, mac) ==> r == Authorized(id)
  {
    match header
    case None => Rejected(Thrown(MissingHeader))
    case Some(h) =>
      var token := StripBearer(h);
      VerifyEverySigned(token, mac);
      match Verify(token, Secret, mac)
      case None => Rejected(Unauthorized(UnauthorizedMessage))
      case Some(id) =>
        VerifyOnlySigned(token, Secret, mac, id);
        Authorized(id)
  }

  /** GET /profile. */
  function GetProfile(s: Users, header: Option<string>, mac: Mac): (r: Reply)
    ensures r.store == s && r.outbox == []
    ensures Authenticate(header, mac).Rejected? ==> r.response == Authenticate(header, mac).response
    ensures Authenticate(header, mac).Authorized? ==>
      var id := Authenticate(header, mac).userId;
      && r.response.ProfileBody?
      && (r.response.user.Some? <==> exists i :: 0 <= i < |s| && s[i].id == id)
      && (r.response.user.Some? ==> r.response.user.value in s && r.response.user.value.id == id)
  {
    match Authenticate(header, mac)
    case Rejected(response) => Reply(s, response, [])
    case Authorized(id) =>
      match FindById(s, id)
      case None => Reply(s, ProfileBody(None), [])
      case Some(i) => Reply(s, ProfileBody(Some(s[i])), [])
  }

  /** PUT /profile: `findByIdAndUpdate(id, { username, email }, { new: true })`. */
  function UpdateProfile(s: Users, header: Option<string>, username: string, email: string,
                         mac: Mac): (r: Reply)
    ensures r.outbox == [] && |r.store| == |s|
    ensures Authenticate(header, mac).Rejected? ==>
      r.store == s && r.response == Authenticate(header, mac).response
    ensures Authenticate(header, mac).Authorized? ==>
      var id := Authenticate(header, mac).userId;
      && ((forall i :: 0 <= i < |s| ==> s[i].id != id) ==> r.store == s && r.response == ProfileBody(None))
      && forall i: nat :: IsFirst(s, HasId(id), i) ==>
        && r.store[i].username == username
        && r.store[i].email == email
        && r.store[i].id == s[i].id
        && r.store[i].password == s[i].password
        && r.store[i].otp == s[i].otp
        && r.store[i].otpExpiry == s[i].otpExpiry
        && (forall j :: 0 <= j < |s| && j != i ==> r.store[j] == s[j])
        && r.response == ProfileBody(Some(r.store[i]))
  {
    match Authenticate(header, mac)
    case Rejected(response) => Reply(s, response, [])
    case Authorized(id) =>
      match FindById(s, id)
      case None => Reply(s, ProfileBody(None), [])
      case Some(i) =>
        FirstIsUnique(s, HasId(id), i);
        var user := s[i].(username := username, email := email);
        Reply(s[i := user], ProfileBody(Some(user)), [])
  }
}
