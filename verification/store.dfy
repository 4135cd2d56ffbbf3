/** The `User` collection as the router sees it: a sequence of records in
    insertion (natural) order, with the two lookups the router issues. */
module Store {
  import opened Common
  import opened Hex

  /** A user document. `password` holds the bcrypt hash; `otp` and `otpExpiry`
      (milliseconds since the epoch) are null once the OTP has been redeemed. */
  datatype User = User(
    id: ObjectId,
    username: string,
    email: string,
    password: string,
    otp: Option<string>,
    otpExpiry: Option<nat>)

  type Users = seq<User>

  /** The signup OTP format: six lowercase hex characters. */
  predicate IsOtp(s: string) {
    |s| == 6 && IsLowerHex(s)
  }

  /** The OTP and its expiry are set together and cleared together. */
  predicate OtpPaired(u: User) {
    && (u.otp.Some? <==> u.otpExpiry.Some?)
    && (u.otp.Some? ==> IsOtp(u.otp.value))
  }

  predicate DistinctIds(s: Users) {
    forall i, j :: 0 <= i < j < |s| ==> s[i].id != s[j].id
  }

  /** The collection invariant the handlers maintain. */
  predicate Valid(s: Users) {
    DistinctIds(s) && forall i :: 0 <= i < |s| ==> OtpPaired(s[i])
  }

  /** `s[i]` satisfies `p` and no earlier record does. */
  predicate IsFirst(s: Users, p: User -> bool, i: nat) {
    i < |s| && p(s[i]) && forall j :: 0 <= j < i ==> !p(s[j])
  }

  /** `findOne(p)` without a sort: the first match in natural order. */
  function FindFirst(s: Users, p: User -> bool): (r: Option<nat>)
    ensures r.Some? ==> IsFirst(s, p, r.value)
    ensures r.None? ==> forall j :: 0 <= j < |s| ==> !p(s[j])
  {
    if s == [] then None
    else if p(s[0]) then Some(0)
    else
      match FindFirst(s[1..], p)
      case None => None
      case Some(i) => Some(i + 1)
  }

  /** `findOne({ email, otp, otpExpiry: { $gte: now } })`: `$gte` is inclusive
      and a null expiry never satisfies it. */
  predicate OtpMatches(u: User, email: string, otp: string, now: nat) {
    && u.email == email
    && u.otp == Some(otp)
    && u.otpExpiry.Some?
    && u.otpExpiry.value >= now
  }

  function OtpQuery(email: string, otp: string, now: nat): (q: User -> bool)
    ensures forall u: User :: q(u) ==> u.email == email && u.otp == Some(otp)
    ensures forall u: User :: u.otpExpiry.None? ==> !q(u)
    ensures forall u: User :: u.otpExpiry.Some? && u.otpExpiry.value < now ==> !q(u)
    ensures forall u: User ::
      u.email == email && u.otp == Some(otp) && u.otpExpiry.Some? && now <= u.otpExpiry.value ==> q(u)
  {
    (u: User) => OtpMatches(u, email, otp, now)
  }

  function HasId(id: ObjectId): User -> bool {
    (u: User) => u.id == id
  }

  /** `findById(id)`. */
  function FindById(s: Users, id: ObjectId): (r: Option<nat>)
    ensures r.Some? ==> r.value < |s| && s[r.value].id == id
    ensures r.None? ==> forall j :: 0 <= j < |s| ==> s[j].id != id
  {
    FindFirst(s, HasId(id))
  }

  /** With distinct ids, `findById` finds the one record carrying the id. */
  lemma FindByIdUnique(s: Users, i: nat)
    requires DistinctIds(s) && i < |s|
    ensures FindById(s, s[i].id) == Some(i)
  {
    var r := FindById(s, s[i].id);
    assert r.Some?;
    assert s[r.value].id == s[i].id;
  }
}
