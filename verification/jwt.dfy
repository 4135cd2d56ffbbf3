/** An abstract model of `jsonwebtoken`'s `sign` and `verify` for the payload
    `{ userId }`. The wire format is simplified to `<hex of the id>.<signature>`
    and the signature primitive is a parameter `mac(payload, secret)`; all that
    is assumed of it is stated where a lemma needs it. */
module Jwt {
  import opened Common
  import opened Hex
  import opened Header

  /** Signature primitive: (payload, secret) to signature. */
  type Mac = (string, string) -> string

  /** The signing secret hard-coded in the router. */
  const Secret := "your_jwt_secret"

  const Dot := "."

  /** `jwt.sign({ userId: id }, secret)`. */
  function Sign(id: ObjectId, secret: string, mac: Mac): (r: string)
    ensures |r| > 24 && r[24] == '.'
    ensures FromHex(r[..24]) == Some(id)
    ensures r[25..] == mac(r[..24], secret)
  {
    var payload := ToHex(id);
    DecodeEncode(id);
    var r := payload + Dot + mac(payload, secret);
    assert r[..24] == payload;
    r
  }

  /** `jwt.verify(token, secret)`: the decoded user id, or `None` where the
      library throws. */
  function Verify(token: string, secret: string, mac: Mac): (r: Option<ObjectId>)
    ensures r.Some? ==> exists i: nat :: OccursAt(token, Dot, i) && token[i + 1..] == mac(token[..i], secret)
  {
    match IndexOf(token, Dot)
    case None => None
    case Some(i) =>
      var payload := token[..i];
      if token[i + 1..] != mac(payload, secret) then None
      else
        match FromHex(payload)
        case Some(bs) => if |bs| == 12 then Some(bs) else None
        case None => None
  }

  /** The separator of a signed token is the dot right after the payload. */
  lemma SplitSigned(payload: string, sig: string)
    requires IsLowerHex(payload)
    ensures IndexOf(payload + Dot + sig, Dot) == Some(|payload|)
  {
    var t := payload + Dot + sig;
    assert OccursAt(t, Dot, |payload|) by { assert t[|payload|] == '.'; }
    forall j: nat | j < |payload| ensures !OccursAt(t, Dot, j) {
      assert t[j] == payload[j];
    }
  }

  /** A token verifies under the secret it was signed with, yielding its id. */
  lemma VerifySigned(id: ObjectId, secret: string, mac: Mac)
    ensures Verify(Sign(id, secret, mac), secret, mac) == Some(id)
  {
    var payload := ToHex(id);
    var t := Sign(id, secret, mac);
    SplitSigned(payload, mac(payload, secret));
    assert t[..|payload|] == payload;
    assert t[|payload| + 1..] == mac(payload, secret);
    DecodeEncode(id);
  }

  /** Verification accepts nothing but tokens signed with that secret. */
  lemma VerifyOnlySigned(token: string, secret: string, mac: Mac, id: ObjectId)
    requires Verify(token, secret, mac) == Some(id)
    ensures token == Sign(id, secret, mac)
  {
    var i := IndexOf(token, Dot).value;
    var payload := token[..i];
    assert FromHex(payload) == Some(id);
    EncodeDecode(payload, id);
    assert token == payload + Dot + token[i + 1..];
  }

  /** A token signed with another secret is rejected, provided the signature
      primitive tells the two secrets apart on this payload. */
  lemma VerifyOtherSecret(id: ObjectId, signer: string, verifier: string, mac: Mac)
    requires mac(ToHex(id), signer) != mac(ToHex(id), verifier)
    ensures Verify(Sign(id, signer, mac), verifier, mac) == None
  {
    var payload := ToHex(id);
    var t := Sign(id, signer, mac);
    SplitSigned(payload, mac(payload, signer));
    assert t[..|payload|] == payload;
    assert t[|payload| + 1..] == mac(payload, signer);
  }
}
