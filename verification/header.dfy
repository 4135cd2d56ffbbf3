/** The `Authorization` header handling of the `authenticate` middleware:
    JavaScript's `String.prototype.replace` with a string pattern and a
    replacement that holds no `$` pattern, which replaces the FIRST occurrence
    of the pattern wherever it is, not only a leading prefix. */
module Header {
  import opened Common

  /** `pat` occurs in `s` starting at index `i`. */
  predicate OccursAt(s: string, pat: string, i: nat) {
    i + |pat| <= |s| && s[i..i + |pat|] == pat
  }

  /** The first index at or after `k` where `pat` occurs (`indexOf(pat, k)`). */
  function IndexOfFrom(s: string, pat: string, k: nat): (r: Option<nat>)
    ensures r.Some? ==> k <= r.value && OccursAt(s, pat, r.value)
    ensures r.Some? ==> forall j: nat :: k <= j < r.value ==> !OccursAt(s, pat, j)
    ensures r.None? ==> forall j: nat :: k <= j ==> !OccursAt(s, pat, j)
    decreases |s| - k
  {
    if k + |pat| > |s| then None
    else if s[k..k + |pat|] == pat then Some(k)
    else IndexOfFrom(s, pat, k + 1)
  }

  function IndexOf(s: string, pat: string): (r: Option<nat>)
    ensures r.Some? ==> OccursAt(s, pat, r.value)
    ensures r.Some? ==> forall j: nat :: j < r.value ==> !OccursAt(s, pat, j)
    ensures r.None? ==> forall j: nat :: !OccursAt(s, pat, j)
  {
    IndexOfFrom(s, pat, 0)
  }

  /** `s.replace(pat, rep)` for a string `pat` and a `rep` without `$`
      patterns: `$&` and the like in `rep` are kept literally, not expanded. */
  function ReplaceFirst(s: string, pat: string, rep: string): (r: string)
    ensures (forall j: nat :: !OccursAt(s, pat, j)) ==> r == s
    ensures forall i: nat ::
      OccursAt(s, pat, i) && (forall j: nat :: j < i ==> !OccursAt(s, pat, j)) ==>
        r == s[..i] + rep + s[i + |pat|..]
  {
    match IndexOf(s, pat)
    case None => s
    case Some(i) =>
      FirstOccurrenceUnique(s, pat, i);
      s[..i] + rep + s[i + |pat|..]
  }

  /** Two first occurrences are the same occurrence. */
  lemma FirstOccurrenceUnique(s: string, pat: string, i: nat)
    requires OccursAt(s, pat, i) && forall j: nat :: j < i ==> !OccursAt(s, pat, j)
    ensures forall k: nat ::
      OccursAt(s, pat, k) && (forall j: nat :: j < k ==> !OccursAt(s, pat, j)) ==> k == i
  {
  }

  const Bearer := "Bearer "

  /** `req.header('Authorization').replace('Bearer ', '')`. */
  function StripBearer(header: string): (r: string)
    ensures Bearer <= header ==> r == header[|Bearer|..]
    ensures (forall j: nat :: !OccursAt(header, Bearer, j)) ==> r == header
    ensures (exists j: nat :: OccursAt(header, Bearer, j)) ==> |r| + |Bearer| == |header|
  {
    if Bearer <= header then
      assert OccursAt(header, Bearer, 0);
      ReplaceFirst(header, Bearer, "")
    else
      ReplaceFirst(header, Bearer, "")
  }

  /** A well-formed `Bearer <token>` header yields exactly the token. */
  lemma StripBearerPrefix(token: string)
    ensures StripBearer(Bearer + token) == token
  {
    var h := Bearer + token;
    assert OccursAt(h, Bearer, 0) by { assert h[..|Bearer|] == Bearer; }
    assert h[|Bearer|..] == token;
  }

  /** A header without `Bearer ` anywhere is passed through unchanged, so a bare
      token is accepted as well as a prefixed one. */
  lemma StripBearerAbsent(header: string)
    requires forall j: nat :: !OccursAt(header, Bearer, j)
    ensures StripBearer(header) == header
  {
  }

  /** The pattern is removed wherever it first occurs, even after other text:
      `"Token Bearer abc"` becomes `"Token abc"`. */
  lemma StripBearerInside()
    ensures StripBearer("Token Bearer abc") == "Token abc"
  {
    var h := "Token Bearer abc";
    assert OccursAt(h, Bearer, 6) by { assert h[6..13] == Bearer; }
    forall j: nat | j < 6 ensures !OccursAt(h, Bearer, j) {
      assert h[j] != 'B';
    }
    assert h[..6] + "" + h[13..] == "Token abc";
  }
}
