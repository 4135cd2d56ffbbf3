/** Lowercase hexadecimal rendering of bytes, as `Buffer.prototype.toString('hex')`
    produces it (two characters per byte, high nibble first), and its inverse. */
module Hex {
  import opened Common

  predicate IsHexDigit(c: char) {
    '0' <= c <= '9' || 'a' <= c <= 'f'
  }

  predicate IsLowerHex(s: string) {
    forall i :: 0 <= i < |s| ==> IsHexDigit(s[i])
  }

  /** The character for a nibble. */
  function Digit(n: nat): (c: char)
    requires n < 16
    ensures IsHexDigit(c)
  {
    if n < 10 then ('0' as int + n) as char else ('a' as int + (n - 10)) as char
  }

  /** The nibble a character stands for, if it is a lowercase hex digit. */
  function Value(c: char): (r: Option<nat>)
    ensures r.Some? <==> IsHexDigit(c)
    ensures r.Some? ==> r.value < 16
  {
    if '0' <= c <= '9' then Some(c as int - '0' as int)
    else if 'a' <= c <= 'f' then Some(c as int - 'a' as int + 10)
    else None
  }

  lemma ValueOfDigit(n: nat)
    requires n < 16
    ensures Value(Digit(n)) == Some(n)
  {
  }

  lemma DigitOfValue(c: char)
    requires IsHexDigit(c)
    ensures Digit(Value(c).value) == c
  {
  }

  /** The two characters of one byte. */
  function ByteHex(b: byte): (r: string)
    ensures |r| == 2 && IsLowerHex(r)
  {
    [Digit(b as int / 16), Digit(b as int % 16)]
  }

  /** `Buffer.from(bs).toString('hex')`. */
  function ToHex(bs: seq<byte>): (r: string)
    ensures |r| == 2 * |bs|
    ensures IsLowerHex(r)
  {
    if bs == [] then [] else ByteHex(bs[0]) + ToHex(bs[1..])
  }

  /** Strict inverse of `ToHex`: accepts only even-length lowercase hex. */
  function FromHex(s: string): (r: Option<seq<byte>>)
    ensures r.Some? ==> 2 * |r.value| == |s|
  {
    if |s| == 0 then Some([])
    else if |s| == 1 then None
    else
      match (Value(s[0]), Value(s[1]), FromHex(s[2..]))
      case (Some(hi), Some(lo), Some(rest)) => Some([(hi * 16 + lo) as byte] + rest)
      case _ => None
  }

  /** Decoding undoes encoding. */
  lemma {:induction false} DecodeEncode(bs: seq<byte>)
    ensures FromHex(ToHex(bs)) == Some(bs)
  {
    if bs != [] {
      var b := bs[0];
      var s := ToHex(bs);
      assert s == [Digit(b as int / 16), Digit(b as int % 16)] + ToHex(bs[1..]);
      assert s[2..] == ToHex(bs[1..]);
      ValueOfDigit(b as int / 16);
      ValueOfDigit(b as int % 16);
      DecodeEncode(bs[1..]);
      assert (b as int / 16) * 16 + b as int % 16 == b as int;
      assert [b] + bs[1..] == bs;
    }
  }

  /** Encoding undoes decoding: only strings `ToHex` can produce are accepted. */
  lemma {:induction false} EncodeDecode(s: string, bs: seq<byte>)
    requires FromHex(s) == Some(bs)
    ensures ToHex(bs) == s
  {
    if |s| != 0 {
      var hi := Value(s[0]).value;
      var lo := Value(s[1]).value;
      var rest := FromHex(s[2..]).value;
      assert bs == [(hi * 16 + lo) as byte] + rest;
      EncodeDecode(s[2..], rest);
      var b := bs[0];
      assert b as int / 16 == hi && b as int % 16 == lo;
      DigitOfValue(s[0]);
      DigitOfValue(s[1]);
      assert bs[1..] == rest;
      assert s == [s[0], s[1]] + s[2..];
    }
  }

  /** Distinct byte strings render as distinct hex strings. */
  lemma ToHexInjective(a: seq<byte>, b: seq<byte>)
    requires ToHex(a) == ToHex(b)
    ensures a == b
  {
    DecodeEncode(a);
    DecodeEncode(b);
  }
}
