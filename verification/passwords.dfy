/**
 * How a repository password is kept in the property set: the bytes of the password in the
 * platform charset, base 64 encoded (`SubversionManagerImpl.encryptPassword` and
 * `decryptPassword`). The "encryption" is an encoding only; both directions map `null` to `null`.
 */
module Passwords {
  import opened Wrappers
  import Base64

  predicate IsAscii(s: string) {
    forall i :: 0 <= i < |s| ==> s[i] < 128 as char
  }

  /** `String.getBytes()` in a single-byte charset that agrees with US-ASCII: one byte per
      character, '?' for a character the charset cannot represent. */
  function CharsetEncode(s: string): (bs: seq<Base64.Byte>)
    ensures |bs| == |s|
    ensures forall i :: 0 <= i < |s| ==> bs[i] == (if s[i] < 128 as char then s[i] as int else '?' as int)
  {
    seq(|s|, i requires 0 <= i < |s| => if s[i] < 128 as char then s[i] as int else '?' as int)
  }

  /** `new String(bytes)` in the same charset: bytes above 127 become U+FFFD. */
  function CharsetDecode(bs: seq<Base64.Byte>): (s: string)
    ensures |s| == |bs|
  {
    seq(|bs|, i requires 0 <= i < |bs| => if bs[i] < 128 then bs[i] as char else '\U{FFFD}')
  }

  /** ASCII text survives the trip through bytes. */
  lemma CharsetRoundTrip(s: string)
    requires IsAscii(s)
    ensures CharsetDecode(CharsetEncode(s)) == s
  {
    var t := CharsetDecode(CharsetEncode(s));
    forall i | 0 <= i < |s| ensures t[i] == s[i] {
      assert CharsetEncode(s)[i] == s[i] as int;
    }
  }

  /** `encryptPassword`: `null` stays `null`; otherwise the base 64 text of the password's
      bytes, which decodes back to exactly those bytes. */
  function EncryptPassword(password: Option<string>): (r: Option<string>)
    ensures r.None? <==> password.None?
    ensures r.Some? ==> Base64.Decode(r.value) == CharsetEncode(password.value)
    ensures r.Some? ==> |r.value| % 4 == 0
  {
    match password
    case None => None
    case Some(p) =>
      var bytes := CharsetEncode(p);
      Base64.DecodeEncode(bytes);
      Some(Base64.Encode(bytes))
  }

  /** `decryptPassword`: `null` stays `null`; otherwise the text of the decoded bytes. The
      lenient decoder never fails, so the declared IOException is never raised. */
  function DecryptPassword(encrypted: Option<string>): (r: Option<string>)
    ensures r.None? <==> encrypted.None?
    ensures r.Some? ==> |r.value| == |Base64.Decode(encrypted.value)|
  {
    match encrypted
    case None => None
    case Some(e) => Some(CharsetDecode(Base64.Decode(e)))
  }

  /** Decrypting an encrypted password gives it back, for `null` and for every ASCII password. */
  lemma DecryptEncrypt(password: Option<string>)
    requires password.Some? ==> IsAscii(password.value)
    ensures DecryptPassword(EncryptPassword(password)) == password
  {
    if password.Some? {
      CharsetRoundTrip(password.value);
    }
  }
}
