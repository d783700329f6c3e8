/**
 * The base 64 encoding of section 4 of RFC 4648 (alphabet A-Z a-z 0-9 + /, '=' padding),
 * used to store repository passwords.
 *
 * The encoder is the RFC's canonical one. The decoder is lenient in the way the Apache
 * commons-codec decoder is: characters outside the alphabet are skipped, decoding stops at the
 * first '=', and a trailing group of two or three characters yields one or two bytes.
 */
module Base64 {

  type Byte = x: int | 0 <= x < 256
  type Sextet = x: int | 0 <= x < 64

  /** The character for a 6-bit value (Table 1 of RFC 4648). */
  function EncodeChar(v: Sextet): (c: char)
    ensures IsAlphabet(c)
  {
    if v < 26 then ('A' as int + v) as char
    else if v < 52 then ('a' as int + (v - 26)) as char
    else if v < 62 then ('0' as int + (v - 52)) as char
    else if v == 62 then '+'
    else '/'
  }

  predicate IsAlphabet(c: char) {
    ('A' <= c <= 'Z') || ('a' <= c <= 'z') || ('0' <= c <= '9') || c == '+' || c == '/'
  }

  function DecodeChar(c: char): Sextet
    requires IsAlphabet(c)
  {
    if 'A' <= c <= 'Z' then c as int - 'A' as int
    else if 'a' <= c <= 'z' then c as int - 'a' as int + 26
    else if '0' <= c <= '9' then c as int - '0' as int + 52
    else if c == '+' then 62
    else 63
  }

  lemma DecodeEncodeChar(v: Sextet)
    ensures DecodeChar(EncodeChar(v)) == v
  {
  }

  // ---------------------------------------------------------------------------------------------
  // Bytes to 6-bit groups and back.

  /** Each group of three bytes becomes four sextets; a final single byte becomes two and a
      final pair of bytes becomes three, the unused low bits being zero. */
  function SextetsOf(bs: seq<Byte>): (vs: seq<Sextet>)
    ensures |vs| == |bs| / 3 * 4 + (if |bs| % 3 == 0 then 0 else |bs| % 3 + 1)
    decreases |bs|
  {
    if |bs| == 0 then []
    else if |bs| == 1 then [bs[0] / 4, bs[0] % 4 * 16]
    else if |bs| == 2 then [bs[0] / 4, bs[0] % 4 * 16 + bs[1] / 16, bs[1] % 16 * 4]
    else [bs[0] / 4, bs[0] % 4 * 16 + bs[1] / 16, bs[1] % 16 * 4 + bs[2] / 64, bs[2] % 64]
         + SextetsOf(bs[3..])
  }

  /** Reassembles bytes from sextets, four at a time; a trailing group of two or three
      sextets yields one or two bytes and a lone trailing sextet is dropped. */
  function BytesOf(vs: seq<Sextet>): seq<Byte>
    decreases |vs|
  {
    if |vs| < 2 then []
    else
      var b0: Byte := vs[0] as int * 4 + vs[1] / 16;
      if |vs| == 2 then [b0]
      else
        var b1: Byte := vs[1] as int % 16 * 16 + vs[2] / 4;
        if |vs| == 3 then [b0, b1]
        else
          var b2: Byte := vs[2] as int % 4 * 64 + vs[3];
          [b0, b1, b2] + BytesOf(vs[4..])
  }

  lemma {:induction false} BytesOfSextetsOf(bs: seq<Byte>)
    ensures BytesOf(SextetsOf(bs)) == bs
    decreases |bs|
  {
    if |bs| >= 3 {
      var vs := SextetsOf(bs);
      BytesOfSextetsOf(bs[3..]);
      assert vs[4..] == SextetsOf(bs[3..]);
      assert [bs[0], bs[1], bs[2]] + bs[3..] == bs;
    }
  }

  // ---------------------------------------------------------------------------------------------
  // Text.

  function Padding(n: nat): (p: string)
    ensures |p| == (if n % 3 == 0 then 0 else 3 - n % 3)
    ensures forall i :: 0 <= i < |p| ==> p[i] == '='
  {
    if n % 3 == 0 then "" else if n % 3 == 1 then "==" else "="
  }

  /** Base 64 text of `bs`: one alphabet character per sextet, padded with '=' to a multiple
      of four characters. */
  function Encode(bs: seq<Byte>): (s: string)
    ensures |s| % 4 == 0 && |s| == (|bs| + 2) / 3 * 4
    ensures forall i :: 0 <= i < |s| ==> IsAlphabet(s[i]) || s[i] == '='
  {
    var vs := SextetsOf(bs);
    seq(|vs|, i requires 0 <= i < |vs| => EncodeChar(vs[i])) + Padding(|bs|)
  }

  /** The sextets carried by `s`: alphabet characters up to the first '=', other characters
      being skipped. */
  function SextetsIn(s: string): seq<Sextet>
    decreases |s|
  {
    if |s| == 0 || s[0] == '=' then []
    else if IsAlphabet(s[0]) then [DecodeChar(s[0])] + SextetsIn(s[1..])
    else SextetsIn(s[1..])
  }

  /** The bytes carried by a base 64 text. Never fails: malformed input decodes to whatever
      its alphabet characters spell. */
  function Decode(s: string): seq<Byte> {
    BytesOf(SextetsIn(s))
  }

  lemma {:induction false} SextetsInEncoded(vs: seq<Sextet>, pad: string)
    requires forall i :: 0 <= i < |pad| ==> pad[i] == '='
    ensures SextetsIn(seq(|vs|, i requires 0 <= i < |vs| => EncodeChar(vs[i])) + pad) == vs
    decreases |vs|
  {
    var cs := seq(|vs|, i requires 0 <= i < |vs| => EncodeChar(vs[i]));
    if |vs| == 0 {
      assert cs + pad == pad;
    } else {
      var rest := seq(|vs| - 1, i requires 0 <= i < |vs| - 1 => EncodeChar(vs[1..][i]));
      assert (cs + pad)[1..] == rest + pad;
      DecodeEncodeChar(vs[0]);
      SextetsInEncoded(vs[1..], pad);
      assert [vs[0]] + vs[1..] == vs;
    }
  }

  /** Decoding an encoding gives the original bytes back (RFC 4648, section 4). */
  lemma DecodeEncode(bs: seq<Byte>)
    ensures Decode(Encode(bs)) == bs
  {
    SextetsInEncoded(SextetsOf(bs), Padding(|bs|));
    BytesOfSextetsOf(bs);
  }
}
