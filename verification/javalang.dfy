/**
 * The slice of Java and commons-lang string and number handling that the plugin relies on:
 * 32-bit wrap-around, whitespace and blankness, trimming, ASCII case mapping, decimal
 * printing and parsing, and `String.split` on a single separator character.
 */
module JavaLang {
  import opened Wrappers

  const INT_MIN: int := -0x8000_0000
  const INT_MAX: int := 0x7FFF_FFFF
  const LONG_MIN: int := -0x8000_0000_0000_0000
  const LONG_MAX: int := 0x7FFF_FFFF_FFFF_FFFF

  predicate IsInt(x: int) { INT_MIN <= x <= INT_MAX }

  predicate IsLong(x: int) { LONG_MIN <= x <= LONG_MAX }

  /** Java `int` arithmetic: the mathematical result reduced into the 32-bit two's complement range. */
  function Wrap32(x: int): (r: int)
    ensures IsInt(r)
    ensures IsInt(x) ==> r == x
    ensures (x - r) % 0x1_0000_0000 == 0
  {
    (x - INT_MIN) % 0x1_0000_0000 + INT_MIN
  }

  /** Java `long` arithmetic: the mathematical result reduced into the 64-bit two's complement range. */
  function Wrap64(x: int): (r: int)
    ensures IsLong(r)
    ensures IsLong(x) ==> r == x
    ensures (x - r) % 0x1_0000_0000_0000_0000 == 0
  {
    (x - LONG_MIN) % 0x1_0000_0000_0000_0000 + LONG_MIN
  }

  // ---------------------------------------------------------------------------------------------
  // Characters

  /** `Character.isWhitespace`: the ASCII controls 9-13 and 28-31, and the Unicode space,
      line and paragraph separators other than the non-breaking ones. */
  predicate IsWhitespace(c: char) {
    || c == ' '
    || ('\t' <= c <= '\r')
    || ('\U{1C}' <= c <= '\U{1F}')
    || c == '\U{1680}'
    || ('\U{2000}' <= c <= '\U{2006}')
    || ('\U{2008}' <= c <= '\U{200A}')
    || c == '\U{2028}' || c == '\U{2029}' || c == '\U{205F}' || c == '\U{3000}'
  }

  /** commons-lang `StringUtils.isBlank` of a non-null string: empty or whitespace only. */
  predicate IsBlank(s: string) {
    forall i :: 0 <= i < |s| ==> IsWhitespace(s[i])
  }

  /** `StringUtils.isBlank` of a nullable string. */
  predicate IsBlankOpt(s: Option<string>) {
    s.None? || IsBlank(s.value)
  }

  predicate IsAsciiDigit(c: char) { '0' <= c <= '9' }

  function DigitValue(c: char): (d: nat)
    requires IsAsciiDigit(c)
    ensures d < 10
  {
    c as int - '0' as int
  }

  function DigitChar(d: nat): (c: char)
    requires d < 10
    ensures IsAsciiDigit(c) && DigitValue(c) == d
  {
    ('0' as int + d) as char
  }

  /** ASCII upper-casing of one character. */
  function ToUpper(c: char): char {
    if 'a' <= c <= 'z' then (c as int - 32) as char else c
  }

  /** `StringUtils.upperCase`, restricted to ASCII letters. */
  function UpperCase(s: string): (r: string)
    ensures |r| == |s|
    ensures forall i :: 0 <= i < |s| ==> r[i] == ToUpper(s[i])
  {
    seq(|s|, i requires 0 <= i < |s| => ToUpper(s[i]))
  }

  /** `String.equalsIgnoreCase` on ASCII text. */
  predicate EqualsIgnoreCase(a: string, b: string) {
    |a| == |b| && forall i :: 0 <= i < |a| ==> ToUpper(a[i]) == ToUpper(b[i])
  }

  predicate StartsWith(s: string, prefix: string) {
    |prefix| <= |s| && s[..|prefix|] == prefix
  }

  // ---------------------------------------------------------------------------------------------
  // String.trim: strips every leading and trailing character at or below U+0020.

  /** The first loop of `trim`: from `st` on, skip characters at or below U+0020. */
  function KeptStart(s: string, st: nat): (r: nat)
    requires st <= |s|
    ensures st <= r <= |s|
    ensures forall m :: st <= m < r ==> s[m] <= ' '
    ensures r < |s| ==> s[r] > ' '
    decreases |s| - st
  {
    if st < |s| && s[st] <= ' ' then KeptStart(s, st + 1) else st
  }

  /** The second loop of `trim`: move the end `len` back over characters at or below U+0020,
      never past `st`. */
  function KeptEnd(s: string, st: nat, len: nat): (r: nat)
    requires st <= len <= |s|
    ensures st <= r <= len
    ensures forall m :: r <= m < len ==> s[m] <= ' '
    ensures st < r ==> s[r - 1] > ' '
    decreases len
  {
    if st < len && s[len - 1] <= ' ' then KeptEnd(s, st, len - 1) else len
  }

  /** `String.trim`: strips every leading and trailing character at or below U+0020. */
  function Trim(s: string): (r: string)
    ensures |r| <= |s|
    ensures |r| > 0 ==> r[0] > ' ' && r[|r| - 1] > ' '
  {
    var st := KeptStart(s, 0);
    s[st..KeptEnd(s, st, |s|)]
  }

  /** What `trim` removes is blank: the result is an infix of `s` with only characters at or
      below U+0020 around it. */
  lemma TrimIsInfix(s: string)
    ensures exists i, j :: 0 <= i <= j <= |s| && Trim(s) == s[i..j]
              && (forall m :: 0 <= m < i ==> s[m] <= ' ')
              && (forall m :: j <= m < |s| ==> s[m] <= ' ')
  {
    var i := KeptStart(s, 0);
    var j := KeptEnd(s, i, |s|);
    assert Trim(s) == s[i..j];
  }

  // ---------------------------------------------------------------------------------------------
  // Decimal printing: Long.toString / Integer.toString / string concatenation of a number.

  function NatToString(n: nat): (s: string)
    ensures |s| > 0
    ensures forall i :: 0 <= i < |s| ==> IsAsciiDigit(s[i])
    decreases n
  {
    if n < 10 then [DigitChar(n)] else NatToString(n / 10) + [DigitChar(n % 10)]
  }

  /** The decimal representation of `n`, with a leading '-' when negative. */
  function IntToString(n: int): (s: string)
    ensures |s| > 0
  {
    if n < 0 then "-" + NatToString(-n) else NatToString(n)
  }

  // ---------------------------------------------------------------------------------------------
  // Decimal parsing: Integer.parseInt / Long.parseLong (ASCII digits only).

  predicate AllDigits(s: string) {
    forall i :: 0 <= i < |s| ==> IsAsciiDigit(s[i])
  }

  /** The value of a string of decimal digits, most significant first. */
  function DigitsValue(s: string): nat
    requires AllDigits(s)
    decreases |s|
  {
    if |s| == 0 then 0 else DigitsValue(s[..|s| - 1]) * 10 + DigitValue(s[|s| - 1])
  }

  /** The unbounded value a Java parse method reads from `s`, before its range check:
      an optional sign followed by at least one decimal digit. */
  function ParseDecimal(s: string): (r: Option<int>)
    ensures r.Some? ==> |s| > 0
  {
    if |s| > 0 && (s[0] == '-' || s[0] == '+') then
      if |s| > 1 && AllDigits(s[1..]) then
        var m: int := DigitsValue(s[1..]);
        Some(if s[0] == '-' then -m else m)
      else None
    else if |s| > 0 && AllDigits(s) then Some(DigitsValue(s))
    else None
  }

  /** `Integer.parseInt`: `None` stands for the NumberFormatException. */
  function ParseInt(s: string): (r: Option<int>)
    ensures r.Some? ==> IsInt(r.value)
  {
    var v := ParseDecimal(s);
    if v.Some? && IsInt(v.value) then v else None
  }

  /** `Long.parseLong` / `Long.valueOf`: `None` stands for the NumberFormatException. */
  function ParseLong(s: string): (r: Option<int>)
    ensures r.Some? ==> IsLong(r.value)
  {
    var v := ParseDecimal(s);
    if v.Some? && IsLong(v.value) then v else None
  }

  lemma {:induction false} DigitsOfNatToString(n: nat)
    ensures DigitsValue(NatToString(n)) == n
    decreases n
  {
    var s := NatToString(n);
    if n < 10 {
      assert s[..|s| - 1] == [];
    } else {
      DigitsOfNatToString(n / 10);
      assert s[..|s| - 1] == NatToString(n / 10);
    }
  }

  /** Printing then parsing a number gives it back: the decimal form is a faithful encoding. */
  lemma ParseDecimalOfIntToString(n: int)
    ensures ParseDecimal(IntToString(n)) == Some(n)
  {
    var s := IntToString(n);
    if n < 0 {
      DigitsOfNatToString(-n);
      assert s[1..] == NatToString(-n);
    } else {
      DigitsOfNatToString(n);
    }
  }

  lemma ParseLongOfIntToString(n: int)
    requires IsLong(n)
    ensures ParseLong(IntToString(n)) == Some(n)
  {
    ParseDecimalOfIntToString(n);
  }

  lemma ParseIntOfIntToString(n: int)
    requires IsInt(n)
    ensures ParseInt(IntToString(n)) == Some(n)
  {
    ParseDecimalOfIntToString(n);
  }

  /** A printed number is made of digits and an optional leading minus sign, and ends in a
      digit. */
  lemma IntToStringShape(n: int)
    ensures forall i :: 0 <= i < |IntToString(n)| ==> IsAsciiDigit(IntToString(n)[i]) || IntToString(n)[i] == '-'
    ensures IsAsciiDigit(IntToString(n)[|IntToString(n)| - 1])
  {
    if n < 0 {
      var d := NatToString(-n);
      assert forall i :: 1 <= i < |IntToString(n)| ==> IntToString(n)[i] == d[i - 1];
    }
  }

  /** Distinct numbers print differently. */
  lemma IntToStringInjective(a: int, b: int)
    requires IntToString(a) == IntToString(b)
    ensures a == b
  {
    ParseDecimalOfIntToString(a);
    ParseDecimalOfIntToString(b);
  }

  // ---------------------------------------------------------------------------------------------
  // String.split on a one-character separator.

  /** Every piece between separators, including empty ones; never an empty list. */
  function SplitAll(s: string, sep: char): (r: seq<string>)
    ensures |r| >= 1
    ensures forall i :: 0 <= i < |r| ==> sep !in r[i]
    decreases |s|
  {
    if |s| == 0 then [""]
    else if s[0] == sep then [""] + SplitAll(s[1..], sep)
    else
      var rest := SplitAll(s[1..], sep);
      [[s[0]] + rest[0]] + rest[1..]
  }

  function DropTrailingEmpty(xs: seq<string>): (r: seq<string>)
    ensures |r| <= |xs| && r == xs[..|r|]
    ensures |r| > 0 ==> r[|r| - 1] != ""
    ensures forall i :: |r| <= i < |xs| ==> xs[i] == ""
  {
    if |xs| > 0 && xs[|xs| - 1] == "" then DropTrailingEmpty(xs[..|xs| - 1]) else xs
  }

  /** `String.split` with a one-character pattern: when the separator does not occur the
      result is the whole string; otherwise the pieces with trailing empty pieces removed. */
  function Split(s: string, sep: char): (r: seq<string>)
    ensures forall i :: 0 <= i < |r| ==> sep !in r[i]
  {
    if sep !in s then [s] else DropTrailingEmpty(SplitAll(s, sep))
  }

  lemma {:induction false} SplitAllNoSeparator(s: string, sep: char)
    requires sep !in s
    ensures SplitAll(s, sep) == [s]
    decreases |s|
  {
    if |s| > 0 {
      assert sep !in s[1..] by {
        forall i | 0 <= i < |s[1..]| ensures s[1..][i] != sep {
          assert s[1..][i] == s[i + 1];
        }
      }
      SplitAllNoSeparator(s[1..], sep);
      assert [s[0]] + s[1..] == s;
    }
  }

  lemma {:induction false} SplitAllAppend(a: string, sep: char, b: string)
    requires sep !in a
    ensures SplitAll(a + [sep] + b, sep) == [a] + SplitAll(b, sep)
    decreases |a|
  {
    if |a| == 0 {
      assert a + [sep] + b == [sep] + b;
      assert ([sep] + b)[1..] == b;
    } else {
      var t := a + [sep] + b;
      assert t[0] == a[0];
      assert t[1..] == a[1..] + [sep] + b;
      assert sep !in a[1..] by {
        forall i | 0 <= i < |a[1..]| ensures a[1..][i] != sep {
          assert a[1..][i] == a[i + 1];
        }
      }
      SplitAllAppend(a[1..], sep, b);
      assert [a[0]] + a[1..] == a;
    }
  }

  /** Dropping trailing empty pieces never touches a non-empty piece or anything before it. */
  lemma {:induction false} DropTrailingEmptyKeeps(xs: seq<string>, k: nat)
    requires k < |xs| && xs[k] != ""
    ensures |DropTrailingEmpty(xs)| > k
    ensures DropTrailingEmpty(xs)[..k + 1] == xs[..k + 1]
  {
  }
}
