/**
 * The Subversion read and connect timeouts (`ISVNAuthenticationManagerDelegator`): each is
 * read from its own system property, trimmed and parsed, with a default of two minutes for
 * a missing, blank, unparsable or negative value.
 */
module Timeouts {
  import opened Wrappers
  import opened JavaLang

  const READ_TIMEOUT_PROPERTY: string := "com.atlassian.jira.plugin.ext.subversion.svnreadtimeout"

  const CONNECTION_TIMEOUT_PROPERTY: string := "com.atlassian.jira.plugin.ext.subversion.svnconnectiontimeout"

  /** Two minutes, in milliseconds. */
  const DEFAULT_READ_TIMEOUT: int := 120000

  const DEFAULT_CONNECTION_TIMEOUT: int := DEFAULT_READ_TIMEOUT

  /** `StringUtils.trim`: `null` stays `null`. */
  function TrimOpt(s: Option<string>): (r: Option<string>)
    ensures r.None? <==> s.None?
  {
    match s
    case None => None
    case Some(v) => Some(Trim(v))
  }

  /** `getTimeout` on the property's value (`None` when unset). */
  function GetTimeout(value: Option<string>, default: int): (r: int)
    ensures IsBlankOpt(TrimOpt(value)) ==> r == default
    ensures !IsBlankOpt(TrimOpt(value)) ==>
              var parsed := ParseInt(Trim(value.value));
              r == if parsed.Some? && parsed.value >= 0 then parsed.value else default
  {
    var trimmed := TrimOpt(value);
    if IsBlankOpt(trimmed) then default
    else match ParseInt(trimmed.value)
      case None => default
      case Some(t) => if t < 0 then default else t
  }

  /** `getReadTimeout`, given the system properties. */
  function ReadTimeout(properties: map<string, string>): (r: int)
    ensures r >= 0
    ensures READ_TIMEOUT_PROPERTY !in properties ==> r == DEFAULT_READ_TIMEOUT
  {
    GetTimeout(if READ_TIMEOUT_PROPERTY in properties then Some(properties[READ_TIMEOUT_PROPERTY]) else None,
               DEFAULT_READ_TIMEOUT)
  }

  /** `getConnectTimeout`, given the system properties. */
  function ConnectTimeout(properties: map<string, string>): (r: int)
    ensures r >= 0
    ensures CONNECTION_TIMEOUT_PROPERTY !in properties ==> r == DEFAULT_CONNECTION_TIMEOUT
  {
    GetTimeout(if CONNECTION_TIMEOUT_PROPERTY in properties then Some(properties[CONNECTION_TIMEOUT_PROPERTY]) else None,
               DEFAULT_CONNECTION_TIMEOUT)
  }

  /** A timeout is never negative when its default is not. */
  lemma TimeoutNonNegative(value: Option<string>, default: int)
    requires default >= 0
    ensures GetTimeout(value, default) >= 0
  {
  }

  lemma TrimNoPadding(s: string)
    requires |s| > 0 && s[0] > ' ' && s[|s| - 1] > ' '
    ensures Trim(s) == s
  {
    assert KeptStart(s, 0) == 0;
    assert KeptEnd(s, 0, |s|) == |s|;
    assert s[0..|s|] == s;
  }

  /** A printed number starts above U+0020 and ends in a digit. */
  lemma IntToStringEnds(n: int)
    ensures IntToString(n)[0] > ' '
    ensures IsAsciiDigit(IntToString(n)[|IntToString(n)| - 1])
  {
    IntToStringShape(n);
    var s := IntToString(n);
    assert IsAsciiDigit(s[0]) || s[0] == '-';
  }

  /** A printed number is neither trimmed nor blank. */
  lemma TrimIntToString(n: int)
    ensures TrimOpt(Some(IntToString(n))) == Some(IntToString(n))
    ensures !IsBlankOpt(Some(IntToString(n)))
  {
    var s := IntToString(n);
    IntToStringEnds(n);
    TrimNoPadding(s);
    var last := s[|s| - 1];
    assert !IsWhitespace(last);
  }

  /** A non-negative `int` written in decimal is used as is, 0 included. */
  lemma TimeoutOfIntToString(n: int, default: int)
    requires 0 <= n <= INT_MAX
    ensures GetTimeout(Some(IntToString(n)), default) == n
  {
    TrimIntToString(n);
    ParseIntOfIntToString(n);
  }

  /** A negative value written in decimal falls back to the default. */
  lemma NegativeTimeoutIgnored(n: int, default: int)
    requires INT_MIN <= n < 0
    ensures GetTimeout(Some(IntToString(n)), default) == default
  {
    TrimIntToString(n);
    ParseIntOfIntToString(n);
  }

  /** The two timeouts read different properties: setting one leaves the other at what it
      was. */
  lemma TimeoutsIndependent(properties: map<string, string>, v: string)
    ensures ConnectTimeout(properties[READ_TIMEOUT_PROPERTY := v]) == ConnectTimeout(properties)
    ensures ReadTimeout(properties[CONNECTION_TIMEOUT_PROPERTY := v]) == ReadTimeout(properties)
  {
    assert READ_TIMEOUT_PROPERTY != CONNECTION_TIMEOUT_PROPERTY by {
      assert READ_TIMEOUT_PROPERTY[|READ_TIMEOUT_PROPERTY| - 7] != CONNECTION_TIMEOUT_PROPERTY[|READ_TIMEOUT_PROPERTY| - 7];
    }
  }
}
