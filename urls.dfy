/**
 * The network location of a URL, as urllib.parse.urlparse(url).netloc computes
 * it: both enqueue_capture and capture_worker derive a capture's domain this way.
 */
module Urls {
  import opened Wrappers

  /** urlsplit first drops leading C0 control characters and spaces. */
  function LStripControl(s: string): (r: string)
    ensures |r| <= |s| && r == s[|s| - |r|..]
    ensures r == [] || r[0] > ' '
  {
    if |s| > 0 && s[0] <= ' ' then LStripControl(s[1..]) else s
  }

  predicate IsUnsafe(c: char) {
    c == '\t' || c == '\r' || c == '\n'
  }

  predicate Safe(s: string) {
    forall i :: 0 <= i < |s| ==> !IsUnsafe(s[i])
  }

  lemma SafeConcat(a: string, b: string)
    requires Safe(a) && Safe(b)
    ensures Safe(a + b)
  {
    forall i | 0 <= i < |a + b| ensures !IsUnsafe((a + b)[i]) {
      if i >= |a| { assert (a + b)[i] == b[i - |a|]; }
    }
  }

  /** Then it deletes every tab, carriage return and line feed. */
  function RemoveUnsafe(s: string): (r: string)
    ensures Safe(r)
    ensures Safe(s) ==> r == s
  {
    if |s| == 0 then ""
    else (if IsUnsafe(s[0]) then "" else [s[0]]) + RemoveUnsafe(s[1..])
  }

  predicate IsAsciiLetter(c: char) {
    'a' <= c <= 'z' || 'A' <= c <= 'Z'
  }

  /** urllib.parse.scheme_chars. */
  predicate IsSchemeChar(c: char) {
    IsAsciiLetter(c) || '0' <= c <= '9' || c == '+' || c == '-' || c == '.'
  }

  /** str.find(c): the first index of `c`, or -1. */
  function Find(s: string, c: char): (i: int)
    ensures -1 <= i < |s|
    ensures i == -1 ==> c !in s
    ensures 0 <= i ==> s[i] == c && c !in s[..i]
  {
    if |s| == 0 then -1
    else if s[0] == c then 0
    else var j := Find(s[1..], c); if j == -1 then -1 else j + 1
  }

  /** What is left once a leading "scheme:" has been recognised and removed. */
  function AfterScheme(url: string): string
  {
    var i := Find(url, ':');
    if i > 0 && IsAsciiLetter(url[0]) && forall j :: 0 <= j < i ==> IsSchemeChar(url[j])
    then url[i + 1..] else url
  }

  predicate IsNetlocDelimiter(c: char) {
    c == '/' || c == '?' || c == '#'
  }

  /** _splitnetloc: the netloc runs up to the first '/', '?' or '#'. */
  function NetlocLength(s: string): (n: nat)
    ensures n <= |s|
    ensures forall i :: 0 <= i < n ==> !IsNetlocDelimiter(s[i])
    ensures n < |s| ==> IsNetlocDelimiter(s[n])
  {
    if |s| == 0 || IsNetlocDelimiter(s[0]) then 0 else 1 + NetlocLength(s[1..])
  }

  /**
   * urlparse(url).netloc: the text after "//" (once any scheme is removed) up to
   * the next delimiter, "" when there is no "//"; an unbalanced '[' or ']' in it
   * raises ValueError.
   */
  function Netloc(url: string): Try<string>
  {
    var u := AfterScheme(RemoveUnsafe(LStripControl(url)));
    if |u| >= 2 && u[..2] == "//" then
      var n := u[2..2 + NetlocLength(u[2..])];
      if ('[' in n && ']' !in n) || (']' in n && '[' !in n) then Raised("Invalid IPv6 URL")
      else Returned(n)
    else Returned("")
  }

  lemma {:induction false} FindAfterSchemeChars(scheme: string, rest: string)
    requires forall j :: 0 <= j < |scheme| ==> IsSchemeChar(scheme[j])
    ensures Find(scheme + ":" + rest, ':') == |scheme|
  {
    if scheme != [] {
      assert (scheme + ":" + rest)[1..] == scheme[1..] + ":" + rest;
      FindAfterSchemeChars(scheme[1..], rest);
    }
  }

  lemma {:induction false} NetlocLengthOfHost(host: string, rest: string)
    requires forall i :: 0 <= i < |host| ==> !IsNetlocDelimiter(host[i])
    requires rest == [] || IsNetlocDelimiter(rest[0])
    ensures NetlocLength(host + rest) == |host|
  {
    if host != [] {
      assert (host + rest)[1..] == host[1..] + rest;
      NetlocLengthOfHost(host[1..], rest);
    }
  }

  lemma AfterSchemeOf(scheme: string, tail: string)
    requires |scheme| > 0 && IsAsciiLetter(scheme[0])
    requires forall j :: 0 <= j < |scheme| ==> IsSchemeChar(scheme[j])
    ensures AfterScheme(scheme + ":" + tail) == tail
  {
    FindAfterSchemeChars(scheme, tail);
    var url := scheme + ":" + tail;
    assert url[|scheme| + 1..] == tail;
    assert forall j :: 0 <= j < |scheme| ==> url[j] == scheme[j];
  }

  lemma NetlocOfTail(host: string, rest: string)
    requires forall i :: 0 <= i < |host| ==> !IsNetlocDelimiter(host[i])
    requires '[' !in host && ']' !in host
    requires rest == [] || IsNetlocDelimiter(rest[0])
    ensures var u := "//" + host + rest;
      |u| >= 2 && u[..2] == "//" && u[2..2 + NetlocLength(u[2..])] == host
  {
    var u := "//" + host + rest;
    assert u[2..] == host + rest;
    NetlocLengthOfHost(host, rest);
    assert u[2..2 + |host|] == host;
  }

  /**
   * For "scheme://host" followed by a path, query or fragment (or nothing),
   * the netloc is exactly `host`, port and user information included.
   */
  lemma {:induction false} NetlocOfUrl(scheme: string, host: string, rest: string)
    requires |scheme| > 0 && IsAsciiLetter(scheme[0])
    requires forall j :: 0 <= j < |scheme| ==> IsSchemeChar(scheme[j])
    requires forall i :: 0 <= i < |host| ==> !IsNetlocDelimiter(host[i])
    requires Safe(host) && Safe(rest)
    requires '[' !in host && ']' !in host
    requires rest == [] || IsNetlocDelimiter(rest[0])
    ensures Netloc(scheme + "://" + host + rest) == Returned(host)
  {
    var tail := "//" + host + rest;
    var url := scheme + ":" + tail;
    assert url == scheme + "://" + host + rest;
    assert Safe(scheme);
    SafeConcat(host, rest);
    assert Safe("//");
    SafeConcat("//", host + rest);
    assert tail == "//" + (host + rest);
    assert Safe(":");
    SafeConcat(scheme, ":");
    SafeConcat(scheme + ":", tail);
    assert LStripControl(url) == url;
    assert RemoveUnsafe(url) == url;
    AfterSchemeOf(scheme, tail);
    NetlocOfTail(host, rest);
  }
}
