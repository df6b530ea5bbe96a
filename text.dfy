/**
 * The Python string built-ins the capture engine relies on: str.strip(),
 * str.split(sep), sep.join(list), f"{n}" for a non-negative int, and int(str).
 */
module Text {
  import opened Wrappers

  /** Python's str.isspace() for one character. */
  predicate IsSpace(c: char) {
    || ('\t' <= c <= '\r')
    || ('\U{1c}' <= c <= ' ')
    || c == '\U{85}' || c == '\U{a0}' || c == '\U{1680}'
    || ('\U{2000}' <= c <= '\U{200a}')
    || c == '\U{2028}' || c == '\U{2029}' || c == '\U{202f}' || c == '\U{205f}' || c == '\U{3000}'
  }

  predicate AllSpace(s: string) {
    forall i :: 0 <= i < |s| ==> IsSpace(s[i])
  }

  /** Neither end of `s` is whitespace (vacuously true of ""). */
  predicate Trimmed(s: string) {
    s == [] || (!IsSpace(s[0]) && !IsSpace(s[|s| - 1]))
  }

  /** How many whitespace characters `s` starts with. */
  function LeadingSpace(s: string): (n: nat)
    ensures n <= |s|
  {
    if |s| == 0 || !IsSpace(s[0]) then 0 else 1 + LeadingSpace(s[1..])
  }

  /** How many whitespace characters `s` ends with. */
  function TrailingSpace(s: string): (n: nat)
    ensures n <= |s|
  {
    if |s| == 0 || !IsSpace(s[|s| - 1]) then 0 else 1 + TrailingSpace(s[..|s| - 1])
  }

  /** str.strip(): `s` without its leading and then its trailing whitespace. */
  function Strip(s: string): string
  {
    var t := s[LeadingSpace(s)..];
    t[..|t| - TrailingSpace(t)]
  }

  lemma {:induction false} LeadingSpaceSpec(s: string)
    ensures AllSpace(s[..LeadingSpace(s)])
    ensures LeadingSpace(s) < |s| ==> !IsSpace(s[LeadingSpace(s)])
  {
    if |s| > 0 && IsSpace(s[0]) {
      LeadingSpaceSpec(s[1..]);
      assert s[..LeadingSpace(s)] == [s[0]] + s[1..][..LeadingSpace(s[1..])];
    }
  }

  lemma {:induction false} TrailingSpaceSpec(s: string)
    ensures AllSpace(s[|s| - TrailingSpace(s)..])
    ensures TrailingSpace(s) < |s| ==> !IsSpace(s[|s| - TrailingSpace(s) - 1])
  {
    if |s| > 0 && IsSpace(s[|s| - 1]) {
      var p := s[..|s| - 1];
      TrailingSpaceSpec(p);
      assert s[|s| - TrailingSpace(s)..] == p[|p| - TrailingSpace(p)..] + [s[|s| - 1]];
    }
  }

  /** Neither end of a stripped string is whitespace. */
  lemma StripIsTrimmed(s: string)
    ensures Trimmed(Strip(s))
  {
    var t := s[LeadingSpace(s)..];
    LeadingSpaceSpec(s);
    TrailingSpaceSpec(t);
    if t != [] {
      assert !IsSpace(t[0]);
      assert TrailingSpace(t) < |t|;
    }
  }

  /** What str.strip() removes is whitespace on either side of the result, and nothing else. */
  lemma StripInfix(s: string)
    ensures exists k :: 0 <= k && k + |Strip(s)| <= |s| && Strip(s) == s[k..k + |Strip(s)|]
                        && AllSpace(s[..k]) && AllSpace(s[k + |Strip(s)|..])
  {
    var k := LeadingSpace(s);
    var t := s[k..];
    var r := Strip(s);
    LeadingSpaceSpec(s);
    TrailingSpaceSpec(t);
    assert r == s[k..k + |r|];
    assert s[k + |r|..] == t[|t| - TrailingSpace(t)..];
  }

  lemma {:induction false} LeadingSpacePadded(pre: string, d: string)
    requires AllSpace(pre)
    requires d == [] || !IsSpace(d[0])
    ensures LeadingSpace(pre + d) == |pre|
  {
    if pre != [] {
      assert (pre + d)[1..] == pre[1..] + d;
      LeadingSpacePadded(pre[1..], d);
    }
  }

  lemma {:induction false} TrailingSpacePadded(d: string, post: string)
    requires AllSpace(post)
    requires d == [] || !IsSpace(d[|d| - 1])
    ensures TrailingSpace(d + post) == |post|
  {
    if post != [] {
      assert (d + post)[..|d + post| - 1] == d + post[..|post| - 1];
      TrailingSpacePadded(d, post[..|post| - 1]);
    }
  }

  /** Stripping recovers a trimmed word from any whitespace padding around it. */
  lemma StripPadded(pre: string, d: string, post: string)
    requires AllSpace(pre) && AllSpace(post) && Trimmed(d)
    ensures Strip(pre + d + post) == d
  {
    if d == [] {
      assert pre + d + post == pre + post;
      assert AllSpace(pre + post);
      LeadingSpacePadded(pre + post, []);
      assert pre + post + [] == pre + post;
    } else {
      assert pre + d + post == pre + (d + post);
      LeadingSpacePadded(pre, d + post);
      assert (pre + d + post)[|pre|..] == d + post;
      TrailingSpacePadded(d, post);
    }
  }

  /** str.strip() is idempotent. */
  lemma StripIdempotent(s: string)
    ensures Strip(Strip(s)) == Strip(s)
  {
    var t := Strip(s);
    StripIsTrimmed(s);
    assert [] + t + [] == t;
    StripPadded([], t, []);
  }

  /** sep.join(xs). */
  function Join(xs: seq<string>, sep: string): string
  {
    if |xs| == 0 then "" else if |xs| == 1 then xs[0] else xs[0] + sep + Join(xs[1..], sep)
  }

  /** str.split(sep) with a one-character separator: never empty, and no piece holds `sep`. */
  function Split(s: string, sep: char): (r: seq<string>)
    ensures |r| >= 1
    ensures forall i :: 0 <= i < |r| ==> sep !in r[i]
    decreases |s|
  {
    if |s| == 0 then [""]
    else
      var rest := Split(s[1..], sep);
      if s[0] == sep then [""] + rest
      else [[s[0]] + rest[0]] + rest[1..]
  }

  /** Joining the pieces of a split with the separator gives the original text back. */
  lemma {:induction false} JoinSplit(s: string, sep: char)
    ensures Join(Split(s, sep), [sep]) == s
    decreases |s|
  {
    if |s| > 0 {
      var rest := Split(s[1..], sep);
      JoinSplit(s[1..], sep);
      if s[0] == sep {
        assert ([""] + rest)[1..] == rest;
      } else {
        var r := [[s[0]] + rest[0]] + rest[1..];
        if |rest| > 1 {
          assert r[1..] == rest[1..];
          assert Join(rest, [sep]) == rest[0] + [sep] + Join(rest[1..], [sep]);
        }
      }
    }
  }

  /** Splitting a join of separator-free pieces gives the pieces back. */
  lemma {:induction false} SplitJoin(xs: seq<string>, sep: char)
    requires |xs| >= 1
    requires forall i :: 0 <= i < |xs| ==> sep !in xs[i]
    ensures Split(Join(xs, [sep]), sep) == xs
    decreases |xs|, |xs[0]|
  {
    var s := Join(xs, [sep]);
    if xs[0] == [] {
      if |xs| == 1 {
      } else {
        assert s == [sep] + Join(xs[1..], [sep]);
        assert s[1..] == Join(xs[1..], [sep]);
        SplitJoin(xs[1..], sep);
        assert [""] + xs[1..] == xs;
      }
    } else {
      var c := xs[0][0];
      var ys := [xs[0][1..]] + xs[1..];
      assert sep !in ys[0] by { assert forall ch :: ch in xs[0][1..] ==> ch in xs[0]; }
      assert forall i :: 0 <= i < |ys| ==> sep !in ys[i] by {
        forall i | 1 <= i < |ys| ensures sep !in ys[i] { assert ys[i] == xs[i]; }
      }
      if |xs| == 1 {
        assert s == [c] + Join(ys, [sep]);
      } else {
        assert ys[1..] == xs[1..];
        assert s == [c] + Join(ys, [sep]);
      }
      assert s[0] == c && s[1..] == Join(ys, [sep]);
      assert c != sep;
      SplitJoin(ys, sep);
      assert [c] + ys[0] == xs[0];
      assert [[c] + ys[0]] + ys[1..] == xs;
    }
  }

  function DigitChar(d: nat): (c: char)
    requires d < 10
    ensures '0' <= c <= '9' && (c as int) - ('0' as int) == d
  {
    (('0' as int) + d) as char
  }

  predicate IsDigits(s: string) {
    |s| > 0 && forall i :: 0 <= i < |s| ==> '0' <= s[i] <= '9'
  }

  /** f"{n}" for a non-negative integer: decimal digits, most significant first. */
  function NatToString(n: nat): (r: string)
    ensures IsDigits(r)
  {
    if n < 10 then [DigitChar(n)] else NatToString(n / 10) + [DigitChar(n % 10)]
  }

  /** The value of a run of ASCII decimal digits. */
  function DigitsValue(s: string): nat
    requires forall i :: 0 <= i < |s| ==> '0' <= s[i] <= '9'
  {
    if |s| == 0 then 0 else DigitsValue(s[..|s| - 1]) * 10 + ((s[|s| - 1] as int) - ('0' as int))
  }

  /**
   * int(s) for a base-10 literal: surrounding whitespace stripped, an optional
   * sign, then ASCII digits; anything else is Python's ValueError, here None.
   */
  function ParseInt(s: string): Option<int>
  {
    ParseLiteral(Strip(s))
  }

  /** int() once whitespace is stripped: an optional sign and decimal digits. */
  function ParseLiteral(t: string): Option<int>
  {
    if |t| > 0 && (t[0] == '-' || t[0] == '+') then
      if IsDigits(t[1..]) then
        var v: int := DigitsValue(t[1..]);
        Some(if t[0] == '-' then -v else v)
      else None
    else if IsDigits(t) then Some(DigitsValue(t))
    else None
  }

  lemma {:induction false} DigitsValueOfNat(n: nat)
    ensures DigitsValue(NatToString(n)) == n
  {
    if n >= 10 {
      var s := NatToString(n);
      assert s[..|s| - 1] == NatToString(n / 10);
      DigitsValueOfNat(n / 10);
    }
  }

  lemma StripOfTrimmed(s: string)
    requires Trimmed(s)
    ensures Strip(s) == s
  {
    assert [] + s + [] == s;
    StripPadded([], s, []);
  }

  lemma ParseLiteralDigits(s: string)
    requires IsDigits(s)
    ensures ParseLiteral(s) == Some(DigitsValue(s))
    ensures ParseLiteral("-" + s) == Some(-(DigitsValue(s) as int))
  {
    assert s[0] != '-' && s[0] != '+';
    assert ("-" + s)[1..] == s;
  }

  /** int(str(n)) == n: the decimal rendering of a non-negative integer parses back. */
  lemma {:induction false} ParseIntRoundTrip(n: nat)
    ensures ParseInt(NatToString(n)) == Some(n)
  {
    var s := NatToString(n);
    StripOfTrimmed(s);
    DigitsValueOfNat(n);
    ParseLiteralDigits(s);
  }

  /** int("-" + digits) is the negated value of the digits. */
  lemma ParseIntNegative(s: string)
    requires IsDigits(s)
    ensures ParseInt("-" + s) == Some(-(DigitsValue(s) as int))
  {
    var m := "-" + s;
    assert m[|m| - 1] == s[|s| - 1];
    StripOfTrimmed(m);
    ParseLiteralDigits(s);
  }
}
