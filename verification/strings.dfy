/** String primitives the survey code borrows from Python: `str.strip()`,
    the `in` substring test, splitting on one character, and decimal
    formatting of positive integers. */
module Strings {

  /** The characters Python's `str.isspace()` (and the regular-expression
      class `\s`) treat as whitespace. */
  predicate IsSpace(c: char) {
    || c == ' ' || c == '\t' || c == '\n' || c == '\r' || c == '\U{000B}' || c == '\U{000C}'
    || ('\U{001C}' <= c <= '\U{001F}')
    || c == '\U{0085}' || c == '\U{00A0}' || c == '\U{1680}'
    || ('\U{2000}' <= c <= '\U{200A}')
    || c == '\U{2028}' || c == '\U{2029}' || c == '\U{202F}' || c == '\U{205F}' || c == '\U{3000}'
  }

  predicate AllSpace(s: string) {
    forall i :: 0 <= i < |s| ==> IsSpace(s[i])
  }

  /** No whitespace at either end. */
  predicate IsTrimmed(s: string) {
    |s| == 0 || (!IsSpace(s[0]) && !IsSpace(s[|s| - 1]))
  }

  /** Length of the whitespace run at the start of `s`. */
  function LeadingSpaces(s: string): (n: nat)
    ensures n <= |s|
    ensures forall i :: 0 <= i < n ==> IsSpace(s[i])
    ensures n == |s| || !IsSpace(s[n])
    decreases |s|
  {
    if |s| > 0 && IsSpace(s[0]) then LeadingSpaces(s[1..]) + 1 else 0
  }

  /** Length of the whitespace run at the end of `s`. */
  function TrailingSpaces(s: string): (n: nat)
    ensures n <= |s|
    ensures forall i :: |s| - n <= i < |s| ==> IsSpace(s[i])
    ensures n == |s| || !IsSpace(s[|s| - n - 1])
    decreases |s|
  {
    if |s| > 0 && IsSpace(s[|s| - 1]) then TrailingSpaces(s[..|s| - 1]) + 1 else 0
  }

  /** Python's `str.strip()` with no argument. `TrimSplitsPadding` and
      `TrimOfPadded` characterise it: `s` is `Trim(s)` padded with
      whitespace, and stripping a padded stripped string recovers it. */
  function Trim(s: string): (r: string)
    ensures IsTrimmed(r)
    ensures |r| <= |s|
  {
    var a := LeadingSpaces(s);
    var t := TrailingSpaces(s[a..]);
    var r := s[a..|s| - t];
    assert |r| > 0 ==> r[0] == s[a] && r[|r| - 1] == s[a..][|s[a..]| - t - 1];
    r
  }

  /** The stripped form is the slice between the leading and the trailing
      whitespace. */
  lemma {:induction false} TrimAsSlice(s: string) returns (a: nat, b: nat)
    ensures a <= b <= |s| && Trim(s) == s[a..b]
    ensures AllSpace(s[..a]) && AllSpace(s[b..])
  {
    a := LeadingSpaces(s);
    var t := TrailingSpaces(s[a..]);
    b := |s| - t;
    SliceOfSlice(s, a, |s| - a - t);
  }

  lemma SliceOfSlice<T>(s: seq<T>, a: nat, j: nat)
    requires a + j <= |s|
    ensures s[a..][j..] == s[a + j..]
  {
  }

  /** `s` is its stripped form with whitespace around it. */
  lemma TrimSplitsPadding(s: string) returns (pre: string, post: string)
    ensures AllSpace(pre) && AllSpace(post)
    ensures s == pre + Trim(s) + post
  {
    var a, b := TrimAsSlice(s);
    pre, post := s[..a], s[b..];
    SplitInThree(s, a, b);
  }

  /** "|" is not whitespace: a text and its stripped form agree on
      whether they contain it. */
  lemma PipeSurvivesTrim(s: string)
    ensures '|' in Trim(s) <==> '|' in s
  {
    var pre, post := TrimSplitsPadding(s);
    PipeInPadded(s, pre, Trim(s), post);
  }

  lemma PipeInPadded(s: string, pre: string, m: string, post: string)
    requires AllSpace(pre) && AllSpace(post) && s == pre + m + post
    ensures '|' in m <==> '|' in s
  {
    assert !IsSpace('|');
    if '|' in s {
      var i :| 0 <= i < |s| && s[i] == '|';
      assert forall k :: 0 <= k < |pre| ==> s[k] == pre[k];
      assert forall k :: |pre| <= k < |pre| + |m| ==> s[k] == m[k - |pre|];
      assert forall k :: |pre| + |m| <= k < |s| ==> s[k] == post[k - |pre| - |m|];
    }
    if '|' in m {
      var i :| 0 <= i < |m| && m[i] == '|';
      assert s[|pre| + i] == '|';
    }
  }

  lemma SplitInThree<T>(s: seq<T>, i: nat, j: nat)
    requires i <= j <= |s|
    ensures s == s[..i] + s[i..j] + s[j..]
  {
  }

  lemma {:induction false} LeadingSpacesOf(pre: string, u: string)
    requires AllSpace(pre)
    requires |u| == 0 || !IsSpace(u[0])
    ensures LeadingSpaces(pre + u) == |pre|
    decreases |pre|
  {
    if |pre| > 0 {
      assert (pre + u)[1..] == pre[1..] + u;
      LeadingSpacesOf(pre[1..], u);
    }
  }

  lemma {:induction false} TrailingSpacesOf(u: string, post: string)
    requires AllSpace(post)
    requires |u| == 0 || !IsSpace(u[|u| - 1])
    ensures TrailingSpaces(u + post) == |post|
    decreases |post|
  {
    if |post| > 0 {
      var n := |post| - 1;
      assert (u + post)[..|u + post| - 1] == u + post[..n];
      TrailingSpacesOf(u, post[..n]);
    }
  }

  /** Stripping undoes any whitespace padding of a stripped string. */
  lemma TrimOfPadded(pre: string, t: string, post: string)
    requires AllSpace(pre) && AllSpace(post) && IsTrimmed(t)
    ensures Trim(pre + t + post) == t
  {
    var s := pre + t + post;
    if |t| == 0 {
      assert s == (pre + post) + "";
      LeadingSpacesOf(pre + post, "");
      assert s[|s|..] == "";
    } else {
      assert s == pre + (t + post);
      LeadingSpacesOf(pre, t + post);
      assert s[|pre|..] == t + post;
      TrailingSpacesOf(t, post);
      assert s[|pre|..|s| - |post|] == t;
    }
  }

  lemma TrimIdempotent(t: string)
    requires IsTrimmed(t)
    ensures Trim(t) == t
  {
    TrimOfPadded("", t, "");
    assert "" + t + "" == t;
  }

  /** Python's `sub in s`. */
  predicate Contains(s: string, sub: string) {
    exists i :: 0 <= i <= |s| && sub <= s[i..]
  }

  /** A text that lacks the first character of `sub` does not contain it. */
  lemma FirstCharAbsent(s: string, sub: string)
    requires |sub| > 0 && sub[0] !in s
    ensures !Contains(s, sub)
  {
  }

  /** Python's `any(sub in s for sub in subs)`. */
  predicate ContainsAny(s: string, subs: seq<string>) {
    exists k :: 0 <= k < |subs| && Contains(s, subs[k])
  }

  // ---------------------------------------------------------------- digits

  predicate IsDigit(c: char) {
    '0' <= c <= '9'
  }

  predicate AllDigits(s: string) {
    forall i :: 0 <= i < |s| ==> IsDigit(s[i])
  }

  /** Length of the longest run of digits at the start of `s`. */
  function DigitRun(s: string): (n: nat)
    ensures n <= |s|
    ensures forall i :: 0 <= i < n ==> IsDigit(s[i])
    ensures n == |s| || !IsDigit(s[n])
    decreases |s|
  {
    if |s| > 0 && IsDigit(s[0]) then DigitRun(s[1..]) + 1 else 0
  }

  /** The run of digits `d` is exactly the leading run of `d + rest` when
      `rest` does not start with a digit. */
  lemma {:induction false} DigitRunOf(d: string, rest: string)
    requires AllDigits(d)
    requires |rest| == 0 || !IsDigit(rest[0])
    ensures DigitRun(d + rest) == |d|
    decreases |d|
  {
    if |d| > 0 {
      assert (d + rest)[1..] == d[1..] + rest;
      DigitRunOf(d[1..], rest);
    }
  }

  function DigitChar(n: nat): (c: char)
    requires n < 10
    ensures IsDigit(c)
  {
    ('0' as int + n) as char
  }

  /** The number a string of decimal digits denotes. */
  function DigitsValue(s: string): nat
    requires AllDigits(s)
    decreases |s|
  {
    if |s| == 0 then 0
    else DigitsValue(s[..|s| - 1]) * 10 + (s[|s| - 1] as int - '0' as int)
  }

  /** Python's `str(n)` for a natural number: a non-empty run of decimal
      digits that reads back as `n`, with no leading zero. */
  function NatToString(n: nat): (r: string)
    ensures |r| > 0 && AllDigits(r)
    ensures DigitsValue(r) == n
    ensures r[0] == '0' ==> n == 0 && |r| == 1
    decreases n
  {
    if n < 10 then [DigitChar(n)]
    else
      var r := NatToString(n / 10) + [DigitChar(n % 10)];
      assert r[..|r| - 1] == NatToString(n / 10);
      r
  }

  /** A decimal numeral without a leading zero has a positive value unless
      it is "0". */
  lemma {:induction false} DigitsValuePositive(d: string)
    requires |d| > 0 && AllDigits(d) && d[0] != '0'
    ensures DigitsValue(d) > 0
    decreases |d|
  {
    if |d| > 1 {
      DigitsValuePositive(d[..|d| - 1]);
    }
  }

  /** `str(n)` is the only decimal numeral for `n` without a leading zero. */
  lemma {:induction false} NatToStringUnique(d: string, n: nat)
    requires |d| > 0 && AllDigits(d) && DigitsValue(d) == n
    requires d[0] == '0' ==> |d| == 1
    ensures d == NatToString(n)
    decreases |d|
  {
    if |d| == 1 {
      assert DigitsValue(d[..0]) == 0;
      assert n < 10 && d == [DigitChar(n)];
    } else {
      var front := d[..|d| - 1];
      var last := d[|d| - 1] as int - '0' as int;
      DigitsValuePositive(front);
      assert n == DigitsValue(front) * 10 + last && 0 <= last < 10;
      assert n / 10 == DigitsValue(front) && n % 10 == last;
      NatToStringUnique(front, n / 10);
      assert d == front + [DigitChar(last)];
    }
  }

  // -------------------------------------------------------------- splitting

  /** `parts` glued back together with `sep` between neighbours. */
  function JoinWith(parts: seq<string>, sep: char): string
    requires |parts| > 0
    decreases |parts|
  {
    if |parts| == 1 then parts[0] else parts[0] + [sep] + JoinWith(parts[1..], sep)
  }

  /** Python's `s.split(sep)` for a one-character separator: the maximal
      separator-free pieces, which join back to `s`. */
  function SplitOn(s: string, sep: char): (parts: seq<string>)
    ensures |parts| > 0
    ensures forall k :: 0 <= k < |parts| ==> sep !in parts[k]
    ensures JoinWith(parts, sep) == s
    decreases |s|
  {
    if |s| == 0 then [""]
    else
      var rest := SplitOn(s[1..], sep);
      if s[0] == sep then
        var parts := [""] + rest;
        assert parts[1..] == rest;
        parts
      else
        var parts := [[s[0]] + rest[0]] + rest[1..];
        assert |rest| > 1 ==> parts[1..] == rest[1..];
        assert |rest| > 1 ==> JoinWith(rest, sep) == rest[0] + [sep] + JoinWith(rest[1..], sep);
        parts
  }

  /** A string without the separator is a single piece. */
  lemma {:induction false} SplitOnPlain(p: string, sep: char)
    requires sep !in p
    ensures SplitOn(p, sep) == [p]
    decreases |p|
  {
    if |p| > 0 {
      SplitOnPlain(p[1..], sep);
      assert [p[0]] + p[1..] == p;
    }
  }

  /** Splitting `p + sep + rest` splits off `p` first, when `p` has no separator. */
  lemma {:induction false} SplitOnAfterPiece(p: string, sep: char, rest: string)
    requires sep !in p
    ensures SplitOn(p + [sep] + rest, sep) == [p] + SplitOn(rest, sep)
    decreases |p|
  {
    var s := p + [sep] + rest;
    if |p| == 0 {
      assert s[0] == sep && s[1..] == rest;
    } else {
      assert s[0] == p[0] && s[1..] == p[1..] + [sep] + rest;
      SplitOnAfterPiece(p[1..], sep, rest);
      assert [p[0]] + p[1..] == p;
    }
  }

  /** Joining separator-free pieces and splitting again gives the pieces
      back: the other half of the round trip `SplitOn` states. */
  lemma {:induction false} SplitOnJoin(parts: seq<string>, sep: char)
    requires |parts| > 0
    requires forall k :: 0 <= k < |parts| ==> sep !in parts[k]
    ensures SplitOn(JoinWith(parts, sep), sep) == parts
    decreases |parts|
  {
    if |parts| == 1 {
      SplitOnPlain(parts[0], sep);
    } else {
      SplitOnJoin(parts[1..], sep);
      SplitOnAfterPiece(parts[0], sep, JoinWith(parts[1..], sep));
      assert [parts[0]] + parts[1..] == parts;
    }
  }
}
