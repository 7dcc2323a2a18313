/** Character classes and the string primitives that both scrapers lean on:
    strip, join, literal replacement and decimal digits. */
module Strings {

  /** The whitespace set used for Python's `str.strip()` and `\s`, and for Ruby's
      `strip`, `to_i` and `[[:space:]]`: the six ASCII whitespace characters. */
  const Whitespace: set<char> := {' ', '\t', '\n', '\r', '\U{0B}', '\U{0C}'}

  predicate IsDigit(c: char) { '0' <= c <= '9' }

  predicate IsAsciiLetter(c: char) { 'a' <= c <= 'z' || 'A' <= c <= 'Z' }

  /** Python's `string.punctuation`: the printable ASCII characters that are
      neither letters, digits nor space. */
  predicate IsPunctuation(c: char) {
    '!' <= c <= '/' || ':' <= c <= '@' || '[' <= c <= '`' || '{' <= c <= '~'
  }

  predicate AllDigits(s: string) { forall i :: 0 <= i < |s| ==> IsDigit(s[i]) }

  /** No two neighbouring characters of `s` both lie in `cs`. */
  predicate NoAdjacent(s: string, cs: set<char>) {
    forall i :: 0 <= i < |s| - 1 ==> !(s[i] in cs && s[i + 1] in cs)
  }

  /** Two strings free of adjacent `cs` characters stay so when joined, unless
      the seam puts two of them side by side. */
  lemma NoAdjacentAppend(x: string, y: string, cs: set<char>)
    requires NoAdjacent(x, cs) && NoAdjacent(y, cs)
    requires x != [] && y != [] ==> !(x[|x| - 1] in cs && y[0] in cs)
    ensures NoAdjacent(x + y, cs)
  {
    var xy := x + y;
    forall i | 0 <= i < |xy| - 1
      ensures !(xy[i] in cs && xy[i + 1] in cs)
    {
      if i + 1 < |x| {
        assert xy[i] == x[i] && xy[i + 1] == x[i + 1];
      } else if i >= |x| {
        assert xy[i] == y[i - |x|] && xy[i + 1] == y[i - |x| + 1];
      }
    }
  }

  /** `s` occurs in `t` starting at position `i`. */
  predicate OccursAt(s: string, t: string, i: int) {
    0 <= i && i + |s| <= |t| && t[i..i + |s|] == s
  }

  /** `s` occurs in `t` at some position. */
  predicate Occurs(s: string, t: string) {
    exists i :: 0 <= i <= |t| && OccursAt(s, t, i)
  }

  // ---------- strip ----------

  /** The number of leading characters of `s` that lie in `cs`. */
  function LeadIn(s: string, cs: set<char>): (k: nat)
    ensures k <= |s|
    ensures k < |s| ==> s[k] !in cs
  {
    if s == [] || s[0] !in cs then 0 else 1 + LeadIn(s[1..], cs)
  }

  /** Every character `LeadIn` counts lies in `cs`. */
  lemma {:induction false} LeadInRun(s: string, cs: set<char>)
    ensures forall i :: 0 <= i < LeadIn(s, cs) ==> s[i] in cs
    decreases |s|
  {
    if s != [] && s[0] in cs {
      LeadInRun(s[1..], cs);
      forall i | 0 < i < LeadIn(s, cs) ensures s[i] in cs { assert s[i] == s[1..][i - 1]; }
    }
  }

  /** The number of trailing characters of `s` that lie in `cs`. */
  function TrailIn(s: string, cs: set<char>): (k: nat)
    ensures k <= |s|
    ensures k < |s| ==> s[|s| - 1 - k] !in cs
  {
    if s == [] || s[|s| - 1] !in cs then 0 else 1 + TrailIn(s[..|s| - 1], cs)
  }

  /** Every character `TrailIn` counts lies in `cs`. */
  lemma {:induction false} TrailInRun(s: string, cs: set<char>)
    ensures forall i :: |s| - TrailIn(s, cs) <= i < |s| ==> s[i] in cs
    decreases |s|
  {
    if s != [] && s[|s| - 1] in cs {
      var u := s[..|s| - 1];
      TrailInRun(u, cs);
      forall i | |s| - TrailIn(s, cs) <= i < |u| ensures s[i] in cs { assert s[i] == u[i]; }
    }
  }

  /** Where the kept slice of `s` ends once trailing `cs` characters are dropped. */
  function StripEnd(s: string, cs: set<char>): (b: nat)
    ensures LeadIn(s, cs) <= b <= |s|
    ensures LeadIn(s, cs) < b ==> s[b - 1] !in cs
  {
    var a := LeadIn(s, cs);
    |s| - TrailIn(s[a..], cs)
  }

  /** Every character after `StripEnd` lies in `cs`. */
  lemma StripEndRun(s: string, cs: set<char>)
    ensures forall i :: StripEnd(s, cs) <= i < |s| ==> s[i] in cs
  {
    var a := LeadIn(s, cs);
    var t := s[a..];
    TrailInRun(t, cs);
    forall i | StripEnd(s, cs) <= i < |s| ensures s[i] in cs { assert s[i] == t[i - a]; }
  }

  /** Python's `str.strip(chars)`: the slice of `s` left after removing the
      longest prefix and the longest suffix made of characters in `cs`. */
  function StripChars(s: string, cs: set<char>): (r: string)
    ensures |r| <= |s|
    ensures r != [] ==> r[0] !in cs && r[|r| - 1] !in cs
  {
    s[LeadIn(s, cs)..StripEnd(s, cs)]
  }

  /** What `StripChars` removes: a prefix and a suffix made of characters in `cs`. */
  lemma StripCharsIsSlice(s: string, cs: set<char>)
    ensures var a, b := LeadIn(s, cs), StripEnd(s, cs);
            StripChars(s, cs) == s[a..b] && (forall i :: 0 <= i < a ==> s[i] in cs) &&
            (forall i :: b <= i < |s| ==> s[i] in cs)
  {
    LeadInRun(s, cs);
    StripEndRun(s, cs);
  }

  /** Python's `str.strip()` and Ruby's `String#strip`. */
  function Strip(s: string): (r: string)
    ensures |r| <= |s|
    ensures r != [] ==> r[0] !in Whitespace && r[|r| - 1] !in Whitespace
  {
    StripChars(s, Whitespace)
  }

  /** Stripping keeps a string free of adjacent characters of any class. */
  lemma StripKeepsNoAdjacent(s: string, strip: set<char>, cs: set<char>)
    requires NoAdjacent(s, cs)
    ensures NoAdjacent(StripChars(s, strip), cs)
  {
    var r := StripChars(s, strip);
    var a, b := LeadIn(s, strip), StripEnd(s, strip);
    forall i | 0 <= i < |r| - 1
      ensures !(r[i] in cs && r[i + 1] in cs)
    {
      assert r[i] == s[a + i] && r[i + 1] == s[a + i + 1];
    }
  }

  /** Every character of a stripped string comes from the original. */
  lemma StripKeepsCharacters(s: string, strip: set<char>, c: char)
    requires c in StripChars(s, strip)
    ensures c in s
  {
    var r := StripChars(s, strip);
    var a, b := LeadIn(s, strip), StripEnd(s, strip);
    var i :| 0 <= i < |r| && r[i] == c;
    assert s[a + i] == c;
  }

  /** `StripChars` is the only slice of `s` with stripped ends that leaves only
      characters of `cs` outside it. */
  lemma StripCharsUnique(s: string, cs: set<char>, a: int, b: int)
    requires 0 <= a <= b <= |s|
    requires forall i :: 0 <= i < a ==> s[i] in cs
    requires forall i :: b <= i < |s| ==> s[i] in cs
    requires a < b ==> s[a] !in cs && s[b - 1] !in cs
    ensures StripChars(s, cs) == s[a..b]
  {
    var a', b' := LeadIn(s, cs), StripEnd(s, cs);
    LeadInRun(s, cs);
    StripEndRun(s, cs);
    if a < b {
      assert s[a] !in cs && s[b - 1] !in cs;
      assert a' < b';
      assert s[a'] !in cs && s[b' - 1] !in cs;
      assert a' == a;
      assert b' == b;
    } else {
      assert a' == b';
    }
  }

  /** A string with no character of `cs` at either end is its own strip. */
  lemma StripCharsNothing(s: string, cs: set<char>)
    requires s != [] ==> s[0] !in cs && s[|s| - 1] !in cs
    ensures StripChars(s, cs) == s
  {
    StripCharsUnique(s, cs, 0, |s|);
    assert s[0..|s|] == s;
  }

  /** A leading character of `cs` is stripped away. */
  lemma StripConsPad(s: string, cs: set<char>)
    requires s != [] && s[0] in cs
    ensures StripChars(s, cs) == StripChars(s[1..], cs)
  {
    var u := s[1..];
    var c, d := LeadIn(u, cs), StripEnd(u, cs);
    assert LeadIn(s, cs) == 1 + c;
    assert s[1 + c..] == u[c..];
    assert StripEnd(s, cs) == 1 + d;
    assert s[1 + c..1 + d] == u[c..d];
  }

  /** Dropping the last character leaves the leading run of `cs` characters
      alone unless the whole string is such a run. */
  lemma {:induction false} LeadInInit(s: string, cs: set<char>)
    requires s != []
    ensures var u := s[..|s| - 1];
            LeadIn(s, cs) == if LeadIn(u, cs) < |u| then LeadIn(u, cs) else |u| + (if s[|u|] in cs then 1 else 0)
    decreases |s|
  {
    if |s| > 1 && s[0] in cs {
      assert s[1..][..|s| - 2] == s[..|s| - 1][1..];
      LeadInInit(s[1..], cs);
    }
  }

  /** A trailing character of `cs` is stripped away. */
  lemma StripSnocPad(s: string, cs: set<char>)
    requires s != [] && s[|s| - 1] in cs
    ensures StripChars(s, cs) == StripChars(s[..|s| - 1], cs)
  {
    var u := s[..|s| - 1];
    var a := LeadIn(u, cs);
    LeadInInit(s, cs);
    if a < |u| {
      var e := StripEnd(u, cs);
      assert StripEnd(s, cs) == e by {
        var v := s[a..];
        assert v[..|v| - 1] == u[a..];
      }
      assert u[a..e] == s[a..e];
    }
  }

  /** A leading run of `cs` characters is stripped away. */
  lemma {:induction false} StripLeadPadding(s: string, cs: set<char>, a: nat)
    requires a <= |s|
    requires forall i :: 0 <= i < a ==> s[i] in cs
    ensures StripChars(s[a..], cs) == StripChars(s, cs)
    decreases a
  {
    if a > 0 {
      var u := s[1..];
      assert StripChars(s, cs) == StripChars(u, cs) by {
        StripConsPad(s, cs);
      }
      assert StripChars(u[a - 1..], cs) == StripChars(u, cs) by {
        forall i | 0 <= i < a - 1 ensures u[i] in cs { assert u[i] == s[i + 1]; }
        StripLeadPadding(u, cs, a - 1);
      }
      assert u[a - 1..] == s[a..];
    } else {
      assert s[a..] == s;
    }
  }

  /** A trailing run of `cs` characters is stripped away. */
  lemma {:induction false} StripTrailPadding(s: string, cs: set<char>, b: nat)
    requires b <= |s|
    requires forall i :: b <= i < |s| ==> s[i] in cs
    ensures StripChars(s[..b], cs) == StripChars(s, cs)
    decreases |s| - b
  {
    if b < |s| {
      var u := s[..|s| - 1];
      assert StripChars(s, cs) == StripChars(u, cs) by {
        StripSnocPad(s, cs);
      }
      assert StripChars(u[..b], cs) == StripChars(u, cs) by {
        StripTrailPadding(u, cs, b);
      }
      assert u[..b] == s[..b];
    } else {
      assert s[..b] == s;
    }
  }

  /** Padding a slice with characters of `cs` on both sides does not change what
      stripping `cs` leaves. */
  lemma StripCharsPadded(s: string, cs: set<char>, a: int, b: int)
    requires 0 <= a <= b <= |s|
    requires forall i :: 0 <= i < a ==> s[i] in cs
    requires forall i :: b <= i < |s| ==> s[i] in cs
    ensures StripChars(s[a..b], cs) == StripChars(s, cs)
  {
    var head := s[..b];
    StripTrailPadding(s, cs, b);
    assert forall i :: 0 <= i < a ==> head[i] in cs by {
      forall i | 0 <= i < a ensures head[i] in cs { assert head[i] == s[i]; }
    }
    StripLeadPadding(head, cs, a);
    assert head[a..] == s[a..b];
  }

  // ---------- the characters outside a class ----------

  /** The characters of `s` that are not in `cs`, in order. */
  function Outside(s: string, cs: set<char>): string
    decreases |s|
  {
    if s == [] then [] else (if s[0] in cs then [] else [s[0]]) + Outside(s[1..], cs)
  }

  lemma {:induction false} OutsideAppend(x: string, y: string, cs: set<char>)
    ensures Outside(x + y, cs) == Outside(x, cs) + Outside(y, cs)
    decreases |x|
  {
    if x == [] {
      assert x + y == y;
    } else {
      assert (x + y)[0] == x[0];
      assert (x + y)[1..] == x[1..] + y;
      OutsideAppend(x[1..], y, cs);
    }
  }

  /** A string made only of `cs` characters has nothing outside `cs`. */
  lemma {:induction false} OutsideOfClass(x: string, cs: set<char>)
    requires forall i :: 0 <= i < |x| ==> x[i] in cs
    ensures Outside(x, cs) == []
    decreases |x|
  {
    if x != [] {
      assert forall i :: 0 <= i < |x[1..]| ==> x[1..][i] == x[i + 1];
      OutsideOfClass(x[1..], cs);
    }
  }

  /** Stripping `cs` removes only `cs` characters: everything else is kept, in order. */
  lemma StripKeepsOutside(s: string, cs: set<char>)
    ensures Outside(StripChars(s, cs), cs) == Outside(s, cs)
  {
    var a, b := LeadIn(s, cs), StripEnd(s, cs);
    var x, m, y := s[..a], s[a..b], s[b..];
    assert StripChars(s, cs) == m;
    assert Outside(x, cs) == [] by {
      LeadInRun(s, cs);
      OutsideOfClass(x, cs);
    }
    assert Outside(y, cs) == [] by {
      StripEndRun(s, cs);
      assert forall i :: 0 <= i < |y| ==> y[i] == s[b + i];
      OutsideOfClass(y, cs);
    }
    assert s == (x + m) + y;
    OutsideAppend(x + m, y, cs);
    OutsideAppend(x, m, cs);
  }

  // ---------- join ----------

  /** Python's `str.join(sep, parts)`. */
  function Join(parts: seq<string>, sep: string): string
  {
    if parts == [] then []
    else if |parts| == 1 then parts[0]
    else parts[0] + sep + Join(parts[1..], sep)
  }

  // ---------- replace ----------

  /** Python's `str.replace(pat, rep)` and Ruby's `gsub(pat, rep)` with a literal
      pattern: occurrences of `pat` found scanning left to right, without overlap,
      become `rep`. */
  function Replace(s: string, pat: string, rep: string): string
    requires pat != []
    decreases |s|
  {
    if |s| < |pat| then s
    else if s[..|pat|] == pat then rep + Replace(s[|pat|..], pat, rep)
    else [s[0]] + Replace(s[1..], pat, rep)
  }

  /** Replacing a pattern that does not occur changes nothing. */
  lemma {:induction false} ReplaceAbsent(s: string, pat: string, rep: string)
    requires pat != [] && !Occurs(pat, s)
    ensures Replace(s, pat, rep) == s
    decreases |s|
  {
    if |s| >= |pat| {
      assert !OccursAt(pat, s, 0);
      assert s[0..|pat|] == s[..|pat|];
      assert !Occurs(pat, s[1..]) by {
        forall i | OccursAt(pat, s[1..], i)
          ensures false
        {
          assert s[1..][i..i + |pat|] == s[i + 1..i + 1 + |pat|];
          assert OccursAt(pat, s, i + 1);
        }
      }
      ReplaceAbsent(s[1..], pat, rep);
    }
  }

  /** A string made of a leading `pat` and a rest free of `pat` loses exactly
      that prefix: this is how the scrapers drop label prefixes. */
  lemma ReplaceLeading(pat: string, t: string, rep: string)
    requires pat != [] && !Occurs(pat, t)
    ensures Replace(pat + t, pat, rep) == rep + t
  {
    assert (pat + t)[..|pat|] == pat;
    assert (pat + t)[|pat|..] == t;
    ReplaceAbsent(t, pat, rep);
  }

  /** A prefix holding no copy of the pattern's first character passes through
      unchanged: no occurrence can start inside it. */
  lemma {:induction false} ReplaceAfter(t: string, u: string, pat: string, rep: string)
    requires pat != [] && forall i :: 0 <= i < |t| ==> t[i] != pat[0]
    ensures Replace(t + u, pat, rep) == t + Replace(u, pat, rep)
    decreases |t|
  {
    var s := t + u;
    if t == [] {
      assert s == u;
    } else if |s| < |pat| {
      assert Replace(s, pat, rep) == s;
      assert Replace(u, pat, rep) == u;
    } else {
      assert s[0] == t[0];
      assert s[..|pat|] != pat by {
        assert s[..|pat|][0] == s[0];
      }
      assert Replace(s, pat, rep) == [s[0]] + Replace(s[1..], pat, rep);
      assert s[1..] == t[1..] + u;
      ReplaceAfter(t[1..], u, pat, rep);
      assert [t[0]] + t[1..] == t;
    }
  }

  /** Replacing one character by another is a character-by-character map. */
  lemma {:induction false} ReplaceChar(s: string, a: char, b: char)
    ensures |Replace(s, [a], [b])| == |s|
    ensures forall i :: 0 <= i < |s| ==> Replace(s, [a], [b])[i] == if s[i] == a then b else s[i]
    decreases |s|
  {
    if s != [] {
      ReplaceChar(s[1..], a, b);
      if s[..1] == [a] {
        assert s[1..] == s[|[a]|..];
      }
    }
  }

  // ---------- decimal digits ----------

  function DigitValue(c: char): nat
    requires IsDigit(c)
  {
    c as int - '0' as int
  }

  function DigitChar(d: nat): (c: char)
    requires d < 10
    ensures IsDigit(c) && DigitValue(c) == d
  {
    ('0' as int + d) as char
  }

  /** The value of a string of decimal digits, most significant first. */
  function DigitsValue(s: string): nat
    requires AllDigits(s)
  {
    if s == [] then 0 else 10 * DigitsValue(s[..|s| - 1]) + DigitValue(s[|s| - 1])
  }

  function Pow10(n: nat): (p: nat)
    ensures p >= 1
  {
    if n == 0 then 1 else 10 * Pow10(n - 1)
  }

  /** `n` written with exactly `width` decimal digits, zero-padded on the left,
      as `strftime`'s `%d`, `%m`, `%H` ... do. */
  function ZeroPad(n: nat, width: nat): (r: string)
    requires n < Pow10(width)
    ensures |r| == width && AllDigits(r) && DigitsValue(r) == n
  {
    if width == 0 then []
    else
      var r := ZeroPad(n / 10, width - 1) + [DigitChar(n % 10)];
      assert r[..|r| - 1] == ZeroPad(n / 10, width - 1);
      r
  }

  /** `n` in decimal without leading zeros. */
  function ShowNat(n: nat): (r: string)
    ensures r != [] && AllDigits(r) && DigitsValue(r) == n
    ensures r[0] == '0' ==> n == 0
  {
    if n < 10 then [DigitChar(n)]
    else
      var r := ShowNat(n / 10) + [DigitChar(n % 10)];
      assert r[..|r| - 1] == ShowNat(n / 10);
      r
  }
}
