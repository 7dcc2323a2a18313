/** scraper.py's text normalisers: `normalise_string`, `cache_item_id`, and the
    newline- and whitespace-collapsing substitutions applied to petition bodies. */
module Normalise {
  import opened Wrappers
  import opened Strings
  import opened Runs

  /** Membership in `allowed_chars` = `string.digits + string.ascii_letters + string.punctuation`. */
  predicate IsAllowed(c: char) { IsDigit(c) || IsAsciiLetter(c) || IsPunctuation(c) }

  /** Membership in `cache_chars` = `string.digits + string.ascii_letters`. */
  predicate IsCacheChar(c: char) { IsDigit(c) || IsAsciiLetter(c) }

  /** The characters of the pattern `(\n|\r)+`. */
  const LineBreaks: set<char> := {'\n', '\r'}

  const RightQuote: char := '\U{2019}'

  // ---------- newline and whitespace collapse ----------

  /** `regex_collapse_newline.sub('\n', s)`: every run of line-break characters
      becomes one `\n`, so no two line breaks remain adjacent. */
  function CollapseNewlines(s: string): (r: string)
    ensures NoAdjacent(r, LineBreaks)
    ensures Outside(r, LineBreaks) == Outside(s, LineBreaks)
    ensures Outside(r, Whitespace) == Outside(s, Whitespace)
  {
    CollapseRunsNoAdjacent(s, LineBreaks, 1, "\n");
    CollapseRunsKeepsOthers(s, LineBreaks, LineBreaks, 1, "\n");
    CollapseRunsKeepsOthers(s, LineBreaks, Whitespace, 1, "\n");
    CollapseRuns(s, LineBreaks, 1, "\n")
  }

  /** `regex_collapse_whitespace.sub(' ', s)` with the pattern `\s{2,}`: every run
      of two or more whitespace characters becomes one space, so no two whitespace
      characters remain adjacent. */
  function CollapseWhitespace(s: string): (r: string)
    ensures NoAdjacent(r, Whitespace)
    ensures Outside(r, Whitespace) == Outside(s, Whitespace)
  {
    CollapseRunsNoAdjacent(s, Whitespace, 2, " ");
    CollapseRunsKeepsOthers(s, Whitespace, Whitespace, 2, " ");
    CollapseRuns(s, Whitespace, 2, " ")
  }

  /** The stored `body` of a detail page: the container's text stripped, newline
      runs collapsed, whitespace runs collapsed, and stripped again. */
  function NormaliseBody(text: string): (r: string)
    ensures NoAdjacent(r, Whitespace)
    ensures r != [] ==> r[0] !in Whitespace && r[|r| - 1] !in Whitespace
    ensures Outside(r, Whitespace) == Outside(text, Whitespace)
  {
    var collapsed := CollapseWhitespace(CollapseNewlines(Strip(text)));
    StripKeepsNoAdjacent(collapsed, Whitespace, Whitespace);
    StripKeepsOutside(text, Whitespace);
    StripKeepsOutside(collapsed, Whitespace);
    Strip(collapsed)
  }

  /** The line-break runs of `a   b`, two newlines, ` c`. */
  lemma ExampleLines(lines: seq<string>)
    requires lines == ["a   b", "\n\n", " c"]
    ensures IsRuns(lines, LineBreaks) && Concat(lines) == "a   b\n\n c"
    ensures CollapseParts(lines, LineBreaks, 1, "\n") == "a   b\n c"
  {
    assert Uniform(lines[0], LineBreaks) && Uniform(lines[1], LineBreaks) && Uniform(lines[2], LineBreaks);
    assert Concat(lines[2..]) == " c";
    assert Concat(lines[1..]) == "\n\n c";
    assert CollapseParts(lines[2..], LineBreaks, 1, "\n") == " c";
    assert CollapseParts(lines[1..], LineBreaks, 1, "\n") == "\n c";
  }

  /** The newline substitution on `a   b`, two newlines, ` c`: the two newlines become one. */
  lemma CollapseNewlinesExample()
    ensures CollapseNewlines("a   b\n\n c") == "a   b\n c"
  {
    var lines := ["a   b", "\n\n", " c"];
    ExampleLines(lines);
    CollapseRunsOfRuns(lines, LineBreaks, 1, "\n");
  }

  /** The whitespace runs of `a   b`, a newline, ` c` (the text after the newline substitution). */
  lemma ExampleWords(words: seq<string>)
    requires words == ["a", "   ", "b", "\n ", "c"]
    ensures IsRuns(words, Whitespace) && Concat(words) == "a   b\n c"
  {
    assert Uniform(words[1], Whitespace) && Uniform(words[3], Whitespace);
    assert Concat(words[4..]) == "c";
    assert Concat(words[3..]) == "\n c";
    assert Concat(words[2..]) == "b\n c";
    assert Concat(words[1..]) == "   b\n c";
  }

  /** The runs of `a   b`, a newline, ` c`, each run of two or more whitespace
      characters replaced by one space. */
  lemma ExampleWordsCollapsed(words: seq<string>)
    requires words == ["a", "   ", "b", "\n ", "c"]
    ensures CollapseParts(words, Whitespace, 2, " ") == "a b c"
  {
    assert CollapseParts(words[4..], Whitespace, 2, " ") == "c";
    assert CollapseParts(words[3..], Whitespace, 2, " ") == " c";
    assert CollapseParts(words[2..], Whitespace, 2, " ") == "b c";
    assert CollapseParts(words[1..], Whitespace, 2, " ") == " b c";
  }

  /** The whitespace substitution on the result: the three spaces and the
      newline-space pair each become one space. */
  lemma CollapseWhitespaceExample()
    ensures CollapseWhitespace("a   b\n c") == "a b c"
  {
    var words := ["a", "   ", "b", "\n ", "c"];
    ExampleWords(words);
    ExampleWordsCollapsed(words);
    CollapseRunsOfRuns(words, Whitespace, 2, " ");
  }

  /** The two substitutions in the order the scraper applies them, newline runs
      first and whitespace runs second, turn `a   b`, two newlines and ` c` into
      `a b c`. */
  lemma CollapseExample()
    ensures CollapseWhitespace(CollapseNewlines("a   b\n\n c")) == "a b c"
  {
    CollapseNewlinesExample();
    CollapseWhitespaceExample();
  }

  /** `a   b`, two newlines, ` c` and `a b c` have no whitespace at their ends. */
  lemma ExampleEnds(s: string, r: string)
    requires s == "a   b\n\n c" && r == "a b c"
    ensures Strip(s) == s && Strip(r) == r
  {
    assert s[0] == 'a' && s[|s| - 1] == 'c';
    StripCharsNothing(s, Whitespace);
    assert r[0] == 'a' && r[|r| - 1] == 'c';
    StripCharsNothing(r, Whitespace);
  }

  /** The stored body of `a   b`, two newlines, ` c` is `a b c`. */
  lemma NormaliseBodyExample(s: string)
    requires s == "a   b\n\n c"
    ensures NormaliseBody(s) == "a b c"
  {
    var r := "a b c";
    ExampleEnds(s, r);
    CollapseExample();
  }

  // ---------- normalise_string ----------

  /** Every character not in `allowed_chars` becomes a space. */
  function BlankDisallowed(s: string): (r: string)
    ensures |r| == |s|
    ensures forall i :: 0 <= i < |s| ==> r[i] == if IsAllowed(s[i]) then s[i] else ' '
  {
    seq(|s|, i requires 0 <= i < |s| => if IsAllowed(s[i]) then s[i] else ' ')
  }

  /** `normalise_string(value)`: empty for `None` or `''`; otherwise `’` becomes
      `'`, line breaks become spaces, the text is stripped, every character outside
      `allowed_chars` becomes a space, and the result is stripped again. */
  function NormaliseString(value: Option<string>): (r: string)
    ensures value.None? || value.value == [] ==> r == []
    ensures forall i :: 0 <= i < |r| ==> IsAllowed(r[i]) || r[i] == ' '
    ensures r != [] ==> IsAllowed(r[0]) && IsAllowed(r[|r| - 1])
  {
    if value.None? || value.value == [] then []
    else
      var unbroken := Strip(Unquoted(value.value));
      StripBlankedShape(unbroken);
      Strip(BlankDisallowed(unbroken))
  }

  lemma StripBlankedShape(x: string)
    ensures var r := Strip(BlankDisallowed(x));
            (forall i :: 0 <= i < |r| ==> IsAllowed(r[i]) || r[i] == ' ') &&
            (r != [] ==> IsAllowed(r[0]) && IsAllowed(r[|r| - 1]))
  {
    var y := BlankDisallowed(x);
    var r := Strip(y);
    var a := LeadIn(y, Whitespace);
    assert r == y[a..StripEnd(y, Whitespace)];
    forall i | 0 <= i < |r|
      ensures IsAllowed(r[i]) || r[i] == ' '
    {
      assert r[i] == y[a + i];
    }
  }

  lemma WhitespaceNotAllowed(c: char)
    requires c in Whitespace
    ensures !IsAllowed(c)
  {
  }

  /** What `normalise_string` does to one character, taken on its own. */
  function CleanChar(c: char): char {
    if c == RightQuote then '\'' else if IsAllowed(c) then c else ' '
  }

  /** The three replacements `normalise_string` applies before its first strip. */
  function Unquoted(v: string): string {
    Replace(Replace(Replace(v, [RightQuote], "'"), "\n", " "), "\r", " ")
  }

  /** The replacements are one per-character map. */
  lemma UnquotedAt(v: string)
    ensures |Unquoted(v)| == |v|
    ensures forall i :: 0 <= i < |v| ==>
              Unquoted(v)[i] == (if v[i] == RightQuote then '\'' else if v[i] == '\n' || v[i] == '\r' then ' ' else v[i])
  {
    var x1 := Replace(v, [RightQuote], "'");
    var x2 := Replace(x1, "\n", " ");
    ReplaceChar(v, RightQuote, '\'');
    ReplaceChar(x1, '\n', ' ');
    ReplaceChar(x2, '\r', ' ');
  }

  /** Blanking after the replacements is `CleanChar` applied everywhere. */
  lemma BlankedIsClean(v: string)
    ensures BlankDisallowed(Unquoted(v)) == seq(|v|, i requires 0 <= i < |v| => CleanChar(v[i]))
  {
    UnquotedAt(v);
  }

  /** Stripping before blanking changes nothing once the result is stripped:
      whitespace is blanked to whitespace. */
  lemma BlankAfterStrip(x: string)
    ensures Strip(BlankDisallowed(Strip(x))) == Strip(BlankDisallowed(x))
  {
    var y := BlankDisallowed(x);
    var a, b := LeadIn(x, Whitespace), StripEnd(x, Whitespace);
    StripCharsIsSlice(x, Whitespace);
    assert BlankDisallowed(Strip(x)) == y[a..b];
    forall i | 0 <= i < a || b <= i < |y|
      ensures y[i] in Whitespace
    {
      WhitespaceNotAllowed(x[i]);
    }
    StripCharsPadded(y, Whitespace, a, b);
  }

  /** `normalise_string` is a per-character map followed by one strip: the
      intermediate strip and the separate line-break replacements change nothing
      beyond that. */
  lemma NormaliseStringIsCharMap(v: string)
    ensures NormaliseString(Some(v)) == Strip(seq(|v|, i requires 0 <= i < |v| => CleanChar(v[i])))
  {
    if v != [] {
      var x := Unquoted(v);
      assert NormaliseString(Some(v)) == Strip(BlankDisallowed(Strip(x)));
      BlankAfterStrip(x);
      BlankedIsClean(v);
    }
  }

  // ---------- cache_item_id ----------

  /** The subsequence of `s` made of ASCII digits and letters. */
  function KeepCacheChars(s: string): (r: string)
    ensures |r| <= |s|
    ensures forall i :: 0 <= i < |r| ==> IsCacheChar(r[i])
  {
    if s == [] then []
    else (if IsCacheChar(s[0]) then [s[0]] else []) + KeepCacheChars(s[1..])
  }

  /** `cache_item_id(url)`: keeps only digits and letters, then strips; a safe
      file name, with no `/`, `:`, `?` or `=` left. */
  function CacheItemId(url: string): (r: string)
    ensures forall i :: 0 <= i < |r| ==> IsCacheChar(r[i])
    ensures '/' !in r && ':' !in r && '?' !in r && '=' !in r
  {
    var kept := KeepCacheChars(url);
    assert kept != [] ==> IsCacheChar(kept[0]) && IsCacheChar(kept[|kept| - 1]);
    StripCharsNothing(kept, Whitespace);
    Strip(kept)
  }

  /** The trailing strip never removes anything: the id is exactly the digits and
      letters of the URL, in order. */
  lemma CacheItemIdIsFilter(url: string)
    ensures CacheItemId(url) == KeepCacheChars(url)
  {
    var kept := KeepCacheChars(url);
    if kept != [] {
      assert IsCacheChar(kept[0]) && IsCacheChar(kept[|kept| - 1]);
    }
    StripCharsNothing(kept, Whitespace);
  }

  /** Filtering splits over concatenation, so the id keeps every digit and
      letter of the URL in its original order. */
  lemma CacheItemIdAppend(x: string, y: string)
    ensures CacheItemId(x + y) == CacheItemId(x) + CacheItemId(y)
  {
    KeepCacheCharsAppend(x, y);
    CacheItemIdIsFilter(x + y);
    CacheItemIdIsFilter(x);
    CacheItemIdIsFilter(y);
  }

  lemma {:induction false} KeepCacheCharsAppend(x: string, y: string)
    ensures KeepCacheChars(x + y) == KeepCacheChars(x) + KeepCacheChars(y)
    decreases |x|
  {
    if x != [] {
      assert (x + y)[1..] == x[1..] + y;
      KeepCacheCharsAppend(x[1..], y);
    } else {
      assert x + y == y;
    }
  }

  /** A string of digits and letters is its own id. */
  lemma {:induction false} CacheItemIdOfCacheChars(s: string)
    requires forall i :: 0 <= i < |s| ==> IsCacheChar(s[i])
    ensures CacheItemId(s) == s
    decreases |s|
  {
    CacheItemIdIsFilter(s);
    if s != [] {
      CacheItemIdOfCacheChars(s[1..]);
      CacheItemIdIsFilter(s[1..]);
      assert [s[0]] + s[1..] == s;
    }
  }

  /** Deriving an id from an id changes nothing. */
  lemma CacheItemIdIdempotent(url: string)
    ensures CacheItemId(CacheItemId(url)) == CacheItemId(url)
  {
    CacheItemIdOfCacheChars(CacheItemId(url));
  }
}
