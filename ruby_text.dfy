/** The Ruby string operations petitions.rb relies on: ActiveSupport's `squish`,
    `String#to_i`, `split('-')[0]` and the `PetNum=` scan. */
module RubyText {
  import opened Wrappers
  import opened Strings
  import opened Runs

  /** `squish`: every run of whitespace becomes one space, then the ends are
      stripped. */
  function Squish(s: string): (r: string)
    ensures NoAdjacent(r, Whitespace)
    ensures r == [] || (r[0] !in Whitespace && r[|r| - 1] !in Whitespace)
  {
    var collapsed := CollapseRuns(s, Whitespace, 1, " ");
    CollapseRunsNoAdjacent(s, Whitespace, 1, " ");
    StripKeepsNoAdjacent(collapsed, Whitespace, Whitespace);
    Strip(collapsed)
  }

  /** `squish` changes whitespace only: every other character of the text
      survives, in order, and nothing else is added. */
  lemma SquishKeepsOutside(s: string)
    ensures Outside(Squish(s), Whitespace) == Outside(s, Whitespace)
  {
    var collapsed := CollapseRuns(s, Whitespace, 1, " ");
    CollapseRunsKeepsOthers(s, Whitespace, Whitespace, 1, " ");
    StripKeepsOutside(collapsed, Whitespace);
  }

  // ---------- to_i ----------

  /** The digits of the numeral at the start of `t`, as `to_i` reads it: decimal
      digits, where one underscore may stand between two digits. */
  function NumeralDigits(t: string): (d: string)
    ensures AllDigits(d) && |d| <= |t|
    ensures d != [] <==> t != [] && IsDigit(t[0])
    decreases |t|
  {
    if t == [] || !IsDigit(t[0]) then []
    else if |t| >= 3 && t[1] == '_' && IsDigit(t[2]) then [t[0]] + NumeralDigits(t[2..])
    else [t[0]] + NumeralDigits(t[1..])
  }

  /** `String#to_i`: leading whitespace is skipped, an optional sign is read, then
      the numeral; text with no numeral there is 0. */
  function RubyToI(s: string): int {
    var t := s[LeadIn(s, Whitespace)..];
    if t != [] && t[0] == '-' then -(DigitsValue(NumeralDigits(t[1..])) as int)
    else if t != [] && t[0] == '+' then DigitsValue(NumeralDigits(t[1..]))
    else DigitsValue(NumeralDigits(t))
  }

  /** Text that cannot continue a numeral. */
  predicate EndsNumeral(rest: string) {
    rest == [] || !(IsDigit(rest[0]) || (rest[0] == '_' && |rest| > 1 && IsDigit(rest[1])))
  }

  /** A string of digits followed by text that cannot continue it is read as
      exactly those digits. */
  lemma {:induction false} NumeralOfDigits(d: string, rest: string)
    requires AllDigits(d) && EndsNumeral(rest)
    ensures NumeralDigits(d + rest) == d
    decreases |d|
  {
    if d != [] {
      var t := d + rest;
      assert t[0] == d[0];
      assert t[1..] == d[1..] + rest;
      if |d| >= 2 {
        assert t[1] == d[1];
      } else {
        assert t[1..] == rest;
      }
      NumeralOfDigits(d[1..], rest);
      assert [d[0]] + d[1..] == d;
    } else {
      assert d + rest == rest;
    }
  }

  /** Digit groups written with one underscore between neighbours, as in `1_000`. */
  function Underscored(groups: seq<string>): string
    requires groups != []
  {
    if |groups| == 1 then groups[0] else groups[0] + "_" + Underscored(groups[1..])
  }

  /** Every group is a non-empty run of digits. */
  predicate DigitGroups(groups: seq<string>) {
    forall k :: 0 <= k < |groups| ==> groups[k] != [] && AllDigits(groups[k])
  }

  /** A single underscore between two digits is skipped. */
  lemma {:induction false} NumeralSkipsUnderscore(d: string, u: string)
    requires d != [] && AllDigits(d) && u != [] && IsDigit(u[0])
    ensures NumeralDigits(d + "_" + u) == d + NumeralDigits(u)
    decreases |d|
  {
    var t := d + "_" + u;
    assert t[0] == d[0];
    if |d| == 1 {
      assert t[1] == '_' && t[2] == u[0];
      assert t[2..] == u;
    } else {
      assert t[1] == d[1];
      assert t[1..] == d[1..] + "_" + u;
      NumeralSkipsUnderscore(d[1..], u);
      assert [d[0]] + (d[1..] + NumeralDigits(u)) == d + NumeralDigits(u);
    }
  }

  /** Underscored digit groups start with a digit. */
  lemma UnderscoredStartsWithDigit(groups: seq<string>)
    requires groups != [] && DigitGroups(groups)
    ensures Underscored(groups) != [] && IsDigit(Underscored(groups)[0])
  {
    var g := groups[0];
    assert g != [] && AllDigits(g);
    if |groups| > 1 {
      assert Underscored(groups) == g + ("_" + Underscored(groups[1..]));
    }
  }

  /** Peeling the first group off the underscored text. */
  lemma UnderscoredCons(groups: seq<string>, rest: string)
    requires |groups| > 1
    ensures Underscored(groups) + rest == groups[0] + "_" + (Underscored(groups[1..]) + rest)
  {
  }

  /** `to_i` reads digit groups separated by single underscores as the digits
      with the underscores removed: `1_000` is read as `1000`. */
  lemma {:induction false} UnderscoredNumeral(groups: seq<string>, rest: string)
    requires groups != [] && DigitGroups(groups) && EndsNumeral(rest)
    ensures NumeralDigits(Underscored(groups) + rest) == Concat(groups)
    decreases |groups|
  {
    var g := groups[0];
    if |groups| == 1 {
      NumeralOfDigits(g, rest);
      assert Concat(groups[1..]) == [];
      assert g + [] == g;
    } else {
      var tail := groups[1..];
      assert DigitGroups(tail) by {
        forall k | 0 <= k < |tail| ensures tail[k] != [] && AllDigits(tail[k]) {
          assert tail[k] == groups[k + 1];
        }
      }
      var u := Underscored(tail) + rest;
      UnderscoredNumeral(tail, rest);
      UnderscoredStartsWithDigit(tail);
      UnderscoredCons(groups, rest);
      NumeralSkipsUnderscore(g, u);
    }
  }

  /** `"1_000".to_i` is 1000. */
  lemma UnderscoreExample(s: string)
    requires s == "1_000"
    ensures RubyToI(s) == 1000
  {
    var groups := ["1", "000"];
    assert DigitGroups(groups);
    assert Underscored(groups) + [] == s;
    UnderscoredNumeral(groups, []);
    assert Concat(groups) == "1000";
    assert LeadIn(s, Whitespace) == 0;
    var v := Concat(groups);
    assert v[..1] == "1" && v[..2] == "10" && v[..3] == "100" && v[..4] == v;
    assert DigitsValue(v[..1]) == 1 by { assert v[..1][..0] == []; }
    assert DigitsValue(v[..2]) == 10 by { assert v[..2][..1] == v[..1]; }
    assert DigitsValue(v[..3]) == 100 by { assert v[..3][..2] == v[..2]; }
    assert DigitsValue(v) == 1000 by { assert v[..3] == v[..|v| - 1]; }
  }

  /** A doubled underscore ends the numeral: `1__000` is read as `1`. */
  lemma DoubledUnderscoreStops(d: string, rest: string)
    requires AllDigits(d)
    ensures NumeralDigits(d + "__" + rest) == d
  {
    var r := "__" + rest;
    assert r[0] == '_' && r[1] == '_';
    NumeralOfDigits(d, r);
    assert d + "__" + rest == d + r;
  }

  /** Leading whitespace does not change what `to_i` reads. */
  lemma {:induction false} LeadInAfterWhitespace(w: string, s: string)
    requires forall i :: 0 <= i < |w| ==> w[i] in Whitespace
    requires s != [] ==> s[0] !in Whitespace
    ensures LeadIn(w + s, Whitespace) == |w|
    decreases |w|
  {
    if w == [] {
      assert w + s == s;
    } else {
      assert (w + s)[0] == w[0];
      assert (w + s)[1..] == w[1..] + s;
      LeadInAfterWhitespace(w[1..], s);
    }
  }

  /** `to_i` reads back what `ShowNat` writes, after leading whitespace and
      before whatever cannot continue the numeral. */
  lemma RubyToIShowNat(w: string, n: nat, rest: string)
    requires forall i :: 0 <= i < |w| ==> w[i] in Whitespace
    requires EndsNumeral(rest)
    ensures RubyToI(w + ShowNat(n) + rest) == n
  {
    var d := ShowNat(n);
    var s := w + d + rest;
    assert NumeralDigits(d + rest) == d by {
      NumeralOfDigits(d, rest);
    }
    assert s[LeadIn(s, Whitespace)..] == d + rest by {
      assert s == w + (d + rest);
      LeadInAfterWhitespace(w, d + rest);
    }
    assert (d + rest)[0] == d[0] && IsDigit(d[0]);
  }

  /** The same for a negative number. */
  lemma RubyToINegative(w: string, n: nat, rest: string)
    requires forall i :: 0 <= i < |w| ==> w[i] in Whitespace
    requires EndsNumeral(rest)
    ensures RubyToI(w + "-" + ShowNat(n) + rest) == -(n as int)
  {
    var d := ShowNat(n);
    var u := d + rest;
    var v := ['-'] + u;
    assert w + "-" + d + rest == w + v;
    assert NumeralDigits(u) == d by {
      NumeralOfDigits(d, rest);
    }
    assert LeadIn(w + v, Whitespace) == |w| by {
      LeadInAfterWhitespace(w, v);
    }
    assert (w + v)[|w|..] == v;
    assert v[1..] == u;
  }

  /** Text whose first non-whitespace character is neither a sign nor a digit
      reads as 0. */
  lemma RubyToINoNumeral(s: string)
    requires var t := s[LeadIn(s, Whitespace)..]; t == [] || (!IsDigit(t[0]) && t[0] != '-' && t[0] != '+')
    ensures RubyToI(s) == 0
  {
  }

  // ---------- split('-')[0] ----------

  /** `s.split('-')[0]`, read as the text before the first `-`. Where Ruby's
      `split` gives no first field (an empty string, or only dashes) the field
      is `nil`, whose `to_i` is 0, the same as `to_i` of the empty text
      returned here. */
  function BeforeDash(s: string): (r: string)
    ensures |r| <= |s| && r == s[..|r|]
    ensures forall i :: 0 <= i < |r| ==> r[i] != '-'
    ensures |r| < |s| ==> s[|r|] == '-'
    decreases |s|
  {
    if s == [] || s[0] == '-' then [] else [s[0]] + BeforeDash(s[1..])
  }

  /** The reference cell `123-Title` has reference number 123. */
  lemma ReferenceBeforeDash(n: nat, title: string)
    ensures RubyToI(BeforeDash(ShowNat(n) + "-" + title)) == n
  {
    var d := ShowNat(n);
    var s := d + "-" + title;
    assert BeforeDash(s) == d by {
      var r := BeforeDash(s);
      assert s[..|d|] == d && s[|d|] == '-';
      assert r == s[..|r|];
    }
    RubyToIShowNat([], n, []);
    assert [] + d + [] == d;
  }

  // ---------- scan(/PetNum=(\d+)/) ----------

  const PetNumTag: string := "PetNum="

  /** The leading decimal digits of `t`. */
  function DigitPrefix(t: string): (d: string)
    ensures |d| <= |t| && d == t[..|d|] && AllDigits(d)
    ensures |d| < |t| ==> !IsDigit(t[|d|])
    decreases |t|
  {
    if t == [] || !IsDigit(t[0]) then [] else [t[0]] + DigitPrefix(t[1..])
  }

  lemma OccursShift(x: string, s: string)
    requires s != []
    ensures Occurs(x, s[1..]) ==> Occurs(x, s)
  {
    if Occurs(x, s[1..]) {
      var i :| 0 <= i <= |s[1..]| && OccursAt(x, s[1..], i);
      assert s[1..][i..i + |x|] == s[i + 1..i + 1 + |x|];
      assert OccursAt(x, s, i + 1);
    }
  }

  /** A match of `/PetNum=(\d+)/` starts at `i`: the tag, then a digit. */
  predicate TagAt(s: string, i: int) {
    0 <= i && i + |PetNumTag| < |s| && s[i..i + |PetNumTag|] == PetNumTag && IsDigit(s[i + |PetNumTag|])
  }

  /** Dropping the first character moves every match one place left. */
  lemma TagAtShift(s: string, i: nat)
    requires s != []
    ensures TagAt(s[1..], i) == TagAt(s, i + 1)
  {
    if i + |PetNumTag| < |s| - 1 {
      assert s[1..][i..i + |PetNumTag|] == s[i + 1..i + 1 + |PetNumTag|];
      assert s[1..][i + |PetNumTag|] == s[i + 1 + |PetNumTag|];
    }
  }

  /** `s.scan(/PetNum=(\d+)/).first.first`: the digits after the leftmost
      `PetNum=` that is followed by a digit, or `nil` when there is none. */
  function FindPetNum(s: string): (r: Option<string>)
    ensures r.Some? ==> r.value != [] && AllDigits(r.value) && Occurs(PetNumTag + r.value, s)
    ensures r.None? <==> forall i :: 0 <= i < |s| ==> !TagAt(s, i)
    ensures r.Some? ==> exists i :: 0 <= i < |s| && TagAt(s, i) && (forall j :: 0 <= j < i ==> !TagAt(s, j)) &&
                                   r.value == DigitPrefix(s[i + |PetNumTag|..])
    decreases |s|
  {
    if |s| <= |PetNumTag| then None
    else if s[..|PetNumTag|] == PetNumTag && IsDigit(s[|PetNumTag|]) then
      var d := DigitPrefix(s[|PetNumTag|..]);
      assert s[0..|PetNumTag + d|] == PetNumTag + d;
      assert OccursAt(PetNumTag + d, s, 0);
      assert TagAt(s, 0);
      Some(d)
    else
      var later := FindPetNum(s[1..]);
      assert !TagAt(s, 0);
      assert forall i :: 0 <= i < |s| - 1 ==> TagAt(s[1..], i) == TagAt(s, i + 1) by {
        forall i | 0 <= i < |s| - 1 ensures TagAt(s[1..], i) == TagAt(s, i + 1) { TagAtShift(s, i); }
      }
      assert forall i :: 0 <= i < |s| && TagAt(s, i) ==> i > 0 && TagAt(s[1..], i - 1);
      if later.Some? then
        OccursShift(PetNumTag + later.value, s);
        var k :| 0 <= k < |s| - 1 && TagAt(s[1..], k) && (forall j :: 0 <= j < k ==> !TagAt(s[1..], j)) &&
                 later.value == DigitPrefix(s[1..][k + |PetNumTag|..]);
        assert s[1..][k + |PetNumTag|..] == s[k + 1 + |PetNumTag|..];
        assert forall j :: 0 <= j < k + 1 ==> !TagAt(s, j);
        later
      else later
  }

  /** When the leftmost match starts at `k`, the scan gives the digits there. */
  lemma FindPetNumAt(s: string, k: nat)
    requires TagAt(s, k) && forall j :: 0 <= j < k ==> !TagAt(s, j)
    ensures FindPetNum(s) == Some(DigitPrefix(s[k + |PetNumTag|..]))
  {
    var i :| 0 <= i < |s| && TagAt(s, i) && (forall j :: 0 <= j < i ==> !TagAt(s, j)) &&
             FindPetNum(s).value == DigitPrefix(s[i + |PetNumTag|..]);
    assert i == k;
  }

  /** The tag followed by a numeral is a match where the tag starts. */
  lemma TagBeforeDigits(p: string, d: string, rest: string)
    requires d != [] && IsDigit(d[0])
    ensures TagAt(p + PetNumTag + d + rest, |p|)
    ensures (p + PetNumTag + d + rest)[|p| + |PetNumTag|..] == d + rest
  {
    var s := p + PetNumTag + d + rest;
    assert s == (p + PetNumTag) + (d + rest);
    assert s[|p|..|p| + |PetNumTag|] == PetNumTag;
    assert s[|p| + |PetNumTag|] == d[0];
  }

  /** An href whose first match of the pattern is `PetNum=` and the numeral of
      `n` gives that numeral: the text before it holds no match, and the digits
      end at the first character that is not one. */
  lemma FindPetNumAfter(p: string, n: nat, rest: string)
    requires forall i :: 0 <= i < |p| ==> !TagAt(p + PetNumTag + ShowNat(n) + rest, i)
    requires rest == [] || !IsDigit(rest[0])
    ensures FindPetNum(p + PetNumTag + ShowNat(n) + rest) == Some(ShowNat(n))
  {
    var d := ShowNat(n);
    TagBeforeDigits(p, d, rest);
    FindPetNumAt(p + PetNumTag + d + rest, |p|);
    DigitPrefixOfDigits(d, rest);
  }

  lemma {:induction false} DigitPrefixOfDigits(d: string, rest: string)
    requires AllDigits(d) && (rest == [] || !IsDigit(rest[0]))
    ensures DigitPrefix(d + rest) == d
    decreases |d|
  {
    if d == [] {
      assert d + rest == rest;
    } else {
      assert (d + rest)[0] == d[0];
      assert (d + rest)[1..] == d[1..] + rest;
      DigitPrefixOfDigits(d[1..], rest);
      assert [d[0]] + d[1..] == d;
    }
  }
}
