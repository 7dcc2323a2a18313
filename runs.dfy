/** Runs of characters of one class: scraper.py's `custom_split` and the
    run-collapsing regular-expression substitutions built on the same idea. */
module Runs {
  import opened Strings

  /** Every character of `s` has the same membership in `chars` as the first. */
  predicate Uniform(s: string, chars: set<char>) {
    forall i :: 0 <= i < |s| ==> (s[i] in chars) == (s[0] in chars)
  }

  /** `parts` are non-empty runs, each wholly inside or wholly outside `chars`,
      and neighbouring runs lie on opposite sides. */
  predicate IsRuns(parts: seq<string>, chars: set<char>) {
    (forall i :: 0 <= i < |parts| ==> parts[i] != [] && Uniform(parts[i], chars)) &&
    (forall i :: 0 < i < |parts| ==> (parts[i - 1][0] in chars) != (parts[i][0] in chars))
  }

  function Concat(parts: seq<string>): string {
    if parts == [] then [] else parts[0] + Concat(parts[1..])
  }

  /** scraper.py's `custom_split(value, chars)`: `itertools.groupby` keyed on
      whether a character is in `chars`, each group joined back into a string.
      The result partitions `v` into its maximal runs. */
  function CustomSplit(v: string, chars: set<char>): (parts: seq<string>)
    ensures Concat(parts) == v
    ensures IsRuns(parts, chars)
    ensures v != [] ==> parts != [] && parts[0][0] == v[0]
  {
    if v == [] then []
    else
      var rest := CustomSplit(v[1..], chars);
      if rest != [] && (v[0] in chars) == (rest[0][0] in chars) then
        var parts := [[v[0]] + rest[0]] + rest[1..];
        assert Concat(rest) == rest[0] + Concat(rest[1..]);
        assert parts[1..] == rest[1..];
        parts
      else
        var parts := [[v[0]]] + rest;
        assert parts[1..] == rest;
        parts
  }

  /** A non-empty string of one class is a single run. */
  lemma {:induction false} UniformIsOneRun(b: string, chars: set<char>)
    requires b != [] && Uniform(b, chars)
    ensures CustomSplit(b, chars) == [b]
    decreases |b|
  {
    if |b| > 1 {
      assert Uniform(b[1..], chars) by {
        forall i | 0 <= i < |b[1..]|
          ensures (b[1..][i] in chars) == (b[1..][0] in chars)
        {
          assert b[1..][i] == b[i + 1];
        }
      }
      UniformIsOneRun(b[1..], chars);
      assert b[1..][0] == b[1];
      assert [b[0]] + b[1..] == b;
    } else {
      assert b[1..] == [];
      assert CustomSplit(b[1..], chars) == [];
      assert [b[0]] == b;
    }
  }

  /** A non-empty tail of one class, after a text that is empty or ends on the
      other side of the set, is the last run; a non-empty text before it adds at
      least one run of its own. */
  lemma {:induction false} LastRunIsTail(a: string, b: string, chars: set<char>)
    requires b != [] && Uniform(b, chars)
    requires a == [] || (a[|a| - 1] in chars) != (b[0] in chars)
    ensures var parts := CustomSplit(a + b, chars);
            parts != [] && parts[|parts| - 1] == b && (a != [] ==> |parts| >= 2)
    decreases |a|
  {
    var v := a + b;
    if a == [] {
      assert v == b;
      UniformIsOneRun(b, chars);
    } else {
      assert v[0] == a[0];
      assert v[1..] == a[1..] + b;
      var rest := CustomSplit(v[1..], chars);
      if |a| == 1 {
        assert v[1..] == b;
        UniformIsOneRun(b, chars);
        assert rest == [b];
        assert CustomSplit(v, chars) == [[v[0]]] + rest;
      } else {
        LastRunIsTail(a[1..], b, chars);
        assert |rest| >= 2 && rest[|rest| - 1] == b;
      }
    }
  }

  /** Dropping the first run leaves runs. */
  lemma IsRunsTail(parts: seq<string>, chars: set<char>)
    requires IsRuns(parts, chars) && parts != []
    ensures IsRuns(parts[1..], chars)
  {
    forall i | 0 < i < |parts[1..]|
      ensures (parts[1..][i - 1][0] in chars) != (parts[1..][i][0] in chars)
    {
      assert parts[1..][i - 1] == parts[i] && parts[1..][i] == parts[i + 1];
    }
  }

  /** A leading run of one class, followed by text that starts in the other
      class, is split off whole as the first part. */
  lemma {:induction false} CustomSplitPrepend(a: string, b: string, chars: set<char>)
    requires a != [] && Uniform(a, chars)
    requires b != [] ==> (b[0] in chars) != (a[0] in chars)
    ensures CustomSplit(a + b, chars) == [a] + CustomSplit(b, chars)
    decreases |a|
  {
    var v := a + b;
    assert v[0] == a[0];
    assert v[1..] == a[1..] + b;
    if |a| == 1 {
      assert a[1..] + b == b;
      assert [a[0]] == a;
    } else {
      var t := a[1..];
      assert Uniform(t, chars) by {
        forall i | 0 <= i < |t|
          ensures (t[i] in chars) == (t[0] in chars)
        {
          assert t[i] == a[i + 1] && t[0] == a[1];
        }
      }
      CustomSplitPrepend(t, b, chars);
      var rest := CustomSplit(v[1..], chars);
      assert rest == [t] + CustomSplit(b, chars);
      assert rest[0][0] == a[1];
      assert [a[0]] + t == a;
      assert rest[1..] == CustomSplit(b, chars);
    }
  }

  /** The decomposition into runs is unique: whatever runs are concatenated,
      `custom_split` gives exactly those runs back. */
  lemma {:induction false} CustomSplitOfRuns(parts: seq<string>, chars: set<char>)
    requires IsRuns(parts, chars)
    ensures CustomSplit(Concat(parts), chars) == parts
    decreases |parts|
  {
    if parts != [] {
      var tail := parts[1..];
      IsRunsTail(parts, chars);
      CustomSplitOfRuns(tail, chars);
      if tail != [] {
        assert Concat(tail) == tail[0] + Concat(tail[1..]);
        assert Concat(tail)[0] == tail[0][0] == parts[1][0];
      }
      CustomSplitPrepend(parts[0], Concat(tail), chars);
      assert [parts[0]] + tail == parts;
    }
  }

  // ---------- collapsing runs ----------

  /** What one run becomes: a run of `cls` characters at least `minLen` long is
      replaced by `rep`; any other run is kept. */
  function CollapseRun(g: string, cls: set<char>, minLen: nat, rep: string): string {
    if g != [] && g[0] in cls && |g| >= minLen then rep else g
  }

  function CollapseParts(parts: seq<string>, cls: set<char>, minLen: nat, rep: string): string {
    if parts == [] then []
    else CollapseRun(parts[0], cls, minLen, rep) + CollapseParts(parts[1..], cls, minLen, rep)
  }

  /** `re.sub(p, rep, s)` (or Ruby's `gsub`) for a pattern `p` that matches any run
      of at least `minLen` characters of `cls`: leftmost-longest matching replaces
      exactly the maximal runs of that length. */
  function CollapseRuns(s: string, cls: set<char>, minLen: nat, rep: string): string {
    CollapseParts(CustomSplit(s, cls), cls, minLen, rep)
  }

  /** When the replacement is one character of the class and runs of length two
      or more are collapsed, no two class characters remain side by side, and the
      first character keeps its class. */
  lemma {:induction false} CollapsePartsShape(parts: seq<string>, cls: set<char>, minLen: nat, rep: string)
    requires IsRuns(parts, cls)
    requires 1 <= minLen <= 2 && |rep| == 1 && rep[0] in cls
    ensures var r := CollapseParts(parts, cls, minLen, rep);
            NoAdjacent(r, cls) && (parts == [] <==> r == []) &&
            (parts != [] ==> (r[0] in cls) == (parts[0][0] in cls))
  {
    if parts != [] {
      var g := CollapseRun(parts[0], cls, minLen, rep);
      var tail := CollapseParts(parts[1..], cls, minLen, rep);
      IsRunsTail(parts, cls);
      CollapsePartsShape(parts[1..], cls, minLen, rep);
      if parts[0][0] in cls {
        assert |g| == 1 && g[0] in cls;
      } else {
        assert g == parts[0];
        assert forall i :: 0 <= i < |g| ==> g[i] !in cls;
      }
      assert |parts| > 1 ==> parts[1..][0] == parts[1];
      NoAdjacentAppend(g, tail, cls);
    }
  }

  /** The collapse substitution leaves no two `cls` characters adjacent. */
  lemma CollapseRunsNoAdjacent(s: string, cls: set<char>, minLen: nat, rep: string)
    requires 1 <= minLen <= 2 && |rep| == 1 && rep[0] in cls
    ensures NoAdjacent(CollapseRuns(s, cls, minLen, rep), cls)
  {
    CollapsePartsShape(CustomSplit(s, cls), cls, minLen, rep);
  }

  /** The substitution works run by run: for any decomposition of `s` into
      maximal runs, each run of the class at least `minLen` long becomes `rep`
      and every other run, shorter class runs included, is kept as it is. */
  lemma CollapseRunsOfRuns(parts: seq<string>, cls: set<char>, minLen: nat, rep: string)
    requires IsRuns(parts, cls)
    ensures CollapseRuns(Concat(parts), cls, minLen, rep) == CollapseParts(parts, cls, minLen, rep)
    ensures CollapseRuns(Concat(parts), cls, minLen, rep) ==
              if parts == [] then []
              else CollapseRun(parts[0], cls, minLen, rep) + CollapseRuns(Concat(parts[1..]), cls, minLen, rep)
  {
    CustomSplitOfRuns(parts, cls);
    if parts != [] {
      IsRunsTail(parts, cls);
      CustomSplitOfRuns(parts[1..], cls);
    }
  }

  /** When the replacement is made of class characters, the characters outside
      the class, or outside any wider class `ds`, are all kept, in order. */
  lemma {:induction false} CollapsePartsKeepsOthers(parts: seq<string>, cls: set<char>, ds: set<char>, minLen: nat, rep: string)
    requires IsRuns(parts, cls) && cls <= ds
    requires forall i :: 0 <= i < |rep| ==> rep[i] in cls
    ensures Outside(CollapseParts(parts, cls, minLen, rep), ds) == Outside(Concat(parts), ds)
    decreases |parts|
  {
    if parts != [] {
      var g := parts[0];
      IsRunsTail(parts, cls);
      CollapsePartsKeepsOthers(parts[1..], cls, ds, minLen, rep);
      OutsideAppend(CollapseRun(g, cls, minLen, rep), CollapseParts(parts[1..], cls, minLen, rep), ds);
      OutsideAppend(g, Concat(parts[1..]), ds);
      if g[0] in cls && |g| >= minLen {
        OutsideOfClass(rep, ds);
        OutsideOfClass(g, ds);
      }
    }
  }

  /** The collapse substitution keeps every character outside the class (or
      outside any wider class), in order. */
  lemma CollapseRunsKeepsOthers(s: string, cls: set<char>, ds: set<char>, minLen: nat, rep: string)
    requires cls <= ds
    requires forall i :: 0 <= i < |rep| ==> rep[i] in cls
    ensures Outside(CollapseRuns(s, cls, minLen, rep), ds) == Outside(s, ds)
  {
    CollapsePartsKeepsOthers(CustomSplit(s, cls), cls, ds, minLen, rep);
  }

  /** `sep.join(parts)` only adds separators: when the separator is made of
      `cs` characters, the characters outside `cs` are those of the parts, in
      order. */
  lemma {:induction false} JoinKeepsOthers(parts: seq<string>, sep: string, cs: set<char>)
    requires forall i :: 0 <= i < |sep| ==> sep[i] in cs
    ensures Outside(Join(parts, sep), cs) == Outside(Concat(parts), cs)
    decreases |parts|
  {
    if |parts| == 1 {
      assert Concat(parts[1..]) == [];
      assert Concat(parts) == parts[0];
    } else if |parts| > 1 {
      var rest := parts[1..];
      JoinKeepsOthers(rest, sep, cs);
      OutsideOfClass(sep, cs);
      OutsideAppend(parts[0] + sep, Join(rest, sep), cs);
      OutsideAppend(parts[0], sep, cs);
      OutsideAppend(parts[0], Concat(rest), cs);
    }
  }
}
