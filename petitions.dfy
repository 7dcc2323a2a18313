/** petitions.rb: the older parser of the Parliament's petition pages, over the
    cell texts its CSS queries return. */
module Petitions {
  import opened Wrappers
  import opened Strings
  import opened RubyText
  import opened Traversal

  /** The exception petitions.rb raises when a query it indexes finds nothing:
      a method called on `nil`. */
  datatype RubyError = NoMethodError

  // ---------- get_petitions / parse_list_row ----------

  /** The hash `parse_list_row` returns. */
  datatype ListRow = ListRow(
    referenceName: string,
    referenceNum: int,
    subject: string,
    signatures: int,
    closedAt: string)

  const MidnightSuffix: string := " 00:00:00 +10:00"

  /** `parse_list_row(tr)` over the texts of the row's `td` cells: no cells means
      `nil`; fewer than four cells raise on the missing one. */
  function ParseListRow(tds: seq<string>): (r: Result<Option<ListRow>, RubyError>)
    ensures r == Success(None) <==> tds == []
    ensures r.Failure? <==> 0 < |tds| < 4
    ensures r.Success? && r.value.Some? ==>
              var row := r.value.value;
              row.referenceName == tds[0] && row.subject == tds[1] &&
              row.referenceNum == RubyToI(BeforeDash(tds[0])) && row.signatures == RubyToI(tds[2]) &&
              |row.closedAt| == |tds[3]| + |MidnightSuffix| &&
              row.closedAt[..|tds[3]|] == tds[3] && row.closedAt[|tds[3]|..] == MidnightSuffix
  {
    if |tds| < 1 then Success(None)
    else if |tds| < 4 then Failure(NoMethodError)
    else
      var refName := tds[0];
      Success(Some(ListRow(refName, RubyToI(BeforeDash(refName)), tds[1], RubyToI(tds[2]),
                           tds[3] + MidnightSuffix)))
  }

  /** A row whose first cell is a number, a dash and a title, and whose third
      cell is a count, reads both numbers back. */
  lemma ListRowNumbers(tds: seq<string>, n: nat, title: string, m: nat)
    requires |tds| >= 4 && tds[0] == ShowNat(n) + "-" + title && tds[2] == ShowNat(m)
    ensures var r := ParseListRow(tds);
            r.Success? && r.value.Some? && r.value.value.referenceNum == n && r.value.value.signatures == m
  {
    ReferenceBeforeDash(n, title);
    assert RubyToI(tds[2]) == m by {
      RubyToIShowNat([], m, []);
      assert [] + tds[2] + [] == tds[2];
    }
  }

  /** A first cell that starts with `-` has an empty first field, so its
      reference number is 0 whatever follows: `-5-x` gives 0, not -5. */
  lemma ListRowLeadingDash(tds: seq<string>)
    requires |tds| >= 4 && tds[0] != [] && tds[0][0] == '-'
    ensures var r := ParseListRow(tds);
            r.Success? && r.value.Some? && r.value.value.referenceNum == 0
  {
    assert BeforeDash(tds[0]) == [];
    RubyToINoNumeral([]);
  }

  /** `get_petitions(page)` over the cell texts of each `tr`: the header row is
      dropped, the other rows are parsed in order and the `nil` ones skipped;
      the first row that raises ends the loop. A table of at most one row gives
      nothing. */
  function ListedPetitions(trs: seq<seq<string>>): Result<seq<ListRow>, RubyError> {
    if |trs| > 1 then Gather(ParseListRow, trs[1..]) else Success([])
  }

  /** A body row with no cells contributes nothing: removing it changes nothing. */
  lemma SkipsEmptyRow(header: seq<string>, a: seq<seq<string>>, b: seq<seq<string>>)
    ensures ListedPetitions([header] + a + [[]] + b) == ListedPetitions([header] + a + b)
  {
    assert ([header] + a + [[]] + b)[1..] == a + [[]] + b;
    assert ([header] + a + b)[1..] == a + b;
    GatherSkips(ParseListRow, a, [], b);
  }

  /** When every body row has the four cells, there is one record per body row,
      in order. */
  lemma CompleteRowsAllListed(trs: seq<seq<string>>)
    requires |trs| > 1 && forall i :: 1 <= i < |trs| ==> |trs[i]| >= 4
    ensures ListedPetitions(trs).Success? && |ListedPetitions(trs).value| == |trs| - 1
    ensures forall i :: 1 <= i < |trs| ==> ParseListRow(trs[i]) == Success(Some(ListedPetitions(trs).value[i - 1]))
  {
    var body := trs[1..];
    assert forall i :: 0 <= i < |body| ==> body[i] == trs[i + 1];
    GatherAll(ParseListRow, body);
  }

  /** A body row with one to three cells makes the page raise. */
  lemma ShortRowRaises(trs: seq<seq<string>>, k: nat)
    requires 1 <= k < |trs| && 0 < |trs[k]| < 4
    ensures ListedPetitions(trs).Failure?
  {
    assert trs[1..][k - 1] == trs[k];
    GatherFails(ParseListRow, trs[1..], k - 1);
  }

  /** A table of at most one row, the header alone, lists nothing. */
  lemma NoBodyNoPetitions(trs: seq<seq<string>>)
    requires |trs| <= 1
    ensures ListedPetitions(trs) == Success([])
  {
  }

  /** `get_petitions` as written: a loop that pushes every non-nil row. */
  method GetPetitions(trs: seq<seq<string>>) returns (r: Result<seq<ListRow>, RubyError>)
    ensures r == ListedPetitions(trs)
  {
    var items: seq<ListRow> := [];
    if |trs| > 1 {
      var body := trs[1..];
      var i := 0;
      while i < |body|
        invariant 0 <= i <= |body|
        invariant Gather(ParseListRow, body[..i]) == Success(items)
      {
        var item := ParseListRow(body[i]);
        assert body[..i + 1][..i] == body[..i];
        if item.Failure? {
          GatherAppend(ParseListRow, body[..i + 1], body[i + 1..]);
          assert body[..i + 1] + body[i + 1..] == body;
          return Failure(item.error);
        }
        if item.value.Some? {
          items := items + [item.value.value];
        }
        i := i + 1;
      }
      assert body[..i] == body;
    }
    return Success(items);
  }

  // ---------- get_item ----------

  const Nbsp: char := '\U{00A0}'

  /** The first-cell texts the `case` of `get_item` distinguishes. */
  datatype Label = Subject | Eligibility | Sponsor | Principal | Signatures | Posting | Closing | Other

  /** The `when` branches of the `case` in `get_item`, in order, with the label
      each one matches. */
  const LabelTexts: seq<(string, Label)> := [
    ("Subject:", Subject), ("Eligibility:", Eligibility), ("Sponsoring Member:", Sponsor),
    ("Principal Petitioner:", Principal), ("Number of Signatures:", Signatures),
    ("Posting Date:", Posting), ("Closing Date:", Closing)]

  /** The label of the first branch of `texts` whose text is `col1`, or `Other`. */
  function LabelFor(texts: seq<(string, Label)>, col1: string): Label
  {
    if texts == [] then Other
    else if texts[0].0 == col1 then texts[0].1
    else LabelFor(texts[1..], col1)
  }

  /** `case col1 when 'Subject:' ... else`. */
  function Classify(col1: string): Label {
    LabelFor(LabelTexts, col1)
  }

  /** The labels whose row sets a text field of the hash. */
  predicate IsTextField(l: Label) {
    l.Subject? || l.Eligibility? || l.Sponsor? || l.Posting? || l.Closing?
  }

  /** What the CSS queries of `get_item` return. */
  datatype ItemPage = ItemPage(
    description: string,         // text of table.petitionDescription
    rows: seq<seq<string>>,      // the td texts of each row of table[cellpadding="2"]
    hrefs: seq<Option<string>>,  // the href of each anchor
    addressee: string)           // text of #ContentPlaceHolder1_Label2

  /** The `item` hash while the rows are read; a key not yet set is `None`. */
  datatype ItemHash = ItemHash(
    body: string,
    principal: string,
    subject: Option<string>,
    eligibility: Option<string>,
    sponsor: Option<string>,
    signatures: Option<int>,
    postedAt: Option<string>,
    closedAt: Option<string>)

  /** The hash `get_item` returns. */
  datatype Item = Item(fields: ItemHash, referenceNum: int, addressedTo: string)

  /** The text field a label sets. */
  function FieldOf(h: ItemHash, l: Label): Option<string>
    requires IsTextField(l)
  {
    match l
    case Subject => h.subject
    case Eligibility => h.eligibility
    case Sponsor => h.sponsor
    case Posting => h.postedAt
    case Closing => h.closedAt
  }

  /** `description.gsub(nbsp, ' ').squish`. */
  function BodyOf(description: string): (r: string)
    ensures NoAdjacent(r, Whitespace)
    ensures r == [] || (r[0] !in Whitespace && r[|r| - 1] !in Whitespace)
    ensures Outside(r, Whitespace) == Outside(description, Whitespace + {Nbsp})
  {
    NbspBecomesSpace(description);
    SquishKeepsOutside(Replace(description, [Nbsp], " "));
    Squish(Replace(description, [Nbsp], " "))
  }

  /** Replacing every no-break space by a space keeps the text outside
      whitespace and no-break spaces. */
  lemma {:induction false} NbspBecomesSpace(d: string)
    ensures Outside(Replace(d, [Nbsp], " "), Whitespace) == Outside(d, Whitespace + {Nbsp})
    decreases |d|
  {
    if |d| >= 1 {
      var tail := Replace(d[1..], [Nbsp], " ");
      NbspBecomesSpace(d[1..]);
      if d[..1] == [Nbsp] {
        assert d[0] == Nbsp;
        OutsideAppend(" ", tail, Whitespace);
      } else {
        assert d[0] != Nbsp;
        OutsideAppend([d[0]], tail, Whitespace);
      }
    }
  }

  /** The hash before the rows are read. */
  function StartHash(page: ItemPage): ItemHash {
    ItemHash(BodyOf(page.description), "", None, None, None, None, None, None)
  }

  /** Every row has the two cells the loop reads. */
  predicate RowsReadable(rows: seq<seq<string>>) {
    forall j :: 0 <= j < |rows| ==> |rows[j]| >= 2
  }

  /** One pass of the `case` in `get_item`. */
  function ApplyRow(h: ItemHash, tds: seq<string>): ItemHash
    requires |tds| >= 2
  {
    var value := Strip(tds[1]);
    match Classify(tds[0])
    case Subject => h.(subject := Some(value))
    case Eligibility => h.(eligibility := Some(value))
    case Sponsor => h.(sponsor := Some(value))
    case Signatures => h.(signatures := Some(RubyToI(value)))
    case Posting => h.(postedAt := Some(value))
    case Closing => h.(closedAt := Some(value))
    case Principal => h.(principal := h.principal + Squish(value) + "\n")
    case Other => h.(principal := h.principal + Squish(value) + "\n")
  }

  /** The hash after the rows have been read in order. */
  function ApplyRows(h: ItemHash, rows: seq<seq<string>>): ItemHash
    requires RowsReadable(rows)
    decreases |rows|
  {
    if rows == [] then h else ApplyRow(ApplyRows(h, rows[..|rows| - 1]), rows[|rows| - 1])
  }

  /** The stripped second cell of the last row with label `l`, if any. */
  function LastValue(rows: seq<seq<string>>, l: Label): Option<string>
    requires RowsReadable(rows)
    decreases |rows|
  {
    if rows == [] then None
    else if Classify(rows[|rows| - 1][0]) == l then Some(Strip(rows[|rows| - 1][1]))
    else LastValue(rows[..|rows| - 1], l)
  }

  /** The line a row adds to `principal`: its squished second cell and a
      newline, when it is labelled `Principal Petitioner:` or not recognised. */
  function PrincipalLine(tds: seq<string>): string {
    if |tds| >= 2 && (Classify(tds[0]).Principal? || Classify(tds[0]).Other?) then Squish(Strip(tds[1])) + "\n"
    else []
  }

  /** The lines the rows add to `principal`, in row order. */
  function PrincipalLines(rows: seq<seq<string>>): string {
    Flatten(PrincipalLine, rows)
  }

  /** A label that no row carries has no value. */
  lemma {:induction false} LastValueNone(rows: seq<seq<string>>, l: Label)
    requires RowsReadable(rows)
    ensures LastValue(rows, l).None? <==> forall j :: 0 <= j < |rows| ==> Classify(rows[j][0]) != l
    decreases |rows|
  {
    if rows != [] {
      var n := |rows| - 1;
      var init := rows[..n];
      assert forall j :: 0 <= j < n ==> init[j] == rows[j];
      LastValueNone(init, l);
    }
  }

  /** The value of a label is the value of the last row carrying it: when a
      label repeats, the last row wins. */
  lemma {:induction false} LastValueIsLast(rows: seq<seq<string>>, l: Label, k: nat)
    requires RowsReadable(rows)
    requires k < |rows| && Classify(rows[k][0]) == l
    requires forall j :: k < j < |rows| ==> Classify(rows[j][0]) != l
    ensures LastValue(rows, l) == Some(Strip(rows[k][1]))
    decreases |rows|
  {
    var n := |rows| - 1;
    if k < n {
      var init := rows[..n];
      assert forall j :: 0 <= j < n ==> init[j] == rows[j];
      LastValueIsLast(init, l, k);
    }
  }

  /** Reading the rows leaves each text field holding the value of the last row
      with its label, or its earlier value when no row has the label. */
  lemma {:induction false} ApplyRowsTextField(h: ItemHash, rows: seq<seq<string>>, l: Label)
    requires RowsReadable(rows) && IsTextField(l)
    ensures FieldOf(ApplyRows(h, rows), l) ==
              if LastValue(rows, l).Some? then LastValue(rows, l) else FieldOf(h, l)
    decreases |rows|
  {
    if rows != [] {
      ApplyRowsTextField(h, rows[..|rows| - 1], l);
    }
  }

  /** `signatures` is the last `Number of Signatures:` value read by `to_i`. */
  lemma {:induction false} ApplyRowsSignatures(h: ItemHash, rows: seq<seq<string>>)
    requires RowsReadable(rows)
    ensures ApplyRows(h, rows).signatures ==
              if LastValue(rows, Signatures).Some? then Some(RubyToI(LastValue(rows, Signatures).value)) else h.signatures
    decreases |rows|
  {
    if rows != [] {
      ApplyRowsSignatures(h, rows[..|rows| - 1]);
    }
  }

  /** One row adds its line to `principal` and leaves `body` alone. */
  lemma ApplyRowPrincipal(h: ItemHash, tds: seq<string>)
    requires |tds| >= 2
    ensures ApplyRow(h, tds).principal == h.principal + PrincipalLine(tds)
    ensures ApplyRow(h, tds).body == h.body
  {
    var l := Classify(tds[0]);
    if !(l.Principal? || l.Other?) {
      assert PrincipalLine(tds) == [];
      assert h.principal + [] == h.principal;
    }
  }

  /** The lines of the rows are those of all but the last, then the last one's. */
  lemma PrincipalLinesSnoc(rows: seq<seq<string>>)
    requires rows != []
    ensures PrincipalLines(rows) == PrincipalLines(rows[..|rows| - 1]) + PrincipalLine(rows[|rows| - 1])
  {
  }

  /** One more row extends `principal` by that row's line. */
  lemma PrincipalStep(h: ItemHash, rows: seq<seq<string>>)
    requires rows != [] && RowsReadable(rows)
    requires ApplyRows(h, rows[..|rows| - 1]).principal == h.principal + PrincipalLines(rows[..|rows| - 1])
    ensures ApplyRows(h, rows).principal == h.principal + PrincipalLines(rows)
  {
    var n := |rows| - 1;
    var before := ApplyRows(h, rows[..n]);
    var earlier, line := PrincipalLines(rows[..n]), PrincipalLine(rows[n]);
    assert ApplyRows(h, rows).principal == before.principal + line by {
      ApplyRowPrincipal(before, rows[n]);
    }
    PrincipalLinesSnoc(rows);
    AppendAssociates(h.principal, earlier, line);
  }

  /** Concatenation regroups freely. */
  lemma AppendAssociates(a: string, b: string, c: string)
    ensures (a + b) + c == a + (b + c)
  {
  }

  /** `principal` gains the lines of the principal and unrecognised rows, in row
      order. */
  lemma {:induction false} ApplyRowsPrincipal(h: ItemHash, rows: seq<seq<string>>)
    requires RowsReadable(rows)
    ensures ApplyRows(h, rows).principal == h.principal + PrincipalLines(rows)
    decreases |rows|
  {
    if rows != [] {
      ApplyRowsPrincipal(h, rows[..|rows| - 1]);
      PrincipalStep(h, rows);
    }
  }

  /** No row touches `body`. */
  lemma {:induction false} ApplyRowsBody(h: ItemHash, rows: seq<seq<string>>)
    requires RowsReadable(rows)
    ensures ApplyRows(h, rows).body == h.body
    decreases |rows|
  {
    if rows != [] {
      var n := |rows| - 1;
      ApplyRowsBody(h, rows[..n]);
      ApplyRowPrincipal(ApplyRows(h, rows[..n]), rows[n]);
    }
  }

  /** An `href` that starts with `mailto`. */
  predicate IsMailto(href: string) {
    |href| >= 6 && href[..6] == "mailto"
  }

  /** The first `mailto` href of a page whose anchors all have one. */
  function FirstMailto(hrefs: seq<Option<string>>): (r: Option<string>)
    requires forall i :: 0 <= i < |hrefs| ==> hrefs[i].Some?
    ensures r.Some? <==> exists i :: 0 <= i < |hrefs| && IsMailto(hrefs[i].value)
    ensures r.Some? ==> exists i :: 0 <= i < |hrefs| && hrefs[i] == r && IsMailto(r.value) &&
                                    forall j :: 0 <= j < i ==> !IsMailto(hrefs[j].value)
    decreases |hrefs|
  {
    if hrefs == [] then None
    else if IsMailto(hrefs[0].value) then hrefs[0]
    else
      var later := FirstMailto(hrefs[1..]);
      assert forall i :: 1 <= i < |hrefs| ==> hrefs[1..][i - 1] == hrefs[i];
      later
  }

  /** Every anchor has an href, and the one at `i` is the first `mailto` href. */
  predicate FirstMailtoAt(hrefs: seq<Option<string>>, i: int) {
    (forall j :: 0 <= j < |hrefs| ==> hrefs[j].Some?) &&
    0 <= i < |hrefs| && IsMailto(hrefs[i].value) && forall j :: 0 <= j < i ==> !IsMailto(hrefs[j].value)
  }

  /** There is at most one first `mailto` href. */
  lemma FirstMailtoUnique(hrefs: seq<Option<string>>, i: int, k: int)
    requires FirstMailtoAt(hrefs, i) && FirstMailtoAt(hrefs, k)
    ensures i == k
  {
  }

  /** `as.select { |a| a['href'].starts_with?('mailto') }.first['href']`: every
      anchor's href is read, so one without an href raises, and so does a page
      with no `mailto` anchor; otherwise the first `mailto` href is taken. */
  function MailtoHref(hrefs: seq<Option<string>>): (r: Result<string, RubyError>)
    ensures r.Success? <==> (forall i :: 0 <= i < |hrefs| ==> hrefs[i].Some?) &&
                            exists i :: 0 <= i < |hrefs| && hrefs[i].Some? && IsMailto(hrefs[i].value)
    ensures r.Success? ==> exists i :: FirstMailtoAt(hrefs, i) && hrefs[i] == Some(r.value)
  {
    if exists i | 0 <= i < |hrefs| :: hrefs[i].None? then Failure(NoMethodError)
    else match FirstMailto(hrefs)
      case None => Failure(NoMethodError)
      case Some(href) => Success(href)
  }

  /** `addressed_to`: the key text with every `TO: ` removed. */
  function AddressedTo(text: string): string {
    Replace(text, "TO: ", "")
  }

  /** A key made of `TO: ` and a name free of it gives the name. */
  lemma AddressedToDropsPrefix(name: string)
    requires !Occurs("TO: ", name)
    ensures AddressedTo("TO: " + name) == name
  {
    var tag := "TO: ";
    assert Replace(tag + name, tag, "") == name by {
      ReplaceLeading(tag, name, "");
    }
  }

  /** `a['href'].scan(/PetNum=(\d+)/).first.first.to_i` on the first mailto
      link: the number after `PetNum=`, or an exception when there is no such
      link or no such number. */
  function MailtoReferenceNum(hrefs: seq<Option<string>>): (r: Result<int, RubyError>)
    ensures r.Success? <==> MailtoHref(hrefs).Success? && FindPetNum(MailtoHref(hrefs).value).Some?
    ensures r.Success? ==> r.value == DigitsValue(FindPetNum(MailtoHref(hrefs).value).value)
  {
    var href :- MailtoHref(hrefs);
    match FindPetNum(href)
    case None => Failure(NoMethodError)
    case Some(digits) =>
      assert RubyToI(digits) == DigitsValue(digits) by {
        NumeralOfDigits(digits, []);
        assert digits + [] == digits;
        assert LeadIn(digits, Whitespace) == 0;
      }
      Success(RubyToI(digits))
  }

  /** The reference number exists exactly when the first `mailto` href holds a
      match of `/PetNum=(\d+)/`, and it is the value of the digits of the
      leftmost match. */
  lemma MailtoReferenceNumSpec(hrefs: seq<Option<string>>)
    ensures MailtoReferenceNum(hrefs).Success? <==>
              exists i, k :: FirstMailtoAt(hrefs, i) && TagAt(hrefs[i].value, k)
    ensures MailtoReferenceNum(hrefs).Success? ==>
              exists i, k :: FirstMailtoAt(hrefs, i) && TagAt(hrefs[i].value, k) &&
                             (forall j :: 0 <= j < k ==> !TagAt(hrefs[i].value, j)) &&
                             MailtoReferenceNum(hrefs).value == DigitsValue(DigitPrefix(hrefs[i].value[k + |PetNumTag|..]))
  {
    var m := MailtoHref(hrefs);
    if m.Success? {
      var i :| FirstMailtoAt(hrefs, i) && hrefs[i] == Some(m.value);
      forall i', k | FirstMailtoAt(hrefs, i') && TagAt(hrefs[i'].value, k)
        ensures FindPetNum(m.value).Some?
      {
        FirstMailtoUnique(hrefs, i, i');
      }
      if FindPetNum(m.value).Some? {
        var k :| 0 <= k < |m.value| && TagAt(m.value, k) && (forall j :: 0 <= j < k ==> !TagAt(m.value, j)) &&
                 FindPetNum(m.value).value == DigitPrefix(m.value[k + |PetNumTag|..]);
        assert FirstMailtoAt(hrefs, i) && TagAt(hrefs[i].value, k);
      }
    }
  }

  /** The hash once every row is read, with `principal` stripped. */
  function ReadRows(page: ItemPage): (h: ItemHash)
    requires RowsReadable(page.rows)
    ensures h.body == BodyOf(page.description)
    ensures h.principal == Strip(PrincipalLines(page.rows))
  {
    var h := ApplyRows(StartHash(page), page.rows);
    ApplyRowsPrincipal(StartHash(page), page.rows);
    ApplyRowsBody(StartHash(page), page.rows);
    assert "" + PrincipalLines(page.rows) == PrincipalLines(page.rows);
    h.(principal := Strip(h.principal))
  }

  /** `get_item(page)`: the hash built from the rows, with the reference number
      scanned from the mailto link and the addressee. */
  function ItemOf(page: ItemPage): (r: Result<Item, RubyError>)
    ensures r.Success? <==> RowsReadable(page.rows) && MailtoReferenceNum(page.hrefs).Success?
    ensures r.Success? ==> r.value.fields == ReadRows(page) &&
                           r.value.referenceNum == MailtoReferenceNum(page.hrefs).value &&
                           r.value.addressedTo == AddressedTo(page.addressee)
  {
    if !RowsReadable(page.rows) then Failure(NoMethodError)
    else
      var referenceNum :- MailtoReferenceNum(page.hrefs);
      Success(Item(ReadRows(page), referenceNum, AddressedTo(page.addressee)))
  }

  /** Reading one more row. */
  lemma ApplyRowsSnoc(h: ItemHash, rows: seq<seq<string>>, i: nat)
    requires i < |rows| && RowsReadable(rows[..i]) && |rows[i]| >= 2
    ensures RowsReadable(rows[..i + 1])
    ensures ApplyRows(h, rows[..i + 1]) == ApplyRow(ApplyRows(h, rows[..i]), rows[i])
  {
    assert rows[..i + 1][..i] == rows[..i];
    assert forall j :: 0 <= j < i ==> rows[..i + 1][j] == rows[..i][j];
  }

  /** `get_item` as written: the hash is updated row by row. */
  method GetItem(page: ItemPage) returns (r: Result<Item, RubyError>)
    ensures r == ItemOf(page)
  {
    var item := StartHash(page);
    var i := 0;
    while i < |page.rows|
      invariant 0 <= i <= |page.rows|
      invariant RowsReadable(page.rows[..i])
      invariant item == ApplyRows(StartHash(page), page.rows[..i])
    {
      var tds := page.rows[i];
      if |tds| < 2 {
        return Failure(NoMethodError);
      }
      ghost var before := item;
      var col1 := tds[0];
      var col2 := Strip(tds[1]);
      match Classify(col1) {
        case Subject => item := item.(subject := Some(col2));
        case Eligibility => item := item.(eligibility := Some(col2));
        case Sponsor => item := item.(sponsor := Some(col2));
        case Principal => item := item.(principal := item.principal + Squish(col2) + "\n");
        case Signatures => item := item.(signatures := Some(RubyToI(col2)));
        case Posting => item := item.(postedAt := Some(col2));
        case Closing => item := item.(closedAt := Some(col2));
        case Other => item := item.(principal := item.principal + Squish(col2) + "\n");
      }
      assert item == ApplyRow(before, tds);
      ApplyRowsSnoc(StartHash(page), page.rows, i);
      i := i + 1;
    }
    assert page.rows[..i] == page.rows;
    var href :- MailtoHref(page.hrefs);
    var found := FindPetNum(href);
    if found.None? {
      return Failure(NoMethodError);
    }
    var referenceNum := RubyToI(found.value);
    assert Success(referenceNum) == MailtoReferenceNum(page.hrefs);
    r := Success(Item(item.(principal := Strip(item.principal)), referenceNum, AddressedTo(page.addressee)));
  }

  /** The reference number is the number after the first `PetNum=` followed by
      digits in the first mailto link, wherever that link points. */
  lemma ReferenceNumFromMailto(page: ItemPage, p: string, n: nat, rest: string)
    requires RowsReadable(page.rows)
    requires MailtoHref(page.hrefs) == Success(p + PetNumTag + ShowNat(n) + rest)
    requires forall i :: 0 <= i < |p| ==> !TagAt(p + PetNumTag + ShowNat(n) + rest, i)
    requires rest == [] || !IsDigit(rest[0])
    ensures ItemOf(page).Success? && ItemOf(page).value.referenceNum == n
  {
    assert MailtoReferenceNum(page.hrefs) == Success(n) by {
      FindPetNumAfter(p, n, rest);
    }
  }
}
