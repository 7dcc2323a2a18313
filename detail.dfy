/** scraper.py's `parse_petition_item_page`, over the node texts its XPath
    queries return for one detail page. */
module Detail {
  import opened Wrappers
  import opened Strings
  import opened Dates
  import opened Records
  import opened Normalise

  /** What the XPath queries of `parse_petition_item_page` return. */
  datatype DetailPage = DetailPage(
    hasContent: bool,                    // a `standard-box standard-box-content` div exists
    headings: seq<string>,               // text_content() of //div/h2
    blockquotes: seq<string>,            // text_content() of ./div/div/div/blockquote
    paragraphs: seq<seq<string>>,        // the text() nodes of each ./div/div/div/p, in order
    spanTexts: seq<string>,              // ./div/div/div/p/span/text()
    bodies: seq<string>,                 // text_content() of ./div[@class="petitionBody"]
    eligibility: seq<Option<string>>,    // .text of ./h3[@class="eligibility"]
    headingStrong: seq<Option<string>>)  // .text of ./div[@class="petitionHeading"]/strong

  /** `nodes[0]`: an IndexError when the query matched nothing. */
  function First<T>(nodes: seq<T>): (r: Result<T, ParseError>)
    ensures r.Success? <==> nodes != []
    ensures r.Success? ==> r.value == nodes[0]
  {
    if nodes == [] then Failure(MissingNode) else Success(nodes[0])
  }

  /** `.text` used as a string: an AttributeError when the element has no text. */
  function TextOf(text: Option<string>): (r: Result<string, ParseError>)
    ensures r.Success? <==> text.Some?
    ensures r.Success? ==> r.value == text.value
  {
    if text.None? then Failure(MissingText) else Success(text.value)
  }

  /** `(./div/div/div/p)[k + 1]/text()` followed by `[0]`: the first text node of
      the paragraph at zero-based position `k`. */
  function ParagraphText(paragraphs: seq<seq<string>>, k: nat): (r: Result<string, ParseError>)
    ensures r.Success? <==> k < |paragraphs| && paragraphs[k] != []
    ensures r.Success? ==> r.value == paragraphs[k][0]
  {
    if k < |paragraphs| then First(paragraphs[k]) else Failure(MissingNode)
  }

  /** `datetime.strptime(text, '%d/%m/%Y')`: a ValueError when the text is not a date. */
  function DateOf(text: string): (r: Result<DateTime, ParseError>)
    ensures r.Success? <==> ParseDate(text).Some?
    ensures r.Success? ==> r.value == ParseDate(text).value && IsMidnight(r.value)
  {
    match ParseDate(text)
    case None => Failure(BadDate)
    case Some(d) => Success(d)
  }

  const EligibilityLabel: string := "Eligibility -"
  const AddressLabel: string := "TO:"

  /** The `eligibility` field: the heading text without its label, stripped. */
  function EligibilityOf(text: string): (r: string)
    ensures r == [] || (r[0] !in Whitespace && r[|r| - 1] !in Whitespace)
  {
    Strip(Replace(text, EligibilityLabel, ""))
  }

  /** The `addressed_to` field: the heading text without its label, stripped. */
  function AddressedToOf(text: string): (r: string)
    ensures r == [] || (r[0] !in Whitespace && r[|r| - 1] !in Whitespace)
  {
    Strip(Replace(text, AddressLabel, ""))
  }

  /** A heading that is the label followed by text free of the label yields that
      text, stripped. */
  lemma EligibilityDropsLabel(rest: string)
    requires !Occurs(EligibilityLabel, rest)
    ensures EligibilityOf(EligibilityLabel + rest) == Strip(rest)
  {
    var tag := EligibilityLabel;
    assert Replace(tag + rest, tag, "") == rest by {
      ReplaceLeading(tag, rest, "");
    }
  }

  /** A heading that is the label followed by text free of the label yields that
      text, stripped. */
  lemma AddressedToDropsLabel(rest: string)
    requires !Occurs(AddressLabel, rest)
    ensures AddressedToOf(AddressLabel + rest) == Strip(rest)
  {
    var tag := AddressLabel;
    assert Replace(tag + rest, tag, "") == rest by {
      ReplaceLeading(tag, rest, "");
    }
  }

  /** The `principal` field: the blockquote text with whitespace runs collapsed, stripped. */
  function PrincipalOf(text: string): (r: string)
    ensures NoAdjacent(r, Whitespace)
    ensures r == [] || (r[0] !in Whitespace && r[|r| - 1] !in Whitespace)
    ensures Outside(r, Whitespace) == Outside(text, Whitespace)
  {
    var collapsed := CollapseWhitespace(text);
    StripKeepsNoAdjacent(collapsed, Whitespace, Whitespace);
    StripKeepsOutside(collapsed, Whitespace);
    Strip(collapsed)
  }

  /** Every node the page parser reads is present and both dates parse. */
  predicate PageIsComplete(p: DetailPage) {
    p.hasContent && p.headings != [] && p.blockquotes != [] &&
    |p.paragraphs| > 4 && p.paragraphs[2] != [] && p.paragraphs[3] != [] && p.paragraphs[4] != [] &&
    ParseDate(Strip(p.paragraphs[3][0])).Some? && ParseDate(Strip(p.paragraphs[4][0])).Some? &&
    p.spanTexts != [] && p.bodies != [] &&
    p.eligibility != [] && p.eligibility[0].Some? &&
    p.headingStrong != [] && p.headingStrong[0].Some?
  }

  /** `parse_petition_item_page(reference_num, url, current_time, tree)`: the
      fields are read in the order of the source, so the first missing node
      decides the exception. */
  function ParsePetitionItemPage(referenceNum: string, url: string, now: DateTime, tree: Option<DetailPage>)
    : (r: Result<DetailRecord, ParseError>)
    ensures tree.None? ==> r == Failure(NoPage)
    ensures tree.Some? ==> (r.Success? <==> PageIsComplete(tree.value))
    ensures r.Success? ==> r.value.referenceNum == referenceNum && r.value.url == url && r.value.retrievedAt == now
    ensures r.Success? ==> IsMidnight(r.value.postedAt) && IsMidnight(r.value.closedAt)
    ensures r.Success? ==> NoAdjacent(r.value.body, Whitespace) && NoAdjacent(r.value.principal, Whitespace)
    ensures r.Success? ==> r.value.subject == Strip(tree.value.headings[0]) &&
                           r.value.sponsor == Strip(tree.value.paragraphs[2][0]) &&
                           r.value.signatures == Strip(tree.value.spanTexts[0])
    ensures r.Success? ==> r.value.postedAt == ParseDate(Strip(tree.value.paragraphs[3][0])).value &&
                           r.value.closedAt == ParseDate(Strip(tree.value.paragraphs[4][0])).value
    ensures r.Success? ==> r.value.body == NormaliseBody(tree.value.bodies[0]) &&
                           r.value.principal == PrincipalOf(tree.value.blockquotes[0])
    ensures r.Success? ==> r.value.eligibility == EligibilityOf(tree.value.eligibility[0].value) &&
                           r.value.addressedTo == AddressedToOf(tree.value.headingStrong[0].value)
  {
    if tree.None? then Failure(NoPage)
    else
      var p := tree.value;
      if !p.hasContent then Failure(MissingNode)
      else
        var heading :- First(p.headings);
        var quote :- First(p.blockquotes);
        var sponsor :- ParagraphText(p.paragraphs, 2);
        var postedText :- ParagraphText(p.paragraphs, 3);
        var postedAt :- DateOf(Strip(postedText));
        var closedText :- ParagraphText(p.paragraphs, 4);
        var closedAt :- DateOf(Strip(closedText));
        var signatures :- First(p.spanTexts);
        var body :- First(p.bodies);
        var eligibilityNode :- First(p.eligibility);
        var eligibility :- TextOf(eligibilityNode);
        var addressNode :- First(p.headingStrong);
        var addressedTo :- TextOf(addressNode);
        Success(DetailRecord(
          now, url, referenceNum, Strip(heading), Strip(signatures), closedAt,
          NormaliseBody(body), PrincipalOf(quote), EligibilityOf(eligibility),
          Strip(sponsor), postedAt, AddressedToOf(addressedTo)))
  }

  /** The first node the parser finds missing decides the exception: a page whose
      content box and headings are there but which has no blockquote raises
      IndexError whatever else it lacks. */
  lemma MissingBlockquoteFirst(referenceNum: string, url: string, now: DateTime, p: DetailPage)
    requires p.hasContent && p.headings != [] && p.blockquotes == []
    ensures ParsePetitionItemPage(referenceNum, url, now, Some(p)) == Failure(MissingNode)
  {
  }

  /** The clock reading is only stored: parsed at another time, the same page
      gives the same exception or the same record with only `retrieved_at`
      changed. */
  lemma ItemPageClock(referenceNum: string, url: string, now1: DateTime, now2: DateTime, tree: Option<DetailPage>)
    ensures var r1 := ParsePetitionItemPage(referenceNum, url, now1, tree);
            var r2 := ParsePetitionItemPage(referenceNum, url, now2, tree);
            (r1.Failure? ==> r2 == r1) && (r1.Success? ==> r2 == Success(r1.value.(retrievedAt := now2)))
  {
  }
}
