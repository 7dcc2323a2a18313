/** scraper.py's `parse_petition_list_page`, over the node texts its XPath
    queries return for each `petitions-item` container. */
module Listing {
  import opened Wrappers
  import opened Strings
  import opened Runs
  import opened Dates
  import opened Records
  import opened Traversal

  /** `petition_item`, the detail-page URL template, up to its `{}`. */
  const PetitionItemPrefix: string := "https://www.parliament.qld.gov.au/work-of-assembly/petitions/petition-details?id="

  /** `petition_item.format(reference_num)`. */
  function ItemUrl(referenceNum: string): string {
    PetitionItemPrefix + referenceNum
  }

  /** The characters `custom_split` separates an href on: `'/=?'`. */
  const HrefSeparators: set<char> := {'/', '=', '?'}

  /** An anchor `div/div/a`: its `href` attribute and its `.text`, either of which may be None. */
  datatype Anchor = Anchor(href: Option<string>, text: Option<string>)

  /** What the XPath queries return for one `petitions-item` container. */
  datatype ListingItem = ListingItem(
    anchors: seq<Anchor>,            // div/div/a
    nameTexts: seq<string>,          // ./div/div/text()
    spans: seq<Option<string>>,      // .text of div/div/p/span
    paragraphTexts: seq<string>)     // div/div/p/text()

  /** `custom_split(href, '/=?')[-1].strip()`: the last run of the href, stripped.
      `None` is the IndexError of an empty href. */
  function ReferenceNumOf(href: string): (r: Option<string>)
    ensures r.None? <==> href == []
    ensures r.Some? ==> r.value == [] || (r.value[0] !in Whitespace && r.value[|r.value| - 1] !in Whitespace)
  {
    var parts := CustomSplit(href, HrefSeparators);
    if parts == [] then None else Some(Strip(parts[|parts| - 1]))
  }

  /** An href that is an identifier free of separators, or ends in a separator
      followed by one, yields that identifier, stripped. */
  lemma ReferenceNumAfterSeparator(prefix: string, id: string)
    requires prefix == [] || prefix[|prefix| - 1] in HrefSeparators
    requires id != [] && forall i :: 0 <= i < |id| ==> id[i] !in HrefSeparators
    ensures ReferenceNumOf(prefix + id) == Some(Strip(id))
  {
    assert Uniform(id, HrefSeparators);
    LastRunIsTail(prefix, id, HrefSeparators);
  }

  /** An href that ends in a run of separators yields that run: it is the last
      segment, and no separator is whitespace, so `strip` keeps it whole. */
  lemma ReferenceNumSeparatorTail(prefix: string, seps: string)
    requires prefix == [] || prefix[|prefix| - 1] !in HrefSeparators
    requires seps != [] && forall i :: 0 <= i < |seps| ==> seps[i] in HrefSeparators
    ensures ReferenceNumOf(prefix + seps) == Some(seps)
  {
    assert Uniform(seps, HrefSeparators);
    LastRunIsTail(prefix, seps, HrefSeparators);
    assert seps[0] !in Whitespace && seps[|seps| - 1] !in Whitespace;
    StripCharsNothing(seps, Whitespace);
  }

  /** A separator-free href is its own reference number: `1234` gives `1234`. */
  lemma ReferenceNumPlainExample(href: string)
    requires href == "1234"
    ensures ReferenceNumOf(href) == Some(href)
  {
    assert forall i :: 0 <= i < |href| ==> href[i] !in HrefSeparators;
    assert Strip(href) == href by {
      assert href[0] !in Whitespace && href[|href| - 1] !in Whitespace;
      StripCharsNothing(href, Whitespace);
    }
    ReferenceNumAfterSeparator([], href);
    assert [] + href == href;
  }

  /** The detail URL built from a reference number gives that reference number
      back: `ItemUrl` and `ReferenceNumOf` are inverse on plain identifiers. */
  lemma ReferenceNumOfItemUrl(id: string)
    requires id != [] && forall i :: 0 <= i < |id| ==> id[i] !in HrefSeparators
    requires id[0] !in Whitespace && id[|id| - 1] !in Whitespace
    ensures ReferenceNumOf(ItemUrl(id)) == Some(id)
  {
    ReferenceNumAfterSeparator(PetitionItemPrefix, id);
    StripCharsNothing(id, Whitespace);
  }

  /** `...petition-details?id=1234` has reference number `1234`. */
  lemma ReferenceNumExample()
    ensures ReferenceNumOf(PetitionItemPrefix + "1234") == Some("1234")
  {
    ReferenceNumOfItemUrl("1234");
  }

  /** The `signatures` field: the second span's text without the word
      `Signatures`, stripped. */
  function SignaturesOf(text: string): (r: string)
    ensures r == [] || (r[0] !in Whitespace && r[|r| - 1] !in Whitespace)
  {
    Strip(Replace(text, "Signatures", ""))
  }

  /** A count followed by the word `Signatures` yields the count: the word goes,
      and so does the whitespace around the count. */
  lemma SignaturesDropsWord(count: string)
    requires forall i :: 0 <= i < |count| ==> count[i] != 'S'
    ensures SignaturesOf(count + "Signatures") == Strip(count)
  {
    var word := "Signatures";
    assert Replace(count + word, word, "") == count by {
      ReplaceAfter(count, word, word, "");
      assert word[..|word|] == word && word[|word|..] == [];
    }
  }

  /** The count `1234 ` of `1234 Signatures`, stripped of its trailing space. */
  lemma StripCountExample(count: string)
    requires count == "1234 "
    ensures Strip(count) == "1234"
  {
    var digits := count[0..4];
    StripCharsPadded(count, Whitespace, 0, 4);
    StripCharsNothing(digits, Whitespace);
  }

  /** The text `1234 Signatures` gives `1234`. */
  lemma SignaturesExample(count: string)
    requires count == "1234 "
    ensures SignaturesOf(count + "Signatures") == "1234"
  {
    StripCountExample(count);
    SignaturesDropsWord(count);
  }

  /** The conditions under which one container yields a record rather than an exception. */
  predicate ItemIsComplete(item: ListingItem) {
    |item.anchors| > 0 && item.anchors[0].href.Some? && item.anchors[0].href.value != [] &&
    item.anchors[0].text.Some? && |item.spans| > 1 && item.spans[1].Some? &&
    ParseDate(Strip(Join(item.paragraphTexts, " "))).Some?
  }

  /** The body of the loop in `parse_petition_list_page`: one container to one
      summary record, raising where the container lacks a node. */
  function ParseListingItem(item: ListingItem): (r: Result<SummaryRecord, ParseError>)
    ensures r.Success? <==> ItemIsComplete(item)
    ensures r.Success? ==> ReferenceNumOf(item.anchors[0].href.value) == Some(r.value.referenceNum)
    ensures r.Success? ==> r.value.url == ItemUrl(r.value.referenceNum)
    ensures r.Success? ==> (r.value.referenceName == [] ||
              (r.value.referenceName[0] !in {'-', ' '} && r.value.referenceName[|r.value.referenceName| - 1] !in {'-', ' '}))
    ensures r.Success? ==> IsMidnight(r.value.closedAt)
  {
    if |item.anchors| == 0 then Failure(MissingNode)
    else
      var a := item.anchors[0];
      if a.href.None? then Failure(MissingText)
      else match ReferenceNumOf(a.href.value)
        case None => Failure(MissingNode)
        case Some(referenceNum) =>
          var referenceName := StripChars(Strip(Join(item.nameTexts, " ")), {'-', ' '});
          if a.text.None? then Failure(MissingText)
          else if |item.spans| < 2 then Failure(MissingNode)
          else if item.spans[1].None? then Failure(MissingText)
          else
            var signatures := SignaturesOf(item.spans[1].value);
            match ParseDate(Strip(Join(item.paragraphTexts, " ")))
            case None => Failure(BadDate)
            case Some(closedAt) =>
              Success(SummaryRecord(referenceName, referenceNum, Strip(a.text.value),
                                    ItemUrl(referenceNum), signatures, closedAt))
  }

  /** Where each remaining field of a summary comes from: the title is the
      anchor's stripped text, the count the span with its word removed, the name
      the joined name nodes stripped of dashes and spaces, and the closing date
      the date read from the joined paragraph text. */
  lemma ListingItemFields(item: ListingItem)
    requires ParseListingItem(item).Success?
    ensures var r := ParseListingItem(item).value;
            r.title == Strip(item.anchors[0].text.value) &&
            r.signatures == SignaturesOf(item.spans[1].value) &&
            r.referenceName == StripChars(Strip(Join(item.nameTexts, " ")), {'-', ' '}) &&
            r.closedAt == ParseDate(Strip(Join(item.paragraphTexts, " "))).value
  {
  }

  /** The records of a sequence of containers, in order; the first container
      that raises decides the outcome. */
  function Summaries(tree: Option<seq<ListingItem>>): Result<seq<SummaryRecord>, ParseError> {
    if tree.None? then Success([]) else Traverse(ParseListingItem, tree.value)
  }

  /** A page yields one record per container, in document order, exactly when
      every container is complete; a page that raises raises the error of its
      first incomplete container; an absent page yields nothing. */
  lemma SummariesInOrder(tree: Option<seq<ListingItem>>)
    ensures tree.None? ==> Summaries(tree) == Success([])
    ensures tree.Some? ==>
              (Summaries(tree).Success? <==> forall i :: 0 <= i < |tree.value| ==> ItemIsComplete(tree.value[i]))
    ensures tree.Some? && Summaries(tree).Success? ==>
              |Summaries(tree).value| == |tree.value| &&
              forall i :: 0 <= i < |tree.value| ==> Summaries(tree).value[i] == ParseListingItem(tree.value[i]).value
    ensures tree.Some? && Summaries(tree).Failure? ==>
              exists k :: 0 <= k < |tree.value| && !ItemIsComplete(tree.value[k]) &&
                          Summaries(tree).error == ParseListingItem(tree.value[k]).error &&
                          forall j :: 0 <= j < k ==> ItemIsComplete(tree.value[j])
  {
    if tree.Some? {
      TraverseInOrder(ParseListingItem, tree.value);
      if Summaries(tree).Failure? {
        TraverseFailsAtFirst(ParseListingItem, tree.value);
      }
    }
  }

  /** `parse_petition_list_page` as written: a loop that appends one record per
      container to `result`, raising on the first incomplete one. */
  method ParsePetitionListPage(tree: Option<seq<ListingItem>>) returns (result: Result<seq<SummaryRecord>, ParseError>)
    ensures result == Summaries(tree)
  {
    if tree.None? {
      return Success([]);
    }
    var rows := tree.value;
    var acc: seq<SummaryRecord> := [];
    var i := 0;
    while i < |rows|
      invariant 0 <= i <= |rows|
      invariant Traverse(ParseListingItem, rows[..i]) == Success(acc)
    {
      var item := ParseListingItem(rows[i]);
      if item.Failure? {
        assert Traverse(ParseListingItem, rows) == Failure(item.error) by {
          assert rows[..i + 1][..i] == rows[..i];
          PrefixFailureIsFinal(ParseListingItem, rows, i + 1);
        }
        return Failure(item.error);
      }
      assert Traverse(ParseListingItem, rows[..i + 1]) == Success(acc + [item.value]) by {
        TraverseSnoc(ParseListingItem, rows, i, acc);
      }
      acc := acc + [item.value];
      i := i + 1;
    }
    assert rows[..i] == rows;
    return Success(acc);
  }
}
