/** scraper.py's `run`: read the listing, read every petition's detail page,
    build its row and store it when its key is new, counting what was added and
    what was skipped. The clock reading and the page fetcher are parameters. */
module Pipeline {
  import opened Wrappers
  import opened Dates
  import opened Records
  import opened Traversal
  import opened Listing
  import opened Detail
  import opened Reconcile
  import opened Gateway

  datatype Counts = Counts(added: nat, skipped: nat)

  /** The row the loop body of `run` builds for one summary: fetch the detail
      page at the summary's URL, parse it, and reconcile the two records. */
  function RowFor(now: DateTime, fetch: string -> Option<DetailPage>): SummaryRecord -> Result<CanonicalRow, ParseError> {
    (item: SummaryRecord) =>
      var url := ItemUrl(item.referenceNum);
      var detail :- ParsePetitionItemPage(item.referenceNum, url, now, fetch(url));
      Success(BuildRows(item, detail))
  }

  /** The rows of every listed petition, or the exception that stops the run. */
  function RowsOf(now: DateTime, fetch: string -> Option<DetailPage>, items: seq<SummaryRecord>): Result<seq<CanonicalRow>, ParseError> {
    Traverse(RowFor(now, fetch), items)
  }

  /** The run stops at the first summary whose detail page cannot be parsed. */
  lemma RowsStopAt(now: DateTime, fetch: string -> Option<DetailPage>, items: seq<SummaryRecord>, i: nat, built: seq<CanonicalRow>)
    requires i < |items| && RowsOf(now, fetch, items[..i]) == Success(built)
    requires RowFor(now, fetch)(items[i]).Failure?
    ensures RowsOf(now, fetch, items) == Failure(RowFor(now, fetch)(items[i]).error)
  {
    assert items[..i + 1][..i] == items[..i];
    PrefixFailureIsFinal(RowFor(now, fetch), items, i + 1);
  }

  /** One more summary whose row could be built. */
  lemma RowsExtend(now: DateTime, fetch: string -> Option<DetailPage>, items: seq<SummaryRecord>, i: nat,
                   built: seq<CanonicalRow>, row: CanonicalRow)
    requires i < |items| && RowsOf(now, fetch, items[..i]) == Success(built)
    requires RowFor(now, fetch)(items[i]) == Success(row)
    ensures RowsOf(now, fetch, items[..i + 1]) == Success(built + [row])
  {
    TraverseSnoc(RowFor(now, fetch), items, i, built);
  }

  /** The clock reading reaches a row only through its `retrieved_at` column:
      read at another time, the same summary yields the same row with only that
      column changed, or fails in both readings. */
  lemma RowForClock(now1: DateTime, now2: DateTime, fetch: string -> Option<DetailPage>, item: SummaryRecord)
    ensures RowFor(now1, fetch)(item).Success? <==> RowFor(now2, fetch)(item).Success?
    ensures RowFor(now1, fetch)(item).Success? ==>
              RowFor(now2, fetch)(item).value == RowFor(now1, fetch)(item).value.(retrievedAt := FormatTimestamp(now2))
  {
    var url := ItemUrl(item.referenceNum);
    ItemPageClock(item.referenceNum, url, now1, now2, fetch(url));
  }

  /** Two runs over the same listing and the same pages, at two clock readings,
      both complete or both stop, and when they complete they build the same
      number of rows with the same key at every position. */
  lemma RowsOfClock(now1: DateTime, now2: DateTime, fetch: string -> Option<DetailPage>, items: seq<SummaryRecord>)
    ensures RowsOf(now1, fetch, items).Success? <==> RowsOf(now2, fetch, items).Success?
    ensures RowsOf(now1, fetch, items).Success? ==>
              var r1, r2 := RowsOf(now1, fetch, items).value, RowsOf(now2, fetch, items).value;
              |r1| == |r2| &&
              forall i :: 0 <= i < |r1| ==> r1[i].referenceNum == r2[i].referenceNum && r1[i].signatures == r2[i].signatures
  {
    TraverseInOrder(RowFor(now1, fetch), items);
    TraverseInOrder(RowFor(now2, fetch), items);
    forall i | 0 <= i < |items|
      ensures RowFor(now1, fetch)(items[i]).Success? <==> RowFor(now2, fetch)(items[i]).Success?
      ensures RowFor(now1, fetch)(items[i]).Success? ==>
                RowFor(now1, fetch)(items[i]).value.referenceNum == RowFor(now2, fetch)(items[i]).value.referenceNum &&
                RowFor(now1, fetch)(items[i]).value.signatures == RowFor(now2, fetch)(items[i]).value.signatures
    {
      RowForClock(now1, now2, fetch, items[i]);
    }
  }

  /** Running the scraper again over an unchanged site, at a later clock reading,
      stores nothing new: every row it builds has a key the first run stored. */
  lemma RerunAddsNothing(table: seq<CanonicalRow>, now1: DateTime, now2: DateTime,
                         fetch: string -> Option<DetailPage>, items: seq<SummaryRecord>)
    requires RowsOf(now1, fetch, items).Success?
    ensures RowsOf(now2, fetch, items).Success?
    ensures var first := Admit(table, RowsOf(now1, fetch, items).value);
            Admit(first, RowsOf(now2, fetch, items).value) == first
  {
    RowsOfClock(now1, now2, fetch, items);
    var r1, r2 := RowsOf(now1, fetch, items).value, RowsOf(now2, fetch, items).value;
    var first := Admit(table, r1);
    AdmitHasEveryKey(table, r1);
    forall k | 0 <= k < |r2|
      ensures HasKey(first, r2[k].referenceNum, r2[k].signatures)
    {
      assert r1[k].referenceNum == r2[k].referenceNum && r1[k].signatures == r2[k].signatures;
    }
    AdmitPresentKeys(first, r2);
  }

  /** `run()`, after the database is open: the listing page is parsed, then each
      summary in turn is completed from its detail page and stored if its key is
      new. An exception ends the run; rows stored before it stay committed. */
  method Run(table: PetitionTable, now: DateTime, listPage: Option<seq<ListingItem>>,
             fetch: string -> Option<DetailPage>) returns (outcome: Result<Counts, ParseError>)
    requires table.Valid()
    modifies table
    ensures table.Valid()
    ensures Summaries(listPage).Failure? ==>
              outcome == Failure(Summaries(listPage).error) && table.rows == old(table.rows)
    ensures Summaries(listPage).Success? && RowsOf(now, fetch, Summaries(listPage).value).Success? ==>
              var items := Summaries(listPage).value;
              outcome.Success? &&
              table.rows == Admit(old(table.rows), RowsOf(now, fetch, items).value) &&
              outcome.value.added + outcome.value.skipped == |items| &&
              |table.rows| == |old(table.rows)| + outcome.value.added
    ensures Summaries(listPage).Success? && RowsOf(now, fetch, Summaries(listPage).value).Failure? ==>
              var items := Summaries(listPage).value;
              outcome == Failure(RowsOf(now, fetch, items).error) &&
              exists k :: 0 <= k < |items| && RowsOf(now, fetch, items[..k]).Success? &&
                          RowFor(now, fetch)(items[k]).Failure? &&
                          table.rows == Admit(old(table.rows), RowsOf(now, fetch, items[..k]).value)
  {
    var summaries := ParsePetitionListPage(listPage);
    if summaries.Failure? {
      return Failure(summaries.error);
    }
    var items := summaries.value;
    var added, skipped := 0, 0;
    var built: seq<CanonicalRow> := [];
    var i := 0;
    while i < |items|
      invariant 0 <= i <= |items|
      invariant RowsOf(now, fetch, items[..i]) == Success(built)
      invariant table.Valid()
      invariant table.rows == Admit(old(table.rows), built)
      invariant added + skipped == i
      invariant |table.rows| == |old(table.rows)| + added
    {
      var item := items[i];
      var url := ItemUrl(item.referenceNum);
      var page := fetch(url);
      var detail := ParsePetitionItemPage(item.referenceNum, url, now, page);
      if detail.Failure? {
        assert RowFor(now, fetch)(items[i]) == Failure(detail.error);
        RowsStopAt(now, fetch, items, i, built);
        return Failure(detail.error);
      }
      var row := BuildRows(item, detail.value);
      var present := table.Exists(row.referenceNum, row.signatures);
      if !present {
        var rowId := table.Insert(row);
        added := added + 1;
      } else {
        skipped := skipped + 1;
      }
      assert RowFor(now, fetch)(items[i]) == Success(row);
      RowsExtend(now, fetch, items, i, built, row);
      AdmitSnoc(old(table.rows), built, row);
      built := built + [row];
      i := i + 1;
    }
    assert items[..i] == items;
    return Success(Counts(added, skipped));
  }
}
