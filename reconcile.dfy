/** scraper.py's `build_rows`: the stored row of one petition, made from the
    detail record with the summary's `reference_name`. */
module Reconcile {
  import opened Wrappers
  import opened Dates
  import opened Records

  /** The keys of the summary's dict, in its order. */
  datatype SummaryKey = ReferenceName | ReferenceNum | Title | Url | Signatures | ClosedAt

  /** The keys the comparison loop of `build_rows` finds different: a key the
      detail record also has (`title` and `reference_name` it lacks) whose values
      differ, other than `principal`. */
  function MismatchedKeys(item: SummaryRecord, detail: DetailRecord): (r: seq<SummaryKey>)
    ensures |r| <= 4
    ensures ReferenceNum in r <==> item.referenceNum != detail.referenceNum
    ensures Url in r <==> item.url != detail.url
    ensures Signatures in r <==> item.signatures != detail.signatures
    ensures ClosedAt in r <==> item.closedAt != detail.closedAt
    ensures ReferenceName !in r && Title !in r
  {
    (if item.referenceNum != detail.referenceNum then [ReferenceNum] else []) +
    (if item.url != detail.url then [Url] else []) +
    (if item.signatures != detail.signatures then [Signatures] else []) +
    (if item.closedAt != detail.closedAt then [ClosedAt] else [])
  }

  /** `build_rows(petition_item, petition_detail)`: every column but
      `reference_name` comes from the detail record, the three timestamps
      rendered with `iso_datetime_format`; the mismatch loop only executes `pass`. */
  function BuildRows(item: SummaryRecord, detail: DetailRecord): (row: CanonicalRow)
    ensures row.referenceName == item.referenceName
    ensures row.url == detail.url && row.referenceNum == detail.referenceNum &&
            row.subject == detail.subject && row.signatures == detail.signatures &&
            row.body == detail.body && row.principal == detail.principal &&
            row.eligibility == detail.eligibility && row.sponsor == detail.sponsor &&
            row.addressedTo == detail.addressedTo
    ensures ParseTimestamp(row.retrievedAt) == Some(detail.retrievedAt)
    ensures ParseTimestamp(row.closedAt) == Some(detail.closedAt)
    ensures ParseTimestamp(row.postedAt) == Some(detail.postedAt)
    ensures |row.retrievedAt| == 25 && row.retrievedAt[19..] == Offset
    ensures |row.closedAt| == 25 && row.closedAt[19..] == Offset
    ensures |row.postedAt| == 25 && row.postedAt[19..] == Offset
  {
    FormatTimestampRoundTrip(detail.retrievedAt);
    FormatTimestampRoundTrip(detail.closedAt);
    FormatTimestampRoundTrip(detail.postedAt);
    CanonicalRow(
      FormatTimestamp(detail.retrievedAt), detail.url, item.referenceName, detail.referenceNum,
      detail.subject, detail.signatures, FormatTimestamp(detail.closedAt), detail.body,
      detail.principal, detail.eligibility, detail.sponsor, FormatTimestamp(detail.postedAt),
      detail.addressedTo)
  }

  /** Whatever the summary disagrees with the detail record on, the row is the
      same: only the summary's `reference_name` reaches it. */
  lemma MismatchesNeverMatter(item: SummaryRecord, other: SummaryRecord, detail: DetailRecord)
    requires item.referenceName == other.referenceName
    ensures BuildRows(item, detail) == BuildRows(other, detail)
  {
  }

  /** The row determines the detail record's three timestamps: distinct
      timestamps give distinct columns. */
  lemma TimestampColumnsInjective(item: SummaryRecord, d1: DetailRecord, d2: DetailRecord)
    requires BuildRows(item, d1) == BuildRows(item, d2)
    ensures d1.retrievedAt == d2.retrievedAt && d1.closedAt == d2.closedAt && d1.postedAt == d2.postedAt
  {
    var r1, r2 := BuildRows(item, d1), BuildRows(item, d2);
    assert ParseTimestamp(r1.retrievedAt) == Some(d1.retrievedAt);
    assert ParseTimestamp(r2.retrievedAt) == Some(d2.retrievedAt);
  }
}
