/** The record shapes of the Python scraper: the summary a listing page yields,
    the full record a detail page yields, the row stored in the `data` table, and
    the exceptions a parser can raise. */
module Records {
  import opened Dates

  /** The exception a page parser raises when the page does not have the shape
      it expects. */
  datatype ParseError =
    | NoPage       // the fetch gave no tree (`None.xpath` raises AttributeError)
    | MissingNode  // an XPath result indexed past its end (IndexError)
    | MissingText  // an attribute or `.text` that is None (TypeError, AttributeError)
    | BadDate      // `strptime` rejected the date text (ValueError)

  /** One entry of the listing page (`parse_petition_list_page`). */
  datatype SummaryRecord = SummaryRecord(
    referenceName: string,
    referenceNum: string,
    title: string,
    url: string,
    signatures: string,
    closedAt: DateTime)

  /** One detail page (`parse_petition_item_page`). */
  datatype DetailRecord = DetailRecord(
    retrievedAt: DateTime,
    url: string,
    referenceNum: string,
    subject: string,
    signatures: string,
    closedAt: DateTime,
    body: string,
    principal: string,
    eligibility: string,
    sponsor: string,
    postedAt: DateTime,
    addressedTo: string)

  /** One row of the `data` table (`build_rows`); every column is text. */
  datatype CanonicalRow = CanonicalRow(
    retrievedAt: string,
    url: string,
    referenceName: string,
    referenceNum: string,
    subject: string,
    signatures: string,
    closedAt: string,
    body: string,
    principal: string,
    eligibility: string,
    sponsor: string,
    postedAt: string,
    addressedTo: string)
}
