# Queensland e-petition scrapers, modelled in Dafny

Two scrapers collect petitions from the Queensland Parliament's website.

- `scraper.py` is the Python one. It reads the list of current e-petitions, opens each petition's detail page, and builds one row per petition. It stores a row in an SQLite `data` table unless a row with the same `(reference_num, signatures)` is already there.
- `petitions.rb` is the older Ruby parser. It reads the list table and the item page of the older site layout.

This project models what both do to the texts that their XPath and CSS queries return. It covers:

- the text normalisers: `custom_split`, the newline and whitespace collapse regexes, `normalise_string` and `cache_item_id`;
- the listing and detail post-processing, with its `%d/%m/%Y` dates;
- `build_rows` and the `+10:00` timestamp rendering;
- the keyed table behind `sqlite_petition_row_exists` and `sqlite_petition_row_insert`;
- the counting loop of `run`;
- `get_petitions`, `parse_list_row` and `get_item` of the Ruby parser.

Modules, one per file:

| module | file | what it holds |
|---|---|---|
| `Wrappers` | wrappers.dfy | `Option` (Python's `None`, Ruby's `nil`) and `Result` (an exception the code raises) |
| `Strings` | strings.dfy | whitespace and character classes, `strip`, literal `replace`/`gsub`, `join`, decimal digits and zero padding |
| `Runs` | runs.dfy | `custom_split` (`itertools.groupby` on set membership) and the run-collapsing regex substitutions |
| `Dates` | dates.dfy | `datetime` values, `strptime(s, '%d/%m/%Y')`, and the `%Y-%m-%dT%H:%M:%S+10:00` rendering with its inverse |
| `Normalise` | normalise.dfy | body normalisation, `normalise_string`, `cache_item_id` |
| `Records` | records.dfy | the summary record, the detail record, the stored row, and the parse errors |
| `Traversal` | traversal.dfy | left-to-right loops that stop at the first exception (`Traverse`), skip `nil` results (`Gather`), or concatenate (`Flatten`) |
| `Listing` | listing.dfy | `parse_petition_list_page` |
| `Detail` | detail.dfy | `parse_petition_item_page` |
| `Reconcile` | reconcile.dfy | `build_rows` |
| `Gateway` | gateway.dfy | the `data` table as the class `PetitionTable`: its rows and unique key, `Exists`, `Insert` |
| `Pipeline` | pipeline.dfy | the loop of `run` |
| `RubyText` | ruby_text.dfy | ActiveSupport's `squish`, `String#to_i`, `split('-')[0]`, the `PetNum=` scan |
| `Petitions` | petitions.dfy | `get_petitions`, `parse_list_row`, `get_item` |

The loops that change state step by step are methods with loop invariants. Each is proved equal to a function, and that function's properties are lemmas:

- `ParsePetitionListPage` and `Run` in scraper.py;
- `GetPetitions` and `GetItem` in petitions.rb;
- `Exists` (a counting loop) and `Insert` (proved equal to `Step`) of the table.

An exception becomes a `Failure`. A missing node or attribute becomes an `Option` or a sequence that can be empty. Each parser takes these as its inputs.

Where the code and its documentation differ, the model follows the code. The detail parser has no `None` check, although the listing parser has one (scraper.py:77-78). So a missing detail page is an error that ends the run (`NoPage`) and does not skip the petition.

## Model

| member | source | states |
|---|---|---|
| Runs.CustomSplit | scraper.py:160-161 | the segments concatenate back to the input; every segment is non-empty and lies wholly inside or wholly outside the set; neighbouring segments differ in membership; the first segment starts with the input's first character |
| Runs.UniformIsOneRun | scraper.py:160-161 | a non-empty text wholly inside or wholly outside the set is a single segment |
| Runs.LastRunIsTail | scraper.py:160-161 | a non-empty text of one class (all separators or none) that follows nothing or a character of the other class is the last segment, and a distinct one when something precedes it |
| Runs.CollapsePartsShape | scraper.py:23-24 | collapsing each long-enough run of the class to one class character leaves no two class characters adjacent, keeps the result empty exactly when the input is, and keeps the class of the first character |
| Runs.CollapseRunsNoAdjacent | scraper.py:23-24 | after the substitution, no two characters of the class are adjacent |
| Runs.CustomSplitOfRuns | scraper.py:160-161 | any decomposition into non-empty runs with alternating membership is the one `custom_split` returns, so the split is unique |
| Runs.CollapseRunsOfRuns | scraper.py:23-24 | a substitution over a text made of given runs replaces each run on its own: a run of the class at least `minLen` long becomes the replacement, and every other run is kept |
| Runs.CollapseRunsKeepsOthers | scraper.py:23-24 | the substitution changes only characters of the class: every character outside it survives, in order, and nothing else is added |
| Runs.JoinKeepsOthers | scraper.py:85 | `' '.join(parts)` adds only separators: the characters outside whitespace are those of the parts, in order |
| Normalise.CollapseNewlines | scraper.py:23 | `(\n\|\r)+` replaced by `\n` leaves no two line-break characters adjacent, and keeps every character that is not a line break (and every non-whitespace character) in order |
| Normalise.CollapseWhitespace | scraper.py:24 | `\s{2,}` replaced by a space leaves no two whitespace characters adjacent, and keeps every non-whitespace character in order |
| Normalise.NormaliseBody | scraper.py:115 | the stored body has no two adjacent whitespace characters and no whitespace at either end, and its non-whitespace characters are exactly those of the page text, in order |
| Normalise.CollapseNewlinesExample | scraper.py:115 | `a   b`, two newlines and ` c` becomes `a   b`, one newline and ` c` |
| Normalise.CollapseWhitespaceExample | scraper.py:115 | `a   b`, a newline and ` c` becomes `a b c` |
| Normalise.CollapseExample | scraper.py:115 | the two substitutions, newline first, turn `a   b`, two newlines and ` c` into `a b c` |
| Normalise.NormaliseBodyExample | scraper.py:115 | the stored body of `a   b`, two newlines and ` c` is `a b c` |
| Normalise.BlankDisallowed | scraper.py:157 | same length; each character is kept if it is in `allowed_chars` and otherwise becomes a space |
| Normalise.NormaliseString | scraper.py:151-158 | `None` or `''` gives `''`; every output character is in `allowed_chars` or is a space; neither end is a space |
| Normalise.UnquotedAt | scraper.py:155-156 | the replacements keep the length; `’` becomes `'`, `\n` and `\r` become spaces, and every other character is unchanged |
| Normalise.WhitespaceNotAllowed | scraper.py:27 | no whitespace character is in `allowed_chars` |
| Normalise.StripBlankedShape | scraper.py:157 | stripping the blanked text leaves only allowed characters and spaces, with allowed characters at both ends |
| Normalise.BlankedIsClean | scraper.py:155-157 | blanking after the quote and newline replacements is one per-character map |
| Normalise.BlankAfterStrip | scraper.py:156-157 | the strip before blanking changes nothing once the blanked text is stripped again |
| Normalise.NormaliseStringIsCharMap | scraper.py:151-158 | for a non-empty value, the result is the strip of the per-character map: `’` to `'`, other disallowed characters to spaces |
| Normalise.KeepCacheChars | scraper.py:244 | the kept text is no longer than the input and holds only ASCII digits and letters |
| Normalise.CacheItemId | scraper.py:243-245 | the id holds only ASCII digits and letters, so it never contains `/`, `:`, `?` or `=` |
| Normalise.CacheItemIdIsFilter | scraper.py:243-245 | the id is exactly the digits and letters of the URL in order (the trailing `strip` removes nothing) |
| Normalise.KeepCacheCharsAppend | scraper.py:244 | filtering distributes over concatenation |
| Normalise.CacheItemIdAppend | scraper.py:243-245 | the id of a concatenation is the concatenation of the ids |
| Normalise.CacheItemIdOfCacheChars | scraper.py:243-245 | a text made only of digits and letters is its own id |
| Normalise.CacheItemIdIdempotent | scraper.py:243-245 | taking the id twice gives the same id |
| Strings.Strip | scraper.py:83 | `strip()` returns a text no longer than its input, with no whitespace at either end |
| Strings.StripChars | scraper.py:85 | `strip(chars)` returns a text no longer than its input whose first and last characters are not in the set |
| Strings.StripKeepsOutside | scraper.py:83-85 | stripping removes only characters of the set: every other character survives, in order |
| Strings.StripCharsIsSlice | scraper.py:85 | `strip(chars)` removes a prefix and a suffix made only of those characters |
| Strings.StripCharsUnique | scraper.py:85 | `strip(chars)` is the only such slice whose ends are not in the set |
| Strings.StripCharsPadded | scraper.py:156-157 | padding with stripped characters on both sides does not change the strip |
| Strings.ReplaceLeading | scraper.py:106-107 | `replace` of a prefix that does not occur again removes just that prefix |
| Strings.ReplaceAbsent | scraper.py:106-107 | `replace` of a pattern that does not occur changes nothing |
| Strings.ReplaceAfter | scraper.py:89 | text that cannot start the pattern passes through `replace` unchanged, ahead of the replaced rest |
| Strings.ReplaceChar | petitions.rb:34 | replacing one character by another keeps the length and changes exactly that character |
| Strings.ZeroPad | scraper.py:22 | a zero-padded field has the width asked for, only digits, and reads back as the number |
| Dates.ParseDate | scraper.py:90 | an accepted `%d/%m/%Y` date is a midnight `datetime` |
| Dates.ParseDateSound | scraper.py:102-103 | every accepted text is a one- or two-digit day, `/`, a one- or two-digit month, `/` and a four-digit year of the parsed date |
| Dates.ParseDateComplete | scraper.py:102-103 | every real calendar date written that way parses back to itself |
| Dates.FormatTimestamp | scraper.py:22 | a rendered timestamp has 25 characters and ends in `+10:00` |
| Dates.FormatTimestampRoundTrip | scraper.py:22 | reading a rendered timestamp back gives the same `datetime` |
| Dates.ParseTimestampSound | scraper.py:22 | every text the reader accepts is the rendering of what it reads |
| Listing.ReferenceNumOf | scraper.py:83 | an empty href raises (`IndexError` on `[-1]`) and no other does; the reference has no whitespace at either end |
| Listing.ReferenceNumAfterSeparator | scraper.py:83 | a non-empty separator-free id at the start of the href or after a `/`, `=` or `?` is the reference, stripped |
| Listing.ReferenceNumSeparatorTail | scraper.py:83 | an href ending in a run of `/`, `=` and `?` after a non-separator (or with nothing before it) has that run as its reference |
| Listing.ReferenceNumPlainExample | scraper.py:83 | the href `1234`, with no separator at all, has reference `1234` |
| Listing.ReferenceNumOfItemUrl | scraper.py:83-88 | the reference taken from the detail URL built from an id is that id |
| Listing.ReferenceNumExample | scraper.py:83 | `...petition-details?id=1234` gives `"1234"` |
| Listing.SignaturesOf | scraper.py:89 | the signatures text has no whitespace at either end |
| Listing.SignaturesDropsWord | scraper.py:89 | a count followed by the word `Signatures` gives the count, stripped |
| Listing.StripCountExample | scraper.py:89 | `"1234 "` strips to `"1234"` |
| Listing.SignaturesExample | scraper.py:89 | `"1234 Signatures"` gives `"1234"` |
| Listing.ParseListingItem | scraper.py:82-91 | an item parses exactly when every node it indexes exists and its date parses; the reference comes from the href, the URL is built from it, the name has no `-` or space at either end, and the closing date is at midnight |
| Listing.ListingItemFields | scraper.py:84-90 | the title is the anchor's stripped text, the signatures are the span text without `Signatures`, stripped, the name is the joined name texts stripped of whitespace and then of `-` and space, and the closing date is the one read from the joined paragraph text |
| Listing.SummariesInOrder | scraper.py:74-94 | no tree gives an empty list; otherwise one record per item in document order, or the error of the first item that raises |
| Listing.ParsePetitionListPage | scraper.py:74-94 | the loop's result is `Summaries` |
| Detail.First | scraper.py:97 | `[0]` succeeds exactly on a non-empty node list, and gives its first node |
| Detail.TextOf | scraper.py:106-107 | `.text` succeeds exactly when it is not `None`, and then gives that text |
| Detail.ParagraphText | scraper.py:101-103 | `(p)[k]/text()[0]` succeeds exactly when the paragraph and a text of it exist |
| Detail.DateOf | scraper.py:102-103 | a date field succeeds exactly when `strptime` accepts it, and gives that midnight date |
| Detail.EligibilityOf | scraper.py:106 | the eligibility text has no whitespace at either end |
| Detail.EligibilityDropsLabel | scraper.py:106 | `Eligibility -` and then text not containing it gives that text, stripped |
| Detail.AddressedToOf | scraper.py:107 | the addressee text has no whitespace at either end |
| Detail.AddressedToDropsLabel | scraper.py:107 | `TO:` and then text not containing it gives that text, stripped |
| Detail.PrincipalOf | scraper.py:100 | the principal has no two adjacent whitespace characters and no whitespace at either end, and keeps every non-whitespace character of the blockquote in order |
| Detail.ParsePetitionItemPage | scraper.py:96-123 | no page raises; otherwise the parse succeeds exactly when every node exists and both dates parse; reference, URL and retrieval time are the inputs; dates are at midnight; body and principal have no two adjacent whitespace characters; subject, sponsor and signatures are the stripped node texts; the two dates are those read from the stripped fourth and fifth paragraph texts; body, principal, eligibility and addressee are the normalised node texts |
| Detail.MissingBlockquoteFirst | scraper.py:99-100 | a page without the principal's blockquote raises `IndexError` (`MissingNode`) |
| Detail.ItemPageClock | scraper.py:96-123 | the clock reading is only stored: parsed at another time, a page gives the same exception, or the same record with only `retrieved_at` changed |
| Reconcile.MismatchedKeys | scraper.py:128-131 | a summary key is reported exactly when the detail record has it and the values differ; `reference_name` and `title` are never reported |
| Reconcile.BuildRows | scraper.py:125-149 | `reference_name` comes from the summary and every other column from the detail record; the three timestamps are 25-character `+10:00` renderings that read back to the detail's `datetime`s |
| Reconcile.MismatchesNeverMatter | scraper.py:128-131 | summaries that agree only on `reference_name` give the same row: the comparison loop changes nothing |
| Reconcile.TimestampColumnsInjective | scraper.py:134-145 | equal rows come from equal retrieval, closing and posting times |
| Gateway.CountKey | scraper.py:165-173 | the count is positive exactly when some row has the key |
| Gateway.CountKeyAtMostOne | scraper.py:215-220 | with the unique key, the count is at most one |
| Gateway.AdmitSnoc | scraper.py:49-65 | admitting one more row is one more check-then-insert `Step` after the earlier ones |
| Gateway.StepKeepsUnique | scraper.py:57-59 | checking and then inserting keeps the key unique, keeps the earlier rows unchanged as a prefix, and leaves the key present |
| Gateway.AdmitKeepsUnique | scraper.py:49-65 | admitting a sequence of rows keeps the key unique and the earlier rows as a prefix |
| Gateway.KeyStays | scraper.py:57-59 | a key once present stays present |
| Gateway.AdmitHasEveryKey | scraper.py:49-65 | after a run, every built row's key is in the table |
| Gateway.AdmitPresentKeys | scraper.py:49-65 | rows whose keys are all present add nothing |
| Gateway.AdmitIdempotent | scraper.py:49-65 | admitting the same rows a second time adds zero rows |
| Gateway.PetitionTable.constructor | scraper.py:196-220 | a new table is empty and satisfies the unique key |
| Gateway.PetitionTable.Exists | scraper.py:165-173 | the answer is true exactly when some stored row has the same `(reference_num, signatures)` |
| Gateway.PetitionTable.Insert | scraper.py:175-190 | a duplicate key fails with the constraint violation and changes nothing; otherwise the row is appended after the unchanged earlier rows and its row id is the new row count; the key stays unique |
| Pipeline.RowForClock | scraper.py:34-55 | read at another clock time, a summary's row fails in both readings or is the same row with only `retrieved_at` changed |
| Pipeline.RowsOfClock | scraper.py:34-55 | two runs at different clock times over the same pages both build their rows or both stop, and build the same number of rows with the same key at every position |
| Pipeline.RerunAddsNothing | scraper.py:34-63 | a second run at a later clock time over an unchanged site succeeds and leaves the table as the first run left it |
| Pipeline.RowsStopAt | scraper.py:49-55 | the first summary whose detail page raises ends the run with that error |
| Pipeline.RowsExtend | scraper.py:49-55 | a summary whose row can be built adds that row after the earlier ones |
| Pipeline.Run | scraper.py:42-67 | a list page that raises leaves the table unchanged. Otherwise the table becomes the old rows admitted with the built rows, added plus skipped equals the number of listed petitions, and the table grows by the added count. A detail page that raises keeps the rows committed before it |
| RubyText.Squish | petitions.rb:34 | the squished text has no two adjacent whitespace characters and no whitespace at either end |
| RubyText.SquishKeepsOutside | petitions.rb:34 | `squish` changes only whitespace: every other character survives, in order |
| RubyText.NumeralDigits | petitions.rb:52 | `to_i` reads digits only, and reads some exactly when the text starts with a digit |
| RubyText.NumeralSkipsUnderscore | petitions.rb:89 | in a numeral, one underscore between two digits is skipped and the digits run on |
| RubyText.UnderscoredNumeral | petitions.rb:89 | digit groups joined by single underscores, then text that cannot continue them, read as the digits with the underscores removed |
| RubyText.UnderscoreExample | petitions.rb:89 | `"1_000".to_i` is 1000 |
| RubyText.DoubledUnderscoreStops | petitions.rb:89 | a doubled underscore ends the numeral, so `1__000` reads its first digits only |
| RubyText.RubyToIShowNat | petitions.rb:89 | leading whitespace, a numeral and text that cannot continue it read as that number |
| RubyText.RubyToINegative | petitions.rb:84 | a `-` before the numeral gives the negative number |
| RubyText.RubyToINoNumeral | petitions.rb:52 | text with no sign or digit after its leading whitespace reads as 0 |
| RubyText.BeforeDash | petitions.rb:84 | the field is the prefix before the first `-`, and contains no `-` |
| RubyText.ReferenceBeforeDash | petitions.rb:84 | `"<n>-<title>"` gives reference number n |
| RubyText.DigitPrefix | petitions.rb:65 | the captured digits are the longest digit prefix |
| RubyText.FindPetNum | petitions.rb:65 | there is no match exactly when no `PetNum=` is followed by a digit; a match is the longest digit run after the leftmost `PetNum=` that is followed by a digit |
| RubyText.FindPetNumAt | petitions.rb:65 | when the leftmost `PetNum=` followed by a digit is at k, the scan returns the digit run after it |
| RubyText.FindPetNumAfter | petitions.rb:65 | when no `PetNum=` followed by a digit starts before the one followed by the numeral of n, the scan finds that numeral |
| Petitions.ParseListRow | petitions.rb:77-93 | no cells gives `nil`; one to three cells raise; otherwise name and subject are the first two cells, the reference number is `to_i` of the text before the first `-` of the first cell, signatures is `to_i` of the third cell, and `closed_at` is the fourth cell followed by ` 00:00:00 +10:00` |
| Petitions.ListRowLeadingDash | petitions.rb:84 | a first cell that starts with `-` gives reference number 0, since its first `-`-field is empty |
| Petitions.ListRowNumbers | petitions.rb:83-89 | a first cell `"<n>-<title>"` and a third cell `"<m>"` give reference number n and signatures m |
| Petitions.SkipsEmptyRow | petitions.rb:14-17 | a row without cells contributes nothing |
| Petitions.CompleteRowsAllListed | petitions.rb:13-20 | when every body row has four cells, there is one petition per body row, in order, and the header row is dropped |
| Petitions.ShortRowRaises | petitions.rb:88-90 | a body row with one to three cells makes the whole call raise |
| Petitions.NoBodyNoPetitions | petitions.rb:13 | a table of at most one row gives no petitions |
| Petitions.GetPetitions | petitions.rb:6-21 | the loop's result is `ListedPetitions` |
| Petitions.BodyOf | petitions.rb:34 | the body has no two adjacent whitespace characters and no whitespace at either end, and keeps every character of the description other than whitespace and no-break spaces, in order |
| Petitions.NbspBecomesSpace | petitions.rb:34 | replacing no-break spaces by spaces keeps every character other than whitespace and no-break spaces, in order |
| Petitions.LastValueNone | petitions.rb:42-56 | a label has no value exactly when no row carries it |
| Petitions.LastValueIsLast | petitions.rb:42-56 | when a label repeats, the last row carrying it gives its value |
| Petitions.ApplyRowsTextField | petitions.rb:43-56 | subject, eligibility, sponsor, posting and closing date each hold the stripped second cell of the last row with their label, or stay unset |
| Petitions.ApplyRowsSignatures | petitions.rb:51-52 | signatures is `to_i` of the last `Number of Signatures:` value, or stays unset |
| Petitions.ApplyRowPrincipal | petitions.rb:49-58 | a principal or unrecognised row appends its squished cell and a newline to `principal`; other rows leave it alone; no row touches `body` |
| Petitions.ApplyRowsPrincipal | petitions.rb:35-61 | `principal` gains the lines of the principal and unrecognised rows in row order |
| Petitions.ApplyRowsBody | petitions.rb:35-61 | no row touches `body` |
| Petitions.FirstMailto | petitions.rb:64 | the first `mailto` href is found exactly when one exists, and no earlier href is one |
| Petitions.MailtoHref | petitions.rb:63-64 | succeeds exactly when every anchor has an href and one of them starts with `mailto`, and then gives the first such href |
| Petitions.AddressedToDropsPrefix | petitions.rb:68 | `TO: ` and then a name not containing it gives the name |
| Petitions.MailtoReferenceNum | petitions.rb:63-66 | the reference number exists exactly when the first `mailto` href has a `PetNum=` match, and it is the value of the matched digits |
| Petitions.MailtoReferenceNumSpec | petitions.rb:63-66 | the reference number exists exactly when the first `mailto` href has `PetNum=` followed by a digit somewhere, and it is the value of the digit run after the leftmost such `PetNum=` |
| Petitions.ReadRows | petitions.rb:33-70 | after the rows, `body` is the squished description and `principal` is the stripped concatenation of the principal lines |
| Petitions.ItemOf | petitions.rb:26-73 | the item exists exactly when every row has two cells and the reference number can be read; it holds the read rows, that number and the addressee |
| Petitions.GetItem | petitions.rb:26-73 | the loop's result is `ItemOf` |
| Petitions.ReferenceNumFromMailto | petitions.rb:26-73 | when the first `mailto` href holds `PetNum=` and the numeral of n, with no earlier `PetNum=` followed by a digit and no digit after the numeral, the item's reference number is n |

## Left out

- HTTP fetching, redirects and status checks are not modelled. A fetched page is an `Option` argument, and `Run` takes a `fetch` function.
- lxml and Nokogiri parsing and their XPath and CSS queries are not modelled. Each parser takes the node texts those queries return.
- The file cache (`save_page`, `load_page`) is left out because it is file I/O. Only `cache_item_id` is modelled.
- The SQLite connection, the SQL text, `commit` and `close` are left out. The table is a sequence of rows with the `(reference_num, signatures)` key.
- Insert returns `lastrowid`, modelled as the new row count. This equals it for a table whose rows are never deleted.
- The clock (`datetime.today()`) is a parameter, and console output is left out.
- The module-level `petitions.run()` call is left out.
- scraper.rb is not part of this model.
- Microseconds of the retrieval time are left out. No rendering shows them.
- Python's and Ruby's Unicode whitespace is not modelled, including `\x1c`–`\x1f` and `\x85` for Python and the null character Ruby's `strip` removes. Whitespace is the six ASCII characters space, `\t`, `\n`, `\r`, `\v` and `\f`.
- Dates.ParseDate: strptime's locale handling, and its acceptance of a space before a one-digit day, are not modelled. The day text is always stripped first, so that space cannot occur. The calendar check is the Gregorian one `datetime` applies. Non-ASCII decimal digits, which strptime's `\d` accepts in the day's second place and in the year, are not modelled: `ParseDate` reads only `0`–`9`.
- Dates.FormatTimestamp: years below 1000 are padded to four digits. Python's `strftime` renders `%Y` for such years in a platform-dependent way.
- RubyText.RubyToI: MRI's `to_i` skips a `0d` or `0D` prefix before a base-10 numeral, so `"0d12".to_i` is 12, while `RubyToI` reads `"0d12"` as 0. The model stops at the first character that cannot continue the numeral and treats the prefix like any other letter. The texts it reads here are signature counts and reference numbers that never carry that prefix.
- RubyText.RubyToI: values beyond a machine word need no modelling, because integers are unbounded here as in Ruby.
- The text of `html.css(...).text` for a query with several matches is taken as given. Nokogiri joins the node texts, and that joining is not modelled.
