# Shopify order sync, modelled in Dafny

`main.py` pulls recent orders from a Shopify store page by page, keeps those
whose tags carry an "MM-DD-YYYY" date within 31 days of today, turns each
into a 17-cell spreadsheet row, works out the fulfilment date from the
row's Date cell, and writes the row to the Google Sheets tab named after
that date. A tab that does not exist yet is copied from a tab titled
"template". Uploads go through a retry wrapper that tries again on
rate-limit errors.

This project models that core as pure functions and proves what it does:

| module | models |
|---|---|
| `Wrappers` | optional values, and the first present value of a list |
| `Text` | the Python string operations used: `strip`, `split`, `join`, `in`, `find`, slicing with negative indices, `replace`, `str(n)` |
| `Calendar` | `datetime.date`: which dates exist, and the day number `toordinal()` gives each |
| `Strptime` | `datetime.strptime` for "%Y-%m-%d" and "%m-%d-%Y" as CPython runs it. That is a regular expression with alternatives tried in order and backtracking, a whole-input check, and a calendar check. Also `strftime` for the same two formats. |
| `Criteria` | `matches_criteria`: the first tag date and the 31-day window |
| `Row` | `format_order_row`: the note-attribute dict, the name, the tray/add-on split, the delivery/pickup choices, and the 17 cells |
| `Canon` | the date canonicalisation inside `main`: '/' becomes '-', "%Y-%m-%d" is tried and then "%m-%d-%Y", and the result is re-rendered as "YYYY-MM-DD" |
| `Pagination` | the paging loop of `fetch_shopify_orders_streaming` and its Link-header parsing |
| `Retry` | `safe_upload` |
| `Sheets` | `upload_to_sheet` and `duplicate_template`, over a spreadsheet modelled as a map from tab title to values |
| `Sync` | the order loop of `main`, both as written and as evidently intended (see Findings) |

The model follows `main.py` as written:
- The row has the 17 columns of the header list at main.py:247.
- A line item is a tray when its rendered text contains "DINNER", "TRAY" or "GIFT". The test is case-sensitive.
- The address cell is the single string built at main.py:124.
- The tag filter only accepts "MM-DD-YYYY". A tag such as "03/07/2025" is never a tag date. Slashes are accepted only later, in the Date cell.

The current day is a parameter, given as a day number. Responses from Shopify
are a sequence of values. Failures of Sheets calls are a set of failing calls.

## Model

| member | source | states |
|---|---|---|
| Wrappers.FirstSomeAt | main.py:99-106 | a present value with only absent values before it is the one the first-match loop stops at |
| Text.Strip | main.py:100 | `str.strip` keeps one contiguous piece of the text. Only whitespace lies outside it, and it neither starts nor ends with whitespace. |
| Text.StripPadded | main.py:118 | stripping recovers any text without outer whitespace from any whitespace padding around it |
| Text.Split | main.py:99 | `str.split` on one character never returns an empty list. No part contains the separator, and joining the parts with it gives the input back. |
| Text.SplitJoin | main.py:86 | the other half of the round trip: splitting the join of separator-free parts gives the parts back |
| Text.SplitAtSeparator | main.py:86 | splitting text at its first separator peels off the part before it |
| Text.ContainsOccurs | main.py:87 | the `in` test on strings holds exactly when the substring occurs at some index |
| Text.Find | main.py:88 | `find` returns the first index holding the character, or -1 exactly when the character is absent |
| Text.SliceBound | main.py:88 | a slice bound inside the text is kept, a negative one counts back from the end, and one beyond either end is clamped to that end |
| Text.PySliceRun | main.py:88 | `s[a:b]` is the run of the text at exactly the indices from `a` up to but not including `b`, in order. A negative bound counts from the end, and indices outside the text are simply absent. |
| Text.ReplaceChar | main.py:265 | `replace` of one character changes exactly the positions holding it and keeps the length, so none of it is left afterwards |
| Text.NatToString | main.py:134-135 | `str(n)` is a non-empty run of digits with no redundant leading zero, and it reads back as `n` |
| Calendar.OrdinalOrder | main.py:112 | day numbers follow calendar order exactly, and two dates share a day number only when they are the same date, so whole-day differences are differences of day numbers |
| Calendar.NextDay | main.py:112 | the next calendar day exists and has the next day number, so day numbers have no gaps |
| Calendar.DaysBeforeYearStep | main.py:112 | each year adds exactly its length (365 or 366 days, by the Gregorian leap rule) to the day count |
| Calendar.IsValid | main.py:103 | the dates `datetime` accepts: years 1 to 9999, months 1 to 12, and a day that exists in its month, February 29 only in leap years. Strptime.Parse promises it of every parsed date. |
| Calendar.Ordinal | main.py:112 | `toordinal()`. Calendar.OrdinalOrder, Calendar.NextDay and Calendar.DaysBeforeYearStep state that it numbers the days consecutively in calendar order. |
| Strptime.Parse | main.py:103 | `strptime` returns only dates that exist in the calendar |
| Strptime.MatchPieces | main.py:103 | a successful match consumes part of the input and captures one group per directive |
| Strptime.ParseFormatYMD | main.py:265-273 | parsing the "%Y-%m-%d" rendering of any date with "%Y-%m-%d" gives that date back |
| Strptime.ParseFormatMDY | main.py:268 | parsing the "%m-%d-%Y" rendering of any date with "%m-%d-%Y" gives that date back |
| Strptime.ParseYMDRejectsMDY | main.py:264-268 | month-first text never parses as "%Y-%m-%d", so the "%m-%d-%Y" fallback is the one that reads it |
| Strptime.TwoCharsForced | main.py:103 | when a month or day group is followed by a digit and then '-', backtracking only succeeds with the two-character group |
| Strptime.ParseShapedMDY | main.py:101-103 | text that starts "DD-DD-DDDD" parses with "%m-%d-%Y" only if it is exactly the zero-padded rendering of the parsed date, so trailing text is rejected. Unpadded fields are left to the pattern test before the parse (Criteria.SkippedExamples). |
| Strptime.Pad2OfValue | main.py:273 | zero-padded two-digit rendering inverts reading two digits |
| Strptime.Pad4OfValue | main.py:273 | zero-padded four-digit rendering inverts reading four digits |
| Strptime.FormatYMD | main.py:273 | `strftime("%Y-%m-%d")` gives ten characters, and Strptime.ParseFormatYMD reads them back as the same date |
| Criteria.TagDate | main.py:100-106 | a tag yields a date only after the pattern test and the parse both succeed, and that date exists |
| Criteria.TagDateExact | main.py:101-103 | a tag yields date `d` exactly when it is the ten-character zero-padded "MM-DD-YYYY" text of `d` |
| Criteria.NonDateSkipped | main.py:105-106 | a tag of any other length, or one whose fields name no real date, is passed over without raising |
| Criteria.SkippedExamples | main.py:101-106 | month 13, February 30, a date with trailing text, and unpadded fields are all passed over |
| Criteria.FirstTagDateAt | main.py:99-104 | the first tag that is a date, with none before it, decides the tag date, and later tags are not looked at |
| Criteria.FirstTagDateWitness | main.py:99-104 | a found tag date always comes from such a first date tag |
| Criteria.MatchesCriteriaIff | main.py:95-113 | an order matches exactly when some stripped tag is a real date in "MM-DD-YYYY" form, no earlier tag is, and that date is at most 31 days from today in either direction |
| Criteria.MatchesWithFirst | main.py:108-113 | once the first tag date is known, the decision is the 31-day window test on it alone |
| Criteria.WindowBoundary | main.py:112-113 | for a single date tag, 31 days either side of today is in and 32 days is out |
| Criteria.FirstDateTagDecides | main.py:99-113 | when a date tag comes first, whatever follows it makes no difference |
| Criteria.NoTagsNoMatch | main.py:99-109 | an order with no "tags" field or empty tags never matches |
| Criteria.MatchesCriteria | main.py:95-113 | `matches_criteria`: the 31-day window test on the first tag date. Criteria.MatchesCriteriaIff states what it decides without the parser. |
| Row.Attributes | main.py:117 | the note-attribute dict has one key per note name and no other, and each key holds the value of the last note with that name |
| Row.LookupLastWins | main.py:117 | looking up a name gives `v` exactly when the last note with that name carries `v`, and gives nothing exactly when no note has that name |
| Row.LaterNoteWins | main.py:117 | a later note overrides an earlier one with the same name |
| Row.Attrs | main.py:117 | the dict of an order's note attributes, with a missing "note_attributes" read as no notes. Row.Attributes and Row.LookupLastWins state its keys and values. |
| Row.CustomerName | main.py:118 | the name is the first name, one space and the last name (a missing part read as empty text) with its outer whitespace removed: a contiguous piece of that text with only whitespace outside it, neither starting nor ending with whitespace |
| Row.NameInnerSpaceKept | main.py:118 | whitespace inside the joined name is kept: "Jane " and "Doe" give "Jane  Doe" |
| Row.NameBothParts | main.py:118 | with both parts given, the name is first and last name joined by one space |
| Row.NameFirstOnly | main.py:118 | a missing last name leaves no trailing space |
| Row.NameLastOnly | main.py:118 | a missing first name leaves no leading space |
| Row.NameNeitherPart | main.py:118 | a customer with neither name part gets an empty name |
| Row.AddressText | main.py:123-124 | the address cell, with each missing part read as empty text. Row.AddressCellEnds and Row.MissingAddressCell state its shape. |
| Row.AddressCellEnds | main.py:124 | the address cell opens with the name and two spaces and closes with " US, Phone: " and the phone number |
| Row.MissingAddressCell | main.py:123-124 | an order without a shipping address still gets an address cell: the name and the fixed separators around empty parts |
| Row.Filter | main.py:120-121 | list comprehension with a test keeps exactly the items that pass, and no more items than there were |
| Row.AddonsAreNonTrays | main.py:121 | the "not in trays" test picks exactly the items without a keyword |
| Row.TraysAddonsPartition | main.py:120-121 | every item lands in exactly one of trays and add-ons, and together they hold each item as often as the order does |
| Row.TraysAddonsOrder | main.py:120-121 | both lists keep the line items' order |
| Row.TrayByTitle | main.py:119-120 | the "q x " prefix cannot create a keyword, so an item is a tray exactly when its title contains one |
| Row.ItemColumns | main.py:119-150 | the Trays, Add-ons and All Items cells are the keyword items, the other items, and all items, each joined by "; " |
| Row.DeliveryOrPickup | main.py:126-146 | the row is a delivery row exactly when some note is named "Delivery-Location-Id", and a pickup row otherwise |
| Row.TimeFallback | main.py:126-140 | a delivery row shows the delivery time, with an empty cell when there is none. A pickup row shows the pickup time, or "N/A" when that is missing or empty. |
| Row.DeliveryValuesFirst | main.py:139-145 | the Date and Location cells prefer a non-empty delivery value and otherwise show the pickup value |
| Row.Cells | main.py:133-151 | a row has one cell per header, and the named column positions hold the headers "Date", "Time", "Location" and "Pickup / Delivery". The Date, Time and Location cells carry the computed values, the Pickup / Delivery cell is the mode text, and only the Date, Time and Location cells can be empty (None). |
| Row.FormatRow | main.py:116-151 | the row of an order has the header's length, and its Date cell is the computed date value |
| Row.FormatOrder | main.py:116-151 | the values `format_order_row` computes. Row.ItemColumns, Row.DeliveryOrPickup, Row.TimeFallback and Row.DeliveryValuesFirst state them. |
| Canon.ParseEither | main.py:264-271 | the fallback parse returns only dates that exist |
| Canon.Canon | main.py:258-273 | an empty or missing Date cell is skipped. Any tab title produced is the ten-character "YYYY-MM-DD" rendering of a real date. |
| Canon.CanonFixedPoint | main.py:265-273 | a tab title canonicalises to itself |
| Canon.CanonIdempotent | main.py:258-273 | canonicalising a tab title again changes nothing |
| Canon.CanonMonthFirst | main.py:264-273 | month-first "MM-DD-YYYY" text lands on the tab of the same date |
| Canon.CanonSlashes | main.py:265-268 | writing '/' instead of '-' as the separator makes no difference to the tab |
| Canon.CanonSlashedYMD | main.py:265-273 | "YYYY/MM/DD" lands on the same tab as "YYYY-MM-DD" |
| Canon.CanonSlashedMDY | main.py:264-273 | "MM/DD/YYYY" lands on the same tab as "YYYY-MM-DD" |
| Canon.ReplaceRoundTrip | main.py:265 | replacing one character by another that was absent, and back, restores the text |
| Canon.NoDigitSkipped | main.py:264-271 | text that does not start with a digit is skipped rather than raising |
| Canon.CanonDashExamples | main.py:264-273 | "2025-03-07" and "03-07-2025" both land on tab "2025-03-07" |
| Canon.CanonSlashExamples | main.py:264-273 | "2025/03/07" and "03/07/2025" both land on tab "2025-03-07" |
| Canon.CanonFreeTextExample | main.py:269-271 | free text such as "soon" is skipped |
| Pagination.TargetsNone | main.py:85-90 | the Link parts yield no next URL exactly when none of them mentions `rel="next"` |
| Pagination.NextLinkFirstMarked | main.py:86-90 | otherwise the next URL comes from the first part that mentions it, and later parts are not looked at |
| Pagination.LinkTarget | main.py:87-89 | what one Link part yields: the decoded text between its first '<' and first '>' when it mentions `rel="next"`. Pagination.NextPartTarget, Pagination.UnbracketedPartTarget and Pagination.UnmarkedPartSkipped state its cases. |
| Pagination.UnbracketedPartTarget | main.py:87-89 | a part that mentions `rel="next"` but holds neither '<' nor '>' makes both `find` calls give -1, so the slice is `part[0:-1]`, and the link is the decoded part without its last character |
| Pagination.NextLink | main.py:84-91 | the next URL of a Link header: the target of the first part that mentions `rel="next"`. Pagination.TargetsNone and Pagination.NextLinkFirstMarked state it. |
| Pagination.Fetch | main.py:71-91 | the orders yielded are the pages of the requested responses, joined in order. Every response but the last let the loop continue, and the next URL requested is the one it announced. The last response says why the loop stopped: a failed status, an empty page, or no next link. |
| Pagination.FetchIgnoresLaterResponses | main.py:71-91 | the loop reads no response after the one that stopped it |
| Pagination.NextPartTarget | main.py:87-89 | a part `<u>; rel="next"` yields the decoded `u` |
| Pagination.SingleNextLink | main.py:84-91 | a header that is a single next link names that link |
| Pagination.UnmarkedPartSkipped | main.py:86-87 | a part that does not mention `rel="next"` is passed over |
| Pagination.FirstNextLinkWins | main.py:86-90 | the first next link wins, and what follows it is not looked at |
| Pagination.SinglePage | main.py:71-91 | a single non-empty page without a Link header is yielded after one request, and the loop ends |
| Pagination.FirstRequestFails | main.py:72-75 | a failed first request yields nothing, however many pages would follow |
| Retry.SafeUpload | main.py:191-201 | at most `retries` calls are made, and every call but the last raised a rate-limit error. The loop returns right after a successful call and re-raises any other error at once. When every attempt hits the rate limit it returns without raising. |
| Retry.FirstDecisiveAttempt | main.py:192-201 | the first attempt that is not a rate-limit error decides the outcome, and no call is made after it |
| Retry.AllRateLimited | main.py:192-199 | when every attempt hits the rate limit, all attempts are used and nothing is raised |
| Retry.RealCalleeCalledOnce | main.py:186-195 | `upload_to_sheet` catches all its errors, so `safe_upload` calls it exactly once |
| Retry.NoBudgetNoCall | main.py:192 | with no retries allowed, no call is made |
| Retry.MessageKinds | main.py:197 | a "RATE_LIMIT_EXCEEDED" or "Quota exceeded" message is a rate limit, and a "404 not found" message is not |
| Retry.LimitsThenSuccess | main.py:192-199 | `k` rate-limit errors followed by success, within budget, take `k + 1` calls |
| Retry.TwoLimitsThenSuccess | main.py:191-199 | with the default budget, two rate-limit errors and then success take three calls |
| Retry.OtherErrorRaisedAtOnce | main.py:200-201 | any other HttpError is raised after the first call |
| Retry.SameLimitThroughout | main.py:192-199 | the same rate-limit message on every call uses up the budget without raising |
| Retry.QuotaExhausted | main.py:191-199 | three quota errors in a row give up without raising |
| Sheets.DuplicateTemplate | main.py:203-237 | without a "template" tab nothing changes. Otherwise, when no call fails, the new tab is a copy of the template. Other tabs are never touched. A failing rename leaves an untitled copy behind and raises. |
| Sheets.UploadToSheet | main.py:157-189 | only the target tab can change, and it can only be created when the template exists. Without failures it ends up holding exactly the rows. Otherwise it holds the rows, nothing, its old values, or a copy of the template. At most one untitled copy is added, and nothing is ever raised. |
| Sheets.UploadReadsBack | main.py:163-183 | without failures, the rows written are what the tab reads back, whether the tab existed or was copied |
| Sheets.UploadIdempotent | main.py:157-183 | uploading the same rows twice is the same as uploading them once |
| Sheets.LastUploadWins | main.py:169-183 | the later of two uploads to a tab decides its contents |
| Sheets.UploadsCommute | main.py:157-183 | uploads to two different tabs, neither of them the template, can happen in either order |
| Sheets.FailedWriteLeavesTabEmpty | main.py:169-183 | a write that fails after the clear succeeded leaves the tab empty |
| Sync.Judge | main.py:255-277 | an order is ignored exactly when it does not match. A matching order is skipped only when its Date cell has no canonical form. Otherwise it is written, with its own row, to the ten-character tab its Date cell canonicalises to, and never to the template. |
| Sync.PerOrder | main.py:250-277 | the loop counts every match, including skipped ones. Tabs are only ever added, the template is left unchanged, and no untitled copies are left behind. |
| Sync.PerOrderTab | main.py:251-277 | after the loop as written, a tab holds the header and only the row of the last order written to it |
| Sync.UploadDaysTab | main.py:284-288 | uploading a set of date tabs leaves each holding exactly its rows and every other tab unchanged, in whatever order the dates are uploaded |
| Sync.UploadDays | main.py:284-288 | the final upload loop, one upload per date. Sync.UploadDaysTab states its result. |
| Sync.SyncAsWritten | main.py:241-288 | `main` as written: `rows_by_day` is never filled, so the final loop writes nothing and the result is what the per-order loop left |
| Sync.BucketRows | main.py:246-287 | grouping by date puts exactly the rows written to each date under one header row, in stream order |
| Sync.Bucket | main.py:246 | the corrected `rows_by_day`: each date's rows after one header row. Sync.BucketRows states its contents. |
| Sync.Days | main.py:285 | the dates uploaded are exactly the dates with rows, and the template is never one of them |
| Sync.BatchedTab | main.py:246-288 | after the corrected loop, a tab holds the header and then the rows of every order written to it, in stream order |
| Sync.AsWrittenTab | main.py:251-288 | after `main` as written, a tab holds the header and only the last order's row |
| Sync.AgreeWhenOneOrderPerDay | main.py:246-288 | the two versions agree on every date with at most one order, so rows are lost only when two orders share a date |
| Sync.SameDayOrderLost | main.py:277 | of two orders written to one tab, the loop as written keeps only the second row, and the corrected loop keeps both |
| Sync.PickupOrderWritten | main.py:255-277 | a pickup order tagged with its own date is written, with its row, to that date's tab |
| Sync.TwoPickupsSameDay | main.py:246-288 | two pickup orders for the same day leave that tab with the header and the second order's row only. The first order's row does not appear in that tab, and the corrected loop writes both. |

## Left out

- The OAuth setup, the base64 credential files and the configuration constants (main.py:1-51) are not modelled. They are I/O and third-party authentication.
- Building the first URL (main.py:60-69) is not modelled, because it depends on the clock. The first URL is a parameter of `Pagination.Fetch`.
- HTTP, the JSON decoding and the Sheets wire protocol are not modelled. Responses are values, and each Sheets call either succeeds or is in the set of failing calls.
- `urllib.parse.unquote` is not modelled. It is a function parameter.
- `print`, `time.sleep` and the progress messages are not modelled. They have no effect on the data.
- Pagination.Fetch: the responses are a finite sequence, so the model has an extra stop reason, OutOfResponses, for running out of answers. The program has no such stop.
- Pagination.NextPartTarget: it is only stated for URLs without ',' '<' or '>'. A URL holding a comma would be cut by the Link split, as in the program.
- Row.FormatRow: JSON `null` values, and values that are not strings, are not modelled. Ids and quantities are natural numbers.
- Row.FormatRow: an "id", `customer` or `line_items` that is missing is a precondition (the program raises KeyError). The exception path is not modelled.
- Sync.Verdicts: every order is judged against one day number, while `matches_criteria` reads `datetime.now()` afresh for each order (main.py:112). A run that crosses midnight is not modelled.
- Row.Attributes: a note attribute without "name" or "value" (main.py:117), or a line item without "quantity" or "title" (main.py:119), raises KeyError. The datatypes make these fields mandatory, so that error path is not modelled.
- Sync.Judge: orders without "order_number" are excluded by a precondition, because the program raises KeyError on them at main.py:252.
- Strptime.Parse: only ASCII digits are modelled. Python's regular expressions also accept other Unicode decimal digits, which is not modelled.
- Strptime.FormatYMD: years are always padded to four digits. Python's `strftime("%Y")` does not pad years below 1000 on some platforms. No order date of that kind is modelled.
- Sheets.DuplicateTemplate: the titles the service gives unrenamed copies are not modelled. Such copies are kept as untitled values.
- Sync.SyncAsWritten: every Sheets call is taken to succeed. Failures are modelled per upload in `Sheets.UploadToSheet` and `Retry.SafeUpload`.
- Sync.SyncBatched: uploads happen in the order each date was first seen, rather than sorted by date. `Sync.UploadDaysTab` shows the final tabs do not depend on that order.
- Sync: the progress output of main.py:252-253 and the final count message are not modelled.

## Findings

| source | as written | input that shows it | evidently intended | confidence | as-written member | corrected member |
|---|---|---|---|---|---|---|
| main.py:246-288 | `rows_by_day` is never filled. Each matching order instead overwrites its date's tab with the header and its own row, so every order but the last for a date is lost. | two pickup orders tagged with the same date, with that date as their Pickup-Date | group the rows by date, then write each date's tab once, with the header and all its rows | medium, not executed | Sync.TwoPickupsSameDay | Sync.BatchedTab |
