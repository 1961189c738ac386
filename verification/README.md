# Nubank feed to Google Sheets ledger: a Dafny model

This project models the reconciliation core of a small service. The service
reads the Nubank card statement and account feed, keeps the entries dated
today, and appends them as rows to the current month's sheet of a Google
spreadsheet. Two versions of the code exist, and the model covers both:

- `main.py` writes two ledgers. The credit ledger has four columns,
  `[description, amount, title, date]`, in block `I6:L`. The transfer ledger
  has four columns, `[title, destination, value, post date]`, in block `N6:Q`.
- `app/main.py` is the older version. It writes one three-column credit
  ledger, `[description, amount, title]`, in block `I6:K`.

The model is built from these modules:

- **Outcomes.** The Python exceptions the code can raise (`IndexError`,
  `ValueError`, `TypeError`, `decimal.InvalidOperation`). Also a result type,
  and `Classified`, which is what one feed entry turns into: a row, an
  exclusion, or a failure.
- **Text.** The Python string operations the code uses: `in`, `split`, `join`,
  `lower` and slicing with negative bounds.
- **Numerals.** `str(int)`, `int(str)`, and the part of `decimal.Decimal(str)`
  that the code reaches.
- **Amounts.** `parse_value`, plus a corrected version.
- **Dates.** `split_date`, `strftime("%d-%m-%Y")` and `get_current_date_br`.
- **Scan.** The for/break loop that every collector runs over a newest-first
  feed. It comes with a declarative description of what the loop returns.
- **Transfers.** `resolve_values` and `collect_transfer`.
- **Credit.** The four-column `collect_values`.
- **Legacy.** The three-column `collect_values` and `get_bill_info` of
  `app/main.py`.
- **Sheets.** The range strings and the append request.
- **Pipeline.** `cardbill`.

Where the code needs something from outside, the model takes it as a
parameter:

- The two feeds are sequences of records.
- The clock is a `DateTime` reading in the Sao Paulo time zone.
- The currency formatter is a function `fmt` from the amount's decimal value
  to text. In `main.py` this is Babel's `format_currency`; in `app/main.py` it
  is `locale.currency`.
- The month-name table is a sequence of twelve names.

Some behaviours of the code matter for everything below, and the model keeps
them as the code has them:

- **A credit failure stops the transfer ledger.** In `cardbill`, an
  exception in `collect_values` ends the request before the account feed is
  even read, so the transfer ledger is never written.
  `Pipeline.CardBillCreditFirst` states this.
- **The clock is read three times.** `cardbill` reads the clock in
  `collect_values`, in `collect_transfer`, and for the month.
  `Pipeline.CardBill` therefore takes three clock readings.
  `Pipeline.CardBillFixed` takes one.
- **Errors are Python exceptions.** The model uses the exceptions the code
  raises, such as `InvalidOperation` and `IndexError`.
- **The NuPay destination.** The NuPay branch reads the destination from the
  title after it has been replaced by "NuPay" (see Findings). The corrected
  branch reads it from the original `feed_event["title"]`, with its case
  kept, and cuts it only once at the first "em ". For "Compra em Loja via
  NuPay" it yields "Loja".

## Model

| member | source | states |
|---|---|---|
| Text.FindFrom | main.py:103-105 | `sub in s`: the occurrence found is the leftmost one at or after the start, and no occurrence lies before it |
| Text.SplitJoin | main.py:175 | joining the pieces of `s.split(sep)` with `sep` gives `s` back: split loses nothing |
| Text.SplitPiecesAvoidSep | main.py:175 | no piece of `s.split(sep)` contains the separator |
| Text.SplitAtFirst | main.py:107 | splitting `p + sep + r`, where the first separator is the one after `p`, yields `p` followed by the pieces of `r` |
| Text.SplitOnce | main.py:107 | `s.split(sep, 1)`: one or two pieces, two exactly when `sep` occurs; joining them with `sep` gives `s` back, and the first holds no `sep` |
| Text.SplitOnceSplit | main.py:107 | the one-cut split keeps the first piece of the full split and joins all the others into its second |
| Text.PyJoin | main.py:133 | `sep.join(items)` raises TypeError exactly when some item is an int; otherwise it joins the strings in order |
| Text.LowerFindsAnyCase | main.py:101-103 | a stretch of the title that lowers to a marker makes the marker a substring of the lowered title, whatever its case |
| Text.Clamp | main.py:170-171 | Python's normalisation of a slice bound: negative bounds count from the end, and out-of-range bounds are clamped |
| Text.LeadAbsent | main.py:107 | a needle whose first character is missing from every possible start position does not occur |
| Text.MissingCharAbsent | main.py:107 | a needle with a character the text lacks does not occur in it |
| Numerals.NatStr | main.py:169 | `str(n)` of a natural number is a non-empty string of digits, one digit exactly when n < 10 |
| Numerals.ParseInt | main.py:176 | `int(s)` fails only with ValueError |
| Numerals.ParseIntStr | main.py:169 | `int(str(n)) == n` for every int |
| Numerals.ParseIntZeroPad | main.py:141-142 | `int` reads a zero-padded `strftime` field back as its number |
| Numerals.DigitsValueAppend | main.py:126 | the value of the digits `a + b` is the value of `a` shifted by `len(b)` places, plus the value of `b` |
| Numerals.UnsignedDecimalPoint | main.py:126 | `Decimal("a.b")` for digit strings has coefficient `ab` and `len(b)` places |
| Numerals.DecimalTextNegative | main.py:126 | a leading minus negates the decimal that follows it |
| Amounts.ParseValueInsertsOnePoint | main.py:168-171 | `parse_value(n)` holds exactly one point, and deleting it gives back `str(n)` |
| Amounts.ParseValueDenotesCents | main.py:168-171 | for \|n\| >= 10 the text is read by `Decimal` as exactly n / 100 |
| Amounts.ParseValueSingleDigitTenfold | main.py:168-171 | for 0 <= n <= 9 the text is ".d", which denotes n / 10, ten times the amount (same code in app/main.py:108-111) |
| Amounts.ParseValueNegativeDigitRejected | main.py:168-171 | for -9 <= n <= -1 the text is ".-d", which `Decimal` rejects |
| Amounts.ParseValueCentsDenotesCents | main.py:168-171 | the corrected conversion denotes exactly n / 100 for every amount |
| Amounts.ParseValueCentsAgrees | main.py:168-171 | from three digits on, the corrected conversion writes the same text as the original |
| Dates.ParseFields | main.py:176 | `map(int, fields)` consumed in full gives the ints in order, or ValueError exactly when some field is no numeral |
| Dates.Unpack3 | main.py:122 | unpacking into three names succeeds exactly when there are three values, in order; otherwise it raises ValueError, or the error of the values themselves |
| Dates.OnDay | main.py:122-124 | an entry is dated today exactly when its fields are (year, month, day) of the window; the test raises exactly when the fields do not parse as three ints |
| Dates.CurrentDateBr | main.py:139-142 | `get_current_date_br` returns the clock's (day, month, year), in that order |
| Dates.CurrentDateBrRoundTrip | app/main.py:79-82 | splitting the `%d-%m-%Y` text of the clock yields [day, month, year] |
| Dates.SplitDateIso | main.py:174-176 | an ISO timestamp `YYYY-MM-DDT...` splits into [year, month, day], whatever the time part holds |
| Dates.SplitDateIgnoresTime | app/main.py:114-116 | `split_date` ignores everything from the first `T` on |
| Dates.DatePartIdempotent | main.py:175 | the date part holds no `T`, so taking it again changes nothing |
| Scan.Collect | main.py:85-97 | the loop returns at most one row per feed entry |
| Scan.Kept | main.py:91-95 | keeping the rows of the non-excluded entries never adds rows |
| Scan.CollectStops | main.py:85-97 | when entries 0..k-1 are dated today and do not fail, and entry k (if any) is dated another day, the result is the rows of the non-excluded entries among the first k, in feed order |
| Scan.CollectFails | main.py:91-95 | when the scan reaches an entry that raises, the whole call raises that exception and the rows gathered so far are lost |
| Scan.CollectOutcome | main.py:85-97 | every result is one of the two cases above |
| Scan.CollectIgnoresTail | main.py:89-90 | entries after the first one dated another day are never read: any tail gives the same result |
| Scan.CollectSkipsExcluded | main.py:94-95 | an excluded entry dated today can be removed from the feed without changing the result |
| Scan.CollectRowSource | main.py:85-97 | each returned row is the row of some feed entry dated today |
| Scan.KeptSource | main.py:91-93 | each kept row is the row of some entry |
| Scan.KeptSkipsExcluded | main.py:94-95 | an excluded entry contributes no row and does not disturb the rows around it |
| Scan.KeptAllRows | main.py:91-93 | when nothing is excluded, the rows match the entries one for one |
| Scan.CollectAgrees | main.py:91-93 | two row builders that agree on every entry give the same result |
| Scan.StopMissesNothing | main.py:121-124 | in a feed where today's entries come first, the scan misses none of them |
| Transfers.Resolve | main.py:100-113 | an event is excluded exactly when its lowered title contains "recebida"; this test comes before the NuPay test |
| Transfers.ResolveFixed | main.py:100-113 | the corrected classifier excludes exactly the same events |
| Transfers.ReceivedAnyCase | main.py:101-104 | a title holding "recebida" in any mix of cases is excluded, even if it also mentions NuPay |
| Transfers.NuPayAlwaysFails | main.py:105-107 | as written, every NuPay event that is not excluded raises IndexError |
| Transfers.NuPayRow | main.py:105-108 | a destination that raises makes the NuPay row raise the same error; the row is never an exclusion |
| Transfers.DestinationWithoutEm | main.py:107 | a title without "em " has no second piece, so the destination raises IndexError, as written and corrected |
| Transfers.DestinationAsWrittenCuts | main.py:107 | as written, for any title, the destination is the text after the first "em " up to the next "em ", then cut at its first " via" |
| Transfers.BemEstarAsWritten | main.py:107 | as written, "Compra em Bem Estar via NuPay" gives destination "B" |
| Transfers.DestinationBetween | main.py:107 | corrected: the destination is the text between the first "em " and the first " via" after it, even when that text contains "em " |
| Transfers.DestinationWithoutVia | main.py:107 | corrected: with no " via" after the first "em ", the destination is all the rest of the title |
| Transfers.DestinationAgrees | main.py:107 | when no second "em " follows the first, the corrected destination equals the expression as written |
| Transfers.BemEstarFixed | main.py:107 | corrected: "Compra em Bem Estar via NuPay" gives destination "Bem Estar" |
| Transfers.NuPayFixedRow | main.py:105-108 | corrected: a title `p` "em " `d` " via" `q`, cut at its first "em " and its next " via", yields the row ["NuPay", d, detail line 1, post date], or IndexError if the detail has one line; `d` may contain "em " |
| Transfers.NuPayExample | main.py:105-108 | "Compra em Loja via NuPay" with detail "x\n42.00" raises IndexError as written; corrected, it yields ["NuPay", "Loja", "42.00", post date] |
| Transfers.GenericBranch | main.py:109-113 | a generic transfer yields [lowered title, detail line 0, detail line 1, post date] when the detail has a line break, and IndexError otherwise |
| Transfers.TwoLines | main.py:110-111 | a detail of two lines splits into exactly those lines |
| Transfers.GenericTwoLines | main.py:110-111 | the detail "a\nb" gives destination a and value b |
| Transfers.CollectTransfer | main.py:81-97 | at most one row per event |
| Transfers.CollectTransferFixed | main.py:81-97 | the corrected collection also gives at most one row per event |
| Transfers.CollectTransferStops | main.py:85-97 | the rows are those of the non-excluded events of the longest prefix posted today, in order, and never more than that prefix |
| Transfers.CollectTransferAborts | main.py:91-95 | only the exclusion is caught: a NuPay event posted today ends the collection with IndexError |
| Transfers.CollectTransferSkipsReceived | main.py:94-95 | a "recebida" event posted today is skipped without ending the scan |
| Transfers.CollectTransferIgnoresTail | main.py:89-90 | events after the first one posted on another day are never read |
| Transfers.CollectTransferRowShape | main.py:92-93 | every row has four cells, and its last cell is a post date that reads as today |
| Transfers.CollectTransferFixedRowShape | main.py:92-93 | the same holds with the corrected classifier |
| Transfers.CollectTransferFixedAgrees | main.py:105-107 | for a feed without NuPay events, the correction changes nothing |
| Credit.AmountOfParses | main.py:126 | `Decimal(parse_value(n))` raises InvalidOperation exactly for -9..-1; otherwise it is n with two places, or n with one place for a single digit |
| Credit.BillRowFails | main.py:125-134 | as written, every bill whose date splits into three ints raises at line 133 (TypeError), or earlier with InvalidOperation for a negative single digit |
| Credit.CollectValues | main.py:116-136 | at most one row per bill |
| Credit.CollectValuesNoRows | main.py:121-136 | as written, `collect_values` never returns a row: it returns [] or raises |
| Credit.CollectValuesFirstBill | main.py:121-136 | an empty feed, or a first bill dated another day, gives []; a first bill dated today makes the call raise |
| Credit.CollectValuesFixed | main.py:116-136 | the corrected collection also gives at most one row per bill |
| Credit.BillRowFixedCells | main.py:128-134 | corrected: each bill yields [description, fmt(amount / 100), title, date part of the timestamp], and the date cell reads as the bill's own date |
| Credit.CollectValuesFixedRows | main.py:121-136 | corrected: one row per bill of the longest prefix dated today, in feed order |
| Credit.CollectValuesFixedDates | main.py:133 | corrected: every row has four cells, and its date cell reads as today |
| Credit.CollectValuesFixedNeverFails | main.py:121-136 | corrected: a feed whose every timestamp splits into three ints never raises |
| Legacy.LegacyRowCells | app/main.py:69-75 | a bill yields [description, fmt(amount / 100), title]; a single digit yields fmt(amount / 10), and a negative single digit raises InvalidOperation |
| Legacy.CollectValuesLegacy | app/main.py:60-76 | at most one row per bill |
| Legacy.CollectValuesLegacyRows | app/main.py:65-75 | one three-cell row per bill of the longest prefix dated today, in feed order |
| Legacy.CollectValuesLegacyEmpty | app/main.py:61-76 | an empty feed, or a first bill dated another day, gives [] |
| Legacy.CollectValuesLegacyIgnoresTail | app/main.py:65-68 | bills after the first one dated another day are never read, even if they are dated today |
| Legacy.GetBillInfoFits | app/main.py:37-50 | the request targets block I6:K of the month of the second clock reading, and every row fills its three columns |
| Sheets.ColumnNumber | main.py:71 | a column letter names a column between A = 1 and Z = 26 |
| Sheets.ParseRangeOf | main.py:53 | `<sheet>!<block>` reads back as the sheet and the block |
| Sheets.BlockSix | main.py:71 | `<c>6:<d>` is the block from column c to column d, starting at row 6 |
| Sheets.CurrentRanges | main.py:53-71 | credit goes to I6:L and transfers to N6:Q of the same month's sheet: four columns each, and the two blocks are disjoint |
| Sheets.LegacyRange | app/main.py:50 | the older layout appends to I6:K: three columns |
| Pipeline.CardBillCreditFirst | main.py:36-37 | an exception while collecting credit rows ends the request, whatever the account feed holds; a transfer exception ends it next |
| Pipeline.CardBillAsWritten | main.py:30-42 | as written, a request that goes out carries no credit rows; transfer rows go to N6:Q of the month's sheet, four cells each |
| Pipeline.CardBillFixedRequests | main.py:30-42 | with one clock reading and the corrections, both requests target the month of the filtered day, every row fills its block, and every credit date cell reads as that day |

## Left out

- HTTP endpoints and server start-up (`health`, the FastAPI routes, `uvicorn.run`): request plumbing with no logic of its own.
- Nubank authentication and the feed calls `get_card_statements` / `get_account_feed`: a network client. The feeds are input sequences.
- The Google Sheets call `append(...).execute()`: a remote side effect. The model builds the request (range, rows, value input option) and stops there, so append failures and the append results are not modelled.
- `resolve_credentials` and `google.auth.default`: OAuth and token-file I/O.
- `datetime.now(tz=ZoneInfo("America/Sao_Paulo"))`: the clock reading is a parameter, with the field ranges a Python `datetime` guarantees.
- Babel `format_currency` and `locale.currency`: locale-dependent formatting, modelled as an uninterpreted function of the amount's value.
- Babel's and `calendar`'s month-name tables: a parameter holding twelve names. The range lemmas assume the names contain no `!`.
- Dictionary lookups on feed entries (`bill["time"]` and the like): records always carry their fields, so a missing key (KeyError) is not modelled.
- Numerals.ParseInt: accepts only an optional sign followed by ASCII digits. Python's `int` also strips whitespace and accepts underscores and non-ASCII digits; none of these occurs in the dates the code splits.
- Numerals.UnsignedDecimal: covers the digits-and-point numerals `parse_value` can produce. Exponents, NaN, Infinity and surrounding whitespace are not modelled.
- Text.Lower: lowers ASCII letters only. Python's `str.lower` also lowers other alphabets.
- Sheets.ParseBlock: reads single-letter column names only. These are all the code writes.
- Dates.StrftimeDmy: pads the year to four digits. Years below 1000 would print unpadded on some platforms; they still read back as the same number.
- The laziness of `map` in `split_date`: the model evaluates every field at once. Every failure there is a ValueError, so the outcome is the same.
- app/settings/settings.py (environment loading) and app/models/models.py (an unused schema) hold no logic of the core.

## Findings

| source | as written | input that shows it | evidently intended | confidence | as-written member | corrected member |
|---|---|---|---|---|---|---|
| main.py:168-171 | `s[:len(s) - 2] + "." + s[-2:]` for a single-digit amount writes ".d" | amount 5 gives ".5", which is 0.50 rather than 0.05 | a point before the last two digits of the zero-padded amount, so that every amount is read as cents | high; not executed | Amounts.ParseValueSingleDigitTenfold | Amounts.ParseValueCentsDenotesCents |
| main.py:168-171 | for a negative single-digit amount the point goes before the sign | amount -5 gives ".-5", and `Decimal` raises InvalidOperation | "-0.05" | high; not executed | Amounts.ParseValueNegativeDigitRejected | Amounts.ParseValueCentsDenotesCents |
| main.py:105-107 | the title is replaced by "NuPay" before it is split on "em " | title "Compra em Loja via NuPay": `"NuPay".split("em ")[1]` raises IndexError and aborts the whole transfer collection | read the destination from the original `feed_event["title"]` ("Loja") | high; not executed | Transfers.NuPayAlwaysFails | Transfers.NuPayFixedRow |
| main.py:107 | `split("em ")[1]` keeps only the text up to the next "em ", and this survives the correction above | title "Compra em Bem Estar via NuPay" gives destination "B" | everything between the first "em " and " via", "Bem Estar", as `split("em ", 1)[1]` gives | medium; not executed | Transfers.BemEstarAsWritten | Transfers.DestinationBetween |
| main.py:133 | `"-".join` over the ints that `split_date` returns | any bill dated today, e.g. time "2024-05-10T12:00:00Z", raises TypeError, so the credit ledger is never written | the date text itself, "2024-05-10" | high; not executed | Credit.BillRowFails | Credit.BillRowFixedCells |
