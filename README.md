# Receipt processor: validation, scoring and the points ledger

This project models the core of a small receipt-processing web service. A client
posts a receipt: a retailer name, a purchase date, a purchase time, a list of items
(each a short description and a price) and a total. The service checks each field
against a fixed format and rejects the receipt with the first failing rule's message.
A valid receipt is scored by seven rules, and its points are stored in an in-memory
ledger under a fresh id, which is returned. A later query with that id returns the
points. An unknown id gets "not found".

The model is split into these modules:

- `Chars`: ASCII character classes and the values of digit strings.
- `Receipts`: the `Item` and `Receipt` records.
- `Formats`: the grammars of the text fields (retailer, description, amount, time,
  date) and what an accepted field means:
  - the cents of an amount
  - the hour and minute of a time
  - the calendar date of a date
- `Validator`: `validateInput`. The checks run in source order and the first failing
  check decides the error.
- `Scorer`: the point rules as specification functions. `Points` is their sum.
- `App`: the ledger `receiptPoints` as the field of a class `Ledger`, with
  `GetPoints`, `CalculatePoint` and `ProcessReceipt`. `CalculatePoint` walks the
  retailer name and the items with an accumulator, as the service does. It is proved
  to store exactly `Points` of the receipt under the id and to leave every other id
  unchanged.
- `Examples`: worked receipts, among them a "Target" receipt worth 37 points.

Prices and totals are exact integers of cents. Rule (e), a fifth of the price rounded
up, is computed as `(cents + 499) / 500`. The request id is a parameter of
`ProcessReceipt` rather than a random UUID.

## Model

| member | source | states |
|---|---|---|
| Validator.Validate | app/app.py:60-90 | `validateInput` as an outcome: the checks in source order, the first failing one giving the error; its properties are `ValidateAcceptsExactlyValid` and `ValidateReportsFirstFailure` |
| Validator.CheckItems | app/app.py:81-86 | the item loop, stopping at the first item whose description and then price fails; its property is `CheckItemsFindsFirst` |
| Validator.Message | app/app.py:63-90 | the `detail` text of each rejection, the item texts carrying the offending description or price; `MessageInjective` proves distinct reasons give distinct texts |
| Formats.ValidRetailer | app/app.py:63 | `^[\w\s\-&]+$`: a non-empty text of word characters, whitespace, hyphens and ampersands |
| Formats.ValidDescription | app/app.py:82 | `^[\w\s\-]+$`: a non-empty text of word characters, whitespace and hyphens |
| Formats.IsAmount | app/app.py:85 | `^\d+\.\d{2}$`: digits, a dot and exactly two digits; `AmountRoundTrip` proves it spells every number of cents |
| Formats.AmountCents | app/app.py:89 | the exact value of an accepted amount in cents; `AmountRoundTrip` and `AmountFraction` state its meaning |
| Formats.ValidTime | app/app.py:73 | the time pattern as a predicate; `ValidTimeExactly` characterizes what it accepts |
| Formats.ValidDate | app/app.py:68 | the strict `strptime` date check; `ValidDateExactly` characterizes what it accepts |
| Scorer.AlnumCount | app/app.py:99-102 | rule (a): the number of alphanumeric characters of the retailer name; bounds in `AlnumCountBounds`, and `App.CountAlnum` is the loop proved to compute it |
| Scorer.OddDayPoints | app/app.py:104-107 | rule (b): 6 points when the day read from the last two characters is odd, else 0 |
| Scorer.ParseInt | app/app.py:110 | Python `int()` on a text: the value of a non-empty digit string, `ValueError` otherwise |
| Scorer.HourAsWritten | app/app.py:110 | the hour as the source reads it, `int()` of the first two characters; `HourAsWrittenFailsOnSingleDigit` proves when it raises |
| Scorer.AfternoonPoints | app/app.py:109-112 | rule (c): 10 points when the hour is 14 or 15, with the hour read before the colon |
| Scorer.PairPoints | app/app.py:115 | rule (d): 5 points for every whole pair of items |
| Scorer.Strip | app/app.py:121 | `str.strip()`; `StripIsStripped` proves what it removes and keeps |
| Scorer.ItemBonus | app/app.py:122-123 | rule (e) for one item; `ItemBonusIsCeiling` states its value |
| Scorer.DescriptionPoints | app/app.py:120-123 | rule (e) summed over the items; `DescriptionPointsAppend` proves it adds up per item, and `App.ScoreDescriptions` is the loop proved to compute it |
| Scorer.RoundDollarPoints | app/app.py:126-128 | rule (f): 50 points when the cents field is zero; combined with rule (g) in `TotalBonus` |
| Scorer.QuarterPoints | app/app.py:130-132 | rule (g): 25 points when the cents field is a multiple of 25; `QuarterRuleOnWholeTotal` proves this decides the same as the whole total |
| Scorer.Points | app/app.py:96-132 | the score of a validated receipt, the sum of rules (a) to (g); `App.Ledger.CalculatePoint` is proved to store it |
| Validator.ValidateAcceptsExactlyValid | app/app.py:60-90 | validation passes exactly when the retailer, date and time are well formed, there is at least one item, every item's description and price are well formed, and the total is an amount |
| Validator.ValidateReportsFirstFailure | app/app.py:60-90 | each error is reported exactly when its check fails and all earlier checks pass, in the order retailer, date, time, items present, items, total; an item error names the first failing item, its description error taking precedence over its price error |
| Validator.CheckItemsFindsFirst | app/app.py:81-86 | the item loop passes iff every item passes; otherwise its error is that of an item all of whose predecessors pass |
| Validator.EmptyItemsRejected | app/app.py:77-78 | a receipt with no items is always rejected, with the "at least one item" error once retailer, date and time pass |
| Validator.MessageInjective | app/app.py:63-90 | distinct rejection reasons produce distinct `detail` messages, so the message identifies the failing rule and the offending item text |
| Formats.ValidTimeExactly | app/app.py:73-74 | the time pattern accepts exactly the spellings of clock times 00:00 to 23:59 (the hour with two digits, or one digit below ten), and an accepted time spells its own hour and minute |
| Formats.HourOf | app/app.py:73 | the hour of an accepted time, read from all digits before the colon, is below 24 |
| Formats.ValidDateExactly | app/app.py:66-70 | the date check accepts exactly the `YYYY-MM-DD` formatting of a proleptic Gregorian date with year 1 to 9999 |
| Formats.FormatDateRoundTrip | app/app.py:66-70 | a formatted date reads back as its own year, month and day and is accepted iff it is a calendar date |
| Formats.DaysInMonth | app/app.py:68 | months have 28 to 31 days, and 29 exactly for February of a leap year |
| Formats.DayOf | app/app.py:105 | the day read from the last two characters of a date is a two-digit number |
| Formats.AmountRoundTrip | app/app.py:85-89 | every number of cents has an amount spelling that the amount pattern accepts and whose value is that number |
| Formats.AmountFraction | app/app.py:85-89 | the two digits after an amount's dot are its cents modulo one dollar |
| Scorer.AlnumCountBounds | app/app.py:99-102 | rule (a) gives at most one point per character: all of them iff every character is alphanumeric, none iff no character is |
| App.CountAlnum | app/app.py:99-102 | the loop over the retailer name counts exactly its alphanumeric characters |
| Scorer.HourAsWrittenFailsOnSingleDigit | app/app.py:110 | on an accepted time, `int(purchaseTime[:2])` raises exactly when the hour has one digit, and otherwise equals the hour before the colon |
| Scorer.SingleDigitHourRaises | app/app.py:73-74 | "9:00" is accepted by the time check, yet reading its hour as the scorer does raises |
| Scorer.SkipSpaces | app/app.py:121 | the index of the first non-whitespace character at or after a position; everything skipped is whitespace |
| Scorer.TrimEnd | app/app.py:121 | the end of a text once its trailing whitespace is cut; everything cut is whitespace |
| Scorer.StripIsStripped | app/app.py:121 | `strip()` removes only leading and trailing whitespace, and what it keeps neither starts nor ends with whitespace |
| Scorer.CeilFifth | app/app.py:123 | the bonus is the least whole number whose 500-fold is at least the price in cents, that is, a fifth of the price in dollars rounded up |
| Scorer.ItemBonusIsCeiling | app/app.py:117-123 | an item earns nothing unless its stripped description's length is a multiple of three, and then a fifth of its price rounded up |
| Scorer.DescriptionPointsAppend | app/app.py:120-123 | rule (e) scores each item on its own: splitting the item list splits the points |
| App.ScoreDescriptions | app/app.py:120-123 | the loop over the items adds up exactly the rule (e) bonus of every item |
| Scorer.LastField | app/app.py:126 | `split('.')[-1]` is the longest suffix of the text containing no dot: all of it, or what follows the last dot |
| Scorer.CentsField | app/app.py:126 | the number after the last dot of an accepted total is its cents modulo one dollar |
| Scorer.TotalBonus | app/app.py:125-132 | rules (f) and (g) together give 75 points for cents of 00, 25 for cents of 25, 50 or 75, and nothing otherwise |
| Scorer.QuarterRuleOnWholeTotal | app/app.py:130-132 | reading only the cents digits decides rule (g) as the whole total would: 25 points iff the total is a whole number of quarters |
| App.Ledger.constructor | app/app.py:13 | the ledger starts empty |
| App.Ledger.GetPoints | app/app.py:31-34 | a stored id returns its points; an id never stored is not found |
| App.Ledger.CalculatePoint | app/app.py:96-135 | the accumulator scores the receipt rule by rule; the ledger afterwards is the old one with the id mapped to `Points` of the receipt |
| App.Ledger.ProcessReceipt | app/app.py:39-56 | a rejected receipt leaves the ledger unchanged and reports the first failing rule; an accepted one has its points stored under the id, which is returned |
| App.SubmitThenQuery | app/app.py:31-56 | a query right after a successful submission returns the receipt's points, and a query of any other id answers as before |
| Examples.TimeExamples | app/app.py:73-74 | 25:00 and 12:60 are rejected; 9:00, 09:00 and 23:59 are accepted; 9:00 is hour 9 and 14:30 is hour 14 |
| Examples.LeapDayExamples | app/app.py:66-70 | 2024-02-29 and 2000-02-29 are accepted |
| Examples.CommonYearExamples | app/app.py:66-70 | 2023-02-29 and 1900-02-29 are rejected |
| Examples.RejectedDateExamples | app/app.py:66-70 | 2023-02-30, 2023-04-31, 2023-13-01 and 0000-01-01 are rejected |
| Examples.PriceExample | app/app.py:117-123 | "  Pepsi Max " at 6.49 earns ceil(1.298) = 2 points |
| Examples.HundredDollarTotal | app/app.py:125-132 | a total of 100.00 earns 50 + 25 points |
| Examples.TargetDateIsValid | app/app.py:104-107 | 2022-01-01 is accepted and its odd day earns 6 points |
| Examples.TargetTimeIsValid | app/app.py:109-112 | 13:01 is accepted, has hour 13 and earns no afternoon points |
| Examples.TargetAmountsAreValid | app/app.py:85-89 | 1.25 is an accepted amount worth 125 cents |
| Examples.TargetTotalPoints | app/app.py:125-132 | a total of 1.25 earns the quarter bonus only |
| Examples.TargetRetailerPoints | app/app.py:99-102 | "Target" earns 6 points |
| Examples.TargetDescriptionPoints | app/app.py:117-123 | "Pepsi - 12-oz" has 13 characters and earns nothing |
| Examples.TargetIsValid | app/app.py:60-90 | the Target receipt passes validation |
| Examples.TargetScores37 | app/app.py:96-135 | the Target receipt scores 37 points |
| Examples.LateTimeRejected | app/app.py:72-74 | a receipt bought at 25:00 is rejected for its time |

## Left out

- HTTP and serialisation are not modelled: FastAPI routing, pydantic parsing, status codes 400 and 404, and the JSON bodies. A rejection is a `Reason` value, and its `detail` text is `Validator.Message`.
- The random `uuid.uuid4()` id is a parameter of `ProcessReceipt`. The model does not assume ids are unique: resubmitting under the same id overwrites, as assignment into the dictionary does.
- Concurrent requests and server start-up (`main`, uvicorn) are not modelled.
- Regular-expression classes are ASCII. `\w`, `\s`, `\d` and `isalnum()` also accept non-ASCII letters, digits and spaces in Python 3; the model accepts only their ASCII members.
- `re.match` with `$` also accepts a single trailing newline (for example "13:01\n"). The model requires the pattern to cover the whole text.
- `datetime.strptime` with `%Y-%m-%d` takes exactly four year digits, but its month and day also accept one digit (for example "2022-1-1") and a day padded with a space. The model accepts only the strict `YYYY-MM-DD` spelling with years 1 to 9999. On the looser spellings, `int(purchaseDate[-2:])` can read "-1" or " 1", whose parity is still the day's, so rule (b) is unaffected.
- Python's `int()` is modelled only on non-empty ASCII digit strings, which is all the scorer hands it once the time bug below is corrected.
- `CeilFifth`: computes rule (e) exactly on cents. It does not reproduce binary floating-point rounding in `float(price) * 0.2` before `math.ceil`. Nor does it reproduce the overflow: the amount pattern accepts a price of any length, and for one above the largest double (an integer part of more than 308 digits) `float(price)` is infinite. Then `math.ceil` raises `OverflowError`, the request fails and nothing is stored, while the model stores a finite bonus.

## Findings

| source | as written | input that shows it | evidently intended | confidence | as-written member | corrected member |
|---|---|---|---|---|---|---|
| app/app.py:110 | the hour is read as `int(purchaseTime[:2])` | "9:00", which the time pattern at line 73 accepts; `int("9:")` raises `ValueError` after validation, so the request fails with a server error and nothing is stored | read the hour as the digits before the colon (hour 9, no afternoon points) | high; not executed | Scorer.HourAsWrittenFailsOnSingleDigit | Formats.HourOf |
