# Clinic booking pages: pricing, validation, booking hand-off and receipts

This project models the logic of three pages of a clinic booking web client.
All three are written as React components; the model keeps only the logic
and leaves out the rendering.

- **Review-and-pay page.** It reads the booking's parameters from the query
  string. It prices the booking from a table of session prices, with a
  joining fee for new patients and a ten per cent bundle discount for three
  or more telehealth sessions. It formats amounts as dollars with two
  decimals and validates the checkout form rule by rule, recording one
  message per failing field. When the form passes, it makes a booking ID
  from the clock and hands the booking on to the confirmation page in a
  query string.
- **Registration page.** It checks the new-patient form against a schema of
  per-field rules: minimum lengths, an age range, a password policy, card,
  expiry and CVC patterns, and a required consent box.
- **Confirmation page.** It reads the handed-on parameters with empty
  defaults and shows the total paid. It builds the plain-text receipt and
  the iCalendar event offered for download, and names the two files after
  the booking ID.

Money is whole cents (`nat`). Text is `seq<char>`. Lengths that the schema
counts are JavaScript lengths in UTF-16 code units (`Text.Utf16Length`).
"Whitespace" is JavaScript's `\s` set (`Text.IsJsWhitespace`). The regular
expressions are written out as predicates:

- the email test is unanchored, so it is a search, not a whole-string match;
- `Patterns.EmailShape` is a decidable form of it, proved equal to the
  regular expression's existential meaning (`Patterns.EmailRegexMatch`).

JavaScript's `n.toString(b)` is `Numerals.ToRadix`, `toUpperCase` on ASCII is
`Text.UpperAscii`, and `toFixed(2)` on an amount in cents is
`Numerals.FixedTwo`. The clock reading (`Date.now()`) and today's date are
parameters (`now`, `today`). The query string is an already-decoded
`map<string, string>`.

The modules, one per file:

- `Options` (`options.dfy`): an option type.
- `Text` (`text.dfy`): characters, deleting characters, UTF-16 length, upper
  case.
- `Numerals` (`numerals.dfy`): numerals in a radix, their values, two-decimal
  amounts.
- `Lines` (`lines.dfy`): joining and splitting lines.
- `Query` (`query.dfy`): query parameters and their `||` defaults.
- `Patterns` (`patterns.dfy`): the input patterns.
- `Confirm` (`confirm.dfy`): the review-and-pay page.
- `Register` (`register.dfy`): the registration schema.
- `Success` (`success.dfy`): the confirmation page.

The checkout's `validate` changes a record of errors step by step. It is
modelled as the method `Confirm.Validate`, which makes the same nine updates
in the same order. Its contract ties the result to the fold
`Confirm.Recorded` over the rules. The fold is proved to report exactly the
failing rules (`Confirm.RecordedReports`). The everything-else of the pages
is expressions over the query string and the form, and is modelled by
functions.

## Model

| member | source | states |
|---|---|---|
| Query.Param | client/pages/Confirm.tsx:20-24 | `get(key) \|\| fallback`: a missing or empty parameter gives the fallback; any other value is kept as it is |
| Confirm.ReadConfirmParams | client/pages/Confirm.tsx:20-25 | reads the booking parameters with their defaults; its contract is `Confirm.ConfirmDefaults`, with `Query.Param` for each default |
| Confirm.ConfirmDefaults | client/pages/Confirm.tsx:20-25 | without `service` the booking is a General Consultation at $80 a session; without `times` it is "Any"; the patient is new, and pays the $10 fee, exactly when `new` is "1" |
| Confirm.InitialForm | client/pages/Confirm.tsx:28-40 | the form as first shown: contact fields prefilled from the query string, payment fields empty, both boxes unticked; stated by `Confirm.FreshFormNeverValidates` |
| Confirm.FreshFormNeverValidates | client/pages/Confirm.tsx:28-40 | the form as first shown, prefilled from the query string, never passes: consent is unticked and the card number is empty |
| Confirm.UnitPrice | client/pages/Confirm.tsx:42 | the table's own entry for the service, else $80, in cents; stated by `Confirm.UnitPriceTable` and, against the lookup as written, by `Confirm.AsWrittenAgreesElsewhere` |
| Confirm.UnitPriceTable | client/pages/Confirm.tsx:11-15 | the price per session is $40 for Vaccination, $60 for Telehealth Appointment and $80 for General Consultation and for every unlisted name |
| Confirm.Price | client/pages/Confirm.tsx:42-45 | price per session, sessions, fee, subtotal, discount and total; stated by `Confirm.ChargeBeforeDiscount`, `Confirm.DiscountRule`, `Confirm.TotalBounds`, `Confirm.TotalAtMost` and `Confirm.PriceExamples` |
| Confirm.ChargeBeforeDiscount | client/pages/Confirm.tsx:42-43 | the subtotal is the price per session times the quantity, plus $10 exactly for a new patient |
| Confirm.DiscountRule | client/pages/Confirm.tsx:44 | a discount is given exactly for three or more telehealth sessions; it is then a tenth of the sessions' price; it never depends on the joining fee |
| Confirm.TotalBounds | client/pages/Confirm.tsx:42-45 | total plus discount is the subtotal; the total never exceeds it; the total is whole dollars; three or more telehealth sessions cost $54 each plus the fee |
| Confirm.TotalAtMost | client/pages/Confirm.tsx:42-45 | the total never exceeds $80 for every session plus the $10 fee |
| Confirm.PriceExamples | client/pages/Confirm.tsx:42-45 | three telehealth sessions for a new patient total $172; two get no discount and cost $120; a new patient's consultation is $90; an unlisted service is $80 |
| Confirm.FormatCurrency | client/pages/Confirm.tsx:7-9 | `$` and the amount with two decimals; stated by `Confirm.FormatCurrencyReadsBack` and `Confirm.FormatCurrencyExample` |
| Confirm.FormatCurrencyReadsBack | client/pages/Confirm.tsx:7-9 | the formatted amount is `$`, whole dollars without leading zeros, a point and two cent digits, and its digits read back as the amount in cents |
| Confirm.FormatCurrencyExample | client/pages/Confirm.tsx:7-9 | 17200 cents is shown as "$172.00" and 1800 cents as "$18.00" |
| Confirm.KeyInjective | client/pages/Confirm.tsx:50-59 | no two checked fields share a property name, so a record keyed by field holds what the page's record holds |
| Confirm.Fails | client/pages/Confirm.tsx:51-59 | the condition under which each of the nine rules records its message; stated by `Confirm.ValidIffNoRuleFails` and `Confirm.RecordedReports` |
| Confirm.CheckoutValid | client/pages/Confirm.tsx:51-59 | every rule holds; `Confirm.ValidIffNoRuleFails` proves it is exactly "no rule fails", and `Confirm.Validate` returns it |
| Confirm.ValidIffNoRuleFails | client/pages/Confirm.tsx:51-59 | the checkout accepts a form exactly when none of the nine rules fails |
| Confirm.RecordedReports | client/pages/Confirm.tsx:50-59 | after the first n rules the record holds exactly the failing ones among them, each with its own message |
| Confirm.ReportsDetermined | client/pages/Confirm.tsx:60-61 | the form determines the error record completely, and the record is empty exactly when the form is valid |
| Confirm.Validate | client/pages/Confirm.tsx:49-62 | `validate` records the message of every failing rule and nothing else, in the page's rule order, and returns true exactly when the form is valid |
| Confirm.TakeLast | client/pages/Confirm.tsx:67 | `slice(-k)` keeps min(k, length) characters, and they are a suffix of the text |
| Confirm.BookingId | client/pages/Confirm.tsx:67 | "HL-" and the last eight characters of the timestamp in upper-case base 36; stated by `Confirm.BookingIdShape`, `Confirm.BookingIdLength` and `Confirm.BookingIdsEqualIff` |
| Confirm.BookingIdShape | client/pages/Confirm.tsx:67 | the ID is "HL-" and one to eight upper-case base-36 digits that denote the timestamp modulo 36 to the 8th |
| Confirm.BookingIdLength | client/pages/Confirm.tsx:67 | for every timestamp from 36 to the 7th milliseconds on, the ID has exactly 11 characters |
| Confirm.BookingIdsEqualIff | client/pages/Confirm.tsx:67 | two such timestamps get the same ID exactly when they agree modulo 36 to the 8th |
| Confirm.SuccessQuery | client/pages/Confirm.tsx:68 | the nine parameters handed on, amounts written as `String` writes whole numbers; stated by `Confirm.HandedOnTotal` and `Success.ConfirmationShowsBooking` |
| Confirm.HandleConfirm | client/pages/Confirm.tsx:64-70 | the errors reported are those of `validate`; a booking is handed on exactly when the form is valid, and then it carries the ID from the clock, the booking parameters, the quantity, the total and the email |
| Confirm.HandedOnTotal | client/pages/Confirm.tsx:68 | the handed-on `total` is a decimal numeral that reads back as the total in dollars |
| Confirm.PricePerAsWritten | client/pages/Confirm.tsx:42 | `PRICES[service] ?? 80` as written, inherited names included; stated by `Confirm.AsWrittenAgreesElsewhere` and `Confirm.InheritedNameBreaksPrice` |
| Confirm.PricePerShownAsWritten | client/pages/Confirm.tsx:105 | the price-per-session line as written: the formatted amount, or a throw; stated by `Confirm.AsWrittenAgreesElsewhere` and `Confirm.InheritedNameBreaksPrice` |
| Confirm.AsWrittenAgreesElsewhere | client/pages/Confirm.tsx:42 | for every name not inherited from `Object.prototype` the lookup as written gives the table-or-default price and shows it formatted |
| Confirm.InheritedNameBreaksPrice | client/pages/Confirm.tsx:42 | as written, `service=toString` makes the price-per-session line throw, while the intended rule prices it at $80.00 |
| Patterns.ExpiryShape | client/pages/Confirm.tsx:57 | the expiry pattern; stated by `Patterns.ExpiryIsMonthSlashYear` |
| Patterns.SixteenDigits | client/pages/Confirm.tsx:56 | the 16-digit card pattern; stated by `Patterns.SixteenDigitsSurvivesStripping` and `Patterns.GroupedNumberOnlyPassesAfterStripping` |
| Patterns.CvcDigits | client/pages/Confirm.tsx:58 | three or four ASCII digits and nothing else; used by `Confirm.Fails` and `Register.ValidRegistration` |
| Patterns.StripWhitespace | client/pages/Confirm.tsx:56 | every JavaScript whitespace character deleted; stated by `Text.RemoveContents` and `Patterns.GroupedNumberOnlyPassesAfterStripping` |
| Patterns.ExpiryIsMonthSlashYear | client/pages/Confirm.tsx:57 | the expiry pattern accepts exactly five characters: two digits forming a month number from 1 to 12, a slash, and two digits |
| Patterns.SixteenDigitsSurvivesStripping | client/pages/Confirm.tsx:56 | every number the registration's card pattern accepts is accepted by the checkout's rule, which strips whitespace first |
| Patterns.GroupedNumberOnlyPassesAfterStripping | client/pages/Confirm.tsx:56 | a 16-digit number grouped in fours with spaces is rejected by the bare pattern, and stripping whitespace gives the digits back |
| Patterns.EmailShape | client/pages/Confirm.tsx:52 | the email test; `Patterns.EmailShapeIsRegex` proves it equal to an unanchored match of the pattern |
| Patterns.EmailShapeIsRegex | client/pages/Confirm.tsx:52 | the decidable email test accepts exactly the texts in which the unanchored pattern finds a non-space run, `@`, a non-space run, `.` and a non-space run |
| Patterns.EmailFound | client/pages/Confirm.tsx:52 | "pat@clinic.org" passes, and so does an address inside other text |
| Patterns.EmailNeedsDot | client/pages/Confirm.tsx:52 | "pat@clinic" fails: there is no dot after the `@` |
| Patterns.EmailNeedsLocalPart | client/pages/Confirm.tsx:52 | "pat @clinic.org" fails: a space stands straight before the `@` |
| Text.RemoveContents | client/pages/Confirm.tsx:56 | deleting characters with `replace(/…/g, "")` keeps every other character, as often as it occurred, and leaves none of the deleted kind |
| Text.Utf16LengthBounds | client/pages/Register.tsx:19-30 | a JavaScript length is between the number of characters and twice it, and equals it exactly when no character lies beyond the Basic Multilingual Plane |
| Text.UpperAscii | client/pages/Confirm.tsx:67 | `toUpperCase` on ASCII keeps the length, raises every lower-case letter by 32 and changes nothing else |
| Numerals.ToRadix | client/pages/Confirm.tsx:67 | `n.toString(b)`; stated by `Numerals.ToRadixValue`, `Numerals.ToRadixDigits` and `Numerals.ToRadixLeading` |
| Numerals.ToRadixValue | client/pages/Confirm.tsx:67-68 | `toString(b)` writes a numeral whose value is the number |
| Numerals.ToRadixDigits | client/pages/Confirm.tsx:67-68 | `toString(b)` uses only the digits of radix b, in lower case |
| Numerals.ToRadixLeading | client/pages/Confirm.tsx:67-68 | `toString(b)` starts with "0" exactly for zero, which is written "0" |
| Numerals.UpperNumeralInjective | client/pages/Confirm.tsx:67 | two upper-case numerals of the same length and value are the same text |
| Numerals.LastDigits | client/pages/Confirm.tsx:67 | the last k digits of a numeral denote its value modulo b to the k |
| Numerals.FixedTwo | client/pages/Confirm.tsx:8 | `toFixed(2)` of an amount in cents; stated by `Numerals.FixedTwoValue` |
| Numerals.FixedTwoValue | client/pages/Confirm.tsx:8 | `toFixed(2)` of an amount in cents is whole dollars, a point and two digits, whose digits read back as the amount |
| Register.PasswordIssues | client/pages/Register.tsx:24-28 | the password's three checks, each failing one reported; stated by `Register.PasswordIssuesIff` and the password examples |
| Register.AgeIssues | client/pages/Register.tsx:20 | the age's bounds with the library's messages; stated by `Register.AgeBounds` |
| Register.SecurityQuestionIssues | client/pages/Register.tsx:29 | a question never picked draws "Required", an empty one "Select a question"; stated by `Register.SecurityQuestionRequired` |
| Register.PasswordIssuesIff | client/pages/Register.tsx:24-28 | the password draws no issue exactly when it meets the policy, at most three issues otherwise, all about the password |
| Register.ValidRegistration | client/pages/Register.tsx:18-38 | every field rule of the schema holds; stated by `Register.IssuesEmptyIff` |
| Register.Issues | client/pages/Register.tsx:18-38 | every issue of the form in the schema's field order; stated by `Register.IssuesEmptyIff` and `Register.TipsOptInIgnored` |
| Register.IssuesEmptyIff | client/pages/Register.tsx:18-38 | the schema reports no issue exactly when the form is valid |
| Register.SecurityQuestionRequired | client/pages/Register.tsx:29 | a question never picked makes the form invalid and draws the library's "Required"; any of the three offered questions draws no issue |
| Register.TipsOptInIgnored | client/pages/Register.tsx:37 | the optional tips box never changes the outcome or the issues |
| Register.GroupedCardRejected | client/pages/Register.tsx:31 | a card number grouped in fours fails registration, although the checkout accepts it after stripping |
| Register.AgeBounds | client/pages/Register.tsx:20 | ages 0 and 120 pass; -1 and 121 fail; 121 draws the library's upper-bound message |
| Register.LengthCountsCodeUnits | client/pages/Register.tsx:19 | one emoji meets the two-character minimum of the full name, one letter does not, and two letters do |
| Register.BmpLength | client/pages/Register.tsx:19-30 | for text within the Basic Multilingual Plane the minimum lengths count characters |
| Register.PasswordAccepted | client/pages/Register.tsx:24-28 | "Secret12" meets the policy |
| Register.PasswordWithoutUpper | client/pages/Register.tsx:27 | "secret12" draws only the upper-case message |
| Register.PasswordWithoutDigit | client/pages/Register.tsx:28 | "Secretab" draws only the digit message |
| Register.PasswordTooShort | client/pages/Register.tsx:26 | "Secre12" draws only the length message |
| Success.ReadSuccessParams | client/pages/Success.tsx:8-14 | the seven parameters, each defaulting to the empty text; stated by `Success.ParamsDefaultToEmpty` |
| Success.ParamsDefaultToEmpty | client/pages/Success.tsx:8-14 | every parameter reads as its value, or as the empty text when it is missing |
| Success.StartDate | client/pages/Success.tsx:17 | the date parameter, or today's date when it is empty; stated by `Success.CalendarDefaultsToToday` |
| Success.IsoDate | client/pages/Success.tsx:17 | the date part of `toISOString()`; stated by `Success.TodayToken` |
| Success.DateToken | client/pages/Success.tsx:19 | the start date with every hyphen deleted; stated by `Success.ShapedDateToken` and `Success.TodayToken` |
| Success.PaddedDigits | client/pages/Success.tsx:17 | a number below 10 to the w is written with exactly w decimal digits that read back as the number |
| Success.TodayToken | client/pages/Success.tsx:17-19 | today's date is written `YYYY-MM-DD`; without hyphens it is eight digits denoting year × 10000 + month × 100 + day |
| Success.ShapedDateToken | client/pages/Success.tsx:19 | a date parameter of the shape `YYYY-MM-DD` becomes its eight digits |
| Lines.JoinSnoc | client/pages/Success.tsx:19 | joining one more line appends a separator and that line |
| Lines.SplitJoin | client/pages/Success.tsx:19 | splitting lines joined by a separator that none of them contains gives the lines back |
| Success.Calendar | client/pages/Success.tsx:17-19 | the iCalendar text; stated by `Success.CalendarIsJoined` and `Success.CalendarReadsBack` |
| Success.CalendarIsJoined | client/pages/Success.tsx:17-19 | the event text is its eight lines joined by line feeds |
| Success.CalendarReadsBack | client/pages/Success.tsx:17-19 | read back line by line, the event is the calendar's fixed lines, the UID, the summary naming the doctor and the start-date token, in that order |
| Success.CalendarDefaultsToToday | client/pages/Success.tsx:17 | without a date parameter the event starts on today's eight-digit date |
| Success.ParseTotal | client/pages/Success.tsx:30 | `Number(total)` in cents for the empty text and decimal numerals; stated by `Success.TotalPaidShown` and `Success.MissingTotal` |
| Success.TotalPaid | client/pages/Success.tsx:71 | the total-paid line; stated by `Success.TotalPaidShown`, `Success.MissingTotal` and `Success.HandedOnTotalShown` |
| Success.TotalPaidShown | client/pages/Success.tsx:71 | an empty total shows a dash; a whole number of dollars shows as the checkout formats it, starting with `$` |
| Success.Receipt | client/pages/Success.tsx:30 | the receipt text; stated by `Success.ReceiptIsJoined` and `Success.ReceiptReadsBack` |
| Success.ReceiptIsJoined | client/pages/Success.tsx:30 | the receipt is its six lines joined by line feeds, with a final line feed |
| Success.ReceiptReadsBack | client/pages/Success.tsx:30 | read back line by line, the receipt is the six `Key: value` lines in order and nothing after the last line feed |
| Success.MissingTotal | client/pages/Success.tsx:30 | without a total the page shows a dash while the receipt says "Total paid: $0.00" |
| Success.CalendarFileName | client/pages/Success.tsx:24 | `booking-{id}.ics`; stated by `Success.FileNamesDistinct` |
| Success.ReceiptFileName | client/pages/Success.tsx:35 | `receipt-{id}.txt`; stated by `Success.FileNamesDistinct` |
| Success.FileNamesDistinct | client/pages/Success.tsx:24-35 | each file name determines the booking ID, and no calendar file is named like a receipt |
| Success.HandedOnTotalShown | client/pages/Success.tsx:71 | a whole-dollar total written as `String` writes it shows exactly as the checkout formatted it |
| Success.ConfirmationShowsBooking | client/pages/Success.tsx:8-13 | a booking handed on by the checkout arrives with its ID, doctor, service, date, times and total |
| Success.ConfirmationShowsCheckoutTotal | client/pages/Success.tsx:71 | for the one to five sessions the selector offers, the confirmation shows the checkout's total formatted as the checkout shows it |
| Success.TelehealthBundleShown | client/pages/Success.tsx:71 | three telehealth sessions for a new patient arrive as "$172.00" |

## Left out

- Rendering, routing and the DOM are not modelled: markup, `navigate`, `Blob`, object URLs and the click that starts a download. The model stops at the texts and file names the pages produce.
- Percent-encoding of the query string by `URLSearchParams` is not modelled; the query is the decoded map of parameters.
- `Date.now()` and `new Date()` are parameters (`now`, `today`). `today` is the UTC date that `toISOString` writes; years beyond 9999 are not modelled.
- Floating point is not modelled: prices are whole dollars and the discount `0.1 * (pricePer * quantity)` is taken as an exact tenth, in cents. With `0.1` held as a double a little above a tenth, the product rounds back to the whole number of dollars, so nothing is lost for the amounts the page computes.
- Success.TotalPaidShown: `Number(total)` is modelled only for the empty text and decimal numerals up to 2 to the 53rd. Other texts (fractions, signs, exponents, `NaN`) give `None`, so their receipt and total line are not stated.
- Register: the age is taken as a whole number after conversion. `z.coerce.number()` turning the raw field into a number is not modelled: an empty field becomes 0, and a fraction fails `.int()`.
- Register: the message react-hook-form shows for a field (the first issue of that field) is not modelled. The model states the full list of issues the schema reports.
- Confirm.Validate: the page's record is keyed by property name. The model keys it by the `Field` datatype, and `Confirm.KeyInjective` shows the two carry the same information. The `setErrors` call that stores the record is the returned value.
- Confirm.HandleConfirm: the page keeps the quantity in component state. The model takes any natural number, because the code performs no quantity check of its own; the selector offers 1 to 5.
- The marketing text and the joining-fee alert of the registration page are not modelled; they have no logic.
- The other pages of the client (search, login, password recovery, home, layout) are not part of this model.

## Findings

| source | as written | input that shows it | evidently intended | confidence | as-written member | corrected member |
|---|---|---|---|---|---|---|
| client/pages/Confirm.tsx:42 | `PRICES[service] ?? 80` also finds the members every object inherits from `Object.prototype`. `??` does not replace them, so the price is a function; `formatCurrency` at line 105 then calls `toFixed` on it and throws | query string `?service=toString` | a service the table does not list costs the $80 default, shown as "$80.00" | not executed | Confirm.InheritedNameBreaksPrice | Confirm.UnitPriceTable |
