/** The booking-confirmed page: the parameters it reads, the total it shows,
    the plain-text receipt and the iCalendar event it offers for download,
    and the names of the two downloaded files. The current date is a
    parameter. */
module Success {
  import opened Options
  import opened Text
  import Numerals
  import Lines
  import Query
  import Confirm

  /** The parameters the page reads; each is text. */
  datatype SuccessParams = SuccessParams(
    id: string, doctor: string, service: string, date: string,
    times: string, total: string, email: string)

  /** Every parameter falls back to the empty string. */
  function ReadSuccessParams(q: map<string, string>): SuccessParams
  {
    SuccessParams(
      Query.Param(q, "id", ""), Query.Param(q, "doctor", ""),
      Query.Param(q, "service", ""), Query.Param(q, "date", ""),
      Query.Param(q, "times", ""), Query.Param(q, "total", ""),
      Query.Param(q, "email", ""))
  }

  /** The value of a parameter, or the empty string when it is missing. */
  function ValueOr(q: map<string, string>, key: string): string
  {
    if key in q then q[key] else ""
  }

  /** A missing parameter reads as the empty string, and with that fallback
      the `||` never replaces a value that is present. */
  lemma ParamsDefaultToEmpty(q: map<string, string>)
    ensures ReadSuccessParams(q) == SuccessParams(
      ValueOr(q, "id"), ValueOr(q, "doctor"), ValueOr(q, "service"), ValueOr(q, "date"),
      ValueOr(q, "times"), ValueOr(q, "total"), ValueOr(q, "email"))
  {
  }

  // Dates

  /** A calendar date of the proleptic Gregorian calendar. */
  datatype Date = Date(year: nat, month: nat, day: nat)

  predicate IsLeapYear(y: nat) {
    (y % 4 == 0 && y % 100 != 0) || y % 400 == 0
  }

  function DaysInMonth(y: nat, m: nat): nat
  {
    if m == 2 then (if IsLeapYear(y) then 29 else 28)
    else if m == 4 || m == 6 || m == 9 || m == 11 then 30
    else 31
  }

  /** A date that `toISOString` writes with a four-digit year. */
  predicate ValidDate(d: Date) {
    d.year <= 9999 && 1 <= d.month <= 12 && 1 <= d.day <= DaysInMonth(d.year, d.month)
  }

  /** `k` zeros. */
  function Zeros(k: nat): (z: string)
    ensures |z| == k && forall i :: 0 <= i < k ==> z[i] == '0'
  {
    if k == 0 then "" else Zeros(k - 1) + "0"
  }

  lemma {:induction false} ZerosValue(k: nat)
    ensures Numerals.ValueOf(Zeros(k), 10) == 0
  {
    if k > 0 {
      assert Zeros(k)[..k - 1] == Zeros(k - 1);
      ZerosValue(k - 1);
    }
  }

  /** `n` in decimal, with leading zeros up to `width` digits. */
  function Padded(n: nat, width: nat): string
  {
    if |Numerals.ToRadix(n, 10)| >= width then Numerals.ToRadix(n, 10)
    else Zeros(width - |Numerals.ToRadix(n, 10)|) + Numerals.ToRadix(n, 10)
  }

  /** A number below 10 to the `width` has at most `width` digits. */
  lemma {:induction false} DecimalLength(n: nat, width: nat)
    requires width >= 1 && n < Numerals.Pow(10, width)
    ensures |Numerals.ToRadix(n, 10)| <= width
  {
    Numerals.ToRadixAbove(n, 10);
    if n != 0 && |Numerals.ToRadix(n, 10)| > width {
      Numerals.PowMonotone(10, width, |Numerals.ToRadix(n, 10)| - 1);
    }
    Numerals.ToRadixLeading(n, 10);
  }

  /** A number below 10 to the `width` is written with exactly `width`
      digits, which read back as the number. */
  lemma PaddedDigits(n: nat, width: nat)
    requires width >= 1 && n < Numerals.Pow(10, width)
    ensures |Padded(n, width)| == width
    ensures AllDigits(Padded(n, width))
    ensures Numerals.ValueOf(Padded(n, width), 10) == n
  {
    var t := Numerals.ToRadix(n, 10);
    Numerals.ToRadixValue(n, 10);
    Numerals.ToRadixDigits(n, 10);
    Numerals.DecimalDigits(t);
    DecimalLength(n, width);
    if |t| < width {
      var z := Zeros(width - |t|);
      assert Padded(n, width) == z + t;
      Numerals.ValueConcat(z, t, 10);
      ZerosValue(width - |t|);
    }
  }

  /** The date part of `toISOString()`: `YYYY-MM-DD`. */
  function IsoDate(d: Date): string
  {
    Padded(d.year, 4) + "-" + Padded(d.month, 2) + "-" + Padded(d.day, 2)
  }

  /** Text of the shape `YYYY-MM-DD`: eight digits and two hyphens. */
  predicate DateShaped(s: string) {
    && |s| == 10 && s[4] == '-' && s[7] == '-'
    && AllDigits(s[..4]) && AllDigits(s[5..7]) && AllDigits(s[8..])
  }

  /** The event starts on the booked date, or today when none was given. */
  function StartDate(date: string, today: Date): string
  {
    if date != "" then date else IsoDate(today)
  }

  predicate IsHyphen(c: char) { c == '-' }

  /** The all-day date value: the start date with every hyphen deleted. */
  function DateToken(start: string): string
  {
    Remove(start, IsHyphen)
  }

  lemma RemoveAcrossHyphen(x: string, y: string)
    ensures DateToken(x + "-" + y) == DateToken(x) + DateToken(y)
  {
    RemoveConcat(x + "-", y, IsHyphen);
    RemoveConcat(x, "-", IsHyphen);
    assert Remove("-", IsHyphen) == [];
  }

  lemma DigitsKept(x: string)
    requires AllDigits(x)
    ensures DateToken(x) == x
  {
    RemoveNothing(x, IsHyphen);
  }

  /** Deleting the hyphens of `a-b-c` written in digits gives `abc`. */
  lemma TokenOfDigitGroups(a: string, b: string, c: string)
    requires AllDigits(a) && AllDigits(b) && AllDigits(c)
    ensures DateToken(a + "-" + b + "-" + c) == a + b + c
  {
    RemoveAcrossHyphen(a + "-" + b, c);
    RemoveAcrossHyphen(a, b);
    DigitsKept(a);
    DigitsKept(b);
    DigitsKept(c);
  }

  /** A date parameter of the shape `YYYY-MM-DD` becomes its eight digits. */
  lemma ShapedDateToken(s: string)
    requires DateShaped(s)
    ensures DateToken(s) == s[..4] + s[5..7] + s[8..]
    ensures |DateToken(s)| == 8 && AllDigits(DateToken(s))
  {
    assert s == s[..4] + "-" + s[5..7] + "-" + s[8..];
    TokenOfDigitGroups(s[..4], s[5..7], s[8..]);
  }

  /** Today's date is written `YYYY-MM-DD`, and its token is the eight
      digits of the number year * 10000 + month * 100 + day. */
  lemma TodayToken(d: Date)
    requires ValidDate(d)
    ensures DateShaped(IsoDate(d))
    ensures var t := DateToken(IsoDate(d));
      && |t| == 8 && AllDigits(t)
      && Numerals.ValueOf(t, 10) == d.year * 10000 + d.month * 100 + d.day
  {
    var y, m, dd := Padded(d.year, 4), Padded(d.month, 2), Padded(d.day, 2);
    assert Numerals.Pow(10, 2) == 100;
    assert Numerals.Pow(10, 4) == 10000;
    PaddedDigits(d.year, 4);
    PaddedDigits(d.month, 2);
    PaddedDigits(d.day, 2);
    var s := IsoDate(d);
    assert s[..4] == y && s[5..7] == m && s[8..] == dd;
    TokenOfDigitGroups(y, m, dd);
    Numerals.ValueConcat(y + m, dd, 10);
    Numerals.ValueConcat(y, m, 10);
  }

  // The calendar event

  /** The iCalendar text of the event: a calendar holding one all-day event
      whose UID is the booking ID. */
  function Calendar(p: SuccessParams, today: Date): string
  {
    "BEGIN:VCALENDAR" + "\n" + "VERSION:2.0" + "\n" + "BEGIN:VEVENT" + "\n"
      + ("UID:" + p.id) + "\n"
      + ("SUMMARY:" + ("Appointment with " + p.doctor)) + "\n"
      + ("DTSTART;VALUE=DATE:" + DateToken(StartDate(p.date, today))) + "\n"
      + "END:VEVENT" + "\n" + "END:VCALENDAR"
  }

  /** The eight lines of the event, in order. */
  function CalendarLines(p: SuccessParams, today: Date): seq<string>
  {
    ["BEGIN:VCALENDAR", "VERSION:2.0", "BEGIN:VEVENT",
     "UID:" + p.id,
     "SUMMARY:" + ("Appointment with " + p.doctor),
     "DTSTART;VALUE=DATE:" + DateToken(StartDate(p.date, today)),
     "END:VEVENT", "END:VCALENDAR"]
  }

  /** The event text is its eight lines joined by line feeds. */
  lemma CalendarIsJoined(p: SuccessParams, today: Date)
    ensures Calendar(p, today) == Lines.Join(CalendarLines(p, today), '\n')
  {
    var l := CalendarLines(p, today);
    assert l[..1] == [l[0]];
    Lines.JoinSnoc(l[..1], l[1], '\n');
    assert l[..2] == l[..1] + [l[1]];
    Lines.JoinSnoc(l[..2], l[2], '\n');
    assert l[..3] == l[..2] + [l[2]];
    Lines.JoinSnoc(l[..3], l[3], '\n');
    assert l[..4] == l[..3] + [l[3]];
    Lines.JoinSnoc(l[..4], l[4], '\n');
    assert l[..5] == l[..4] + [l[4]];
    Lines.JoinSnoc(l[..5], l[5], '\n');
    assert l[..6] == l[..5] + [l[5]];
    Lines.JoinSnoc(l[..6], l[6], '\n');
    assert l[..7] == l[..6] + [l[6]];
    Lines.JoinSnoc(l[..7], l[7], '\n');
    assert l[..8] == l[..7] + [l[7]];
    assert l[..8] == l;
  }

  /** The token never contains a line feed when the date parameter does not. */
  lemma TokenSingleLine(date: string, today: Date)
    requires '\n' !in date && ValidDate(today)
    ensures '\n' !in DateToken(StartDate(date, today))
  {
    var start := StartDate(date, today);
    if date == "" {
      TodayToken(today);
    } else {
      RemoveContents(start, IsHyphen);
      assert multiset(DateToken(start))['\n'] == 0;
    }
  }

  /** Reading the event back line by line: the calendar's fixed lines, the
      UID, the summary naming the doctor and the start date token, in this
      order. */
  lemma CalendarReadsBack(p: SuccessParams, today: Date)
    requires '\n' !in p.id && '\n' !in p.doctor && '\n' !in p.date && ValidDate(today)
    ensures Lines.Split(Calendar(p, today), '\n') == CalendarLines(p, today)
  {
    var l := CalendarLines(p, today);
    CalendarIsJoined(p, today);
    TokenSingleLine(p.date, today);
    assert '\n' !in "UID:" + p.id;
    assert '\n' !in "SUMMARY:" + ("Appointment with " + p.doctor);
    assert '\n' !in "DTSTART;VALUE=DATE:" + DateToken(StartDate(p.date, today));
    assert Lines.NoSeparator(l, '\n');
    Lines.SplitJoin(l, '\n');
  }

  /** Without a date parameter the event falls on today. */
  lemma CalendarDefaultsToToday(p: SuccessParams, today: Date)
    requires p.date == "" && ValidDate(today)
    ensures CalendarLines(p, today)[5] == "DTSTART;VALUE=DATE:" + DateToken(IsoDate(today))
    ensures |DateToken(IsoDate(today))| == 8
  {
    TodayToken(today);
  }

  // The total and the receipt

  /** The largest whole number JavaScript's numbers hold exactly. */
  const MaxExactInteger: nat := 0x20_0000_0000_0000

  /** `Number(total)` in cents, for the texts this model covers: the empty
      text is 0, and a decimal numeral of at most `MaxExactInteger` is that
      many dollars; any other text is outside the model. */
  function ParseTotal(total: string): Option<nat>
  {
    if total == "" then Some(0)
    else if AllDigits(total) && Numerals.ValueOf(total, 10) <= MaxExactInteger
    then Some(100 * Numerals.ValueOf(total, 10))
    else None
  }

  /** The total-paid line of the page: a dash when there is no total, or
      the amount with two decimals. */
  function TotalPaid(total: string): Option<string>
  {
    if total == "" then Some("\U{2014}")
    else match ParseTotal(total)
      case Some(cents) => Some("$" + Numerals.FixedTwo(cents))
      case None => None
  }

  /** An empty total shows a dash; a whole number of dollars shows as that
      amount formatted like the checkout's prices, and reads back. */
  lemma TotalPaidShown(total: string)
    ensures total == "" ==> TotalPaid(total) == Some("\U{2014}")
    ensures total != "" && AllDigits(total) && Numerals.ValueOf(total, 10) <= MaxExactInteger ==>
      && TotalPaid(total) == Some(Confirm.FormatCurrency(100 * Numerals.ValueOf(total, 10)))
      && TotalPaid(total).value[0] == '$'
  {
  }

  /** The receipt: six lines `Key: value`, each ending in a line feed. */
  function Receipt(p: SuccessParams): Option<string>
  {
    match ParseTotal(p.total)
    case Some(cents) =>
      Some(("Booking ID: " + p.id) + "\n" + ("Doctor: " + p.doctor) + "\n"
        + ("Service: " + p.service) + "\n" + ("Date: " + p.date) + "\n"
        + ("Time: " + p.times) + "\n" + ("Total paid: " + "$" + Numerals.FixedTwo(cents)) + "\n")
    case None => None
  }

  /** The six lines of the receipt, in order. */
  function ReceiptLines(p: SuccessParams, cents: nat): seq<string>
  {
    ["Booking ID: " + p.id, "Doctor: " + p.doctor, "Service: " + p.service,
     "Date: " + p.date, "Time: " + p.times,
     "Total paid: " + "$" + Numerals.FixedTwo(cents)]
  }

  /** The amount contains digits and a point only. */
  lemma FixedTwoSingleLine(cents: nat)
    ensures '\n' !in Numerals.FixedTwo(cents)
  {
    var s := Numerals.FixedTwo(cents);
    Numerals.FixedTwoValue(cents);
    forall i | 0 <= i < |s| ensures s[i] != '\n' {
      if i < |s| - 3 {
        assert s[i] == s[..|s| - 3][i];
      } else if i > |s| - 3 {
        assert s[i] == s[|s| - 2..][i - (|s| - 2)];
      }
    }
  }

  /** The receipt is its six lines, each followed by a line feed. */
  lemma ReceiptIsJoined(p: SuccessParams, cents: nat)
    requires ParseTotal(p.total) == Some(cents)
    ensures Receipt(p) == Some(Lines.Join(ReceiptLines(p, cents) + [""], '\n'))
  {
    var l := ReceiptLines(p, cents) + [""];
    assert l[..1] == [l[0]];
    Lines.JoinSnoc(l[..1], l[1], '\n');
    assert l[..2] == l[..1] + [l[1]];
    Lines.JoinSnoc(l[..2], l[2], '\n');
    assert l[..3] == l[..2] + [l[2]];
    Lines.JoinSnoc(l[..3], l[3], '\n');
    assert l[..4] == l[..3] + [l[3]];
    Lines.JoinSnoc(l[..4], l[4], '\n');
    assert l[..5] == l[..4] + [l[4]];
    Lines.JoinSnoc(l[..5], l[5], '\n');
    assert l[..6] == l[..5] + [l[5]];
    Lines.JoinSnoc(l[..6], l[6], '\n');
    assert l[..7] == l[..6] + [l[6]];
    assert l[..7] == l;
    assert Lines.Join(l[..6], '\n') + "\n" + l[6] == Lines.Join(l[..6], '\n') + "\n";
  }

  /** Reading the receipt back line by line gives the six `Key: value` lines
      in order, and nothing after the last line feed. */
  lemma ReceiptReadsBack(p: SuccessParams, cents: nat)
    requires ParseTotal(p.total) == Some(cents)
    requires '\n' !in p.id && '\n' !in p.doctor && '\n' !in p.service
    requires '\n' !in p.date && '\n' !in p.times
    ensures Lines.Split(Receipt(p).value, '\n') == ReceiptLines(p, cents) + [""]
  {
    var l := ReceiptLines(p, cents) + [""];
    ReceiptIsJoined(p, cents);
    FixedTwoSingleLine(cents);
    assert '\n' !in "Booking ID: " + p.id;
    assert '\n' !in "Doctor: " + p.doctor;
    assert '\n' !in "Service: " + p.service;
    assert '\n' !in "Date: " + p.date;
    assert '\n' !in "Time: " + p.times;
    assert '\n' !in "Total paid: " + "$" + Numerals.FixedTwo(cents);
    assert Lines.NoSeparator(l, '\n');
    Lines.SplitJoin(l, '\n');
  }

  /** Without a total the page shows a dash, but the receipt says $0.00. */
  lemma MissingTotal(p: SuccessParams)
    requires p.total == ""
    ensures TotalPaid(p.total) == Some("\U{2014}")
    ensures ReceiptLines(p, ParseTotal(p.total).value)[5] == "Total paid: $0.00"
  {
    Numerals.ToRadixLeading(0, 10);
  }

  // Downloads

  function CalendarFileName(id: string): string
  {
    "booking-" + id + ".ics"
  }

  function ReceiptFileName(id: string): string
  {
    "receipt-" + id + ".txt"
  }

  /** Each file name determines the booking ID, and a calendar file is never
      named like a receipt. */
  lemma FileNamesDistinct(a: string, b: string)
    ensures CalendarFileName(a) == CalendarFileName(b) ==> a == b
    ensures ReceiptFileName(a) == ReceiptFileName(b) ==> a == b
    ensures CalendarFileName(a) != ReceiptFileName(b)
  {
    var ca, cb := CalendarFileName(a), CalendarFileName(b);
    if ca == cb {
      assert a == ca[8..|ca| - 4] && b == cb[8..|cb| - 4];
    }
    var ra, rb := ReceiptFileName(a), ReceiptFileName(b);
    if ra == rb {
      assert a == ra[8..|ra| - 4] && b == rb[8..|rb| - 4];
    }
    assert ca[0] != ReceiptFileName(b)[0];
  }

  // From checkout to confirmation

  /** A whole-dollar total written as `String` writes it is shown as the
      checkout formats it. */
  lemma HandedOnTotalShown(total: nat)
    requires total % 100 == 0 && total <= 100 * MaxExactInteger
    ensures TotalPaid(Numerals.ToRadix(total / 100, 10)) == Some(Confirm.FormatCurrency(total))
  {
    var t := Numerals.ToRadix(total / 100, 10);
    Numerals.ToRadixValue(total / 100, 10);
    Numerals.ToRadixDigits(total / 100, 10);
    Numerals.DecimalDigits(t);
    assert 100 * (total / 100) == total;
  }

  /** A booking handed on by the checkout page arrives with its ID and
      details ... */
  lemma ConfirmationShowsBooking(p: Confirm.ConfirmParams, quantity: nat, total: nat, email: string, now: nat)
    ensures var s := ReadSuccessParams(Confirm.SuccessQuery(Confirm.BookingId(now), p, quantity, total, email));
      && s.id == Confirm.BookingId(now)
      && s.doctor == p.doctor && s.service == p.service && s.date == p.date && s.times == p.times
      && s.total == Numerals.ToRadix(total / 100, 10)
  {
    var q := Confirm.SuccessQuery(Confirm.BookingId(now), p, quantity, total, email);
    ParamsDefaultToEmpty(q);
    assert Confirm.BookingId(now) != "";
  }

  /** ... and for the quantities the selector offers the page shows the
      checkout's own total. */
  lemma ConfirmationShowsCheckoutTotal(p: Confirm.ConfirmParams, quantity: nat, email: string, now: nat)
    requires 1 <= quantity <= 5
    ensures var total := Confirm.Price(p.service, quantity, p.isNew).total;
      var s := ReadSuccessParams(Confirm.SuccessQuery(Confirm.BookingId(now), p, quantity, total, email));
      TotalPaid(s.total) == Some(Confirm.FormatCurrency(total))
  {
    var total := Confirm.Price(p.service, quantity, p.isNew).total;
    Confirm.TotalBounds(p.service, quantity, p.isNew);
    Confirm.TotalAtMost(p.service, quantity, p.isNew);
    assert total <= 41000;
    ConfirmationShowsBooking(p, quantity, total, email, now);
    HandedOnTotalShown(total);
  }

  /** Three telehealth sessions for a new patient show as $172.00. */
  lemma TelehealthBundleShown(p: Confirm.ConfirmParams, email: string, now: nat)
    requires p.service == Confirm.TelehealthAppointment && p.isNew
    ensures var total := Confirm.Price(p.service, 3, p.isNew).total;
      var s := ReadSuccessParams(Confirm.SuccessQuery(Confirm.BookingId(now), p, 3, total, email));
      TotalPaid(s.total) == Some("$172.00")
  {
    ConfirmationShowsCheckoutTotal(p, 3, email, now);
    Confirm.PriceExamples();
    Confirm.FormatCurrencyExample();
  }
}
