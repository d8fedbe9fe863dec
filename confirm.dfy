/** The booking-review page: what a booking costs, the checkout form's
    validation, and the booking ID and parameters it hands on to the
    confirmation page. Money is held in whole cents. */
module Confirm {
  import opened Options
  import opened Text
  import Numerals
  import Patterns
  import Query

  const GeneralConsultation: string := "General Consultation"
  const Vaccination: string := "Vaccination"
  const TelehealthAppointment: string := "Telehealth Appointment"

  /** The price table, in whole dollars per session. */
  const Prices: map<string, nat> :=
    map[GeneralConsultation := 80, Vaccination := 40, TelehealthAppointment := 60]

  /** The price per session of a service the table does not list, in dollars. */
  const DefaultPrice: nat := 80

  /** The one-off fee a new patient pays, in dollars. */
  const JoiningFee: nat := 10

  /** The number of telehealth sessions from which the bundle discount applies. */
  const BundleMinimum: nat := 3

  /** The price per session in cents: the table's own entry for the service,
      or the default price for any other name. */
  function UnitPrice(service: string): nat
  {
    100 * (if service in Prices then Prices[service] else DefaultPrice)
  }

  /** The table lists three services; every other name costs $80. */
  lemma UnitPriceTable(service: string)
    ensures UnitPrice(service) ==
      if service == Vaccination then 4000
      else if service == TelehealthAppointment then 6000
      else 8000
  {
  }

  /** The telehealth bundle: three or more telehealth sessions. */
  predicate BundleApplies(service: string, quantity: nat) {
    service == TelehealthAppointment && quantity >= BundleMinimum
  }

  /** The amounts the page computes, in cents. */
  datatype Breakdown = Breakdown(
    pricePer: nat,   // price per session, shown as such
    sessions: nat,   // price per session times the number of sessions: the line labelled "Subtotal"
    joiningFee: nat, // the joining fee charged, if any, shown on its own line
    subtotal: nat,   // sessions plus joining fee: the page's `subtotal`, never shown itself
    discount: nat,   // the bundle discount
    total: nat)      // what the patient pays

  /** The price per session, the subtotal with the joining fee for a new
      patient, the bundle discount of a tenth of the sessions' price, and the
      total. */
  function Price(service: string, quantity: nat, isNew: bool): Breakdown
  {
    var per := UnitPrice(service);
    var sessions := per * quantity;
    var fee := if isNew then 100 * JoiningFee else 0;
    var discount := if BundleApplies(service, quantity) then sessions / 10 else 0;
    Breakdown(per, sessions, fee, sessions + fee, discount, sessions + fee - discount)
  }

  /** Before the discount the charge is the unit price times the quantity,
      plus $10 exactly when the patient is new. */
  lemma ChargeBeforeDiscount(service: string, quantity: nat, isNew: bool)
    ensures var b := Price(service, quantity, isNew);
      && b.pricePer == UnitPrice(service)
      && b.subtotal == UnitPrice(service) * quantity + (if isNew then 1000 else 0)
      && (b.joiningFee > 0 <==> isNew)
  {
  }

  /** The discount is given exactly for three or more telehealth sessions;
      it is then exactly a tenth of the sessions' price, and the joining fee
      is never discounted. */
  lemma DiscountRule(service: string, quantity: nat, isNew: bool)
    ensures var b := Price(service, quantity, isNew);
      && (b.discount > 0 <==> service == TelehealthAppointment && quantity >= 3)
      && (b.discount > 0 ==> b.discount * 10 == b.sessions)
      && b.discount == Price(service, quantity, !isNew).discount
  {
    if BundleApplies(service, quantity) {
      UnitPriceTable(service);
      BundleArith(quantity);
    }
  }

  /** A tenth of the price of `q` telehealth sessions. */
  lemma BundleArith(q: nat)
    ensures 6000 * q / 10 == 600 * q && 600 * q * 10 == 6000 * q
    ensures 6000 * q - 600 * q == 5400 * q
  {
  }

  lemma HundredsArith(d: nat, q: nat)
    ensures (100 * d) * q == 100 * (d * q)
  {
  }

  /** The total is the subtotal less the discount: never negative, never
      above the subtotal, and always a whole number of dollars. */
  lemma TotalBounds(service: string, quantity: nat, isNew: bool)
    ensures var b := Price(service, quantity, isNew);
      && b.total + b.discount == b.subtotal
      && b.total <= b.subtotal
      && b.total % 100 == 0
      && (service == TelehealthAppointment && quantity >= 3 ==>
            b.total == 5400 * quantity + (if isNew then 1000 else 0))
  {
    var dollars := if service in Prices then Prices[service] else DefaultPrice;
    assert UnitPrice(service) == 100 * dollars;
    HundredsArith(dollars, quantity);
    if BundleApplies(service, quantity) {
      UnitPriceTable(service);
      BundleArith(quantity);
    }
  }

  /** The charge never exceeds the dearest session price for every session
      plus the joining fee. */
  lemma TotalAtMost(service: string, quantity: nat, isNew: bool)
    ensures Price(service, quantity, isNew).total <= 100 * (DefaultPrice * quantity + JoiningFee)
  {
    UnitPriceTable(service);
    TotalBounds(service, quantity, isNew);
    Numerals.MulMonotone(UnitPrice(service), 100 * DefaultPrice, quantity);
  }

  /** Three telehealth sessions for a new patient: $180 + $10 - $18 = $172;
      two sessions get no discount; a new patient's consultation is $90, and
      an unlisted service costs $80. */
  lemma PriceExamples()
    ensures Price(TelehealthAppointment, 3, true).total == 17200
    ensures Price(TelehealthAppointment, 2, false).discount == 0
    ensures Price(TelehealthAppointment, 2, false).total == 12000
    ensures Price(GeneralConsultation, 1, true).total == 9000
    ensures Price("Dental Check", 1, false).total == 8000
  {
  }

  /** `$` followed by the amount with exactly two decimals. */
  function FormatCurrency(cents: nat): string
  {
    "$" + Numerals.FixedTwo(cents)
  }

  /** The formatted amount is a dollar sign, whole dollars without leading
      zeros, a point and two digits of cents, and it reads back as the
      amount. */
  lemma FormatCurrencyReadsBack(cents: nat)
    ensures var s := FormatCurrency(cents);
      && |s| >= 5 && s[0] == '$' && s[|s| - 3] == '.'
      && AllDigits(s[1..|s| - 3]) && AllDigits(s[|s| - 2..])
      && Numerals.ValueOf(s[1..|s| - 3] + s[|s| - 2..], 10) == cents
      && (s[1] == '0' ==> |s| == 5)
  {
    var f := Numerals.FixedTwo(cents);
    Numerals.FixedTwoValue(cents);
    var s := FormatCurrency(cents);
    assert s[1..] == f;
    assert s[1..|s| - 3] == f[..|f| - 3] && s[|s| - 2..] == f[|f| - 2..];
  }

  lemma FormatCurrencyExample()
    ensures FormatCurrency(17200) == "$172.00"
    ensures FormatCurrency(1800) == "$18.00"
  {
    assert Numerals.ToRadix(172, 10) == Numerals.ToRadix(17, 10) + "2";
    assert Numerals.ToRadix(17, 10) == "17";
    assert Numerals.ToRadix(18, 10) == "18";
  }

  /** The booking parameters the page reads from its query string. */
  datatype ConfirmParams = ConfirmParams(
    doctor: string, specialty: string, service: string,
    date: string, times: string, isNew: bool)

  /** Each parameter falls back to its default when it is missing or empty;
      the patient is new only when `new` is exactly "1". */
  function ReadConfirmParams(q: map<string, string>): ConfirmParams
  {
    ConfirmParams(
      Query.Param(q, "doctor", ""),
      Query.Param(q, "specialty", ""),
      Query.Param(q, "service", GeneralConsultation),
      Query.Param(q, "date", ""),
      Query.Param(q, "times", "Any"),
      Query.Get(q, "new") == Some("1"))
  }

  /** Without a `service` parameter the booking is a general consultation at
      $80 a session; the joining fee is charged exactly when `new` is "1". */
  lemma ConfirmDefaults(q: map<string, string>, quantity: nat)
    ensures var p := ReadConfirmParams(q);
      && ("service" !in q ==> p.service == GeneralConsultation && UnitPrice(p.service) == 8000)
      && ("times" !in q ==> p.times == "Any")
      && (p.isNew <==> "new" in q && q["new"] == "1")
      && (Price(p.service, quantity, p.isNew).joiningFee == 1000 <==> "new" in q && q["new"] == "1")
  {
  }

  /** The contact and payment fields of the checkout form. */
  datatype CheckoutForm = CheckoutForm(
    fullName: string, email: string, phone: string, emergency: string,
    cardName: string, cardNumber: string, expiry: string, cvc: string,
    postcode: string, consent: bool, tipsOptIn: bool)

  /** The form as the page first shows it: contact fields prefilled from the
      query string, payment fields empty, both boxes unticked. */
  function InitialForm(q: map<string, string>): CheckoutForm
  {
    CheckoutForm(
      Query.Param(q, "patient", ""), Query.Param(q, "email", ""),
      Query.Param(q, "phone", ""), Query.Param(q, "emergency", ""),
      "", "", "", "", "", false, false)
  }

  /** The fields the checkout validation checks. The record of errors is
      keyed by field; `Key` gives the property name the page uses for each,
      and no two fields share one. */
  datatype Field = FullName | Email | Phone | Consent | CardName | CardNumber | Expiry | Cvc | Postcode

  function Key(f: Field): string
  {
    match f
    case FullName => "fullName"
    case Email => "email"
    case Phone => "phone"
    case Consent => "consent"
    case CardName => "cardName"
    case CardNumber => "cardNumber"
    case Expiry => "expiry"
    case Cvc => "cvc"
    case Postcode => "postcode"
  }

  /** Different fields have different property names, so a record keyed by
      field and one keyed by property name hold the same information. */
  lemma KeyInjective(f: Field, g: Field)
    requires Key(f) == Key(g)
    ensures f == g
  {
    assert |Key(f)| == |Key(g)| && Key(f)[0] == Key(g)[0];
    if |Key(f)| == 5 {
      assert Key(f)[1] == Key(g)[1];
    }
  }

  /** The message recorded for a failing field. */
  function Message(f: Field): string
  {
    match f
    case FullName => "Enter full name"
    case Email => "Enter a valid email"
    case Phone => "Enter a phone number"
    case Consent => "Consent is required"
    case CardName => "Enter cardholder name"
    case CardNumber => "Enter a 16-digit card number"
    case Expiry => "Enter expiry in MM/YY"
    case Cvc => "Enter a 3 or 4 digit CVC"
    case Postcode => "Enter billing postcode"
  }

  /** The rule for one field fails. */
  predicate Fails(form: CheckoutForm, f: Field)
  {
    match f
    case FullName => form.fullName == ""
    case Email => form.email == "" || !Patterns.EmailShape(form.email)
    case Phone => form.phone == ""
    case Consent => !form.consent
    case CardName => form.cardName == ""
    case CardNumber => !Patterns.SixteenDigits(Patterns.StripWhitespace(form.cardNumber))
    case Expiry => !Patterns.ExpiryShape(form.expiry)
    case Cvc => !Patterns.CvcDigits(form.cvc)
    case Postcode => form.postcode == ""
  }

  /** A form the checkout accepts: every contact and payment rule holds. */
  predicate CheckoutValid(form: CheckoutForm)
  {
    && form.fullName != "" && Patterns.EmailShape(form.email) && form.phone != ""
    && form.consent && form.cardName != ""
    && Patterns.SixteenDigits(Patterns.StripWhitespace(form.cardNumber))
    && Patterns.ExpiryShape(form.expiry) && Patterns.CvcDigits(form.cvc)
    && form.postcode != ""
  }

  /** The checkout accepts a form exactly when no single rule fails. */
  lemma ValidIffNoRuleFails(form: CheckoutForm)
    ensures CheckoutValid(form) <==> forall f: Field :: !Fails(form, f)
  {
    if !CheckoutValid(form) {
      assert Patterns.EmailShape("") == false;
      if form.fullName == "" { assert Fails(form, FullName); }
      else if !Patterns.EmailShape(form.email) { assert Fails(form, Email); }
      else if form.phone == "" { assert Fails(form, Phone); }
      else if !form.consent { assert Fails(form, Consent); }
      else if form.cardName == "" { assert Fails(form, CardName); }
      else if !Patterns.SixteenDigits(Patterns.StripWhitespace(form.cardNumber)) { assert Fails(form, CardNumber); }
      else if !Patterns.ExpiryShape(form.expiry) { assert Fails(form, Expiry); }
      else if !Patterns.CvcDigits(form.cvc) { assert Fails(form, Cvc); }
      else { assert Fails(form, Postcode); }
    }
  }

  /** The number of rules. */
  const RuleCount: nat := 9

  /** The field whose rule is checked `i`-th. */
  function FieldAt(i: nat): Field
    requires i < RuleCount
  {
    if i == 0 then FullName
    else if i == 1 then Email
    else if i == 2 then Phone
    else if i == 3 then Consent
    else if i == 4 then CardName
    else if i == 5 then CardNumber
    else if i == 6 then Expiry
    else if i == 7 then Cvc
    else Postcode
  }

  /** The position of a field's rule in the order of checking. */
  function Rank(f: Field): (i: nat)
    ensures i < RuleCount && FieldAt(i) == f
  {
    match f
    case FullName => 0
    case Email => 1
    case Phone => 2
    case Consent => 3
    case CardName => 4
    case CardNumber => 5
    case Expiry => 6
    case Cvc => 7
    case Postcode => 8
  }

  /** `errors` holds the message of every failing rule among the first `n`
      rules, and nothing else. */
  predicate ReportsFirst(form: CheckoutForm, errors: map<Field, string>, n: nat)
  {
    && (forall f: Field :: f in errors <==> Rank(f) < n && Fails(form, f))
    && (forall f: Field :: f in errors ==> errors[f] == Message(f))
  }

  /** `errors` holds the message of every failing rule and nothing else. */
  predicate Reports(form: CheckoutForm, errors: map<Field, string>)
  {
    ReportsFirst(form, errors, RuleCount)
  }

  /** Checking the rule for field `f` against the record so far. */
  function Step(form: CheckoutForm, e: map<Field, string>, f: Field): map<Field, string>
  {
    if Fails(form, f) then e[f := Message(f)] else e
  }

  /** The record after the first `n` rules have been checked, one by one. */
  function Recorded(form: CheckoutForm, n: nat): map<Field, string>
    requires n <= RuleCount
  {
    if n == 0 then map[] else Step(form, Recorded(form, n - 1), FieldAt(n - 1))
  }

  /** Checking one more rule: a failing rule adds exactly its own entry with
      its own message, a passing rule adds nothing, and nothing recorded
      before changes. */
  lemma RuleStep(form: CheckoutForm, errors: map<Field, string>, f: Field)
    requires ReportsFirst(form, errors, Rank(f))
    ensures ReportsFirst(form, Step(form, errors, f), Rank(f) + 1)
  {
    forall g: Field ensures Rank(g) == Rank(f) ==> g == f {
      assert FieldAt(Rank(g)) == g;
    }
  }

  /** After `n` rules the record reports exactly the failures among them. */
  lemma {:induction false} RecordedReports(form: CheckoutForm, n: nat)
    requires n <= RuleCount
    ensures ReportsFirst(form, Recorded(form, n), n)
  {
    if n > 0 {
      var f := FieldAt(n - 1);
      RecordedReports(form, n - 1);
      assert Rank(f) == n - 1;
      RuleStep(form, Recorded(form, n - 1), f);
    }
  }

  /** The form determines the error record completely, and the record is
      empty exactly when the form is valid. */
  lemma ReportsDetermined(form: CheckoutForm, e1: map<Field, string>, e2: map<Field, string>)
    requires Reports(form, e1) && Reports(form, e2)
    ensures e1 == e2
    ensures |e1| == 0 <==> CheckoutValid(form)
  {
    assert e1.Keys == e2.Keys;
    ValidIffNoRuleFails(form);
    if !CheckoutValid(form) {
      var f: Field :| Fails(form, f);
      assert f in e1;
    } else {
      assert e1.Keys == {};
    }
  }

  /** After all rules the record reports every failure, and it is empty
      exactly when the form is valid. */
  lemma RecordedOutcome(form: CheckoutForm)
    ensures Reports(form, Recorded(form, RuleCount))
    ensures |Recorded(form, RuleCount)| == 0 <==> CheckoutValid(form)
  {
    RecordedReports(form, RuleCount);
    ReportsDetermined(form, Recorded(form, RuleCount), Recorded(form, RuleCount));
  }

  /** `validate`: one rule after another, each failing rule recording its
      message; the form passes when nothing was recorded. */
  method Validate(form: CheckoutForm) returns (errors: map<Field, string>, ok: bool)
    ensures errors == Recorded(form, RuleCount)
    ensures Reports(form, errors)
    ensures ok <==> CheckoutValid(form)
  {
    errors := map[];
    errors := if form.fullName == "" then errors[FullName := "Enter full name"] else errors;
    assert errors == Recorded(form, 1);
    errors := if form.email == "" || !Patterns.EmailShape(form.email) then errors[Email := "Enter a valid email"] else errors;
    assert errors == Recorded(form, 2);
    errors := if form.phone == "" then errors[Phone := "Enter a phone number"] else errors;
    assert errors == Recorded(form, 3);
    errors := if !form.consent then errors[Consent := "Consent is required"] else errors;
    assert errors == Recorded(form, 4);
    errors := if form.cardName == "" then errors[CardName := "Enter cardholder name"] else errors;
    assert errors == Recorded(form, 5);
    errors := if !Patterns.SixteenDigits(Patterns.StripWhitespace(form.cardNumber)) then errors[CardNumber := "Enter a 16-digit card number"] else errors;
    assert errors == Recorded(form, 6);
    errors := if !Patterns.ExpiryShape(form.expiry) then errors[Expiry := "Enter expiry in MM/YY"] else errors;
    assert errors == Recorded(form, 7);
    errors := if !Patterns.CvcDigits(form.cvc) then errors[Cvc := "Enter a 3 or 4 digit CVC"] else errors;
    assert errors == Recorded(form, 8);
    errors := if form.postcode == "" then errors[Postcode := "Enter billing postcode"] else errors;
    assert errors == Recorded(form, 9);
    ok := |errors| == 0;
    RecordedOutcome(form);
  }

  /** A form fresh from the query string never passes: consent is unticked
      and the payment fields are empty. */
  lemma FreshFormNeverValidates(q: map<string, string>)
    ensures !CheckoutValid(InitialForm(q))
    ensures Fails(InitialForm(q), Consent) && Fails(InitialForm(q), CardNumber)
  {
  }

  /** The last `k` characters of `s`, or all of it when it is shorter
      (`slice(-k)`). */
  function TakeLast(s: string, k: nat): (r: string)
    ensures |r| == if |s| <= k then |s| else k
    ensures s == s[..|s| - |r|] + r
  {
    if |s| <= k then s else s[|s| - k..]
  }

  /** The booking ID for a timestamp of `now` milliseconds: "HL-" and the last
      eight characters of the timestamp in upper-case base 36. */
  function BookingId(now: nat): string
  {
    "HL-" + TakeLast(UpperAscii(Numerals.ToRadix(now, 36)), 8)
  }

  /** The last eight digits of an upper-case base-36 numeral denote its
      value modulo 36 to the 8th. */
  lemma LastEightDigits(u: string, n: nat)
    requires Numerals.IsUpperNumeral(u, 36) && Numerals.ValueOf(u, 36) == n
    ensures Numerals.IsUpperNumeral(TakeLast(u, 8), 36)
    ensures Numerals.ValueOf(TakeLast(u, 8), 36) == n % Numerals.Pow(36, 8)
  {
    var suffix := TakeLast(u, 8);
    assert u == u[..|u| - |suffix|] + suffix;
    assert Numerals.IsNumeral(u, 36);
    if |u| >= 8 {
      Numerals.LastDigits(u, 36, 8);
    } else {
      Numerals.ValueBound(u, 36);
      Numerals.PowMonotone(36, |u|, 8);
      Numerals.DivModUnique(n, Numerals.Pow(36, 8), 0, n);
    }
  }

  /** The ID is "HL-" and an upper-case base-36 numeral of one to eight
      digits that denotes the timestamp modulo 36 to the 8th. */
  lemma BookingIdShape(now: nat)
    ensures var id := BookingId(now);
      && 4 <= |id| <= 11 && id[..3] == "HL-"
      && Numerals.IsUpperNumeral(id[3..], 36)
      && Numerals.ValueOf(id[3..], 36) == now % Numerals.Pow(36, 8)
  {
    var t := Numerals.ToRadix(now, 36);
    Numerals.ToRadixDigits(now, 36);
    Numerals.UpperOfLowerNumeral(t, 36);
    Numerals.ToRadixValue(now, 36);
    Numerals.UpperValue(t, 36);
    LastEightDigits(UpperAscii(t), now);
    assert BookingId(now)[3..] == TakeLast(UpperAscii(t), 8);
  }

  /** Every timestamp from mid-1972 on has at least eight base-36 digits, so
      its ID has exactly eleven characters. */
  lemma BookingIdLength(now: nat)
    requires now >= Numerals.Pow(36, 7)
    ensures |BookingId(now)| == 11
  {
    var t := Numerals.ToRadix(now, 36);
    if |t| < 8 {
      Numerals.ToRadixBelow(now, 36);
      Numerals.PowMonotone(36, |t|, 7);
    }
  }

  /** Two such timestamps get the same ID exactly when they agree modulo 36
      to the 8th milliseconds (about 89 years). */
  lemma BookingIdsEqualIff(a: nat, b: nat)
    requires a >= Numerals.Pow(36, 7) && b >= Numerals.Pow(36, 7)
    ensures BookingId(a) == BookingId(b) <==> a % Numerals.Pow(36, 8) == b % Numerals.Pow(36, 8)
  {
    BookingIdShape(a);
    BookingIdShape(b);
    BookingIdLength(a);
    BookingIdLength(b);
    var x, y := BookingId(a), BookingId(b);
    if a % Numerals.Pow(36, 8) == b % Numerals.Pow(36, 8) {
      Numerals.UpperNumeralInjective(x[3..], y[3..], 36);
      assert x == x[..3] + x[3..] && y == y[..3] + y[3..];
    }
  }

  /** The query string handed to the confirmation page. Amounts are written
      as `String` writes a whole number: the quantity, and the total in
      dollars. */
  function SuccessQuery(id: string, p: ConfirmParams, quantity: nat, total: nat, email: string): map<string, string>
  {
    map[
      "id" := id, "doctor" := p.doctor, "specialty" := p.specialty,
      "service" := p.service, "date" := p.date, "times" := p.times,
      "quantity" := Numerals.ToRadix(quantity, 10),
      "total" := Numerals.ToRadix(total / 100, 10),
      "email" := email]
  }

  /** `handleConfirm`: validate the form; if it passes, make the booking ID
      from the clock reading `now` and hand the booking on. */
  method HandleConfirm(p: ConfirmParams, quantity: nat, form: CheckoutForm, now: nat)
    returns (errors: map<Field, string>, next: Option<map<string, string>>)
    ensures Reports(form, errors)
    ensures next.Some? <==> CheckoutValid(form)
    ensures next.Some? ==>
      next.value == SuccessQuery(BookingId(now), p, quantity,
                                 Price(p.service, quantity, p.isNew).total, form.email)
  {
    var ok;
    errors, ok := Validate(form);
    if !ok {
      return errors, None;
    }
    var id := "HL-" + TakeLast(UpperAscii(Numerals.ToRadix(now, 36)), 8);
    var total := Price(p.service, quantity, p.isNew).total;
    next := Some(SuccessQuery(id, p, quantity, total, form.email));
  }

  /** The booking handed on carries the ID, the booking parameters and the
      total in whole dollars, which reads back as the total. */
  lemma HandedOnTotal(p: ConfirmParams, quantity: nat, email: string, now: nat)
    ensures var total := Price(p.service, quantity, p.isNew).total;
      var q := SuccessQuery(BookingId(now), p, quantity, total, email);
      && q["id"] == BookingId(now)
      && AllDigits(q["total"])
      && Numerals.ValueOf(q["total"], 10) * 100 == total
  {
    var total := Price(p.service, quantity, p.isNew).total;
    TotalBounds(p.service, quantity, p.isNew);
    Numerals.ToRadixValue(total / 100, 10);
    Numerals.ToRadixDigits(total / 100, 10);
    Numerals.DecimalDigits(Numerals.ToRadix(total / 100, 10));
  }

  // Object-property lookup as the page performs it.

  /** The members every plain JavaScript object inherits from
      `Object.prototype`; reading one of these names from the price table
      gives a function or an object, not `undefined`. */
  const InheritedNames: set<string> := {
    "constructor", "hasOwnProperty", "isPrototypeOf", "propertyIsEnumerable",
    "toString", "toLocaleString", "valueOf", "__proto__",
    "__defineGetter__", "__defineSetter__", "__lookupGetter__", "__lookupSetter__"}

  /** The value `PRICES[service] ?? 80` produces: a number of dollars, or
      something that is not a number. */
  datatype JsValue = Number(dollars: nat) | NotANumber

  /** `PRICES[service] ?? 80` as written: `??` falls back only on `undefined`,
      which an inherited name never yields. */
  function PricePerAsWritten(service: string): JsValue
  {
    if service in Prices then Number(Prices[service])
    else if service in InheritedNames then NotANumber
    else Number(DefaultPrice)
  }

  /** What the price-per-session line shows: the formatted amount, or a
      `TypeError` thrown while rendering (a function or `Object.prototype`
      has no `toFixed`). */
  datatype Shown = Shows(text: string) | Throws

  function PricePerShownAsWritten(service: string): Shown
  {
    match PricePerAsWritten(service)
    case Number(d) => Shows(FormatCurrency(100 * d))
    case NotANumber => Throws
  }

  /** Apart from the inherited names the lookup as written agrees with the
      table-or-default price. */
  lemma AsWrittenAgreesElsewhere(service: string)
    requires service !in InheritedNames
    ensures PricePerAsWritten(service) == Number(UnitPrice(service) / 100)
    ensures PricePerShownAsWritten(service) == Shows(FormatCurrency(UnitPrice(service)))
  {
  }

  /** `?service=toString` breaks the page as written, while the intended rule
      prices it at the $80 default. */
  lemma InheritedNameBreaksPrice()
    ensures PricePerShownAsWritten("toString") == Throws
    ensures UnitPrice("toString") == 8000
    ensures FormatCurrency(UnitPrice("toString")) == "$80.00"
  {
    assert "toString" !in Prices;
    assert Numerals.ToRadix(80, 10) == Numerals.ToRadix(8, 10) + "0";
  }
}
