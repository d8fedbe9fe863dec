/** The new-patient registration form: the schema of per-field rules the
    form is resolved against, as a predicate on the submitted values and as
    the list of issues the schema reports. Lengths are JavaScript string
    lengths, in UTF-16 code units. */
module Register {
  import opened Options
  import opened Text
  import Patterns

  /** The submitted values. The age arrives already converted to a whole
      number. The security question is set only when a question is picked
      from the list, so it may be absent, and so may `tipsOptIn`. The consent
      box is also set only when clicked; an absent value and an unticked box
      draw the same message, so `consent` is a plain flag. */
  datatype Registration = Registration(
    fullName: string, age: int, contact: string, emergencyContact: string,
    username: string, password: string,
    securityQuestion: Option<string>, securityAnswer: string,
    cardNumber: string, expiry: string, cvc: string,
    consent: bool, tipsOptIn: Option<bool>)

  const MinFullName: nat := 2
  const MinContact: nat := 5
  const MinEmergencyContact: nat := 5
  const MinUsername: nat := 3
  const MinPassword: nat := 8
  const MinSecurityQuestion: nat := 1
  const MinSecurityAnswer: nat := 2
  const MinAge: int := 0
  const MaxAge: int := 120

  /** A string rule `.min(n)`: at least `n` code units. */
  predicate AtLeast(s: string, n: nat) {
    Utf16Length(s) >= n
  }

  /** The password policy: long enough, with an upper-case letter and a
      digit somewhere in it. */
  predicate PasswordOk(p: string) {
    AtLeast(p, MinPassword) && ContainsSome(p, IsAsciiUpper) && ContainsSome(p, IsAsciiDigit)
  }

  predicate AgeOk(age: int) {
    MinAge <= age <= MaxAge
  }

  /** The form passes the schema: every field rule holds. The tips box is
      optional and never takes part. */
  predicate ValidRegistration(r: Registration) {
    && AtLeast(r.fullName, MinFullName)
    && AgeOk(r.age)
    && AtLeast(r.contact, MinContact)
    && AtLeast(r.emergencyContact, MinEmergencyContact)
    && AtLeast(r.username, MinUsername)
    && PasswordOk(r.password)
    && SecurityQuestionOk(r.securityQuestion)
    && AtLeast(r.securityAnswer, MinSecurityAnswer)
    && Patterns.SixteenDigits(r.cardNumber)
    && Patterns.ExpiryShape(r.expiry)
    && Patterns.CvcDigits(r.cvc)
    && r.consent
  }

  /** One issue the schema reports: the field and its message. */
  datatype Issue = Issue(field: string, message: string)

  /** The issue of one check, if it fails. */
  function Check(ok: bool, field: string, message: string): seq<Issue>
  {
    if ok then [] else [Issue(field, message)]
  }

  /** The password's checks run one after another and every failing one is
      reported. */
  function PasswordIssues(p: string): seq<Issue>
  {
    Check(AtLeast(p, MinPassword), "password", "Password must be at least 8 characters")
    + Check(ContainsSome(p, IsAsciiUpper), "password", "Include an uppercase letter")
    + Check(ContainsSome(p, IsAsciiDigit), "password", "Include a number")
  }

  /** The age's checks; the bounds use the schema library's own messages. */
  function AgeIssues(age: int): seq<Issue>
  {
    Check(age >= MinAge, "age", "Number must be greater than or equal to 0")
    + Check(age <= MaxAge, "age", "Number must be less than or equal to 120")
  }

  /** A question was picked, and it is not empty. */
  predicate SecurityQuestionOk(q: Option<string>) {
    q.Some? && AtLeast(q.value, MinSecurityQuestion)
  }

  /** A question never picked is missing from the submitted values, and the
      schema library reports its own "Required" in place of the field's
      message. */
  function SecurityQuestionIssues(q: Option<string>): seq<Issue>
  {
    match q
    case None => [Issue("securityQuestion", "Required")]
    case Some(s) => Check(AtLeast(s, MinSecurityQuestion), "securityQuestion", "Select a question")
  }

  /** Every issue of the form, field by field in the schema's order. */
  function Issues(r: Registration): seq<Issue>
  {
    Check(AtLeast(r.fullName, MinFullName), "fullName", "Enter your full name")
    + AgeIssues(r.age)
    + Check(AtLeast(r.contact, MinContact), "contact", "Enter a valid contact (email or phone)")
    + Check(AtLeast(r.emergencyContact, MinEmergencyContact), "emergencyContact", "Enter an emergency contact")
    + Check(AtLeast(r.username, MinUsername), "username", "Choose a username")
    + PasswordIssues(r.password)
    + SecurityQuestionIssues(r.securityQuestion)
    + Check(AtLeast(r.securityAnswer, MinSecurityAnswer), "securityAnswer", "Provide an answer")
    + Check(Patterns.SixteenDigits(r.cardNumber), "cardNumber", "Enter a 16-digit card number")
    + Check(Patterns.ExpiryShape(r.expiry), "expiry", "MM/YY")
    + Check(Patterns.CvcDigits(r.cvc), "cvc", "3 or 4 digits")
    + Check(r.consent, "consent", "Consent is required")
  }

  /** The password reports nothing exactly when the policy holds, and up to
      three messages otherwise, all about the password. */
  lemma PasswordIssuesIff(p: string)
    ensures PasswordIssues(p) == [] <==> PasswordOk(p)
    ensures |PasswordIssues(p)| <= 3
    ensures forall i :: 0 <= i < |PasswordIssues(p)| ==> PasswordIssues(p)[i].field == "password"
  {
  }

  /** The schema accepts the form exactly when it reports no issue; so any
      single failing rule rejects the form. */
  lemma IssuesEmptyIff(r: Registration)
    ensures Issues(r) == [] <==> ValidRegistration(r)
  {
    PasswordIssuesIff(r.password);
    assert AgeIssues(r.age) == [] <==> AgeOk(r.age);
    assert SecurityQuestionIssues(r.securityQuestion) == [] <==> SecurityQuestionOk(r.securityQuestion);
  }

  /** A question never picked draws the library's "Required"; a picked one
      passes, since every question offered has a non-empty value. */
  lemma SecurityQuestionRequired(r: Registration)
    ensures r.securityQuestion.None? ==>
      !ValidRegistration(r) && Issue("securityQuestion", "Required") in Issues(r)
    ensures r.securityQuestion.Some? && r.securityQuestion.value in {"pet", "street", "teacher"} ==>
      SecurityQuestionIssues(r.securityQuestion) == []
  {
    if r.securityQuestion.Some? && r.securityQuestion.value in {"pet", "street", "teacher"} {
      Utf16LengthBounds(r.securityQuestion.value);
    }
  }

  /** The tips box never decides the outcome. */
  lemma TipsOptInIgnored(r: Registration, t: Option<bool>)
    ensures ValidRegistration(r) <==> ValidRegistration(r.(tipsOptIn := t))
    ensures Issues(r) == Issues(r.(tipsOptIn := t))
  {
  }

  /** A card number grouped in fours is rejected here, although the checkout
      page accepts it after stripping the spaces. */
  lemma GroupedCardRejected(r: Registration, d: string)
    requires Patterns.SixteenDigits(d) && r.cardNumber == Patterns.Grouped(d)
    ensures !ValidRegistration(r)
    ensures Patterns.SixteenDigits(Patterns.StripWhitespace(r.cardNumber))
  {
    Patterns.GroupedNumberOnlyPassesAfterStripping(d);
  }

  /** Ages from 0 to 120 are accepted, and nothing outside. */
  lemma AgeBounds()
    ensures AgeOk(0) && AgeOk(120) && !AgeOk(-1) && !AgeOk(121)
    ensures AgeIssues(121) == [Issue("age", "Number must be less than or equal to 120")]
  {
  }

  /** Lengths count UTF-16 code units: a single emoji is two units and so
      meets the two-character minimum of the full name, while a single
      letter does not. */
  lemma LengthCountsCodeUnits()
    ensures AtLeast("\U{1F600}", MinFullName)
    ensures !AtLeast("J", MinFullName)
    ensures AtLeast("Jo", MinFullName)
  {
    assert "\U{1F600}"[0] as int > 0xFFFF;
    assert "\U{1F600}"[1..] == [];
  }

  /** For text without characters outside the Basic Multilingual Plane the
      minimum lengths count characters. */
  lemma BmpLength(s: string)
    requires forall i :: 0 <= i < |s| ==> s[i] as int <= 0xFFFF
    ensures Utf16Length(s) == |s|
  {
    Utf16LengthBounds(s);
  }

  /** The password policy on examples: one passes, and each of the others
      misses exactly one requirement. */
  lemma PasswordAccepted()
    ensures PasswordOk("Secret12")
  {
    var p := "Secret12";
    assert IsAsciiUpper(p[0]) && IsAsciiDigit(p[6]);
    BmpLength(p);
  }

  lemma PasswordWithoutUpper()
    ensures PasswordIssues("secret12") == [Issue("password", "Include an uppercase letter")]
  {
    var p := "secret12";
    assert IsAsciiDigit(p[6]);
    BmpLength(p);
    assert forall i :: 0 <= i < |p| ==> !IsAsciiUpper(p[i]);
  }

  lemma PasswordWithoutDigit()
    ensures PasswordIssues("Secretab") == [Issue("password", "Include a number")]
  {
    var p := "Secretab";
    assert IsAsciiUpper(p[0]);
    BmpLength(p);
    assert forall i :: 0 <= i < |p| ==> !IsAsciiDigit(p[i]);
  }

  lemma PasswordTooShort()
    ensures PasswordIssues("Secre12") == [Issue("password", "Password must be at least 8 characters")]
  {
    var p := "Secre12";
    assert IsAsciiUpper(p[0]) && IsAsciiDigit(p[5]);
    BmpLength(p);
  }
}
