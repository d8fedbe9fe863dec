/** The fixed input patterns of the checkout and registration forms, written
    out as predicates on characters in place of the regular expressions, with
    lemmas that restate each in plainer terms. */
module Patterns {
  import opened Text
  import Numerals

  /** `/^[0-9]{16}$/` (checkout) and `/^\d{16}$/` (registration); without the
      `u` flag `\d` is exactly `[0-9]`. */
  predicate SixteenDigits(s: string) {
    |s| == 16 && AllDigits(s)
  }

  /** `/^[0-9]{3,4}$/` and `/^\d{3,4}$/`. */
  predicate CvcDigits(s: string) {
    (|s| == 3 || |s| == 4) && AllDigits(s)
  }

  /** `/^(0[1-9]|1[0-2])\/(\d{2})$/`: two month characters, a slash, two
      digits, and nothing else. */
  predicate ExpiryShape(s: string) {
    && |s| == 5
    && ((s[0] == '0' && '1' <= s[1] <= '9') || (s[0] == '1' && '0' <= s[1] <= '2'))
    && s[2] == '/'
    && IsAsciiDigit(s[3]) && IsAsciiDigit(s[4])
  }

  /** The expiry pattern accepts exactly `MM/YY` where `MM` and `YY` are two
      decimal digits each and `MM` is a month number from 01 to 12. */
  lemma ExpiryIsMonthSlashYear(s: string)
    ensures ExpiryShape(s) <==>
      && |s| == 5 && s[2] == '/'
      && AllDigits(s[..2]) && AllDigits(s[3..])
      && 1 <= Numerals.ValueOf(s[..2], 10) <= 12
  {
    if |s| == 5 {
      var m := s[..2];
      assert m[..1] == [s[0]] && [s[0]][..0] == [] && m[1] == s[1];
      assert Numerals.ValueOf([s[0]], 10) == Numerals.DigitValue(s[0]);
      assert Numerals.ValueOf(m, 10) == Numerals.DigitValue(s[0]) * 10 + Numerals.DigitValue(s[1]);
      assert AllDigits(m) <==> IsAsciiDigit(s[0]) && IsAsciiDigit(s[1]);
      assert AllDigits(s[3..]) <==> IsAsciiDigit(s[3]) && IsAsciiDigit(s[4]) by {
        assert s[3..][0] == s[3] && s[3..][1] == s[4];
      }
    }
  }

  /** `cardNumber.replace(/\s+/g, "")`: every run of JavaScript whitespace
      deleted. */
  function StripWhitespace(s: string): string
  {
    Remove(s, IsJsWhitespace)
  }

  /** Every number the registration pattern accepts is also accepted by the
      checkout rule, which strips whitespace first. */
  lemma SixteenDigitsSurvivesStripping(s: string)
    requires SixteenDigits(s)
    ensures SixteenDigits(StripWhitespace(s))
  {
    RemoveNothing(s, IsJsWhitespace);
  }

  /** A card number written in four groups of four digits separated by
      spaces. */
  function Grouped(d: string): string
    requires |d| == 16
  {
    d[..4] + " " + d[4..8] + " " + d[8..12] + " " + d[12..]
  }

  lemma DigitsHaveNoSpace(s: string)
    requires AllDigits(s)
    ensures forall i :: 0 <= i < |s| ==> !IsJsWhitespace(s[i])
  {
  }

  lemma StripAcrossSpace(x: string, y: string)
    ensures StripWhitespace(x + " " + y) == StripWhitespace(x) + StripWhitespace(y)
  {
    RemoveConcat(x + " ", y, IsJsWhitespace);
    RemoveConcat(x, " ", IsJsWhitespace);
    assert Remove(" ", IsJsWhitespace) == [];
  }

  lemma StripDigits(x: string)
    requires AllDigits(x)
    ensures StripWhitespace(x) == x
  {
    DigitsHaveNoSpace(x);
    RemoveNothing(x, IsJsWhitespace);
  }

  /** The converse fails: a valid number grouped with spaces passes the
      checkout rule and fails the registration pattern. */
  lemma GroupedNumberOnlyPassesAfterStripping(d: string)
    requires SixteenDigits(d)
    ensures !SixteenDigits(Grouped(d))
    ensures StripWhitespace(Grouped(d)) == d
  {
    var g1, g2, g3, g4 := d[..4], d[4..8], d[8..12], d[12..];
    assert Grouped(d) == g1 + " " + g2 + " " + g3 + " " + g4;
    StripAcrossSpace(g1 + " " + g2 + " " + g3, g4);
    StripAcrossSpace(g1 + " " + g2, g3);
    StripAcrossSpace(g1, g2);
    StripDigits(g1);
    StripDigits(g2);
    StripDigits(g3);
    StripDigits(g4);
    assert g1 + g2 + g3 + g4 == d;
  }

  /** The characters `s[i..j]` form a non-empty run without whitespace: what
      `\S+` matches. */
  predicate NonSpaceRun(s: string, i: nat, j: nat)
  {
    i < j <= |s| && forall k :: i <= k < j ==> !IsJsWhitespace(s[k])
  }

  /** The meaning of the unanchored regular expression `/\S+@\S+\.\S+/`: some
      substring is a non-space run, `@`, a non-space run, `.`, and a
      non-space run. */
  ghost predicate EmailRegexMatch(s: string) {
    exists a: nat {:trigger AtSign(s, a)} :: AtSign(s, a) && RunEndingAt(s, a) && DomainFrom(s, a + 1)
  }

  predicate AtSign(s: string, a: nat) {
    a < |s| && s[a] == '@'
  }

  ghost predicate RunEndingAt(s: string, a: nat)
  {
    exists i: nat {:trigger NonSpaceRun(s, i, a)} :: NonSpaceRun(s, i, a)
  }

  /** A non-space run from `p`, then `.`, then a non-space run. */
  ghost predicate DomainFrom(s: string, p: nat)
  {
    exists d: nat {:trigger NonSpaceRun(s, p, d)} :: NonSpaceRun(s, p, d) && d < |s| && s[d] == '.' && RunStartingAt(s, d + 1)
  }

  ghost predicate RunStartingAt(s: string, p: nat)
  {
    exists j: nat {:trigger NonSpaceRun(s, p, j)} :: NonSpaceRun(s, p, j)
  }

  /** The email test as it can be decided: an `@` with a non-space character
      before it, followed by a non-space run, a `.`, and a non-space
      character. */
  predicate EmailShape(s: string) {
    exists a: nat {:trigger AtSign(s, a)} :: 0 < a < |s| && AtSign(s, a) && !IsJsWhitespace(s[a - 1]) && DotFrom(s, a + 1)
  }

  /** A non-space run from `p`, then `.`, then one non-space character. */
  predicate DotFrom(s: string, p: nat)
  {
    exists d: nat {:trigger NonSpaceRun(s, p, d)} :: p <= d < |s| - 1 && NonSpaceRun(s, p, d) && s[d] == '.' && !IsJsWhitespace(s[d + 1])
  }

  lemma SingleNonSpace(s: string, k: nat)
    requires k < |s| && !IsJsWhitespace(s[k])
    ensures NonSpaceRun(s, k, k + 1)
  {
  }

  lemma EmailShapeMatches(s: string)
    requires EmailShape(s)
    ensures EmailRegexMatch(s)
  {
    var a: nat :| 0 < a < |s| && AtSign(s, a) && !IsJsWhitespace(s[a - 1]) && DotFrom(s, a + 1);
    var d: nat :| a + 1 <= d < |s| - 1 && NonSpaceRun(s, a + 1, d) && s[d] == '.' && !IsJsWhitespace(s[d + 1]);
    SingleNonSpace(s, a - 1);
    SingleNonSpace(s, d + 1);
    assert RunStartingAt(s, d + 1);
    assert DomainFrom(s, a + 1);
    assert RunEndingAt(s, a);
  }

  lemma EmailMatchHasShape(s: string)
    requires EmailRegexMatch(s)
    ensures EmailShape(s)
  {
    var a: nat :| AtSign(s, a) && RunEndingAt(s, a) && DomainFrom(s, a + 1);
    var i: nat :| NonSpaceRun(s, i, a);
    var d: nat :| NonSpaceRun(s, a + 1, d) && d < |s| && s[d] == '.' && RunStartingAt(s, d + 1);
    var j: nat :| NonSpaceRun(s, d + 1, j);
    assert !IsJsWhitespace(s[a - 1]);
    assert !IsJsWhitespace(s[d + 1]);
    assert DotFrom(s, a + 1);
  }

  /** The decidable form accepts exactly the strings the regular expression
      finds a match in. */
  lemma EmailShapeIsRegex(s: string)
    ensures EmailShape(s) <==> EmailRegexMatch(s)
  {
    if EmailShape(s) {
      EmailShapeMatches(s);
    }
    if EmailRegexMatch(s) {
      EmailMatchHasShape(s);
    }
  }

  /** The unanchored test finds an address inside surrounding text ... */
  lemma EmailFound()
    ensures EmailShape("pat@clinic.org")
    ensures EmailShape("call me: pat@clinic.org")
  {
    var s := "pat@clinic.org";
    assert NonSpaceRun(s, 4, 10);
    assert AtSign(s, 3) && !IsJsWhitespace(s[2]) && DotFrom(s, 4) by {
      assert s[10] == '.' && !IsJsWhitespace(s[11]);
    }
    var t := "call me: pat@clinic.org";
    assert NonSpaceRun(t, 13, 19);
    assert AtSign(t, 12) && !IsJsWhitespace(t[11]) && DotFrom(t, 13) by {
      assert t[19] == '.' && !IsJsWhitespace(t[20]);
    }
  }

  /** ... and needs a dot after the `@' ... */
  lemma EmailNeedsDot()
    ensures !EmailShape("pat@clinic")
  {
    assert '.' !in "pat@clinic";
  }

  /** ... and a non-space character straight before it. */
  lemma EmailNeedsLocalPart()
    ensures !EmailShape("pat @clinic.org")
  {
    var v := "pat @clinic.org";
    assert v == "pat " + "@" + "clinic.org";
    assert '@' !in "clinic.org";
  }
}
