/** Character classes and string helpers shared by the pages: the ASCII
    classes used by the form patterns, JavaScript's `\s` class, removal of a
    class of characters (`String.prototype.replace` with a global pattern and
    an empty replacement) and the UTF-16 length that JavaScript reports as
    `.length`. */
module Text {

  predicate IsAsciiDigit(c: char) { '0' <= c <= '9' }

  predicate IsAsciiUpper(c: char) { 'A' <= c <= 'Z' }

  predicate IsAsciiLower(c: char) { 'a' <= c <= 'z' }

  /** JavaScript's `\s`: the ECMAScript WhiteSpace and LineTerminator
      characters (tab, line feed, vertical tab, form feed, carriage return,
      the space separators of category Zs, the byte order mark, and the
      line and paragraph separators). */
  predicate IsJsWhitespace(c: char) {
    || c == '\t' || c == '\n' || c == '\U{000B}' || c == '\U{000C}' || c == '\r'
    || c == ' ' || c == '\U{00A0}' || c == '\U{1680}'
    || ('\U{2000}' <= c <= '\U{200A}')
    || c == '\U{2028}' || c == '\U{2029}' || c == '\U{202F}' || c == '\U{205F}'
    || c == '\U{3000}' || c == '\U{FEFF}'
  }

  predicate AllDigits(s: string) {
    forall i :: 0 <= i < |s| ==> IsAsciiDigit(s[i])
  }

  /** An unanchored single-character pattern such as `/[A-Z]/` matches. */
  predicate ContainsSome(s: string, p: char -> bool) {
    exists i :: 0 <= i < |s| && p(s[i])
  }

  /** `s` with every character satisfying `drop` deleted, the others kept in
      order. */
  function Remove(s: string, drop: char -> bool): (r: string)
    ensures |r| <= |s|
  {
    if s == [] then [] else (if drop(s[0]) then [] else [s[0]]) + Remove(s[1..], drop)
  }

  /** Removal distributes over concatenation: together with the one-character
      case this determines `Remove` completely. */
  lemma {:induction false} RemoveConcat(a: string, b: string, drop: char -> bool)
    ensures Remove(a + b, drop) == Remove(a, drop) + Remove(b, drop)
  {
    if a == [] {
      assert a + b == b;
    } else {
      assert (a + b)[0] == a[0] && (a + b)[1..] == a[1..] + b;
      RemoveConcat(a[1..], b, drop);
    }
  }

  /** No removed character survives, and every other character keeps its
      number of occurrences. */
  lemma {:induction false} RemoveContents(s: string, drop: char -> bool)
    ensures forall i :: 0 <= i < |Remove(s, drop)| ==> !drop(Remove(s, drop)[i])
    ensures forall c :: !drop(c) ==> multiset(Remove(s, drop))[c] == multiset(s)[c]
    ensures forall c :: drop(c) ==> multiset(Remove(s, drop))[c] == 0
  {
    if s != [] {
      RemoveContents(s[1..], drop);
      assert s == [s[0]] + s[1..];
    }
  }

  /** A string with nothing to remove is left unchanged; hence removal is
      idempotent. */
  lemma {:induction false} RemoveNothing(s: string, drop: char -> bool)
    requires forall i :: 0 <= i < |s| ==> !drop(s[i])
    ensures Remove(s, drop) == s
  {
    if s != [] {
      RemoveNothing(s[1..], drop);
    }
  }

  /** The number of UTF-16 code units of `s`: a character outside the Basic
      Multilingual Plane takes a surrogate pair. */
  function Utf16Length(s: string): (n: nat)
  {
    if s == [] then 0 else (if s[0] as int > 0xFFFF then 2 else 1) + Utf16Length(s[1..])
  }

  /** The UTF-16 length lies between the number of characters and twice it,
      and equals the number of characters exactly for BMP-only text. */
  lemma {:induction false} Utf16LengthBounds(s: string)
    ensures |s| <= Utf16Length(s) <= 2 * |s|
    ensures Utf16Length(s) == |s| <==> forall i :: 0 <= i < |s| ==> s[i] as int <= 0xFFFF
  {
    if s != [] {
      Utf16LengthBounds(s[1..]);
      if s[0] as int <= 0xFFFF {
        assert forall i :: 1 <= i < |s| ==> s[i] == s[1..][i - 1];
      }
    }
  }

  /** `String.prototype.toUpperCase` restricted to the characters it can
      meet here: ASCII letters a-z become A-Z, everything else is kept. */
  function UpperAscii(s: string): (r: string)
    ensures |r| == |s|
    ensures forall i :: 0 <= i < |s| ==> !IsAsciiLower(r[i])
    ensures forall i :: 0 <= i < |s| && !IsAsciiLower(s[i]) ==> r[i] == s[i]
    ensures forall i :: 0 <= i < |s| && IsAsciiLower(s[i]) ==> r[i] as int == s[i] as int - 32
  {
    if s == [] then []
    else [if IsAsciiLower(s[0]) then (s[0] as int - 32) as char else s[0]] + UpperAscii(s[1..])
  }

  lemma {:induction false} UpperAsciiConcat(a: string, b: string)
    ensures UpperAscii(a + b) == UpperAscii(a) + UpperAscii(b)
  {
    if a == [] {
      assert a + b == b;
    } else {
      assert (a + b)[0] == a[0] && (a + b)[1..] == a[1..] + b;
      UpperAsciiConcat(a[1..], b);
    }
  }
}
