/** Line-oriented text: joining lines with a separator character, as the
    template literals of the success page do with "\n", and splitting text at
    that character, which reads the lines back. */
module Lines {

  /** The lines with one separator between neighbours and none at the ends. */
  function Join(lines: seq<string>, sep: char): string
  {
    if |lines| == 0 then ""
    else if |lines| == 1 then lines[0]
    else lines[0] + [sep] + Join(lines[1..], sep)
  }

  /** The pieces of `s` between separators, in order; always at least one
      piece (`"".split(sep)` in JavaScript gives `[""]`). */
  function Split(s: string, sep: char): (pieces: seq<string>)
    ensures |pieces| >= 1
  {
    if s == [] then [""]
    else if s[0] == sep then [""] + Split(s[1..], sep)
    else var rest := Split(s[1..], sep); [[s[0]] + rest[0]] + rest[1..]
  }

  predicate NoSeparator(lines: seq<string>, sep: char) {
    forall i :: 0 <= i < |lines| ==> sep !in lines[i]
  }

  lemma {:induction false} SplitWithoutSeparator(w: string, sep: char)
    requires sep !in w
    ensures Split(w, sep) == [w]
  {
    if w != [] {
      assert sep !in w[1..];
      SplitWithoutSeparator(w[1..], sep);
      assert [w[0]] + w[1..] == w;
    }
  }

  lemma {:induction false} SplitAfterFirst(w: string, rest: string, sep: char)
    requires sep !in w
    ensures Split(w + [sep] + rest, sep) == [w] + Split(rest, sep)
  {
    var s := w + [sep] + rest;
    if w == [] {
      assert s[0] == sep && s[1..] == rest;
    } else {
      assert s[0] == w[0] && s[1..] == w[1..] + [sep] + rest;
      assert sep !in w[1..];
      SplitAfterFirst(w[1..], rest, sep);
      assert [w[0]] + w[1..] == w;
    }
  }

  /** Joining one more line appends a separator and the line. */
  lemma {:induction false} JoinSnoc(lines: seq<string>, last: string, sep: char)
    requires |lines| >= 1
    ensures Join(lines + [last], sep) == Join(lines, sep) + [sep] + last
  {
    var l := lines + [last];
    if |lines| == 1 {
      assert l[1..] == [last];
    } else {
      assert l[1..] == lines[1..] + [last];
      JoinSnoc(lines[1..], last, sep);
    }
  }

  /** Splitting joined lines gives the lines back, provided no line contains
      the separator. */
  lemma {:induction false} SplitJoin(lines: seq<string>, sep: char)
    requires |lines| >= 1 && NoSeparator(lines, sep)
    ensures Split(Join(lines, sep), sep) == lines
  {
    if |lines| == 1 {
      SplitWithoutSeparator(lines[0], sep);
    } else {
      assert sep !in lines[0];
      assert NoSeparator(lines[1..], sep);
      SplitJoin(lines[1..], sep);
      SplitAfterFirst(lines[0], Join(lines[1..], sep), sep);
      assert [lines[0]] + lines[1..] == lines;
    }
  }
}
