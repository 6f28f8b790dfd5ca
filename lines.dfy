/**
  Line structure of text: splitting a text at its line breaks, joining lines
  with line breaks, and the complete lines a line-oriented transport delivers
  from a stream of characters.
*/
module Lines {

  /** The pieces of a text between its line breaks, joined again with line breaks. */
  function JoinLines(lines: seq<string>): string
    decreases |lines|
  {
    if |lines| == 0 then ""
    else if |lines| == 1 then lines[0]
    else lines[0] + "\n" + JoinLines(lines[1..])
  }

  /** Text put in front of the joined lines lands at the front of the first line. */
  lemma {:induction false} JoinLinesPrefix(prefix: string, lines: seq<string>)
    requires |lines| >= 1
    ensures prefix + JoinLines(lines) == JoinLines([prefix + lines[0]] + lines[1..])
  {
    var moved := [prefix + lines[0]] + lines[1..];
    if |lines| == 1 {
      assert moved == [prefix + lines[0]];
    } else {
      var tail := JoinLines(lines[1..]);
      assert moved[1..] == lines[1..];
      assert JoinLines(moved) == moved[0] + "\n" + JoinLines(moved[1..]);
      assert prefix + (lines[0] + "\n" + tail) == (prefix + lines[0]) + "\n" + tail;
    }
  }

  /** One more line at the end is joined after one more line break. */
  lemma {:induction false} JoinLinesSnoc(lines: seq<string>, last: string)
    requires |lines| >= 1
    ensures JoinLines(lines + [last]) == JoinLines(lines) + "\n" + last
    decreases |lines|
  {
    var longer := lines + [last];
    if |lines| > 1 {
      assert longer[1..] == lines[1..] + [last];
      JoinLinesSnoc(lines[1..], last);
    } else {
      assert longer[1..] == [last];
    }
  }

  /**
    The lines of a text, split at every line break: a text with k line breaks
    has k + 1 lines, so a trailing line break yields a trailing empty line and
    the empty text is one empty line.
  */
  function SplitLines(s: string): (lines: seq<string>)
    ensures |lines| >= 1
    ensures forall i :: 0 <= i < |lines| ==> '\n' !in lines[i]
    ensures JoinLines(lines) == s
    decreases |s|
  {
    if |s| == 0 then [""]
    else
      var rest := SplitLines(s[1..]);
      if s[0] == '\n' then [""] + rest
      else
        assert s == [s[0]] + s[1..];
        [[s[0]] + rest[0]] + rest[1..]
  }

  /** A text without a line break is a single line. */
  lemma {:induction false} SplitLinesSingle(s: string)
    requires '\n' !in s
    ensures SplitLines(s) == [s]
    decreases |s|
  {
    if |s| > 0 {
      SplitLinesSingle(s[1..]);
      assert s == [s[0]] + s[1..];
    }
  }

  /** Splitting at a line break splits the two sides independently. */
  lemma {:induction false} SplitLinesAppend(x: string, y: string)
    ensures SplitLines(x + "\n" + y) == SplitLines(x) + SplitLines(y)
    decreases |x|
  {
    var s := x + "\n" + y;
    if |x| == 0 {
      assert s[1..] == y;
    } else {
      assert s[1..] == x[1..] + "\n" + y;
      SplitLinesAppend(x[1..], y);
    }
  }

  /** Lines without line breaks survive joining and splitting again. */
  lemma {:induction false} SplitJoin(lines: seq<string>)
    requires |lines| >= 1
    requires forall i :: 0 <= i < |lines| ==> '\n' !in lines[i]
    ensures SplitLines(JoinLines(lines)) == lines
    decreases |lines|
  {
    SplitLinesSingle(lines[0]);
    if |lines| > 1 {
      SplitJoin(lines[1..]);
      SplitLinesAppend(lines[0], JoinLines(lines[1..]));
    }
  }

  /**
    The complete lines of a character stream, without their line breaks, as a
    line-oriented transport delivers them: everything after the last line
    break is an unfinished line and is not delivered.
  */
  function WireLines(w: string): (lines: seq<string>)
    ensures forall i :: 0 <= i < |lines| ==> '\n' !in lines[i]
  {
    var all := SplitLines(w);
    all[..|all| - 1]
  }

  /** A single line followed by a line break is delivered as exactly that line. */
  lemma WireLinesOfLine(line: string)
    requires '\n' !in line
    ensures WireLines(line + "\n") == [line]
  {
    SplitLinesSingle(line);
    SplitLinesSingle("");
    SplitLinesAppend(line, "");
    assert line + "\n" == line + "\n" + "";
  }

  /** Lines joined with line breaks and terminated by one more are delivered as those lines. */
  lemma WireLinesOfJoin(lines: seq<string>)
    requires |lines| >= 1
    requires forall i :: 0 <= i < |lines| ==> '\n' !in lines[i]
    ensures WireLines(JoinLines(lines) + "\n") == lines
  {
    SplitJoin(lines);
    SplitLinesSingle("");
    SplitLinesAppend(JoinLines(lines), "");
    assert JoinLines(lines) + "\n" == JoinLines(lines) + "\n" + "";
  }

  /** A stream that ends on a line break is delivered independently of what follows it. */
  lemma WireLinesAppend(a: string, b: string)
    requires |a| > 0 && a[|a| - 1] == '\n'
    ensures WireLines(a + b) == WireLines(a) + WireLines(b)
  {
    var x := a[..|a| - 1];
    assert a == x + "\n";
    assert a + b == x + "\n" + b;
    assert a == x + "\n" + "";
    SplitLinesAppend(x, b);
    SplitLinesAppend(x, "");
    SplitLinesSingle("");
  }
}
