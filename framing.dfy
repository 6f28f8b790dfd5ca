/**
  The message-framing encoder of the streams message channel: how one logical
  message is turned into the newline-terminated text written to the output
  stream by `sendText` and `sendBinary`.

  Wire grammar of one frame:
    - plain text line         `<text>\n`, when the text has no line break and
                              does not start with `#`, `$` or `@`
    - escaped text line       `#<text>\n`, when it starts with one of those
    - binary line             `$<base64 of the payload>\n`
    - multi-line text         `@<line 1>\n<line 2>\n...<line n>\n.\n`, each
                              line starting with `.` carrying one extra `.`
*/
module Framing {

  import Base64
  import opened Wrappers
  import opened Lines

  datatype Message = Text(text: string) | Binary(payload: seq<Base64.byte>)

  /** The first characters that mark a line as escaped, binary or multi-line. */
  predicate IsReserved(c: char) {
    c == '#' || c == '$' || c == '@'
  }

  /** True of a line that begins with a dot, the multi-line terminator character. */
  predicate IsDotted(line: string) {
    |line| > 0 && line[0] == '.'
  }

  /** Dot-stuffing of one body line: a line that begins with `.` gets one more `.` in front. */
  function Stuff(line: string): string {
    if IsDotted(line) then "." + line else line
  }

  /** The inverse of dot-stuffing: a line that begins with `.` loses its first `.`. */
  function Unstuff(line: string): string {
    if IsDotted(line) then line[1..] else line
  }

  /**
    Dot-stuffing of the body lines of a multi-line message. No stuffed line is
    the terminator line `.`, each stuffed line is its original line with at
    most one `.` added in front (exactly one when the line begins with `.`),
    and no line break is introduced.
  */
  function DotStuff(lines: seq<string>): (r: seq<string>)
    ensures |r| == |lines|
    ensures forall i :: 0 <= i < |r| ==> r[i] != "."
    ensures forall i :: 0 <= i < |r| ==> Unstuff(r[i]) == lines[i]
    ensures forall i :: 0 <= i < |r| ==> |r[i]| == |lines[i]| + (if IsDotted(lines[i]) then 1 else 0)
    ensures forall i :: 0 <= i < |r| ==> ('\n' in r[i] <==> '\n' in lines[i])
    decreases |lines|
  {
    if |lines| == 0 then []
    else [Stuff(lines[0])] + DotStuff(lines[1..])
  }

  /** The undoing of dot-stuffing on every body line. */
  function UnstuffAll(lines: seq<string>): seq<string>
    decreases |lines|
  {
    if |lines| == 0 then []
    else [Unstuff(lines[0])] + UnstuffAll(lines[1..])
  }

  /** Undoing dot-stuffing gives back the original body lines. */
  lemma {:induction false} UnstuffDotStuff(lines: seq<string>)
    ensures UnstuffAll(DotStuff(lines)) == lines
    decreases |lines|
  {
    if |lines| > 0 {
      var stuffed := DotStuff(lines);
      assert stuffed[1..] == DotStuff(lines[1..]);
      UnstuffDotStuff(lines[1..]);
      assert lines == [lines[0]] + lines[1..];
    }
  }

  /** The frame of a text message (`sendText`). */
  function EncodeText(text: string): (w: string)
    ensures |w| > 0 && w[|w| - 1] == '\n'
    ensures |w| > 0 && (w[0] == '@' <==> '\n' in text)
  {
    if '\n' !in text then
      if |text| > 0 && IsReserved(text[0]) then "#" + text + "\n" else text + "\n"
    else
      "@" + JoinLines(DotStuff(SplitLines(text))) + "\n.\n"
  }

  /** The frame of a binary message (`sendBinary`): one line holding the base64 text of the payload. */
  function EncodeBinary(payload: seq<Base64.byte>): (w: string)
    ensures |w| >= 2 && w[0] == '$' && w[|w| - 1] == '\n'
    ensures '\n' !in w[..|w| - 1]
    ensures Base64.Decode(w[1..|w| - 1]) == Some(payload)
  {
    var b := Base64.Encode(payload);
    Base64.EncodeAlphabet(payload);
    Base64.DecodeEncode(payload);
    var w := "$" + b + "\n";
    assert w[1..|w| - 1] == b;
    assert w[..|w| - 1] == "$" + b;
    w
  }

  /** The frame of any message. */
  function Encode(m: Message): (w: string)
    ensures |w| > 0 && w[|w| - 1] == '\n'
  {
    match m
    case Text(text) => EncodeText(text)
    case Binary(payload) => EncodeBinary(payload)
  }

  /** A text with a line break has at least two lines. */
  lemma MultiLineHasTwoLines(text: string)
    requires '\n' in text
    ensures |SplitLines(text)| >= 2
  {
  }

  /**
    A single-line text that does not start with `#`, `$` or `@` (the empty text
    and a bare `.` included) is written as itself and one line break, and the
    receiving side gets back exactly that one line.
  */
  lemma SingleLineVerbatim(text: string)
    requires '\n' !in text
    requires |text| == 0 || !IsReserved(text[0])
    ensures EncodeText(text) == text + "\n"
    ensures WireLines(EncodeText(text)) == [text]
  {
    WireLinesOfLine(text);
  }

  /**
    A single-line text that starts with `#`, `$` or `@` gets exactly one `#` in
    front and is otherwise unchanged, on a single line.
  */
  lemma SingleLineEscaped(text: string)
    requires '\n' !in text
    requires |text| > 0 && IsReserved(text[0])
    ensures EncodeText(text) == "#" + text + "\n"
    ensures WireLines(EncodeText(text)) == ["#" + text]
  {
    WireLinesOfLine("#" + text);
  }

  /** The frame of a single-line text holds exactly one line break, its last character. */
  lemma SingleLineOneBreak(text: string)
    requires '\n' !in text
    ensures var w := EncodeText(text); w[|w| - 1] == '\n' && '\n' !in w[..|w| - 1]
  {
    var w := EncodeText(text);
    if |text| > 0 && IsReserved(text[0]) {
      assert w[..|w| - 1] == "#" + text;
    } else {
      assert w[..|w| - 1] == text;
    }
  }

  /** The lines of a multi-line frame, before the transport splits them: `@` + first body line, the rest, `.`. */
  function FrameOf(body: seq<string>): seq<string>
    requires |body| >= 1
  {
    ["@" + body[0]] + body[1..] + ["."]
  }

  /** Frame lines built from body lines without line breaks hold no line break either. */
  lemma FrameOfUnbroken(body: seq<string>)
    requires |body| >= 1
    requires forall i :: 0 <= i < |body| ==> '\n' !in body[i]
    ensures forall i :: 0 <= i < |FrameOf(body)| ==> '\n' !in FrameOf(body)[i]
  {
    var frame := FrameOf(body);
    forall i | 0 <= i < |frame|
      ensures '\n' !in frame[i]
    {
      if i == 0 {
        assert frame[0] == "@" + body[0];
      } else if i < |body| {
        assert frame[i] == body[i];
      }
    }
  }

  /** A multi-line text is written as its frame lines joined, plus a final line break. */
  lemma MultiLineJoined(text: string)
    requires '\n' in text
    ensures |DotStuff(SplitLines(text))| >= 2
    ensures EncodeText(text) == JoinLines(FrameOf(DotStuff(SplitLines(text)))) + "\n"
  {
    var body := DotStuff(SplitLines(text));
    MultiLineHasTwoLines(text);
    var head := ["@" + body[0]] + body[1..];
    assert FrameOf(body) == head + ["."];
    JoinLinesPrefix("@", body);
    JoinLinesSnoc(head, ".");
  }

  /**
    The frame of a multi-line text, line by line: `@` in front of the first
    stuffed body line, the remaining stuffed body lines, then the terminator
    line `.`. No body line equals the terminator, and undoing the stuffing and
    joining the body lines gives back the text.
  */
  lemma MultiLineFrame(text: string)
    requires '\n' in text
    ensures var body := DotStuff(SplitLines(text));
      && |body| >= 2
      && WireLines(EncodeText(text)) == ["@" + body[0]] + body[1..] + ["."]
      && (forall i :: 0 <= i < |body| ==> body[i] != ".")
      && JoinLines(UnstuffAll(body)) == text
  {
    var lines := SplitLines(text);
    var body := DotStuff(lines);
    MultiLineJoined(text);
    FrameOfUnbroken(body);
    WireLinesOfJoin(FrameOf(body));
    UnstuffDotStuff(lines);
  }
}
