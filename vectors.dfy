/**
  The sending expectations of the channel's test suite, each stated as an
  equation on the frames of the encoder.
*/
module Vectors {

  import opened Framing
  import opened Lines
  import Base64

  /** `sendText('textMessage')` writes one line holding the text. */
  lemma SendText()
    ensures EncodeText("textMessage") == "textMessage\n"
  {
    SingleLineVerbatim("textMessage");
  }

  /** `sendBinary` of the bytes 1, 2, 3 writes `$AQID`. */
  lemma SendBinary()
    ensures EncodeBinary([1, 2, 3]) == "$AQID\n"
  {
    assert Base64.Encode([1, 2, 3]) == Base64.EncodeTriple(1, 2, 3) + Base64.Encode([]);
    assert Base64.EncodeTriple(1, 2, 3) == [Base64.CharOf(0), Base64.CharOf(16), Base64.CharOf(8), Base64.CharOf(3)];
  }

  /** The empty text is written as a lone line break. */
  lemma SendEmptyText()
    ensures EncodeText("") == "\n"
  {
    SingleLineVerbatim("");
  }

  /** The empty payload is written as `$` with no base64 characters. */
  lemma SendEmptyBinary()
    ensures EncodeBinary([]) == "$\n"
  {
  }

  /** Texts starting with a reserved character are escaped with `#`; a bare `.` is not. */
  lemma SendSpecialCharacters()
    ensures EncodeText("#message") == "##message\n"
    ensures EncodeText("$message") == "#$message\n"
    ensures EncodeText("@message") == "#@message\n"
    ensures EncodeText(".") == ".\n"
  {
    SingleLineEscaped("#message");
    SingleLineEscaped("$message");
    SingleLineEscaped("@message");
    SingleLineVerbatim(".");
  }

  /**
    One row of the multi-line table: the text given by its lines, and the
    stuffed lines the frame carries after the `@`.
  */
  lemma MultiLineRow(text: string, lines: seq<string>, stuffed: seq<string>, encoded: string)
    requires |lines| >= 2 && text == JoinLines(lines)
    requires forall i :: 0 <= i < |lines| ==> '\n' !in lines[i]
    requires DotStuff(lines) == stuffed
    requires encoded == "@" + JoinLines(stuffed) + "\n.\n"
    ensures EncodeText(text) == encoded
  {
    SplitJoin(lines);
    assert '\n' in text by {
      assert text == lines[0] + "\n" + JoinLines(lines[1..]);
      assert text[|lines[0]|] == '\n';
    }
  }

  /** Two lines without stuffing. */
  lemma SendTwoLines()
    ensures EncodeText("MULTI\nLINE") == "@MULTI\nLINE\n.\n"
  {
    var text, lines, stuffed, encoded := "MULTI\nLINE", ["MULTI", "LINE"], ["MULTI", "LINE"], "@MULTI\nLINE\n.\n";
    assert JoinLines(lines) == text;
    assert DotStuff(lines) == stuffed by {
      assert Stuff(lines[0]) == stuffed[0] && Stuff(lines[1]) == stuffed[1];
      assert lines[1..] == [lines[1]];
    }
    assert JoinLines(stuffed) + "\n.\n" == encoded[1..];
    MultiLineRow(text, lines, stuffed, encoded);
  }


  /** A trailing line break gives a trailing empty body line. */
  lemma SendTrailingBreak()
    ensures EncodeText("MULTI\n") == "@MULTI\n\n.\n"
  {
    var text, lines, stuffed, encoded := "MULTI\n", ["MULTI", ""], ["MULTI", ""], "@MULTI\n\n.\n";
    assert JoinLines(lines) == text;
    assert DotStuff(lines) == stuffed by {
      assert Stuff(lines[0]) == stuffed[0] && Stuff(lines[1]) == stuffed[1];
      assert lines[1..] == [lines[1]];
    }
    assert JoinLines(stuffed) + "\n.\n" == encoded[1..];
    MultiLineRow(text, lines, stuffed, encoded);
  }


  /** A lone line break is two empty body lines. */
  lemma SendLoneBreak()
    ensures EncodeText("\n") == "@\n\n.\n"
  {
    var text, lines, stuffed, encoded := "\n", ["", ""], ["", ""], "@\n\n.\n";
    assert JoinLines(lines) == text;
    assert DotStuff(lines) == stuffed by {
      assert Stuff(lines[0]) == stuffed[0] && Stuff(lines[1]) == stuffed[1];
      assert lines[1..] == [lines[1]];
    }
    assert JoinLines(stuffed) + "\n.\n" == encoded[1..];
    MultiLineRow(text, lines, stuffed, encoded);
  }


  /** A body line `.` is stuffed to `..`, so it is not taken for the terminator. */
  lemma SendStuffedDot()
    ensures EncodeText("\n.") == "@\n..\n.\n"
  {
    var text, lines, stuffed, encoded := "\n.", ["", "."], ["", ".."], "@\n..\n.\n";
    assert JoinLines(lines) == text;
    assert DotStuff(lines) == stuffed by {
      assert Stuff(lines[0]) == stuffed[0] && Stuff(lines[1]) == stuffed[1];
      assert lines[1..] == [lines[1]];
    }
    assert JoinLines(stuffed) + "\n.\n" == encoded[1..];
    MultiLineRow(text, lines, stuffed, encoded);
  }


  /** A body line `..` is stuffed to `...`: exactly one dot is added. */
  lemma SendStuffedDots()
    ensures EncodeText("\n..") == "@\n...\n.\n"
  {
    var text, lines, stuffed, encoded := "\n..", ["", ".."], ["", "..."], "@\n...\n.\n";
    assert JoinLines(lines) == text;
    assert DotStuff(lines) == stuffed by {
      assert Stuff(lines[0]) == stuffed[0] && Stuff(lines[1]) == stuffed[1];
      assert lines[1..] == [lines[1]];
    }
    assert JoinLines(stuffed) + "\n.\n" == encoded[1..];
    MultiLineRow(text, lines, stuffed, encoded);
  }


  /** A body line starting with `@` is not escaped. */
  lemma SendMarkerInBody()
    ensures EncodeText("@\n") == "@@\n\n.\n"
  {
    var text, lines, stuffed, encoded := "@\n", ["@", ""], ["@", ""], "@@\n\n.\n";
    assert JoinLines(lines) == text;
    assert DotStuff(lines) == stuffed by {
      assert Stuff(lines[0]) == stuffed[0] && Stuff(lines[1]) == stuffed[1];
      assert lines[1..] == [lines[1]];
    }
    assert JoinLines(stuffed) + "\n.\n" == encoded[1..];
    MultiLineRow(text, lines, stuffed, encoded);
  }

}
