/**
  The receiving side of the framing: a line-by-line decoder that turns the
  complete lines delivered by the transport back into messages.

  The channel's test suite skips its only receiving test, so this decoder is
  the inverse the sending grammar calls for, not behaviour the suite checks;
  its main property is that it undoes the encoder on any stream of frames.
*/
module Decoding {

  import Base64
  import opened Wrappers
  import opened Lines
  import opened Framing

  datatype DecodeError = InvalidBase64

  /** Between messages, or inside a multi-line text collecting its (still stuffed) body lines. */
  datatype State = Idle | Collecting(body: seq<string>)

  /** What one line yields: a whole message, nothing yet, or a decoding error. */
  datatype Outcome = Emit(message: Message) | Continue | Error(error: DecodeError)

  /**
    The decoder's step on one line. When idle, the first character of the line
    decides: `$` a binary message, `@` the first body line of a multi-line text,
    `#` an escaped text, anything else (the empty line and `.` included) a text
    as it stands. When collecting, the line `.` ends the text, whose body lines
    lose their stuffing and are joined with line breaks; any other line is
    collected. A line that is not valid base64 after `$` is an error and
    leaves the decoder idle.
  */
  function Feed(st: State, line: string): (r: (State, Outcome))
    ensures r.1.Error? ==> st == Idle && r.0 == Idle
    ensures r.1.Emit? ==> r.0 == Idle
    ensures r.0.Collecting? <==> r.1 == Continue
  {
    match st
    case Idle =>
      if |line| > 0 && line[0] == '$' then
        match Base64.Decode(line[1..])
        case Some(payload) => (Idle, Emit(Binary(payload)))
        case None => (Idle, Error(InvalidBase64))
      else if |line| > 0 && line[0] == '@' then (Collecting([line[1..]]), Continue)
      else if |line| > 0 && line[0] == '#' then (Idle, Emit(Text(line[1..])))
      else (Idle, Emit(Text(line)))
    case Collecting(body) =>
      if line == "." then (Idle, Emit(Text(JoinLines(UnstuffAll(body)))))
      else (Collecting(body + [line]), Continue)
  }

  /** The decoder run over a sequence of lines: the final state and one outcome per line. */
  function FeedAll(st: State, lines: seq<string>): (r: (State, seq<Outcome>))
    ensures |r.1| == |lines|
    decreases |lines|
  {
    if |lines| == 0 then (st, [])
    else
      var (next, out) := Feed(st, lines[0]);
      var (last, outs) := FeedAll(next, lines[1..]);
      (last, [out] + outs)
  }

  /** The messages among a sequence of outcomes, in order. */
  function Messages(outs: seq<Outcome>): seq<Message>
    decreases |outs|
  {
    if |outs| == 0 then []
    else if outs[0].Emit? then [outs[0].message] + Messages(outs[1..])
    else Messages(outs[1..])
  }

  /** True when no outcome is an error. */
  predicate NoErrors(outs: seq<Outcome>) {
    forall i :: 0 <= i < |outs| ==> !outs[i].Error?
  }

  /** The stream written for a sequence of messages, frame after frame. */
  function EncodeAll(ms: seq<Message>): string
    decreases |ms|
  {
    if |ms| == 0 then "" else Encode(ms[0]) + EncodeAll(ms[1..])
  }

  /** Feeding two runs of lines is feeding the first, then the second from where it left off. */
  lemma {:induction false} FeedAllAppend(st: State, a: seq<string>, b: seq<string>)
    ensures FeedAll(st, a + b) == (FeedAll(FeedAll(st, a).0, b).0, FeedAll(st, a).1 + FeedAll(FeedAll(st, a).0, b).1)
    decreases |a|
  {
    if |a| > 0 {
      var (next, out) := Feed(st, a[0]);
      assert (a + b)[0] == a[0] && (a + b)[1..] == a[1..] + b;
      FeedAllAppend(next, a[1..], b);
      var mid := FeedAll(next, a[1..]);
      var fin := FeedAll(mid.0, b);
      assert FeedAll(st, a) == (mid.0, [out] + mid.1);
      assert FeedAll(st, a + b) == (fin.0, [out] + (mid.1 + fin.1));
      assert [out] + (mid.1 + fin.1) == ([out] + mid.1) + fin.1;
    } else {
      assert a + b == b;
      var outs := FeedAll(st, b).1;
      assert FeedAll(st, a) == (st, []);
      assert [] + outs == outs;
    }
  }

  /** The messages of two runs of outcomes are the messages of the first, then of the second. */
  lemma {:induction false} MessagesAppend(a: seq<Outcome>, b: seq<Outcome>)
    ensures Messages(a + b) == Messages(a) + Messages(b)
    decreases |a|
  {
    if |a| > 0 {
      assert (a + b)[1..] == a[1..] + b;
      MessagesAppend(a[1..], b);
    } else {
      assert a + b == b;
    }
  }

  /** Inside a multi-line text, lines other than `.` are collected and yield nothing. */
  lemma {:induction false} CollectBody(body: seq<string>, lines: seq<string>)
    requires forall i :: 0 <= i < |lines| ==> lines[i] != "."
    ensures FeedAll(Collecting(body), lines).0 == Collecting(body + lines)
    ensures forall i :: 0 <= i < |lines| ==> FeedAll(Collecting(body), lines).1[i] == Continue
    decreases |lines|
  {
    if |lines| > 0 {
      CollectBody(body + [lines[0]], lines[1..]);
      assert body + [lines[0]] + lines[1..] == body + lines;
    }
  }

  /** True of outcomes that end with the message `m` after nothing but Continue. */
  predicate EmitsLast(outs: seq<Outcome>, m: Message) {
    && |outs| >= 1
    && outs[|outs| - 1] == Emit(m)
    && (forall i :: 0 <= i < |outs| - 1 ==> outs[i] == Continue)
  }

  /** The one line of a binary frame decodes to its payload. */
  lemma BinaryRoundTrip(payload: seq<Base64.byte>)
    ensures FeedAll(Idle, WireLines(EncodeBinary(payload))).0 == Idle
    ensures EmitsLast(FeedAll(Idle, WireLines(EncodeBinary(payload))).1, Binary(payload))
  {
    var w := EncodeBinary(payload);
    var line := w[..|w| - 1];
    assert w == line + "\n";
    WireLinesOfLine(line);
    assert line[1..] == w[1..|w| - 1];
    assert Feed(Idle, line) == (Idle, Emit(Binary(payload)));
  }

  /** The one line of a single-line text frame decodes to the text. */
  lemma SingleLineRoundTrip(text: string)
    requires '\n' !in text
    ensures FeedAll(Idle, WireLines(EncodeText(text))).0 == Idle
    ensures EmitsLast(FeedAll(Idle, WireLines(EncodeText(text))).1, Text(text))
  {
    if |text| > 0 && IsReserved(text[0]) {
      SingleLineEscaped(text);
      assert ("#" + text)[1..] == text;
      assert Feed(Idle, "#" + text) == (Idle, Emit(Text(text)));
    } else {
      SingleLineVerbatim(text);
      assert Feed(Idle, text) == (Idle, Emit(Text(text)));
    }
  }

  /** The lines of a multi-line text frame decode to the text, on the terminator line. */
  lemma MultiLineRoundTrip(text: string)
    requires '\n' in text
    ensures FeedAll(Idle, WireLines(EncodeText(text))).0 == Idle
    ensures EmitsLast(FeedAll(Idle, WireLines(EncodeText(text))).1, Text(text))
  {
    MultiLineFrame(text);
    var body := DotStuff(SplitLines(text));
    var first := "@" + body[0];
    var rest := body[1..];
    var lines := [first] + rest + ["."];
    assert first[1..] == body[0];
    assert Feed(Idle, first) == (Collecting([body[0]]), Continue);
    assert lines == [first] + (rest + ["."]);
    assert lines[1..] == rest + ["."];
    FeedAllAppend(Collecting([body[0]]), rest, ["."]);
    CollectBody([body[0]], rest);
    assert [body[0]] + rest == body;
    assert Feed(Collecting(body), ".") == (Idle, Emit(Text(text)));
  }

  /** The lines of one frame, fed to an idle decoder, yield exactly that message, last, and leave it idle. */
  lemma FrameRoundTrip(m: Message)
    ensures FeedAll(Idle, WireLines(Encode(m))).0 == Idle
    ensures EmitsLast(FeedAll(Idle, WireLines(Encode(m))).1, m)
  {
    match m
    case Binary(payload) => BinaryRoundTrip(payload);
    case Text(text) =>
      if '\n' in text {
        MultiLineRoundTrip(text);
      } else {
        SingleLineRoundTrip(text);
      }
  }

  /** A frame's outcomes hold exactly its message and no error. */
  lemma FrameMessages(m: Message)
    ensures FeedAll(Idle, WireLines(Encode(m))).0 == Idle
    ensures Messages(FeedAll(Idle, WireLines(Encode(m))).1) == [m]
    ensures NoErrors(FeedAll(Idle, WireLines(Encode(m))).1)
  {
    FrameRoundTrip(m);
    var outs := FeedAll(Idle, WireLines(Encode(m))).1;
    var k := |outs| - 1;
    assert outs == outs[..k] + [outs[k]];
    MessagesAppend(outs[..k], [outs[k]]);
    ContinuesOnly(outs[..k]);
  }

  /** Outcomes that are all Continue hold no message. */
  lemma {:induction false} ContinuesOnly(outs: seq<Outcome>)
    requires forall i :: 0 <= i < |outs| ==> outs[i] == Continue
    ensures Messages(outs) == []
    decreases |outs|
  {
    if |outs| > 0 {
      ContinuesOnly(outs[1..]);
    }
  }

  /**
    Decoding undoes encoding on a whole stream: the lines of any sequence of
    frames, fed to an idle decoder, yield exactly those messages, in order,
    with no error, and leave the decoder idle.
  */
  lemma {:induction false} StreamRoundTrip(ms: seq<Message>)
    ensures FeedAll(Idle, WireLines(EncodeAll(ms))).0 == Idle
    ensures Messages(FeedAll(Idle, WireLines(EncodeAll(ms))).1) == ms
    ensures NoErrors(FeedAll(Idle, WireLines(EncodeAll(ms))).1)
    decreases |ms|
  {
    if |ms| == 0 {
      assert WireLines("") == [];
    } else {
      var head := WireLines(Encode(ms[0]));
      var tail := WireLines(EncodeAll(ms[1..]));
      WireLinesAppend(Encode(ms[0]), EncodeAll(ms[1..]));
      FeedAllAppend(Idle, head, tail);
      FrameMessages(ms[0]);
      StreamRoundTrip(ms[1..]);
      MessagesAppend(FeedAll(Idle, head).1, FeedAll(Idle, tail).1);
    }
  }

  /** The skipped receiving test: the line `textMessage` is the text `textMessage`. */
  lemma ReceiveText()
    ensures Feed(Idle, "textMessage") == (Idle, Emit(Text("textMessage")))
  {
  }

  /** A binary line whose payload is not base64 is an error, and the decoder stays idle. */
  lemma ReceiveInvalidBase64()
    ensures Feed(Idle, "$not-valid-base64!") == (Idle, Error(InvalidBase64))
  {
  }
}
