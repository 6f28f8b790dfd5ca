# Message framing of the streams message channel

This project models the message-framing encoder of messagic-js's
`StreamsMessageChannel`. A logical message is either a text or a binary
payload. The encoder turns it into the newline-terminated characters that
`sendText` and `sendBinary` write to the output stream:

- A single-line text is written as it is, followed by a line break. A text
  whose first character is `#`, `$` or `@` gets one `#` escape in front. A
  bare `.` is not escaped.
- A text with line breaks is split into lines. Each line starting with `.`
  gets one more `.` (dot-stuffing). The lines are joined again behind an `@`,
  and a terminator line `.` follows.
- A binary payload is written as `$`, then its standard base64 text
  (section 4 of RFC 4648, with padding), then a line break.

The channel's implementation file is not part of this model. The behaviour
comes from the sending expectations of its test suite, and each expectation is
proved by a lemma here. Structural lemmas generalise the expectations to all
inputs.

The test suites hold no receiving test that runs an assertion: one is skipped
and the other has an empty body. The decoder in `decoding.dfy` is therefore
the inverse that the sending grammar calls for, not behaviour the suites
check. Its main result is that decoding undoes encoding on any
stream of frames.

Modules:

- `Wrappers`: the `Option` datatype.
- `Base64`: the byte type, the base64 encoder over 3-byte groups, a strict
  decoder, and both round trips.
- `Lines`: splitting text at line breaks, joining lines, and the complete
  lines a line-oriented transport delivers (`WireLines`).
- `Framing`: `Message`, dot-stuffing, `EncodeText`, `EncodeBinary`, `Encode`,
  and the shape of each kind of frame.
- `Vectors`: the test suite's sending expectations.
- `Decoding`: the inferred line-by-line decoder and its round-trip lemmas.

## Model

| member | source | states |
|---|---|---|
| `Framing.EncodeText` | test/StreamsMessageChannel.test.js:28-78 | Every text frame ends with a line break. A frame starts with `@` exactly when the text holds a line break. |
| `Framing.EncodeBinary` | test/StreamsMessageChannel.test.js:32-44 | A binary frame is one line: `$`, then a text that base64-decodes to exactly the payload, then the only line break. |
| `Framing.Encode` | test/StreamsMessageChannel.test.js:28-78 | Every frame, text or binary, ends with a line break. |
| `Framing.DotStuff` | test/StreamsMessageChannel.test.js:67-68 | Each body line keeps its place. No stuffed line equals the terminator `.`. A line starting with `.` gains exactly one `.` and any other line is unchanged; undoing the stuffing restores the line. No line break is introduced. |
| `Framing.UnstuffDotStuff` | test/StreamsMessageChannel.test.js:67-68 | Removing the stuffing from every stuffed body line gives back the original lines. |
| `Framing.SingleLineVerbatim` | test/StreamsMessageChannel.test.js:28-31 | A single-line text that does not start with `#`, `$` or `@` is written as itself plus one line break. This includes the empty text and `.`. The receiver gets exactly that one line. |
| `Framing.SingleLineEscaped` | test/StreamsMessageChannel.test.js:47-50 | A single-line text starting with `#`, `$` or `@` gets exactly one `#` in front and is otherwise unchanged, on one line. |
| `Framing.SingleLineOneBreak` | test/StreamsMessageChannel.test.js:28-31 | A single-line text frame holds exactly one line break, as its last character. |
| `Framing.MultiLineFrame` | test/StreamsMessageChannel.test.js:62-79 | A multi-line frame is delivered as `@` plus the first stuffed line, then the other stuffed lines, then `.`. It has at least two body lines and none of them equals `.`. Unstuffing and joining the body gives back the text. |
| `Lines.SplitLines` | test/StreamsMessageChannel.test.js:64-66 | Splitting gives at least one line, none with a line break, and joining them with line breaks gives back the text. So a trailing line break yields a trailing empty line. |
| `Lines.JoinLines` | test/StreamsMessageChannel.test.js:64-66 | Rejoining with line breaks undoes splitting: `JoinLines(SplitLines(s)) == s` (the ensures of `SplitLines`). Splitting undoes rejoining for one or more lines without line breaks (`SplitJoin`). |
| `Lines.SplitJoin` | test/StreamsMessageChannel.test.js:64-66 | One or more lines without line breaks, joined and split again, are the same lines. |
| `Base64.Encode` | test/StreamsMessageChannel.test.js:32-36 | The base64 text of n bytes has 4 * ceil(n / 3) characters, so the empty payload gives no characters. |
| `Base64.EncodeAlphabet` | test/StreamsMessageChannel.test.js:32-36 | Base64 text holds only alphabet and pad characters and never a line break. |
| `Base64.Decode` | test/StreamsMessageChannel.test.js:32-36 | (Inferred decoder.) Strict base64 decoding. It yields the empty payload exactly for the empty text, and with `DecodeIffEncode` it accepts exactly the texts the encoder writes. |
| `Base64.DecodeEncode` | test/StreamsMessageChannel.test.js:32-36 | Decoding the base64 text of any byte sequence gives back those bytes. |
| `Base64.EncodeDecode` | test/StreamsMessageChannel.test.js:32-36 | A text the strict decoder accepts is exactly the encoding of the bytes it yields. |
| `Base64.DecodeIffEncode` | test/StreamsMessageChannel.test.js:32-36 | A text decodes to some bytes exactly when it is their base64 encoding. |
| `Vectors.SendText` | test/StreamsMessageChannel.test.js:28-31 | `textMessage` is written as `textMessage\n`. |
| `Vectors.SendBinary` | test/StreamsMessageChannel.test.js:32-36 | The bytes 1, 2, 3 are written as `$AQID\n`. |
| `Vectors.SendEmptyText` | test/StreamsMessageChannel.test.js:37-40 | The empty text is written as `\n`. |
| `Vectors.SendEmptyBinary` | test/StreamsMessageChannel.test.js:41-44 | The empty payload is written as `$\n`. |
| `Vectors.SendSpecialCharacters` | test/StreamsMessageChannel.test.js:46-60 | `#message`, `$message` and `@message` are written with one `#` in front. `.` is written as `.\n`. |
| `Vectors.MultiLineRow` | test/StreamsMessageChannel.test.js:62-79 | A text made of two or more lines is written as `@`, its stuffed lines joined, then `\n.\n`. |
| `Vectors.SendTwoLines` | test/StreamsMessageChannel.test.js:64 | `MULTI\nLINE` is written as `@MULTI\nLINE\n.\n`. |
| `Vectors.SendTrailingBreak` | test/StreamsMessageChannel.test.js:65 | `MULTI\n` is written as `@MULTI\n\n.\n`. |
| `Vectors.SendLoneBreak` | test/StreamsMessageChannel.test.js:66 | `\n` is written as `@\n\n.\n`. |
| `Vectors.SendStuffedDot` | test/StreamsMessageChannel.test.js:67 | `\n.` is written as `@\n..\n.\n`. |
| `Vectors.SendStuffedDots` | test/StreamsMessageChannel.test.js:68 | `\n..` is written as `@\n...\n.\n`. |
| `Vectors.SendMarkerInBody` | test/StreamsMessageChannel.test.js:69 | `@\n` is written as `@@\n\n.\n`. A body line starting with `@` is not escaped. |
| `Decoding.Feed` | test/StreamsMessageChannel.test.js:82-91 | (Inferred decoder.) An error occurs only when idle and leaves the decoder idle. An emitted message leaves it idle. It is collecting exactly when the line yielded Continue. |
| `Decoding.FeedAll` | test/StreamsMessageChannel.test.js:82-91 | (Inferred decoder.) Every delivered line yields exactly one outcome. |
| `Decoding.FrameRoundTrip` | test/StreamsMessageChannel.test.js:82-91 | (Inferred decoder.) The lines of one frame, fed to an idle decoder, yield Continue until the last line, which yields the original message. The decoder ends idle. |
| `Decoding.StreamRoundTrip` | test/StreamsMessageChannel.test.js:82-91 | (Inferred decoder.) The lines of any sequence of frames yield exactly those messages, in order, with no error. The decoder ends idle. |
| `Decoding.ReceiveText` | test/StreamsMessageChannel.test.js:82-91 | (Inferred decoder.) The line `textMessage` yields the text `textMessage`, as the skipped receiving test expects. |
| `Decoding.ReceiveInvalidBase64` | test/StreamsMessageChannel.test.js:82-91 | (Inferred decoder.) A `$` line that is not base64 yields an error, and the decoder stays idle. |

## Left out

- `lib/StreamsMessageChannel.js` is not part of this model. The encoder is
  reconstructed from the test suite's expectations, so the model is defined
  by what those tests pin down.
- Channel lifecycle (`start`, `stop`, construction with stream objects) is
  left out. It is stream and event-emitter wiring with no contract stated
  beyond not failing.
- Listener registration and dispatch (`addListener`) are left out for the
  same reason.
- Writing to the output stream is left out. The model produces the
  characters of a frame. It does not model that a single-line frame is
  written in one call while a multi-line frame is only checked as the
  concatenated output.
- The `FakeReadable` test helper in test/test.js and the `FakeWritable`
  helper (its own file, not part of this model) are test instrumentation
  over Node streams, timers and events, so they are left out.
- Character encoding is left out. Texts are sequences of characters. The
  UTF-8 bytes Node writes for them are not modelled, and neither is the
  JavaScript UTF-16 string representation.
- A binary payload is modelled as its bytes (0 to 255). The test builds it
  from an `Int8Array`, whose signed view of the same bytes does not change
  the base64 text.
- `Decoding.Feed`: the decoder is inferred, because no receiving test runs
  an assertion and the receiving code is not shown. Its base64 decoding
  (`Base64.Decode`) is
  strict: it rejects non-canonical padding bits and characters outside the
  alphabet. A Node `Buffer` decoder is more lenient.
