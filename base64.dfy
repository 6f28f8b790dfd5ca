/**
  Standard base64 (RFC 4648, section 4: the "base64" alphabet, with `=` padding
  and no line wrapping), as used for the payload of a binary message line.

  The encoder works on groups of three bytes, each turned into four characters
  of six bits each; a final group of one or two bytes is padded with `==` or `=`.
  The decoder is strict: it accepts exactly the strings the encoder produces.
*/
module Base64 {

  import opened Wrappers

  newtype byte = b: int | 0 <= b < 256

  /** A six-bit value, the index of one character of the alphabet. */
  type sextet = i: int | 0 <= i < 64

  const Pad: char := '='

  /** The character for a six-bit value: RFC 4648, section 4, Table 1. */
  function CharOf(i: sextet): (c: char)
    ensures c != Pad && c != '\n'
  {
    if i < 26 then ('A' as int + i) as char
    else if i < 52 then ('a' as int + (i - 26)) as char
    else if i < 62 then ('0' as int + (i - 52)) as char
    else if i == 62 then '+'
    else '/'
  }

  /** The six-bit value of an alphabet character; None for any other character. */
  function IndexOf(c: char): (r: Option<sextet>)
  {
    if 'A' <= c <= 'Z' then Some(c as int - 'A' as int)
    else if 'a' <= c <= 'z' then Some(c as int - 'a' as int + 26)
    else if '0' <= c <= '9' then Some(c as int - '0' as int + 52)
    else if c == '+' then Some(62)
    else if c == '/' then Some(63)
    else None
  }

  /** Every alphabet character is recognised again, with the value it encodes. */
  lemma IndexOfCharOf(i: sextet)
    ensures IndexOf(CharOf(i)) == Some(i)
  {
  }

  /** A recognised character is the one the alphabet gives for its value. */
  lemma CharOfIndexOf(c: char)
    requires IndexOf(c).Some?
    ensures CharOf(IndexOf(c).value) == c
  {
  }

  /** True of the characters the encoder may write: the alphabet and the pad. */
  predicate IsBase64Char(c: char) {
    c == Pad || IndexOf(c).Some?
  }

  /** Every character the alphabet gives is one the decoder recognises. */
  lemma AlphabetChars()
    ensures forall i: sextet :: IsBase64Char(CharOf(i))
  {
    forall i: sextet
      ensures IsBase64Char(CharOf(i))
    {
      IndexOfCharOf(i);
    }
  }

  /** A base64 text holds only alphabet and pad characters, so never a line break. */
  lemma {:induction false} EncodeAlphabet(bytes: seq<byte>)
    ensures forall i :: 0 <= i < |Encode(bytes)| ==> IsBase64Char(Encode(bytes)[i])
    ensures '\n' !in Encode(bytes)
    decreases |bytes|
  {
    AlphabetChars();
    if |bytes| >= 3 {
      EncodeAlphabet(bytes[3..]);
      assert Encode(bytes) == EncodeTriple(bytes[0], bytes[1], bytes[2]) + Encode(bytes[3..]);
    }
  }

  /** Four characters for a full group of three bytes. */
  function EncodeTriple(b0: byte, b1: byte, b2: byte): string {
    [CharOf(b0 as int / 4),
     CharOf(b0 as int % 4 * 16 + b1 as int / 16),
     CharOf(b1 as int % 16 * 4 + b2 as int / 64),
     CharOf(b2 as int % 64)]
  }

  /** A final group of one byte: two characters, the low four bits zero, then `==`. */
  function EncodeOne(b0: byte): string {
    [CharOf(b0 as int / 4), CharOf(b0 as int % 4 * 16), Pad, Pad]
  }

  /** A final group of two bytes: three characters, the low two bits zero, then `=`. */
  function EncodeTwo(b0: byte, b1: byte): string {
    [CharOf(b0 as int / 4), CharOf(b0 as int % 4 * 16 + b1 as int / 16), CharOf(b1 as int % 16 * 4), Pad]
  }

  /** The base64 text of a byte sequence. */
  function Encode(bytes: seq<byte>): (s: string)
    ensures |s| == 4 * ((|bytes| + 2) / 3)
    decreases |bytes|
  {
    if |bytes| == 0 then ""
    else if |bytes| == 1 then EncodeOne(bytes[0])
    else if |bytes| == 2 then EncodeTwo(bytes[0], bytes[1])
    else EncodeTriple(bytes[0], bytes[1], bytes[2]) + Encode(bytes[3..])
  }

  /** The first byte of a group, from its first two characters. */
  function Byte0(c0: sextet, c1: sextet): byte {
    (c0 as int * 4 + c1 as int / 16) as byte
  }

  /** The second byte of a group, from its second and third characters. */
  function Byte1(c1: sextet, c2: sextet): byte {
    (c1 as int % 16 * 16 + c2 as int / 4) as byte
  }

  /** The third byte of a group, from its third and fourth characters. */
  function Byte2(c2: sextet, c3: sextet): byte {
    (c2 as int % 4 * 64 + c3 as int) as byte
  }

  /** Three bytes from four alphabet characters, or None if one of them is not in the alphabet. */
  function DecodeTriple(q: string): (r: Option<seq<byte>>)
    requires |q| == 4
    ensures r.Some? ==> |r.value| == 3
  {
    var i0, i1, i2, i3 := IndexOf(q[0]), IndexOf(q[1]), IndexOf(q[2]), IndexOf(q[3]);
    if i0.Some? && i1.Some? && i2.Some? && i3.Some? then
      Some([Byte0(i0.value, i1.value), Byte1(i1.value, i2.value), Byte2(i2.value, i3.value)])
    else None
  }

  /**
    The last four characters of a base64 text: a full group, or one padded with
    `=` or `==`. The bits the padding leaves over must be zero.
  */
  function DecodeLast(q: string): (r: Option<seq<byte>>)
    requires |q| == 4
    ensures r.Some? ==> 1 <= |r.value| <= 3
  {
    var i0, i1, i2 := IndexOf(q[0]), IndexOf(q[1]), IndexOf(q[2]);
    if q[3] != Pad then DecodeTriple(q)
    else if q[2] == Pad then
      if i0.Some? && i1.Some? && i1.value % 16 == 0 then Some([Byte0(i0.value, i1.value)]) else None
    else
      if i0.Some? && i1.Some? && i2.Some? && i2.value % 4 == 0 then
        Some([Byte0(i0.value, i1.value), Byte1(i1.value, i2.value)])
      else None
  }

  /** The bytes of a base64 text, or None when the text is not one the encoder writes. */
  function Decode(s: string): (r: Option<seq<byte>>)
    ensures r.Some? ==> (|r.value| == 0 <==> |s| == 0)
    decreases |s|
  {
    if |s| == 0 then Some([])
    else if |s| < 4 then None
    else if |s| == 4 then DecodeLast(s)
    else
      match DecodeTriple(s[..4])
      case None => None
      case Some(group) =>
        match Decode(s[4..])
        case None => None
        case Some(rest) => Some(group + rest)
  }

  /** Splitting three bytes into sextets and joining them again gives the bytes back. */
  lemma BytesSextetsBytes(b0: int, b1: int, b2: int)
    requires 0 <= b0 < 256 && 0 <= b1 < 256 && 0 <= b2 < 256
    ensures (b0 / 4) * 4 + (b0 % 4 * 16 + b1 / 16) / 16 == b0
    ensures (b0 % 4 * 16 + b1 / 16) % 16 * 16 + (b1 % 16 * 4 + b2 / 64) / 4 == b1
    ensures (b1 % 16 * 4 + b2 / 64) % 4 * 64 + b2 % 64 == b2
  {
    var h0, l0 := b0 / 4, b0 % 4;
    var h1, l1 := b1 / 16, b1 % 16;
    var h2, l2 := b2 / 64, b2 % 64;
    assert (l0 * 16 + h1) / 16 == l0 && (l0 * 16 + h1) % 16 == h1;
    assert (l1 * 4 + h2) / 4 == l1 && (l1 * 4 + h2) % 4 == h2;
  }

  /** Joining four sextets into bytes and splitting them again gives the sextets back. */
  lemma SextetsBytesSextets(c0: int, c1: int, c2: int, c3: int)
    requires 0 <= c0 < 64 && 0 <= c1 < 64 && 0 <= c2 < 64 && 0 <= c3 < 64
    ensures (c0 * 4 + c1 / 16) / 4 == c0
    ensures (c0 * 4 + c1 / 16) % 4 * 16 + (c1 % 16 * 16 + c2 / 4) / 16 == c1
    ensures (c1 % 16 * 16 + c2 / 4) % 16 * 4 + (c2 % 4 * 64 + c3) / 64 == c2
    ensures (c2 % 4 * 64 + c3) % 64 == c3
  {
    var h1, l1 := c1 / 16, c1 % 16;
    var h2, l2 := c2 / 4, c2 % 4;
    assert (c0 * 4 + h1) / 4 == c0 && (c0 * 4 + h1) % 4 == h1;
    assert (l1 * 16 + h2) / 16 == l1 && (l1 * 16 + h2) % 16 == h2;
    assert (l2 * 64 + c3) / 64 == l2 && (l2 * 64 + c3) % 64 == c3;
  }

  /** A full group decodes back to its three bytes, whether it is last or not. */
  lemma TripleRoundTrip(b0: byte, b1: byte, b2: byte)
    ensures DecodeTriple(EncodeTriple(b0, b1, b2)) == Some([b0, b1, b2])
    ensures DecodeLast(EncodeTriple(b0, b1, b2)) == Some([b0, b1, b2])
  {
    var c0, c1, c2, c3 := b0 as int / 4, b0 as int % 4 * 16 + b1 as int / 16, b1 as int % 16 * 4 + b2 as int / 64, b2 as int % 64;
    var q := EncodeTriple(b0, b1, b2);
    assert q == [CharOf(c0), CharOf(c1), CharOf(c2), CharOf(c3)];
    IndexOfCharOf(c0); IndexOfCharOf(c1); IndexOfCharOf(c2); IndexOfCharOf(c3);
    BytesSextetsBytes(b0 as int, b1 as int, b2 as int);
    assert Byte0(c0, c1) == b0 && Byte1(c1, c2) == b1 && Byte2(c2, c3) == b2;
  }

  /** A final group of one byte decodes back to that byte. */
  lemma OneRoundTrip(b0: byte)
    ensures DecodeLast(EncodeOne(b0)) == Some([b0])
  {
    var c0, c1 := b0 as int / 4, b0 as int % 4 * 16;
    var q := EncodeOne(b0);
    assert q == [CharOf(c0), CharOf(c1), Pad, Pad];
    IndexOfCharOf(c0); IndexOfCharOf(c1);
    BytesSextetsBytes(b0 as int, 0, 0);
    assert Byte0(c0, c1) == b0;
  }

  /** A final group of two bytes decodes back to those bytes. */
  lemma TwoRoundTrip(b0: byte, b1: byte)
    ensures DecodeLast(EncodeTwo(b0, b1)) == Some([b0, b1])
  {
    var c0, c1, c2 := b0 as int / 4, b0 as int % 4 * 16 + b1 as int / 16, b1 as int % 16 * 4;
    var q := EncodeTwo(b0, b1);
    assert q == [CharOf(c0), CharOf(c1), CharOf(c2), Pad];
    IndexOfCharOf(c0); IndexOfCharOf(c1); IndexOfCharOf(c2);
    BytesSextetsBytes(b0 as int, b1 as int, 0);
    assert Byte0(c0, c1) == b0 && Byte1(c1, c2) == b1;
  }

  /** A full group the decoder accepts is exactly the encoding of the three bytes it yields. */
  lemma TripleCanonical(q: string)
    requires |q| == 4 && DecodeTriple(q).Some?
    ensures Encode(DecodeTriple(q).value) == q
  {
    var c0: int, c1: int, c2: int, c3: int := IndexOf(q[0]).value, IndexOf(q[1]).value, IndexOf(q[2]).value, IndexOf(q[3]).value;
    var r := DecodeTriple(q).value;
    var b0, b1, b2 := r[0] as int, r[1] as int, r[2] as int;
    assert b0 == c0 * 4 + c1 / 16 && b1 == c1 % 16 * 16 + c2 / 4 && b2 == c2 % 4 * 64 + c3;
    SextetsBytesSextets(c0, c1, c2, c3);
    CharOfIndexOf(q[0]); CharOfIndexOf(q[1]); CharOfIndexOf(q[2]); CharOfIndexOf(q[3]);
    var e := EncodeTriple(r[0], r[1], r[2]);
    assert e[0] == CharOf(c0) == q[0];
    assert e[1] == CharOf(c1) == q[1];
    assert e[2] == CharOf(c2) == q[2];
    assert e[3] == CharOf(c3) == q[3];
    assert Encode(r) == e + Encode(r[3..]);
  }

  /** A group padded with `==` that the decoder accepts is exactly the encoding of its one byte. */
  lemma OneCanonical(q: string)
    requires |q| == 4 && q[3] == Pad && q[2] == Pad && DecodeLast(q).Some?
    ensures Encode(DecodeLast(q).value) == q
  {
    var c0: int, c1: int := IndexOf(q[0]).value, IndexOf(q[1]).value;
    var r := DecodeLast(q).value;
    var b0 := r[0] as int;
    assert b0 == c0 * 4 + c1 / 16 && c1 % 16 == 0;
    SextetsBytesSextets(c0, c1, 0, 0);
    CharOfIndexOf(q[0]); CharOfIndexOf(q[1]);
    var e := EncodeOne(r[0]);
    assert e[0] == CharOf(c0) == q[0];
    assert e[1] == CharOf(c1) == q[1];
  }

  /** A group padded with `=` that the decoder accepts is exactly the encoding of its two bytes. */
  lemma TwoCanonical(q: string)
    requires |q| == 4 && q[3] == Pad && q[2] != Pad && DecodeLast(q).Some?
    ensures Encode(DecodeLast(q).value) == q
  {
    var c0: int, c1: int, c2: int := IndexOf(q[0]).value, IndexOf(q[1]).value, IndexOf(q[2]).value;
    var r := DecodeLast(q).value;
    var b0, b1 := r[0] as int, r[1] as int;
    assert b0 == c0 * 4 + c1 / 16 && b1 == c1 % 16 * 16 + c2 / 4 && c2 % 4 == 0;
    SextetsBytesSextets(c0, c1, c2, 0);
    CharOfIndexOf(q[0]); CharOfIndexOf(q[1]); CharOfIndexOf(q[2]);
    var e := EncodeTwo(r[0], r[1]);
    assert e[0] == CharOf(c0) == q[0];
    assert e[1] == CharOf(c1) == q[1];
    assert e[2] == CharOf(c2) == q[2];
  }

  /** The last group the decoder accepts is exactly the encoding of the bytes it yields. */
  lemma LastCanonical(q: string)
    requires |q| == 4 && DecodeLast(q).Some?
    ensures Encode(DecodeLast(q).value) == q
  {
    if q[3] != Pad {
      TripleCanonical(q);
    } else if q[2] == Pad {
      OneCanonical(q);
    } else {
      TwoCanonical(q);
    }
  }

  /** Decoding undoes encoding: every byte sequence survives the trip. */
  lemma {:induction false} DecodeEncode(bytes: seq<byte>)
    ensures Decode(Encode(bytes)) == Some(bytes)
    decreases |bytes|
  {
    var s := Encode(bytes);
    if |bytes| == 1 {
      assert s == EncodeOne(bytes[0]);
      OneRoundTrip(bytes[0]);
      assert bytes == [bytes[0]];
    } else if |bytes| == 2 {
      assert s == EncodeTwo(bytes[0], bytes[1]);
      TwoRoundTrip(bytes[0], bytes[1]);
      assert bytes == [bytes[0], bytes[1]];
    } else if |bytes| >= 3 {
      var group, rest := bytes[..3], bytes[3..];
      var q := EncodeTriple(bytes[0], bytes[1], bytes[2]);
      TripleRoundTrip(bytes[0], bytes[1], bytes[2]);
      assert group == [bytes[0], bytes[1], bytes[2]];
      assert s == q + Encode(rest);
      assert bytes == group + rest;
      if |rest| == 0 {
        assert Encode(rest) == "";
        assert s == q;
        assert Decode(s) == DecodeLast(q);
        assert bytes == group;
      } else {
        assert |Encode(rest)| >= 4;
        assert s[..4] == q;
        assert s[4..] == Encode(rest);
        DecodeEncode(rest);
      }
    }
  }

  /** Decoding accepts only what the encoder writes: a decoded text is re-encoded to itself. */
  lemma {:induction false} EncodeDecode(s: string, bytes: seq<byte>)
    requires Decode(s) == Some(bytes)
    ensures Encode(bytes) == s
    decreases |s|
  {
    if |s| == 4 {
      LastCanonical(s);
    } else if |s| > 4 {
      var group := DecodeTriple(s[..4]).value;
      TripleCanonical(s[..4]);
      var rest := Decode(s[4..]).value;
      EncodeDecode(s[4..], rest);
      assert bytes == group + rest;
      assert bytes[3..] == rest;
      assert s == s[..4] + s[4..];
    }
  }

  /** The two directions together: a text decodes to some bytes exactly when it is their encoding. */
  lemma DecodeIffEncode(s: string, bytes: seq<byte>)
    ensures Decode(s) == Some(bytes) <==> Encode(bytes) == s
  {
    if Decode(s) == Some(bytes) {
      EncodeDecode(s, bytes);
    }
    if Encode(bytes) == s {
      DecodeEncode(bytes);
    }
  }
}
