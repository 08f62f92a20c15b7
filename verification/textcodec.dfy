/**
 * The text encodings behind the string writers of iolib.py: `str.encode`
 * with the "ascii" and "utf-8" codecs, optionally followed by one NUL byte.
 * Text is a sequence of Unicode scalar values (Dafny's `char`).
 */
module TextCodec {
  import opened Outcome
  import opened IntCodec

  /** Every code point is at most 127. */
  predicate IsAscii(s: string)
  {
    forall i :: 0 <= i < |s| ==> s[i] as int < 0x80
  }

  /** str.encode("ascii"): one byte per code point; any code point above 127
      raises UnicodeEncodeError and nothing is produced. */
  function AsciiEncode(s: string): (r: Result<seq<byte>>)
    ensures r.Ok? <==> IsAscii(s)
    ensures r.Err? ==> r.error == EncodingError
    ensures r.Ok? ==> |r.value| == |s|
    ensures r.Ok? ==> forall i :: 0 <= i < |s| ==> r.value[i] as int == s[i] as int
  {
    if IsAscii(s) then Ok(seq(|s|, i requires 0 <= i < |s| => s[i] as int as byte))
    else Err(EncodingError)
  }

  /** The payload followed by one NUL terminator (`+ bytes(1)`). */
  function Terminated(payload: seq<byte>): (r: seq<byte>)
    ensures |r| == |payload| + 1 && r[..|payload|] == payload && r[|payload|] == 0
  {
    payload + [0]
  }

  /** `s.encode(...) + bytes(1)`: the terminator is added only when encoding succeeded. */
  function NulTerminated(encoded: Result<seq<byte>>): Result<seq<byte>>
  {
    match encoded
    case Err(e) => Err(e)
    case Ok(b) => Ok(Terminated(b))
  }

  /** The UTF-8 form of one scalar value, as laid out in section 3 of RFC 3629. */
  function Utf8Char(c: char): (r: seq<byte>)
    ensures |r| == (if c as int < 0x80 then 1 else if c as int < 0x800 then 2
                    else if c as int < 0x1_0000 then 3 else 4)
  {
    var n := c as int;
    var q1, r0 := n / 64, n % 64;
    var q2, r1 := q1 / 64, q1 % 64;
    var q3, r2 := q2 / 64, q2 % 64;
    if n < 0x80 then [n as byte]
    else if n < 0x800 then [(0xC0 + q1) as byte, (0x80 + r0) as byte]
    else if n < 0x1_0000 then [(0xE0 + q2) as byte, (0x80 + r1) as byte, (0x80 + r0) as byte]
    else [(0xF0 + q3) as byte, (0x80 + r2) as byte, (0x80 + r1) as byte, (0x80 + r0) as byte]
  }

  /** str.encode("utf-8"): the concatenation of the UTF-8 forms of the characters. */
  function Utf8Encode(s: string): (r: seq<byte>)
    ensures |r| >= |s|
  {
    if s == [] then [] else Utf8Char(s[0]) + Utf8Encode(s[1..])
  }

  predicate IsContinuation(b: byte)
  {
    0x80 <= b < 0xC0
  }

  /** The first scalar value of a well-formed UTF-8 byte string and the number
      of bytes it takes; None when b does not start with a well-formed
      sequence (section 4 of RFC 3629: no overlong forms, no surrogates,
      nothing above U+10FFFF). */
  function DecodeFirst(b: seq<byte>): (r: Option<(char, nat)>)
    requires |b| > 0
    ensures r.Some? ==> 1 <= r.value.1 <= |b|
  {
    var b0 := b[0] as int;
    if b0 < 0x80 then
      Some((b0 as char, 1))
    else if 0xC2 <= b0 < 0xE0 && |b| >= 2 && IsContinuation(b[1]) then
      Some((((b0 - 0xC0) * 64 + (b[1] as int - 0x80)) as char, 2))
    else if 0xE0 <= b0 < 0xF0 && |b| >= 3 && IsContinuation(b[1]) && IsContinuation(b[2]) then
      var n := ((b0 - 0xE0) * 64 + (b[1] as int - 0x80)) * 64 + (b[2] as int - 0x80);
      if 0x800 <= n && !(0xD800 <= n < 0xE000) then Some((n as char, 3)) else None
    else if 0xF0 <= b0 < 0xF5 && |b| >= 4
            && IsContinuation(b[1]) && IsContinuation(b[2]) && IsContinuation(b[3]) then
      var n := (((b0 - 0xF0) * 64 + (b[1] as int - 0x80)) * 64 + (b[2] as int - 0x80)) * 64
               + (b[3] as int - 0x80);
      if 0x1_0000 <= n < 0x11_0000 then Some((n as char, 4)) else None
    else
      None
  }

  /** A strict UTF-8 decoder, the reader's side of Utf8Encode. */
  function Utf8Decode(b: seq<byte>): (r: Option<string>)
    decreases |b|
  {
    if b == [] then Some([])
    else
      match DecodeFirst(b)
      case None => None
      case Some((c, k)) =>
        match Utf8Decode(b[k..])
        case None => None
        case Some(rest) => Some([c] + rest)
  }

  lemma DivMod64(x: int, y: int)
    requires 0 <= y < 64
    ensures (x * 64 + y) / 64 == x && (x * 64 + y) % 64 == y
  {
  }

  /** The decoder reads back exactly one character from its UTF-8 form,
      whatever follows it. */
  lemma DecodeFirstOfChar(c: char, tail: seq<byte>)
    ensures DecodeFirst(Utf8Char(c) + tail) == Some((c, |Utf8Char(c)|))
  {
    var n := c as int;
    var q1, r0 := n / 64, n % 64;
    var q2, r1 := q1 / 64, q1 % 64;
    var q3, r2 := q2 / 64, q2 % 64;
    assert n == q1 * 64 + r0 && q1 == q2 * 64 + r1 && q2 == q3 * 64 + r2;
  }

  /** A well-formed leading sequence is the UTF-8 form of the character it decodes to. */
  lemma CharOfDecodeFirst(b: seq<byte>)
    requires |b| > 0 && DecodeFirst(b).Some?
    ensures Utf8Char(DecodeFirst(b).value.0) == b[..DecodeFirst(b).value.1]
  {
    var b0 := b[0] as int;
    var (c, k) := DecodeFirst(b).value;
    var n := c as int;
    if k == 2 {
      DivMod64(b0 - 0xC0, b[1] as int - 0x80);
    } else if k == 3 {
      var x := (b0 - 0xE0) * 64 + (b[1] as int - 0x80);
      DivMod64(x, b[2] as int - 0x80);
      DivMod64(b0 - 0xE0, b[1] as int - 0x80);
    } else if k == 4 {
      var x1 := (b0 - 0xF0) * 64 + (b[1] as int - 0x80);
      var x2 := x1 * 64 + (b[2] as int - 0x80);
      DivMod64(x2, b[3] as int - 0x80);
      DivMod64(x1, b[2] as int - 0x80);
      DivMod64(b0 - 0xF0, b[1] as int - 0x80);
    }
  }

  /** Round trip: the decoder recovers every string from its UTF-8 encoding. */
  lemma {:induction false} Utf8RoundTrip(s: string)
    ensures Utf8Decode(Utf8Encode(s)) == Some(s)
  {
    if s != [] {
      var head, tail := Utf8Char(s[0]), Utf8Encode(s[1..]);
      DecodeFirstOfChar(s[0], tail);
      assert (head + tail)[|head|..] == tail;
      Utf8RoundTrip(s[1..]);
      assert [s[0]] + s[1..] == s;
    }
  }

  /** The converse: whatever the decoder accepts is the UTF-8 encoding of what it
      returns, so the encoder produces exactly the well-formed byte strings. */
  lemma {:induction false} Utf8EncodeOfDecode(b: seq<byte>)
    requires Utf8Decode(b).Some?
    ensures Utf8Encode(Utf8Decode(b).value) == b
    decreases |b|
  {
    if b != [] {
      var (c, k) := DecodeFirst(b).value;
      CharOfDecodeFirst(b);
      Utf8EncodeOfDecode(b[k..]);
      var s := Utf8Decode(b).value;
      assert s[0] == c && s[1..] == Utf8Decode(b[k..]).value;
      assert b == b[..k] + b[k..];
    }
  }

  /** On pure-ASCII text the UTF-8 codec produces the same bytes as the ASCII codec. */
  lemma {:induction false} Utf8AgreesWithAscii(s: string)
    requires IsAscii(s)
    ensures Utf8Encode(s) == AsciiEncode(s).value
  {
    if s != [] {
      Utf8AgreesWithAscii(s[1..]);
      var tail := AsciiEncode(s[1..]).value;
      assert AsciiEncode(s).value == [s[0] as int as byte] + tail;
    }
  }

  /** UTF-8 output has one byte per character exactly when the text is pure ASCII. */
  lemma {:induction false} Utf8LengthOneToOne(s: string)
    ensures |Utf8Encode(s)| == |s| <==> IsAscii(s)
  {
    if s != [] {
      Utf8LengthOneToOne(s[1..]);
      if IsAscii(s) {
        assert IsAscii(s[1..]) by {
          forall i | 0 <= i < |s| - 1 ensures s[1..][i] as int < 0x80 {
            assert s[1..][i] == s[i + 1];
          }
        }
      } else if s[0] as int < 0x80 {
        assert !IsAscii(s[1..]) by {
          var j :| 0 <= j < |s| && s[j] as int >= 0x80;
          assert s[1..][j - 1] == s[j];
        }
      }
    }
  }

  /** A NUL byte occurs in the UTF-8 encoding exactly where the text holds U+0000:
      multi-byte forms use only bytes of 0x80 and above. */
  lemma {:induction false} Utf8NulOnlyFromNul(s: string)
    ensures 0 in Utf8Encode(s) <==> '\0' in s
  {
    if s != [] {
      Utf8NulOnlyFromNul(s[1..]);
      assert s == [s[0]] + s[1..];
    }
  }

  lemma AsciiExample()
    ensures AsciiEncode("AB") == Ok([0x41, 0x42])
    ensures AsciiEncode("café") == Err(EncodingError)
    ensures Utf8Encode("café") == [0x63, 0x61, 0x66, 0xC3, 0xA9]
  {
    assert IsAscii("AB");
    assert AsciiEncode("AB").value == [0x41, 0x42];
    assert !IsAscii("café") by { assert "café"[3] as int == 0xE9; }
  }
}
