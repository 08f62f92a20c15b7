# BinaryStreamWriter, modelled in Dafny

`iolib.py` defines one class, `BinaryStreamWriter`. It writes fixed-width integers
and text into a binary file, with a byte order chosen when the writer is built.
It also moves the file's cursor. This project models that class in four modules:

- `Outcome` (`result.dfy`): the `Result` type, and an `Error` type naming what the
  Python runtime raises.
- `IntCodec` (`intcodec.dfy`): the integer encodings behind the eight numeric
  writers. These are `struct.pack` with an explicit `<` or `>` prefix, so sizes
  are the struct module's standard ones: 1, 2, 4 and 4 bytes, two's complement
  for signed formats. The module also has an independent decoder, and proves
  that the two round-trip in both directions.
- `TextCodec` (`textcodec.dfy`): the ASCII and UTF-8 encodings behind the four
  string writers, and the NUL terminator of the `_nt` variants. UTF-8 follows
  section 3 of RFC 3629. A strict decoder (section 4 of RFC 3629) is proved to
  be its exact inverse.
- `IoLib` (`writer.dfy`): the writer.
  - A `Stream` value records the handle's phase, the file's bytes and the cursor.
    The phase is `Unopened` (the handle is still `None`), `Opened`, or `Closed`
    (`close()` was called on the file).
  - Pure step functions (`StreamWrite`, `StreamSeek`, `StreamOpen`,
    `StreamClose`, `StreamWriteEncoded`, `StreamWriteText`) specify each
    operation. Lemmas about them state what the writer promises.
  - The class `BinaryStreamWriter` has one method per Python method. Each method
    updates `phase`, `data` and `pos` in place and is proved to perform exactly
    its step function.

Files are byte sequences (`seq<byte>`, `byte` being the integers 0..255). Text is
a Dafny `string`, i.e. a sequence of Unicode scalar values.

On these points the model follows the code:

- `close()` does not reset the handle to `None`. It closes the file object.
  Afterwards writes and seeks fail with the closed-file `ValueError`, not with a
  "not open" error. A second `close()` does nothing. `close()` before `open()`
  fails (`AttributeError`). `open()` may be called again at any time; it truncates.
- `write_long`/`write_ulong` always write 4 bytes, because of the explicit
  byte-order prefix.
- Input ranges are checked: `struct.pack` refuses a value outside its format's
  range (`struct.error`) before the file is touched.
- The numeric writers call `struct.pack` in a statement of its own, before the
  handle is used. So a range error is reported even on a writer that was never
  opened, and no byte is written.
- The string writers evaluate `self.__fp.write` before `s.encode(...)`. So a
  writer that was never opened fails with `AttributeError` whatever the text. On
  an opened or closed file the encoding error comes first, and no byte is written.
- A write of zero bytes changes nothing, even when the cursor lies past the end
  of the file.

## Model

| member | source | states |
|---|---|---|
| `IntCodec.EndianOf` | iolib.py:16-28 | the flag selects little-endian exactly when it equals `LITTLE_ENDIAN` (0); `BIG_ENDIAN` and every other value select big-endian |
| `IntCodec.Format.Code` | iolib.py:30-68 | every format is one of the eight `struct` codes `b B h H i I l L` |
| `IntCodec.Format.Width` | iolib.py:30-68 | every format takes 1, 2 or 4 bytes, the standard sizes under an explicit byte-order prefix |
| `IntCodec.Format.Signed` | iolib.py:30-68 | a format is signed exactly when its code is lower-case |
| `IntCodec.InRange` | iolib.py:30-68 | a signed value of a non-zero width is accepted exactly when it lies in [-256^width/2, 256^width/2); every accepted value has magnitude below 256^width |
| `IntCodec.StandardRanges` | iolib.py:30-68 | the accepted ranges are -0x80..0x7F for `b`, 0..0xFF for `B`, -0x8000..0x7FFF for `h`, 0..0xFFFF for `H`, -0x8000_0000..0x7FFF_FFFF for `i` and `l`, and 0..0xFFFF_FFFF for `I` and `L` |
| `IntCodec.Unsigned` | iolib.py:30-68 | the bit pattern of an in-range value is below 256^width and is the value itself or the value plus 256^width (two's complement); for signed formats it is negative exactly when the top bit is set |
| `IntCodec.Encode` | iolib.py:30-68 | an in-range value is encoded in exactly `width` bytes |
| `IntCodec.Decode` | iolib.py:30-68 | whatever `width` bytes are read back, the value lies in the range of that width and signedness |
| `IntCodec.Pack` | iolib.py:30-68 | packing succeeds exactly when the value is in the format's range; on success it yields exactly `Width()` bytes that decode back to the value; otherwise it fails with `PackError` |
| `IntCodec.LittleRoundTrip` | iolib.py:30-68 | the little-endian digits of a number below 256^width read back as that number |
| `IntCodec.BigRoundTrip` | iolib.py:30-68 | the big-endian digits of a number below 256^width read back as that number |
| `IntCodec.LittleDigitsOf` | iolib.py:30-68 | every byte string is the little-endian digit string of the number it denotes |
| `IntCodec.BigDigitsOf` | iolib.py:30-68 | every byte string is the big-endian digit string of the number it denotes |
| `IntCodec.BigIsReversedLittle` | iolib.py:30-68 | for every width, the big-endian digits are the little-endian digits reversed |
| `IntCodec.EncodeDecode` | iolib.py:30-68 | round trip: decoding an encoding with the same width, signedness and byte order gives back the value |
| `IntCodec.DecodeEncode` | iolib.py:30-68 | converse round trip: every byte string of a width is the encoding of the value it decodes to |
| `IntCodec.PackBigIsReversedLittle` | iolib.py:30-68 | `>` and `<` accept the same values, and the `>` output is the `<` output reversed |
| `IntCodec.SingleByteIgnoresEndian` | iolib.py:30-38 | for `b` and `B` the byte order makes no difference |
| `IntCodec.PackInjective` | iolib.py:30-68 | two in-range values with the same packed bytes are equal |
| `IntCodec.ByteBounds` | iolib.py:30-33 | `b` accepts -128 (as 0x80) and 127 and refuses 128 and -129 |
| `IntCodec.UShortExample` | iolib.py:45-48 | 0x1234 as `H` is 34 12 little-endian and 12 34 big-endian |
| `TextCodec.AsciiEncode` | iolib.py:70-72 | ASCII encoding fails with `EncodingError` exactly when a code point is above 127; otherwise it gives one byte per character, equal to its code point |
| `TextCodec.Terminated` | iolib.py:74-84 | `+ bytes(1)` keeps the payload as a prefix and adds exactly one 0x00 |
| `TextCodec.Utf8Char` | iolib.py:78-80 | a scalar value takes 1, 2, 3 or 4 bytes according to the boundaries 0x80, 0x800 and 0x10000 |
| `TextCodec.Utf8Encode` | iolib.py:78-80 | UTF-8 output is never shorter than the text |
| `TextCodec.DecodeFirst` | iolib.py:78-80 | an accepted leading sequence uses between 1 byte and the whole input |
| `TextCodec.DecodeFirstOfChar` | iolib.py:78-80 | the decoder reads back exactly one character from its UTF-8 form, whatever follows |
| `TextCodec.CharOfDecodeFirst` | iolib.py:78-80 | an accepted leading sequence is the UTF-8 form of the character decoded from it |
| `TextCodec.Utf8RoundTrip` | iolib.py:78-80 | strict decoding of the UTF-8 encoding of any text gives back the text |
| `TextCodec.Utf8EncodeOfDecode` | iolib.py:78-80 | every byte string the strict decoder accepts is the UTF-8 encoding of its result |
| `TextCodec.Utf8AgreesWithAscii` | iolib.py:70-80 | on pure-ASCII text the UTF-8 and ASCII encodings are the same bytes |
| `TextCodec.Utf8LengthOneToOne` | iolib.py:70-80 | the UTF-8 encoding has one byte per character exactly when the text is pure ASCII |
| `TextCodec.Utf8NulOnlyFromNul` | iolib.py:82-84 | a 0x00 byte occurs in the UTF-8 encoding exactly when the text contains U+0000 |
| `TextCodec.AsciiExample` | iolib.py:70-80 | "AB" is 41 42 in ASCII; "café" fails in ASCII and is 63 61 66 C3 A9 in UTF-8 |
| `IoLib.Splice` | iolib.py:86-88 | writing non-empty bytes at an offset puts them at that offset, grows the file only as far as needed, keeps every other byte, and leaves zeros in any gap; writing no bytes leaves the file as it was, even past its end |
| `IoLib.OverwrittenUnique` | iolib.py:86-88 | the description of a write determines the new contents completely |
| `IoLib.StreamWrite` | iolib.py:86-88 | `write` fails when the handle is `None` or the file is closed, and then nothing changes; on an open file it returns `len(b)`, writes `b` at the cursor and advances the cursor by `len(b)` |
| `IoLib.StreamWriteEncoded` | iolib.py:30-68 | for the numeric writers, a packing failure is returned and leaves the stream unchanged whatever its phase; otherwise the packed bytes are written |
| `IoLib.StreamWriteText` | iolib.py:70-84 | for the string writers, a writer that was never opened fails with `NoStream` whatever the text; otherwise an encoding failure is returned and changes nothing, and encoded bytes are written |
| `IoLib.StreamSeek` | iolib.py:99-101 | `seek` never changes the contents; on an open file it returns and sets `offset`, `pos + offset` or `len + offset` for the three origins; it fails on an unopened writer, an unknown origin, a closed file, or a negative target, and then nothing changes |
| `IoLib.StreamOpen` | iolib.py:90-93 | opening leaves an empty file with the cursor at 0 |
| `IoLib.StreamClose` | iolib.py:95-97 | closing fails when never opened; otherwise the file is closed and its bytes are kept |
| `IoLib.NumberWrite` | iolib.py:30-68 | a numeric write on an open file returns its format's width, advances the cursor by it, leaves bytes at the old cursor that decode to the value, and keeps every other byte |
| `IoLib.NumberOutOfRange` | iolib.py:30-68 | an out-of-range value fails with `PackError` and no byte reaches the file, whatever the phase |
| `IoLib.AsciiWrite` | iolib.py:70-72 | the ASCII writer on a never-opened writer fails with `NoStream`, even for non-ASCII text; otherwise it fails with `EncodingError`, changing nothing, exactly when a code point is above 127, and on an open file it writes one byte per character and returns `len(s)` |
| `IoLib.TerminatedWrite` | iolib.py:74-84 | a terminated write emits the payload, then one 0x00, and returns the payload length plus 1 |
| `IoLib.Utf8WriteMatchesAscii` | iolib.py:70-84 | on pure-ASCII text the UTF-8 writers behave exactly like the ASCII writers |
| `IoLib.EmptyWrite` | iolib.py:86-88 | on an open file, writing no bytes returns 0 and leaves the contents and the cursor as they were, wherever the cursor is |
| `IoLib.WritesCompose` | iolib.py:86-88 | two consecutive writes leave the same stream as one write of their concatenation |
| `IoLib.SpliceCompose` | iolib.py:86-88 | two non-empty writes side by side produce the same contents as one write of their concatenation |
| `IoLib.RewriteIdempotent` | iolib.py:86-88 | writing the same bytes again at the same offset changes nothing further |
| `IoLib.OpenWriteSeekBack` | iolib.py:86-101 | after open, write and `seek(0)`, the file holds exactly the written bytes and the cursor is 0 |
| `IoLib.SkipThenByte` | iolib.py:30-33 | `skip(4)` then `write_byte` leaves the cursor 5 past where it was |
| `IoLib.ClosedRefuses` | iolib.py:95-101 | after `close`, every write and every seek with a valid origin fails with the closed-file error and changes nothing |
| `IoLib.BinaryStreamWriter.constructor` | iolib.py:24-28 | stores the path and the byte order chosen by the flag, and opens nothing |
| `IoLib.BinaryStreamWriter.Write` | iolib.py:86-88 | performs `StreamWrite` on the writer's state |
| `IoLib.BinaryStreamWriter.WriteText` | iolib.py:70-84 | performs `StreamWriteText`: looks up the handle, then uses the encoding |
| `IoLib.BinaryStreamWriter.WriteByte` | iolib.py:30-33 | packs with `b` and the writer's byte order, then writes |
| `IoLib.BinaryStreamWriter.WriteUByte` | iolib.py:35-38 | packs with `B`, then writes |
| `IoLib.BinaryStreamWriter.WriteShort` | iolib.py:40-43 | packs with `h`, then writes |
| `IoLib.BinaryStreamWriter.WriteUShort` | iolib.py:45-48 | packs with `H`, then writes |
| `IoLib.BinaryStreamWriter.WriteInt` | iolib.py:50-53 | packs with `i`, then writes |
| `IoLib.BinaryStreamWriter.WriteUInt` | iolib.py:55-58 | packs with `I`, then writes |
| `IoLib.BinaryStreamWriter.WriteLong` | iolib.py:60-63 | packs with `l` (4 bytes), then writes |
| `IoLib.BinaryStreamWriter.WriteULong` | iolib.py:65-68 | packs with `L` (4 bytes), then writes |
| `IoLib.BinaryStreamWriter.WriteAsciiString` | iolib.py:70-72 | checks the handle, then ASCII-encodes and writes; an encoding failure changes nothing |
| `IoLib.BinaryStreamWriter.WriteAsciiNtString` | iolib.py:74-76 | checks the handle, then ASCII-encodes, appends 0x00 and writes; an encoding failure changes nothing |
| `IoLib.BinaryStreamWriter.WriteUtf8String` | iolib.py:78-80 | checks the handle, then writes the UTF-8 encoding |
| `IoLib.BinaryStreamWriter.WriteUtf8NtString` | iolib.py:82-84 | checks the handle, then writes the UTF-8 encoding followed by 0x00 |
| `IoLib.BinaryStreamWriter.Open` | iolib.py:90-93 | truncates the file, puts the cursor at 0, and returns the writer itself |
| `IoLib.BinaryStreamWriter.Close` | iolib.py:95-97 | performs `StreamClose` on the writer's state |
| `IoLib.BinaryStreamWriter.Seek` | iolib.py:99-101 | performs `StreamSeek`; the origin defaults to `SEEK_BEGINNING` |
| `IoLib.BinaryStreamWriter.Skip` | iolib.py:103-105 | is exactly `seek(count, SEEK_CURRENT)` |
| `IoLib.BinaryStreamWriter.Enter` | iolib.py:107-108 | opens the writer and returns it |
| `IoLib.BinaryStreamWriter.Exit` | iolib.py:110-111 | closes the writer |

## Left out

- The operating-system file is not modelled. Path resolution, `open(path, "wb")`
  failures, flushing and close failures are left out, so the model's writes, seeks
  and opens never fail with an `OSError` from the device. The path is stored and
  never used.
- Splice: bytes in a gap left by seeking past the end and then writing are modelled
  as zeros. That is what POSIX files do, but the writer does not decide it.
- IoLib.StreamSeek: only the three origins of `iolib.py` are accepted. The
  platform-specific `SEEK_HOLE`/`SEEK_DATA` values that CPython also passes
  through are treated as invalid. Offsets too large for the platform's `off_t`
  (`OverflowError`) are not modelled.
- Calling `open()` on a writer that is already open drops the previous file object
  without closing it. Its buffered bytes may later be flushed into the same path
  by the garbage collector. The model only records the fresh, truncated file.
- Exception safety of `__enter__`/`__exit__` is left out. So are the exception
  arguments `__exit__` receives and ignores. `Enter`/`Exit` only delegate to
  `Open`/`Close`.
- Python's dynamic typing is left out: a non-integer passed to a numeric writer,
  a non-`str` to a string writer, or a bytes-like object other than `bytes`. Dafny's
  types rule these out.
- Python strings may hold lone surrogates, which the UTF-8 codec refuses. Dafny
  strings hold only Unicode scalar values, so `write_utf8_string` cannot fail in
  the model. The position carried by `UnicodeEncodeError` is not modelled.
- The `ctypes` imports are only type annotations and are never called.
- `Decode`, `Utf8Decode` and `DecodeFirst` are not part of `iolib.py`. They are the
  reader's side, written to state the round trips.
