/**
 * BinaryStreamWriter of iolib.py: a writer that owns at most one file
 * handle, encodes numbers and text with a byte order fixed at construction,
 * and writes them at the handle's cursor.
 *
 * The handle is modelled by the three situations the code can be in:
 * the handle attribute is still None (Unopened), it holds an open binary
 * file (Opened), or it holds a file whose close() has been called (Closed).
 * The file is a byte sequence with a cursor. The pure functions below are
 * the specification of every step; the class's methods are proved to
 * perform exactly those steps.
 */
module IoLib {
  import opened Outcome
  import opened IntCodec
  import opened TextCodec

  /** The seek-origin constants of iolib.py. */
  const SEEK_BEGINNING: int := 0
  const SEEK_CURRENT: int := 1
  const SEEK_END: int := 2

  datatype Phase = Unopened | Opened | Closed

  /** The writer's handle: its phase, the file's bytes and the cursor. */
  datatype Stream = Stream(phase: Phase, data: seq<byte>, pos: nat)

  function Max(a: int, b: int): int
  {
    if a < b then b else a
  }

  /** after is before with b written at offset at. An empty write changes
      nothing, even past the end. Otherwise b sits at [at, at + |b|), the file
      grows to cover it, every other old byte is kept, and the gap between
      the old end and at (if any) reads as zero. */
  predicate Overwritten(before: seq<byte>, at: nat, b: seq<byte>, after: seq<byte>)
  {
    && |after| == (if b == [] then |before| else Max(|before|, at + |b|))
    && (b != [] ==> after[at..at + |b|] == b)
    && (forall i :: 0 <= i < |before| && !(at <= i < at + |b|) ==> after[i] == before[i])
    && (b != [] ==> forall i :: |before| <= i < at ==> after[i] == 0)
  }

  function Zeros(n: nat): (r: seq<byte>)
    ensures |r| == n && forall i :: 0 <= i < n ==> r[i] == 0
  {
    seq(n, _ => 0)
  }

  /** The file contents after writing b at offset at. */
  function Splice(before: seq<byte>, at: nat, b: seq<byte>): (after: seq<byte>)
    ensures Overwritten(before, at, b, after)
  {
    if b == [] then before
    else if at <= |before| then
      before[..at] + b + (if at + |b| < |before| then before[at + |b|..] else [])
    else
      before + Zeros(at - |before|) + b
  }

  /** Overwritten pins the new contents down completely. */
  lemma OverwrittenUnique(before: seq<byte>, at: nat, b: seq<byte>, x: seq<byte>, y: seq<byte>)
    requires Overwritten(before, at, b, x) && Overwritten(before, at, b, y)
    ensures x == y
  {
  }

  /** file.write(b) on the handle: fails when there is no handle or the file
      is closed; otherwise writes b at the cursor, advances the cursor past it
      and returns len(b). */
  function StreamWrite(s: Stream, b: seq<byte>): (r: (Result<nat>, Stream))
    ensures r.1.phase == s.phase
    ensures r.0.Ok? <==> s.phase == Opened
    ensures s.phase == Unopened ==> r == (Err(NoStream), s)
    ensures s.phase == Closed ==> r == (Err(ClosedFile), s)
    ensures r.0.Ok? ==> r.0.value == |b| && r.1.pos == s.pos + |b|
                        && Overwritten(s.data, s.pos, b, r.1.data)
  {
    match s.phase
    case Unopened => (Err(NoStream), s)
    case Closed => (Err(ClosedFile), s)
    case Opened => (Ok(|b|), s.(data := Splice(s.data, s.pos, b), pos := s.pos + |b|))
  }

  /** The shape of every numeric writer: `pack` runs as a statement of its
      own, and only when it succeeds are the bytes handed to file.write. A
      range failure is reported before the handle is touched. */
  function StreamWriteEncoded(s: Stream, encoded: Result<seq<byte>>): (r: (Result<nat>, Stream))
    ensures encoded.Err? ==> r == (Err(encoded.error), s)
    ensures encoded.Ok? ==> r == StreamWrite(s, encoded.value)
  {
    match encoded
    case Err(e) => (Err(e), s)
    case Ok(b) => StreamWrite(s, b)
  }

  /** The shape of the string writers, `self.__fp.write(s.encode(...))`:
      Python looks up `self.__fp.write` before it evaluates the argument, so
      a writer that was never opened fails before encoding; on an open or
      closed file, an encoding failure comes before file.write runs. */
  function StreamWriteText(s: Stream, encoded: Result<seq<byte>>): (r: (Result<nat>, Stream))
    ensures s.phase == Unopened ==> r == (Err(NoStream), s)
    ensures s.phase != Unopened && encoded.Err? ==> r == (Err(encoded.error), s)
    ensures s.phase != Unopened && encoded.Ok? ==> r == StreamWrite(s, encoded.value)
  {
    if s.phase == Unopened then (Err(NoStream), s) else StreamWriteEncoded(s, encoded)
  }

  predicate IsWhence(whence: int)
  {
    whence == SEEK_BEGINNING || whence == SEEK_CURRENT || whence == SEEK_END
  }

  /** The position a seek offset is measured from. */
  function Origin(s: Stream, whence: int): nat
  {
    if whence == SEEK_BEGINNING then 0
    else if whence == SEEK_CURRENT then s.pos
    else |s.data|
  }

  /** file.seek(offset, whence) on the handle. The whence check comes before
      the closed check, as in the buffered binary file; a target before the
      start of the file is refused by the operating system. */
  function StreamSeek(s: Stream, offset: int, whence: int): (r: (Result<nat>, Stream))
    ensures r.1.phase == s.phase && r.1.data == s.data
    ensures r.0.Err? ==> r.1 == s
    ensures r.0.Ok? ==> r.1.pos == r.0.value
    ensures s.phase == Unopened ==> r.0 == Err(NoStream)
    ensures s.phase != Unopened && !IsWhence(whence) ==>
              r.0 == Err(InvalidWhence)
    ensures r.0.Ok? <==> s.phase == Opened && IsWhence(whence) && 0 <= Origin(s, whence) + offset
    ensures s.phase == Opened && whence == SEEK_BEGINNING && 0 <= offset ==> r.0 == Ok(offset)
    ensures s.phase == Opened && whence == SEEK_CURRENT && 0 <= s.pos + offset ==> r.0 == Ok(s.pos + offset)
    ensures s.phase == Opened && whence == SEEK_END && 0 <= |s.data| + offset ==> r.0 == Ok(|s.data| + offset)
  {
    if s.phase == Unopened then (Err(NoStream), s)
    else if !IsWhence(whence) then (Err(InvalidWhence), s)
    else if s.phase == Closed then (Err(ClosedFile), s)
    else
      var target := Origin(s, whence) + offset;
      if target < 0 then (Err(NegativePosition), s)
      else assert s.phase == Opened; (Ok(target), s.(pos := target))
  }

  /** open(path, "wb"): a fresh handle on a truncated file, cursor at 0. */
  function StreamOpen(s: Stream): (r: Stream)
    ensures r.phase == Opened && r.data == [] && r.pos == 0
  {
    Stream(Opened, [], 0)
  }

  /** file.close() on the handle: fails when there is none; closing an already
      closed file does nothing. The bytes written stay in the file. */
  function StreamClose(s: Stream): (r: (Result<()>, Stream))
    ensures s.phase == Unopened ==> r == (Err(NoStream), s)
    ensures s.phase != Unopened ==> r == (Ok(()), s.(phase := Closed))
  {
    if s.phase == Unopened then (Err(NoStream), s) else (Ok(()), s.(phase := Closed))
  }

  /** Each numeric write on an open stream emits exactly its format's width,
      returns that width, and leaves at the old cursor bytes that decode to the
      value written; nothing else in the file changes. */
  lemma NumberWrite(s: Stream, endian: Endian, fmt: Format, n: int)
    requires s.phase == Opened && InRange(n, fmt.Width(), fmt.Signed())
    ensures var (r, t) := StreamWriteEncoded(s, Pack(fmt, endian, n));
      && r == Ok(fmt.Width())
      && t.pos == s.pos + fmt.Width()
      && Decode(t.data[s.pos..t.pos], fmt.Signed(), endian) == n
      && |t.data| == Max(|s.data|, t.pos)
      && (forall i :: 0 <= i < |s.data| && !(s.pos <= i < t.pos) ==> t.data[i] == s.data[i])
  {
  }

  /** A value outside its format's range is refused by struct.pack before the
      handle is used: the write fails and no byte reaches the file, whatever
      the phase. */
  lemma NumberOutOfRange(s: Stream, endian: Endian, fmt: Format, n: int)
    requires !InRange(n, fmt.Width(), fmt.Signed())
    ensures StreamWriteEncoded(s, Pack(fmt, endian, n)) == (Err(PackError), s)
  {
  }

  /** On a writer that was never opened the ASCII writer fails with the
      missing-handle error whatever the text. Otherwise it fails, leaving the
      stream as it was, exactly when some code point is above 127; on an open
      file ASCII text is written one byte per character and len(s) returned. */
  lemma AsciiWrite(st: Stream, s: string)
    ensures var (r, t) := StreamWriteText(st, AsciiEncode(s));
      && (st.phase == Unopened ==> r == Err(NoStream) && t == st)
      && (st.phase != Unopened ==> (!IsAscii(s) <==> r == Err(EncodingError)))
      && (!IsAscii(s) ==> t == st)
      && (IsAscii(s) && st.phase == Opened ==>
            r == Ok(|s|) && t.pos == st.pos + |s|
            && forall i :: 0 <= i < |s| ==> t.data[st.pos + i] as int == s[i] as int)
  {
  }

  /** The nul-terminated writers emit the payload and then exactly one 0x00,
      and return the payload length plus one. */
  lemma TerminatedWrite(st: Stream, payload: seq<byte>)
    requires st.phase == Opened
    ensures var (r, t) := StreamWriteText(st, NulTerminated(Ok(payload)));
      && r == Ok(|payload| + 1)
      && t.pos == st.pos + |payload| + 1
      && t.data[st.pos..st.pos + |payload|] == payload
      && t.data[st.pos + |payload|] == 0
  {
  }

  /** On pure-ASCII text the UTF-8 writers do exactly what the ASCII writers do,
      with and without the terminator. */
  lemma Utf8WriteMatchesAscii(st: Stream, s: string)
    requires IsAscii(s)
    ensures StreamWriteText(st, Ok(Utf8Encode(s))) == StreamWriteText(st, AsciiEncode(s))
    ensures StreamWriteText(st, NulTerminated(Ok(Utf8Encode(s))))
         == StreamWriteText(st, NulTerminated(AsciiEncode(s)))
  {
    Utf8AgreesWithAscii(s);
  }

  /** Writing no bytes changes nothing and returns 0, wherever the cursor is. */
  /** Writing no bytes changes nothing, even with the cursor past the end:
      a file grows only when bytes land past its end. */
  lemma EmptyWrite(s: Stream)
    requires s.phase == Opened
    ensures StreamWrite(s, []) == (Ok(0), s)
  {
  }

  /** Two writes in a row leave the same stream as one write of the
      concatenation: consecutive writes lay their bytes side by side. */
  lemma WritesCompose(s: Stream, a: seq<byte>, b: seq<byte>)
    requires s.phase == Opened
    ensures StreamWrite(StreamWrite(s, a).1, b).1 == StreamWrite(s, a + b).1
  {
    if a == [] {
      assert a + b == b;
    } else if b == [] {
      assert a + b == a;
    } else {
      SpliceCompose(s.data, s.pos, a, b);
    }
  }

  lemma SpliceCompose(d: seq<byte>, p: nat, a: seq<byte>, b: seq<byte>)
    requires a != [] && b != []
    ensures Splice(Splice(d, p, a), p + |a|, b) == Splice(d, p, a + b)
  {
    var t := Splice(d, p, a);
    var u := Splice(t, p + |a|, b);
    forall i | 0 <= i < |a| + |b| ensures u[p + i] == (a + b)[i] {
      if i < |a| {
        assert u[p + i] == t[p + i] == t[p..p + |a|][i];
      } else {
        assert u[p + i] == u[p + |a|..p + |a| + |b|][i - |a|];
      }
    }
    assert u[p..p + |a + b|] == a + b;
    forall i | 0 <= i < |d| && !(p <= i < p + |a + b|) ensures u[i] == d[i] {
      assert u[i] == t[i];
    }
    forall i | |d| <= i < p ensures u[i] == 0 {
      assert u[i] == t[i];
    }
    OverwrittenUnique(d, p, a + b, u, Splice(d, p, a + b));
  }

  /** Writing the same bytes twice at the same place changes nothing more. */
  lemma RewriteIdempotent(s: Stream, b: seq<byte>)
    requires s.phase == Opened
    ensures StreamWrite(StreamWrite(s, b).1.(pos := s.pos), b).1 == StreamWrite(s, b).1
  {
  }

  /** After open, writing b and seeking back to the start leaves exactly b in
      the file with the cursor at 0: seek repositions rather than appends. */
  lemma OpenWriteSeekBack(s: Stream, b: seq<byte>)
    ensures var t := StreamWrite(StreamOpen(s), b).1;
      StreamSeek(t, 0, SEEK_BEGINNING) == (Ok(0), Stream(Opened, b, 0))
  {
    var t := StreamWrite(StreamOpen(s), b).1;
    assert t.data == t.data[0..|b|];
  }

  /** skip(4) followed by write_byte leaves the cursor 5 bytes past where it was. */
  lemma SkipThenByte(s: Stream, endian: Endian, n: int)
    requires s.phase == Opened && -128 <= n < 128
    ensures var t := StreamSeek(s, 4, SEEK_CURRENT);
      && t.0 == Ok(s.pos + 4)
      && StreamWriteEncoded(t.1, Pack(Byte, endian, n)).1.pos == s.pos + 5
  {
  }

  /** Once closed, a stream refuses every write and every seek with a valid
      origin, and stays as it is. */
  lemma ClosedRefuses(s: Stream, b: seq<byte>, offset: int, whence: int)
    requires s.phase != Unopened
    requires IsWhence(whence)
    ensures var c := StreamClose(s).1;
      && StreamWrite(c, b) == (Err(ClosedFile), c)
      && StreamSeek(c, offset, whence) == (Err(ClosedFile), c)
  {
  }

  /** The writer. The path is kept but never resolved; the byte order is fixed
      when the writer is built. */
  class BinaryStreamWriter {
    const outputPath: string
    const endian: Endian
    var phase: Phase
    var data: seq<byte>
    var pos: nat

    function State(): Stream
      reads this
    {
      Stream(phase, data, pos)
    }

    /** Stores the path and the byte order; does not open anything. */
    constructor (outputPath: string, endianFlag: int := LITTLE_ENDIAN)
      ensures this.outputPath == outputPath && endian == EndianOf(endianFlag)
      ensures State() == Stream(Unopened, [], 0)
    {
      this.outputPath := outputPath;
      endian := EndianOf(endianFlag);
      phase, data, pos := Unopened, [], 0;
    }

    /** Raw write of b at the cursor. */
    method Write(b: seq<byte>) returns (r: Result<nat>)
      modifies this
      ensures (r, State()) == StreamWrite(old(State()), b)
    {
      if phase == Unopened {
        return Err(NoStream);
      }
      if phase == Closed {
        return Err(ClosedFile);
      }
      data := Splice(data, pos, b);
      pos := pos + |b|;
      r := Ok(|b|);
    }

    method WriteEncoded(encoded: Result<seq<byte>>) returns (r: Result<nat>)
      modifies this
      ensures (r, State()) == StreamWriteEncoded(old(State()), encoded)
    {
      if encoded.Err? {
        return Err(encoded.error);
      }
      r := Write(encoded.value);
    }

    /** The handle is looked up before the text is encoded. */
    method WriteText(encoded: Result<seq<byte>>) returns (r: Result<nat>)
      modifies this
      ensures (r, State()) == StreamWriteText(old(State()), encoded)
    {
      if phase == Unopened {
        return Err(NoStream);
      }
      r := WriteEncoded(encoded);
    }

    method WriteByte(n: int) returns (r: Result<nat>)
      modifies this
      ensures (r, State()) == StreamWriteEncoded(old(State()), Pack(Byte, endian, n))
    {
      r := WriteEncoded(Pack(Byte, endian, n));
    }

    method WriteUByte(n: int) returns (r: Result<nat>)
      modifies this
      ensures (r, State()) == StreamWriteEncoded(old(State()), Pack(UByte, endian, n))
    {
      r := WriteEncoded(Pack(UByte, endian, n));
    }

    method WriteShort(n: int) returns (r: Result<nat>)
      modifies this
      ensures (r, State()) == StreamWriteEncoded(old(State()), Pack(Short, endian, n))
    {
      r := WriteEncoded(Pack(Short, endian, n));
    }

    method WriteUShort(n: int) returns (r: Result<nat>)
      modifies this
      ensures (r, State()) == StreamWriteEncoded(old(State()), Pack(UShort, endian, n))
    {
      r := WriteEncoded(Pack(UShort, endian, n));
    }

    method WriteInt(n: int) returns (r: Result<nat>)
      modifies this
      ensures (r, State()) == StreamWriteEncoded(old(State()), Pack(Int, endian, n))
    {
      r := WriteEncoded(Pack(Int, endian, n));
    }

    method WriteUInt(n: int) returns (r: Result<nat>)
      modifies this
      ensures (r, State()) == StreamWriteEncoded(old(State()), Pack(UInt, endian, n))
    {
      r := WriteEncoded(Pack(UInt, endian, n));
    }

    method WriteLong(n: int) returns (r: Result<nat>)
      modifies this
      ensures (r, State()) == StreamWriteEncoded(old(State()), Pack(Long, endian, n))
    {
      r := WriteEncoded(Pack(Long, endian, n));
    }

    method WriteULong(n: int) returns (r: Result<nat>)
      modifies this
      ensures (r, State()) == StreamWriteEncoded(old(State()), Pack(ULong, endian, n))
    {
      r := WriteEncoded(Pack(ULong, endian, n));
    }

    method WriteAsciiString(s: string) returns (r: Result<nat>)
      modifies this
      ensures (r, State()) == StreamWriteText(old(State()), AsciiEncode(s))
    {
      r := WriteText(AsciiEncode(s));
    }

    method WriteAsciiNtString(s: string) returns (r: Result<nat>)
      modifies this
      ensures (r, State()) == StreamWriteText(old(State()), NulTerminated(AsciiEncode(s)))
    {
      r := WriteText(NulTerminated(AsciiEncode(s)));
    }

    method WriteUtf8String(s: string) returns (r: Result<nat>)
      modifies this
      ensures (r, State()) == StreamWriteText(old(State()), Ok(Utf8Encode(s)))
    {
      r := WriteText(Ok(Utf8Encode(s)));
    }

    method WriteUtf8NtString(s: string) returns (r: Result<nat>)
      modifies this
      ensures (r, State()) == StreamWriteText(old(State()), NulTerminated(Ok(Utf8Encode(s))))
    {
      r := WriteText(NulTerminated(Ok(Utf8Encode(s))));
    }

    /** Opens (creating or truncating) the target and returns the writer itself. */
    method Open() returns (self: BinaryStreamWriter)
      modifies this
      ensures self == this && State() == StreamOpen(old(State()))
    {
      phase, data, pos := Opened, [], 0;
      self := this;
    }

    method Close() returns (r: Result<()>)
      modifies this
      ensures (r, State()) == StreamClose(old(State()))
    {
      if phase == Unopened {
        return Err(NoStream);
      }
      phase := Closed;
      r := Ok(());
    }

    method Seek(offset: int, whence: int := SEEK_BEGINNING) returns (r: Result<nat>)
      modifies this
      ensures (r, State()) == StreamSeek(old(State()), offset, whence)
    {
      if phase == Unopened {
        return Err(NoStream);
      }
      if whence != SEEK_BEGINNING && whence != SEEK_CURRENT && whence != SEEK_END {
        return Err(InvalidWhence);
      }
      if phase == Closed {
        return Err(ClosedFile);
      }
      var target := offset + if whence == SEEK_BEGINNING then 0
                             else if whence == SEEK_CURRENT then pos
                             else |data|;
      if target < 0 {
        return Err(NegativePosition);
      }
      pos := target;
      r := Ok(target);
    }

    /** skip(count) is seek(count, SEEK_CURRENT). */
    method Skip(count: int) returns (r: Result<nat>)
      modifies this
      ensures (r, State()) == StreamSeek(old(State()), count, SEEK_CURRENT)
    {
      r := Seek(count, SEEK_CURRENT);
    }

    /** Entering a with-block opens the writer. */
    method Enter() returns (self: BinaryStreamWriter)
      modifies this
      ensures self == this && State() == StreamOpen(old(State()))
    {
      self := Open();
    }

    /** Leaving a with-block closes it. */
    method Exit() returns (r: Result<()>)
      modifies this
      ensures (r, State()) == StreamClose(old(State()))
    {
      r := Close();
    }
  }
}
