/**
 * The fixed-width integer encodings behind the numeric writers of iolib.py.
 *
 * Every numeric writer packs its argument with `struct.pack` and an explicit
 * byte-order prefix ('<' or '>'). An explicit prefix selects the standard
 * sizes of the struct module, so the widths do not depend on the platform:
 * 'b'/'B' are 1 byte, 'h'/'H' 2 bytes, 'i'/'I' and 'l'/'L' 4 bytes. Signed
 * values are written in two's complement; a value outside the range of its
 * format is refused with struct.error.
 */
module IntCodec {
  import opened Outcome

  /** One octet of the sink. */
  newtype byte = b: int | 0 <= b < 256

  /** The endianness constants of iolib.py. */
  const LITTLE_ENDIAN: int := 0
  const BIG_ENDIAN: int := 1

  datatype Endian = Little | Big

  /** The writer's constructor maps its flag to a struct prefix: LITTLE_ENDIAN
      gives '<' (least significant byte first), every other value gives '>'. */
  function EndianOf(flag: int): (e: Endian)
    ensures e == Little <==> flag == LITTLE_ENDIAN
    ensures flag == BIG_ENDIAN ==> e == Big
  {
    if flag == LITTLE_ENDIAN then Little else Big
  }

  /** The eight struct format characters the writer uses. */
  datatype Format = Byte | UByte | Short | UShort | Int | UInt | Long | ULong
  {
    /** The struct format character each writer passes to pack. */
    function Code(): (c: char)
      ensures c in "bBhHiIlL"
    {
      match this
      case Byte => 'b'
      case UByte => 'B'
      case Short => 'h'
      case UShort => 'H'
      case Int => 'i'
      case UInt => 'I'
      case Long => 'l'
      case ULong => 'L'
    }

    /** Standard size of the format under an explicit byte-order prefix. */
    function Width(): (w: nat)
      ensures w == 1 || w == 2 || w == 4
    {
      match this
      case Byte | UByte => 1
      case Short | UShort => 2
      case Int | UInt | Long | ULong => 4
    }

    /** In struct's notation a lower-case code is signed, an upper-case one unsigned. */
    predicate Signed()
      ensures Signed() <==> 'a' <= Code() <= 'z'
    {
      this == Byte || this == Short || this == Int || this == Long
    }
  }

  function Pow256(n: nat): (r: nat)
    ensures r > 0
    ensures n > 0 ==> r % 2 == 0
  {
    if n == 0 then 1 else 256 * Pow256(n - 1)
  }

  /** The values struct.pack accepts for a format of this width and signedness:
      the signed range is the unsigned one shifted down by half of it. */
  predicate InRange(v: int, width: nat, signed: bool)
    ensures signed && width > 0 ==>
              (InRange(v, width, signed) <==> 0 <= v + Pow256(width) / 2 < Pow256(width))
    ensures InRange(v, width, signed) ==> -v < Pow256(width) && v < Pow256(width)
  {
    if signed then -(Pow256(width) / 2) <= v < Pow256(width) / 2
    else 0 <= v < Pow256(width)
  }

  /** The bit pattern of v as an unsigned number: two's complement for negative values. */
  function Unsigned(v: int, width: nat, signed: bool): (u: nat)
    requires InRange(v, width, signed)
    ensures u < Pow256(width)
    ensures u == v || u == v + Pow256(width)
    ensures signed && width > 0 ==> (v < 0 <==> u >= Pow256(width) / 2)
  {
    if v < 0 then v + Pow256(width) else v
  }

  /** The width low-order base-256 digits of u, least significant first. */
  function LittleDigits(u: nat, width: nat): (r: seq<byte>)
    ensures |r| == width
  {
    if width == 0 then [] else [(u % 256) as byte] + LittleDigits(u / 256, width - 1)
  }

  /** The width low-order base-256 digits of u, most significant first. */
  function BigDigits(u: nat, width: nat): (r: seq<byte>)
    ensures |r| == width
  {
    if width == 0 then [] else BigDigits(u / 256, width - 1) + [(u % 256) as byte]
  }

  /** The number whose base-256 digits, least significant first, are b. */
  function FromLittle(b: seq<byte>): (u: nat)
    ensures u < Pow256(|b|)
  {
    if b == [] then 0 else b[0] as int + 256 * FromLittle(b[1..])
  }

  /** The number whose base-256 digits, most significant first, are b. */
  function FromBig(b: seq<byte>): (u: nat)
    ensures u < Pow256(|b|)
  {
    if b == [] then 0 else 256 * FromBig(b[..|b| - 1]) + b[|b| - 1] as int
  }

  function Reverse(s: seq<byte>): (r: seq<byte>)
    ensures |r| == |s|
  {
    if s == [] then [] else Reverse(s[1..]) + [s[0]]
  }

  /** The bytes struct.pack produces for an in-range value. */
  function Encode(v: int, width: nat, signed: bool, endian: Endian): (r: seq<byte>)
    requires InRange(v, width, signed)
    ensures |r| == width
  {
    var u := Unsigned(v, width, signed);
    match endian
    case Little => LittleDigits(u, width)
    case Big => BigDigits(u, width)
  }

  /** The value an independent reader recovers from b with the same
      signedness and byte order (struct.unpack of a format of width |b|). */
  function Decode(b: seq<byte>, signed: bool, endian: Endian): (v: int)
    requires |b| > 0
    ensures InRange(v, |b|, signed)
  {
    var u := match endian case Little => FromLittle(b) case Big => FromBig(b);
    if signed && u >= Pow256(|b|) / 2 then u - Pow256(|b|) else u
  }

  /** struct.pack with an explicit byte-order prefix and a one-integer format. */
  function Pack(fmt: Format, endian: Endian, v: int): (r: Result<seq<byte>>)
    ensures r.Ok? <==> InRange(v, fmt.Width(), fmt.Signed())
    ensures r.Err? ==> r.error == PackError
    ensures r.Ok? ==> |r.value| == fmt.Width() && Decode(r.value, fmt.Signed(), endian) == v
  {
    if InRange(v, fmt.Width(), fmt.Signed()) then
      EncodeDecode(v, fmt.Width(), fmt.Signed(), endian);
      Ok(Encode(v, fmt.Width(), fmt.Signed(), endian))
    else
      Err(PackError)
  }

  lemma {:induction false} LittleRoundTrip(u: nat, width: nat)
    requires u < Pow256(width)
    ensures FromLittle(LittleDigits(u, width)) == u
  {
    if width > 0 {
      LittleRoundTrip(u / 256, width - 1);
      assert LittleDigits(u, width)[1..] == LittleDigits(u / 256, width - 1);
    }
  }

  lemma {:induction false} BigRoundTrip(u: nat, width: nat)
    requires u < Pow256(width)
    ensures FromBig(BigDigits(u, width)) == u
  {
    if width > 0 {
      BigRoundTrip(u / 256, width - 1);
      var d := BigDigits(u, width);
      assert d[..width - 1] == BigDigits(u / 256, width - 1);
    }
  }

  lemma {:induction false} LittleDigitsOf(b: seq<byte>)
    ensures LittleDigits(FromLittle(b), |b|) == b
  {
    if b != [] {
      LittleDigitsOf(b[1..]);
      var u := FromLittle(b);
      assert u % 256 == b[0] as int && u / 256 == FromLittle(b[1..]);
      assert b == [b[0]] + b[1..];
    }
  }

  lemma {:induction false} BigDigitsOf(b: seq<byte>)
    ensures BigDigits(FromBig(b), |b|) == b
  {
    if b != [] {
      var n := |b| - 1;
      BigDigitsOf(b[..n]);
      var u := FromBig(b);
      assert u % 256 == b[n] as int && u / 256 == FromBig(b[..n]);
      assert b == b[..n] + [b[n]];
    }
  }

  /** For every width, the big-endian digits are the little-endian ones reversed. */
  lemma {:induction false} BigIsReversedLittle(u: nat, width: nat)
    ensures BigDigits(u, width) == Reverse(LittleDigits(u, width))
  {
    if width > 0 {
      BigIsReversedLittle(u / 256, width - 1);
      var l := LittleDigits(u, width);
      assert l[1..] == LittleDigits(u / 256, width - 1);
    }
  }

  /** Round trip: decoding the packed bytes gives back the value, for both byte orders. */
  lemma EncodeDecode(v: int, width: nat, signed: bool, endian: Endian)
    requires width > 0 && InRange(v, width, signed)
    ensures Decode(Encode(v, width, signed, endian), signed, endian) == v
  {
    var u := Unsigned(v, width, signed);
    match endian {
      case Little => LittleRoundTrip(u, width);
      case Big => BigRoundTrip(u, width);
    }
  }

  /** The converse round trip: every byte string of the width is the encoding of
      the value it decodes to, so the encoding is onto and Decode is its inverse. */
  lemma DecodeEncode(b: seq<byte>, signed: bool, endian: Endian)
    requires |b| > 0
    ensures Encode(Decode(b, signed, endian), |b|, signed, endian) == b
  {
    match endian {
      case Little => LittleDigitsOf(b);
      case Big => BigDigitsOf(b);
    }
  }

  /** Packing in big-endian order gives the little-endian bytes reversed. */
  lemma PackBigIsReversedLittle(fmt: Format, v: int)
    ensures Pack(fmt, Big, v).Ok? == Pack(fmt, Little, v).Ok?
    ensures Pack(fmt, Big, v).Ok? ==> Pack(fmt, Big, v).value == Reverse(Pack(fmt, Little, v).value)
  {
    if InRange(v, fmt.Width(), fmt.Signed()) {
      BigIsReversedLittle(Unsigned(v, fmt.Width(), fmt.Signed()), fmt.Width());
    }
  }

  /** For the one-byte formats the byte order makes no difference. */
  lemma SingleByteIgnoresEndian(fmt: Format, v: int)
    requires fmt.Width() == 1
    ensures Pack(fmt, Little, v) == Pack(fmt, Big, v)
  {
    PackBigIsReversedLittle(fmt, v);
    if Pack(fmt, Little, v).Ok? {
      var l := Pack(fmt, Little, v).value;
      assert |l| == 1 && l[1..] == [];
      assert Reverse(l) == Reverse(l[1..]) + [l[0]] == l;
    }
  }

  /** Distinct in-range values of a format never share an encoding. */
  lemma PackInjective(fmt: Format, endian: Endian, v: int, w: int)
    requires Pack(fmt, endian, v).Ok? && Pack(fmt, endian, w).Ok?
    requires Pack(fmt, endian, v).value == Pack(fmt, endian, w).value
    ensures v == w
  {
  }

  /** The standard sizes and ranges of the eight formats, in plain numbers. */
  lemma StandardRanges(v: int)
    ensures InRange(v, Byte.Width(), Byte.Signed()) <==> -0x80 <= v <= 0x7F
    ensures InRange(v, UByte.Width(), UByte.Signed()) <==> 0 <= v <= 0xFF
    ensures InRange(v, Short.Width(), Short.Signed()) <==> -0x8000 <= v <= 0x7FFF
    ensures InRange(v, UShort.Width(), UShort.Signed()) <==> 0 <= v <= 0xFFFF
    ensures InRange(v, Int.Width(), Int.Signed()) <==> -0x8000_0000 <= v <= 0x7FFF_FFFF
    ensures InRange(v, UInt.Width(), UInt.Signed()) <==> 0 <= v <= 0xFFFF_FFFF
    ensures InRange(v, Long.Width(), Long.Signed()) <==> -0x8000_0000 <= v <= 0x7FFF_FFFF
    ensures InRange(v, ULong.Width(), ULong.Signed()) <==> 0 <= v <= 0xFFFF_FFFF
  {
    assert Pow256(1) == 0x100;
    assert Pow256(2) == 0x1_0000;
    assert Pow256(4) == 0x1_0000_0000 by {
      assert Pow256(3) == 0x100_0000;
    }
  }

  /** The range boundaries of the signed byte format. */
  lemma ByteBounds(endian: Endian)
    ensures Pack(Byte, endian, -128) == Ok([128])
    ensures Pack(Byte, endian, 127) == Ok([127])
    ensures Pack(Byte, endian, 128) == Err(PackError)
    ensures Pack(Byte, endian, -129) == Err(PackError)
  {
    assert Pow256(1) == 256;
    assert LittleDigits(128, 1) == [128] && BigDigits(128, 1) == [128];
    assert LittleDigits(127, 1) == [127] && BigDigits(127, 1) == [127];
  }

  /** 0x1234 as an unsigned short in each byte order. */
  lemma UShortExample()
    ensures Pack(UShort, Little, 0x1234) == Ok([0x34, 0x12])
    ensures Pack(UShort, Big, 0x1234) == Ok([0x12, 0x34])
  {
    assert Pow256(2) == 0x1_0000;
    assert LittleDigits(0x12, 1) == [0x12];
    assert LittleDigits(0x1234, 2) == [0x34, 0x12];
    assert BigDigits(0x12, 1) == [0x12];
    assert BigDigits(0x1234, 2) == [0x12, 0x34];
  }
}
