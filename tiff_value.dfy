/** TIFF 6.0 field values as the EXIF decoder reads them: type sizes, byte
    order, integer and rational decoding, and their printable form. */
module TiffValue {
  import opened Common

  /** "II" (Intel) or "MM" (Motorola) at the start of a TIFF header. */
  datatype ByteOrder = LittleEndian | BigEndian

  // TIFF field types (TIFF 6.0, Section 2, "Types")
  const TYPE_UBYTE := 1
  const TYPE_ASCII := 2
  const TYPE_USHORT := 3
  const TYPE_ULONG := 4
  const TYPE_URAT := 5
  const TYPE_SBYTE := 6
  const TYPE_UNDEFINED := 7
  const TYPE_SSHORT := 8
  const TYPE_SLONG := 9
  const TYPE_SRAT := 10
  const TYPE_FLOAT := 11
  const TYPE_DOUBLE := 12

  /** The value the decoder produces before formatting: an integer, a
      numerator/denominator pair, or uninterpreted bytes. */
  datatype IfdValue = Num(n: int) | Rational(num: int, denom: int) | Raw(data: Bytes)

  /** Reads the byte-order mark; anything other than "II" or "MM" is a format error. */
  function ByteAlign(mark: Bytes): (r: Result<ByteOrder>)
    ensures r == Ok(LittleEndian) <==> mark == Ascii("II")
    ensures r == Ok(BigEndian) <==> mark == Ascii("MM")
    ensures r.Err? ==> r.error == DataFormatError
  {
    assert Ascii("II")[0] != Ascii("MM")[0];
    if mark == Ascii("II") then Ok(LittleEndian)
    else if mark == Ascii("MM") then Ok(BigEndian)
    else Err(DataFormatError)
  }

  /** The integer types, decoded to a number. */
  predicate IsIntegerType(t: int)
  {
    t == TYPE_UBYTE || t == TYPE_SBYTE || t == TYPE_USHORT || t == TYPE_SSHORT || t == TYPE_ULONG || t == TYPE_SLONG
  }

  /** The rational types, decoded to a numerator and a denominator. */
  predicate IsRationalType(t: int)
  {
    t == TYPE_URAT || t == TYPE_SRAT
  }

  /** The size in bytes of one value of a TIFF type; unknown codes are a format error. */
  function TypeSize(t: int): (r: Result<nat>)
    ensures r.Ok? <==> TYPE_UBYTE <= t <= TYPE_DOUBLE
    ensures r.Err? ==> r.error == DataFormatError
  {
    if t == TYPE_UBYTE || t == TYPE_SBYTE || t == TYPE_ASCII || t == TYPE_UNDEFINED then Ok(1)
    else if t == TYPE_USHORT || t == TYPE_SSHORT then Ok(2)
    else if t == TYPE_ULONG || t == TYPE_SLONG || t == TYPE_FLOAT then Ok(4)
    else if t == TYPE_URAT || t == TYPE_SRAT || t == TYPE_DOUBLE then Ok(8)
    else Err(DataFormatError)
  }

  /** The sizes of the twelve TIFF types: bytes, shorts, longs and rationals. */
  lemma TypeSizeValues(t: int)
    ensures TypeSize(t) == Ok(1) <==> (t == TYPE_UBYTE || t == TYPE_ASCII || t == TYPE_SBYTE || t == TYPE_UNDEFINED)
    ensures TypeSize(t) == Ok(2) <==> (t == TYPE_USHORT || t == TYPE_SSHORT)
    ensures TypeSize(t) == Ok(4) <==> (t == TYPE_ULONG || t == TYPE_SLONG || t == TYPE_FLOAT)
    ensures TypeSize(t) == Ok(8) <==> (t == TYPE_URAT || t == TYPE_SRAT || t == TYPE_DOUBLE)
  {
  }

  /** The byte at `i`, or 0 past the end: PHP's ord() of an empty string. */
  function ByteAt(d: Bytes, i: int): (r: byte)
    ensures 0 <= i < |d| ==> r == d[i]
    ensures !(0 <= i < |d|) ==> r == 0
  {
    if 0 <= i < |d| then d[i] else 0
  }

  /** A USHORT at offset `i` of `d`, in the given byte order. */
  function UShort(d: Bytes, i: int, order: ByteOrder): (r: nat)
    ensures r < 65536
  {
    var b0, b1 := ByteAt(d, i) as int, ByteAt(d, i + 1) as int;
    match order
    case LittleEndian => b0 + 256 * b1
    case BigEndian => b1 + 256 * b0
  }

  /** A ULONG at offset `i` of `d`, computed as the source does: the weight of
      the most significant byte is 1677216, not 16777216. */
  function ULong(d: Bytes, i: int, order: ByteOrder): (r: nat)
    ensures r < 4294967296
  {
    var b0, b1, b2, b3 := ByteAt(d, i) as int, ByteAt(d, i + 1) as int, ByteAt(d, i + 2) as int, ByteAt(d, i + 3) as int;
    match order
    case LittleEndian => b0 + 256 * b1 + 65536 * b2 + 1677216 * b3
    case BigEndian => b3 + 256 * b2 + 65536 * b1 + 1677216 * b0
  }

  /** PHP's signed reinterpretation as the source writes it: the modulus is
      subtracted only strictly above half of it, so the half itself stays positive. */
  function Signed(v: int, half: nat): int
  {
    if v > half then v - 2 * half else v
  }

  /** Decodes one field value of type `t` from the start of `d`. Integer types
      read only their first value (zeros past the end of a short `d`); ASCII and
      the raw types keep all the bytes. */
  function DecodeIfdData(d: Bytes, t: int, order: ByteOrder): (r: Result<IfdValue>)
    ensures r.Ok? <==> TYPE_UBYTE <= t <= TYPE_DOUBLE
    ensures r.Ok? && r.value.Rational? ==> IsRationalType(t)
  {
    if t == TYPE_UBYTE then Ok(Num(ByteAt(d, 0)))
    else if t == TYPE_SBYTE then Ok(Num(Signed(ByteAt(d, 0), 128)))
    else if t == TYPE_USHORT then Ok(Num(UShort(d, 0, order)))
    else if t == TYPE_SSHORT then Ok(Num(Signed(UShort(d, 0, order), 32768)))
    else if t == TYPE_ULONG then Ok(Num(ULong(d, 0, order)))
    else if t == TYPE_SLONG then Ok(Num(Signed(ULong(d, 0, order), 2147483648)))
    else if t == TYPE_URAT then Ok(Rational(ULong(d, 0, order), ULong(d, 4, order)))
    else if t == TYPE_SRAT then
      Ok(Rational(Signed(ULong(d, 0, order), 2147483648), Signed(ULong(d, 4, order), 2147483648)))
    else if t == TYPE_ASCII || t == TYPE_UNDEFINED || t == TYPE_FLOAT || t == TYPE_DOUBLE then Ok(Raw(d))
    else Err(DataFormatError)
  }

  /** What each type decodes to: unsigned integers as read, signed ones
      congruent to the unsigned reading and within the signed range (whose upper
      end the source leaves positive), ASCII and the raw types as the bytes. */
  lemma DecodeIfdDataValues(d: Bytes, t: int, order: ByteOrder)
    ensures var r := DecodeIfdData(d, t, order);
            t == TYPE_UBYTE ==> r == Ok(Num(ByteAt(d, 0)))
    ensures var r := DecodeIfdData(d, t, order);
            t == TYPE_SBYTE ==> r.Ok? && r.value.Num? && -128 < r.value.n <= 128
                                && (r.value.n - ByteAt(d, 0)) % 256 == 0
    ensures var r := DecodeIfdData(d, t, order);
            t == TYPE_USHORT ==> r == Ok(Num(UShort(d, 0, order)))
    ensures var r := DecodeIfdData(d, t, order);
            t == TYPE_SSHORT ==> r.Ok? && r.value.Num? && -32768 < r.value.n <= 32768
                                 && (r.value.n - UShort(d, 0, order)) % 65536 == 0
    ensures var r := DecodeIfdData(d, t, order);
            t == TYPE_ULONG ==> r == Ok(Num(ULong(d, 0, order)))
    ensures var r := DecodeIfdData(d, t, order);
            t == TYPE_URAT ==> r == Ok(Rational(ULong(d, 0, order), ULong(d, 4, order)))
    ensures var r := DecodeIfdData(d, t, order);
            t == TYPE_SLONG ==> r.Ok? && r.value.Num? && -2147483648 < r.value.n <= 2147483648
                                && (r.value.n - ULong(d, 0, order)) % 4294967296 == 0
    ensures var r := DecodeIfdData(d, t, order);
            t == TYPE_SRAT ==> r.Ok? && r.value.Rational? &&
                               -2147483648 < r.value.num <= 2147483648 && -2147483648 < r.value.denom <= 2147483648 &&
                               (r.value.num - ULong(d, 0, order)) % 4294967296 == 0 &&
                               (r.value.denom - ULong(d, 4, order)) % 4294967296 == 0
    ensures var r := DecodeIfdData(d, t, order);
            (t == TYPE_ASCII || t == TYPE_UNDEFINED || t == TYPE_FLOAT || t == TYPE_DOUBLE) ==> r == Ok(Raw(d))
  {
  }

  /** Reading a USHORT honours the byte order: the little-endian reading of two
      bytes is the big-endian reading of the same bytes swapped. */
  lemma UShortMirror(b0: byte, b1: byte)
    ensures UShort([b0, b1], 0, LittleEndian) == UShort([b1, b0], 0, BigEndian) == b0 + 256 * b1
    ensures DecodeIfdData([b0, b1], TYPE_USHORT, LittleEndian) == DecodeIfdData([b1, b0], TYPE_USHORT, BigEndian)
  {
  }

  /** Because of the 1677216 weight, two different little-endian ULONG fields
      decode to the same number, and 0x01000000 does not decode to 16777216. */
  lemma ULongCollision()
    ensures ULong([0, 0, 0, 1], 0, LittleEndian) == ULong([160, 151, 25, 0], 0, LittleEndian) == 1677216
    ensures ULong([1, 0, 0, 0], 0, BigEndian) != 16777216
  {
  }

  // ---------------------------------------------------------------------------
  // Printable form (getIFDString and bin2hex).

  /** bin2hex before its final trim(): every byte as two hex digits and a space. */
  function HexDumpSpaced(b: Bytes): (r: string)
    ensures |r| == 3 * |b|
  {
    if b == [] then [] else HexDumpSpaced(b[..|b| - 1]) + ByteHex(b[|b| - 1]) + " "
  }

  /** bin2hex(): the bytes as hex pairs separated by single spaces. */
  function HexDump(b: Bytes): string
  {
    var s := HexDumpSpaced(b);
    if s == [] then s else s[..|s| - 1]
  }

  /** The hex dump has one two-digit group per byte, in order, separated by spaces. */
  lemma {:induction false} HexDumpGroups(b: Bytes, i: nat)
    requires i < |b|
    ensures |HexDump(b)| == 3 * |b| - 1
    ensures HexDump(b)[3 * i..3 * i + 2] == ByteHex(b[i])
    ensures i + 1 < |b| ==> HexDump(b)[3 * i + 2] == ' '
  {
    HexDumpSpacedGroups(b, i);
  }

  lemma {:induction false} HexDumpSpacedGroups(b: Bytes, i: nat)
    requires i < |b|
    ensures HexDumpSpaced(b)[3 * i..3 * i + 2] == ByteHex(b[i])
    ensures HexDumpSpaced(b)[3 * i + 2] == ' '
  {
    var init := b[..|b| - 1];
    if i < |b| - 1 {
      HexDumpSpacedGroups(init, i);
      assert init[i] == b[i];
      assert HexDumpSpaced(b) == HexDumpSpaced(init) + ByteHex(b[|b| - 1]) + " ";
      assert HexDumpSpaced(b)[3 * i..3 * i + 2] == HexDumpSpaced(init)[3 * i..3 * i + 2];
    }
  }

  /** bin2hex as the source computes it: a loop appending each byte's hex digits
      and a space, then trimming the final space. */
  method Bin2Hex(b: Bytes) returns (r: string)
    ensures r == HexDump(b)
  {
    var s := "";
    for i := 0 to |b|
      invariant s == HexDumpSpaced(b[..i])
    {
      assert b[..i + 1][..i] == b[..i];
      s := s + ByteHex(b[i]) + " ";
    }
    assert b[..|b|] == b;
    r := if s == [] then s else s[..|s| - 1];
  }

  /** getIFDString(): the printable form of a decoded value. PHP first turns an
      integer argument into its decimal string, so an integer given for ASCII or a
      raw type is printed from its digits, and one given for a rational is "N/A". */
  function GetIfdString(v: IfdValue, t: int): (r: Result<Bytes>)
    ensures !(TYPE_UBYTE <= t <= TYPE_DOUBLE) ==> r == Err(DataFormatError)
    ensures TYPE_UBYTE <= t <= TYPE_DOUBLE && (v.Rational? ==> IsRationalType(t)) ==> r.Ok?
  {
    var s: Option<Bytes> := match v
      case Num(n) => Some(Ascii(IntString(n)))
      case Raw(d) => Some(d)
      case Rational(_, _) => None;
    if IsIntegerType(t) then
      if s.Some? then Ok(s.value) else Err(TypeError)
    else if t == TYPE_ASCII then
      if s.Some? then Ok(Trim(s.value)) else Err(TypeError)
    else if IsRationalType(t) then
      if v.Rational? then Ok(Ascii(IntString(v.num) + "/" + IntString(v.denom))) else Ok(Ascii("N/A"))
    else if t == TYPE_UNDEFINED || t == TYPE_FLOAT || t == TYPE_DOUBLE then
      if s.Some? then Ok(Ascii(NatString(|s.value|) + " bytes of binary data: " + HexDump(s.value)))
      else Err(TypeError)
    else Err(DataFormatError)
  }

  /** Integers print in decimal, rationals as "num/denom", and a rational type
      given anything but a rational prints "N/A". */
  lemma GetIfdStringValues(v: IfdValue, t: int)
    ensures v.Num? && IsIntegerType(t)
            ==> GetIfdString(v, t) == Ok(Ascii(IntString(v.n)))
    ensures v.Rational? && IsRationalType(t)
            ==> GetIfdString(v, t) == Ok(Ascii(IntString(v.num) + "/" + IntString(v.denom)))
    ensures !v.Rational? && IsRationalType(t) ==> GetIfdString(v, t) == Ok(Ascii("N/A"))
  {
  }

  // ---------------------------------------------------------------------------
  // Tag names.

  // IFD pointer tags
  const TAG_PTR_SUB_IFD := 0x014a
  const TAG_PTR_GLOBAL_PARAMETERS_IFD := 0x0190
  const TAG_PTR_KODAK_IFD := 0x8290
  const TAG_PTR_JPL_CARTO_IFD := 0x85d7
  const TAG_PTR_EXIF_IFD := 0x8769
  const TAG_PTR_LEAF_SUB_IFD := 0x888a
  const TAG_PTR_KDC_IFD := 0xfe00

  /** The tags whose value is the offset of a sub-IFD. */
  predicate IsPointerTag(tag: int)
  {
    tag == TAG_PTR_SUB_IFD || tag == TAG_PTR_GLOBAL_PARAMETERS_IFD || tag == TAG_PTR_KODAK_IFD ||
    tag == TAG_PTR_JPL_CARTO_IFD || tag == TAG_PTR_EXIF_IFD || tag == TAG_PTR_LEAF_SUB_IFD || tag == TAG_PTR_KDC_IFD
  }

  /** The name of the IFD a pointer tag leads to, or None for an ordinary tag. */
  function BlockName(tag: int): (r: Option<string>)
    ensures r.Some? <==> IsPointerTag(tag)
  {
    if tag == TAG_PTR_SUB_IFD then Some("SUB")
    else if tag == TAG_PTR_GLOBAL_PARAMETERS_IFD then Some("GLOBAL")
    else if tag == TAG_PTR_KODAK_IFD then Some("KODAK")
    else if tag == TAG_PTR_JPL_CARTO_IFD then Some("JPL")
    else if tag == TAG_PTR_EXIF_IFD then Some("EXIF")
    else if tag == TAG_PTR_LEAF_SUB_IFD then Some("LEAF")
    else if tag == TAG_PTR_KDC_IFD then Some("KDC")
    else None
  }

  /** The four hexadecimal digits of a tag below 0x10000, zero-padded. */
  function Hex4(tag: nat): (r: string)
    ensures |r| == 4
  {
    [HexChar(tag / 4096 % 16), HexChar(tag / 256 % 16), HexChar(tag / 16 % 16), HexChar(tag % 16)]
  }

  /** The last four characters of "0000" followed by dechex(tag). */
  function Tag(ifd: string, tag: nat): (r: string)
  {
    var h := "0000" + HexString(tag);
    ifd + ":" + h[|h| - 4..]
  }

  lemma HexString2(n: nat)
    requires 0x10 <= n < 0x100
    ensures HexString(n) == [HexChar(n / 16 % 16), HexChar(n % 16)]
  {
    assert n / 16 < 16;
  }

  lemma HexString3(n: nat)
    requires 0x100 <= n < 0x1000
    ensures HexString(n) == [HexChar(n / 256 % 16), HexChar(n / 16 % 16), HexChar(n % 16)]
  {
    var d := n / 16;
    assert 16 <= d < 256;
    assert HexString(n) == HexString(d) + [HexChar(n % 16)];
    HexString2(d);
    ModSplit(n, 16, 16);
    assert d / 16 % 16 == n / 256 % 16;
  }

  lemma HexString4(n: nat)
    requires 0x1000 <= n < 0x10000
    ensures HexString(n) == [HexChar(n / 4096 % 16), HexChar(n / 256 % 16), HexChar(n / 16 % 16), HexChar(n % 16)]
  {
    var d := n / 16;
    assert 256 <= d < 4096;
    assert HexString(n) == HexString(d) + [HexChar(n % 16)];
    HexString3(d);
    ModSplit(n, 16, 16);
    ModSplit(n, 16, 256);
    assert d / 16 % 16 == n / 256 % 16 && d / 256 % 16 == n / 4096 % 16;
  }

  /** A tag key is the IFD name, a colon and the tag as exactly four
      zero-padded hexadecimal digits. */
  lemma TagDigits(ifd: string, tag: nat)
    requires tag < 0x10000
    ensures Tag(ifd, tag) == ifd + ":" + Hex4(tag)
  {
    var x := HexString(tag);
    var h := "0000" + x;
    assert Tag(ifd, tag) == ifd + ":" + h[|h| - 4..];
    PaddedHex(tag);
  }

  /** dechex() padded on the left with zeros and cut to its last four characters. */
  lemma PaddedHex(tag: nat)
    requires tag < 0x10000
    ensures |HexString(tag)| <= 4
    ensures var h := "0000" + HexString(tag); h[|h| - 4..] == Hex4(tag)
  {
    var x := HexString(tag);
    var h := "0000" + x;
    var zeros := if tag < 0x10 then "000" else if tag < 0x100 then "00" else if tag < 0x1000 then "0" else "";
    assert Hex4(tag) == zeros + x by {
      if tag < 0x10 {
        Hex4Short1(tag);
      } else if tag < 0x100 {
        Hex4Short2(tag);
      } else if tag < 0x1000 {
        Hex4Short3(tag);
      } else {
        Hex4Short4(tag);
      }
    }
    assert h[|h| - 4..] == "0000"[|x|..] + x;
    assert "0000"[|x|..] == zeros;
  }

  lemma Hex4Short1(tag: nat)
    requires tag < 0x10
    ensures Hex4(tag) == "000" + HexString(tag)
  {
    assert tag / 4096 % 16 == 0 && tag / 256 % 16 == 0 && tag / 16 % 16 == 0 && tag % 16 == tag;
  }

  lemma Hex4Short2(tag: nat)
    requires 0x10 <= tag < 0x100
    ensures Hex4(tag) == "00" + HexString(tag)
  {
    HexString2(tag);
    assert tag / 4096 % 16 == 0 && tag / 256 % 16 == 0;
  }

  lemma Hex4Short3(tag: nat)
    requires 0x100 <= tag < 0x1000
    ensures Hex4(tag) == "0" + HexString(tag)
  {
    HexString3(tag);
    assert tag / 4096 % 16 == 0;
  }

  lemma Hex4Short4(tag: nat)
    requires 0x1000 <= tag < 0x10000
    ensures Hex4(tag) == HexString(tag)
  {
    HexString4(tag);
  }

  /** The four digits of Hex4 recompose the tag. */
  lemma Hex4Value(t: nat)
    requires t < 0x10000
    ensures t == t / 4096 % 16 * 4096 + t / 256 % 16 * 256 + t / 16 % 16 * 16 + t % 16
  {
    ModSplit(t, 16, 16);
    ModSplit(t, 256, 16);
    ModSplit(t, 4096, 16);
    ModSplit(t / 16, 16, 16);
    ModSplit(t / 256, 16, 16);
  }

  lemma HexCharInjective(d1: int, d2: int)
    requires 0 <= d1 < 16 && 0 <= d2 < 16 && HexChar(d1) == HexChar(d2)
    ensures d1 == d2
  {
  }

  /** Distinct tags of one IFD get distinct keys. */
  lemma TagInjective(ifd: string, t1: nat, t2: nat)
    requires t1 < 0x10000 && t2 < 0x10000
    requires Tag(ifd, t1) == Tag(ifd, t2)
    ensures t1 == t2
  {
    TagDigits(ifd, t1);
    TagDigits(ifd, t2);
    var a, b := Hex4(t1), Hex4(t2);
    assert a == (ifd + ":" + a)[|ifd| + 1..];
    assert b == (ifd + ":" + b)[|ifd| + 1..];
    assert a == b;
    HexCharInjective(t1 / 4096 % 16, t2 / 4096 % 16);
    HexCharInjective(t1 / 256 % 16, t2 / 256 % 16);
    HexCharInjective(t1 / 16 % 16, t2 / 16 % 16);
    HexCharInjective(t1 % 16, t2 % 16);
    Hex4Value(t1);
    Hex4Value(t2);
  }
}
