/** The JPEG container: a file is SOI, a list of marker segments, the
    entropy-coded scan that follows SOS, and EOI (ITU-T T.81, Annex B, Table
    B.1). The Jpeg class keeps the segments and the scan, extracts the IPTC,
    XMP and EXIF payloads from them and writes the segments back. */
module JpegFraming {
  import opened Common
  import Iptc
  import Exif

  /** A header segment: its name (APPn or 0x..), its marker byte and its data
      (the bytes after the two length bytes). */
  datatype Segment = Segment(name: string, tag: byte, data: Bytes)

  /** What the marker loop yields: the header segments and the scan. */
  datatype Image = Image(header: seq<Segment>, scan: Bytes)

  const SOI: Bytes := [0xFF, 0xD8]
  const EOI: Bytes := [0xFF, 0xD9]
  const EOI_TAG := 0xD9
  const SOS := 0xDA
  /** The largest segment data a two-byte length field (which counts itself) can frame. */
  const MAX_SEGMENT_DATA := 0xFFFD

  /** RST0..RST7 carry no length and no data. */
  predicate IsRst(tag: byte)
  {
    0xD0 <= tag <= 0xD7
  }

  /** segmentName: "APP0".."APP15" for the application markers, "0x" and the
      lower-case hexadecimal code for every other marker. */
  function SegmentName(tag: byte): (r: string)
    ensures |r| >= 3
  {
    if 0xE0 <= tag <= 0xEF then "APP" + NatString(tag - 0xE0) else "0x" + HexString(tag)
  }

  /** The name starts with "APP" exactly for the markers E0..EF. */
  lemma SegmentNameApp(tag: byte)
    ensures SegmentName(tag)[..3] == "APP" <==> 0xE0 <= tag <= 0xEF
  {
    if !(0xE0 <= tag <= 0xEF) {
      assert SegmentName(tag)[0] == '0';
    }
  }

  /** The name of an application marker: "APP" and one digit for APP0..APP9,
      "APP1" and a second digit for APP10..APP15. */
  lemma AppName(tag: byte)
    requires 0xE0 <= tag <= 0xEF
    ensures tag < 0xEA ==> SegmentName(tag) == "APP" + [DigitChar(tag - 0xE0)]
    ensures tag >= 0xEA ==> SegmentName(tag) == "APP1" + [DigitChar(tag - 0xEA)]
  {
    var n := tag - 0xE0;
    if n >= 10 {
      assert NatString(n) == NatString(n / 10) + [DigitChar(n % 10)];
    }
  }

  /** A name of four characters ending in digit c belongs to marker E0 + c. */
  lemma ShortAppName(tag: byte, d: int)
    requires 0 <= d < 10
    ensures SegmentName(tag) == "APP" + [DigitChar(d)] <==> tag == 0xE0 + d
  {
    SegmentNameApp(tag);
    if SegmentName(tag) == "APP" + [DigitChar(d)] {
      assert SegmentName(tag)[..3] == "APP";
      AppName(tag);
      if tag < 0xEA {
        assert SegmentName(tag)[3] == DigitChar(tag - 0xE0);
        DigitCharInjective(tag - 0xE0, d);
      }
    }
    if tag == 0xE0 + d {
      AppName(tag);
    }
  }

  /** The three names the metadata code looks for belong to one marker each. */
  lemma SegmentNameKnown(tag: byte)
    ensures SegmentName(tag) == "APP0" <==> tag == 0xE0
    ensures SegmentName(tag) == "APP1" <==> tag == 0xE1
    ensures SegmentName(tag) == "APP13" <==> tag == 0xED
  {
    assert "APP0" == "APP" + [DigitChar(0)];
    assert "APP1" == "APP" + [DigitChar(1)];
    ShortAppName(tag, 0);
    ShortAppName(tag, 1);
    App13Name(tag);
  }

  /** Only marker ED is named "APP13". */
  lemma App13Name(tag: byte)
    ensures SegmentName(tag) == "APP13" <==> tag == 0xED
  {
    SegmentNameApp(tag);
    if SegmentName(tag) == "APP13" {
      assert SegmentName(tag)[..3] == "APP";
      AppName(tag);
      if tag >= 0xEA {
        assert SegmentName(tag)[4] == DigitChar(tag - 0xEA);
        DigitCharInjective(tag - 0xEA, 3);
      }
    }
    if tag == 0xED {
      AppName(tag);
    }
  }

  // ---------------------------------------------------------------------------
  // Reading: the marker loop of read(), over the bytes not yet consumed.

  /** dataRead($handle, n): the next n bytes, fewer at the end of the file, none for n <= 0. */
  function Take(rest: Bytes, n: int): (r: Bytes)
    ensures |r| == if n <= 0 then 0 else if n <= |rest| then n else |rest|
    ensures r == rest[..|r|]
  {
    if n <= 0 then [] else if n <= |rest| then rest[..n] else rest
  }

  /** The segment length unpack('n') yields: the two length bytes big-endian;
      a short read makes unpack fail, and the missing length counts as 0. */
  function Declared(size: Bytes): (r: nat)
    ensures r < 65536
  {
    if |size| == 2 then ReadBE16(size, 0) else 0
  }

  /** An FF D9 pair starts at k. */
  predicate EoiAt(s: Bytes, k: int)
  {
    0 <= k && k + 1 < |s| && s[k] == 0xFF && s[k + 1] == EOI_TAG
  }

  /** strpos($s, "\xFF\xD9"), searching from `from`: the first EOI pair. */
  function FindEoi(s: Bytes, from: nat): (r: Option<nat>)
    ensures r.Some? ==> from <= r.value && EoiAt(s, r.value)
    ensures r.Some? ==> forall k :: from <= k < r.value ==> !EoiAt(s, k)
    ensures r.None? ==> forall k :: from <= k ==> !EoiAt(s, k)
    decreases |s| - from
  {
    if from + 1 >= |s| then None
    else if EoiAt(s, from) then Some(from)
    else FindEoi(s, from + 1)
  }

  predicate NoEoi(scan: Bytes)
  {
    forall k :: 0 <= k < |scan| ==> !EoiAt(scan, k)
  }

  /** The loop from a marker on: `m` holds the marker bytes just read and `rest`
      the bytes after them. feof() turns true only once a read comes back short;
      a short length or data read leaves the next marker read empty, which fails,
      so the loop test sees end of file exactly when the marker read was short.
      The loop ends there or at EOI; RSTn is skipped, every other marker becomes
      a segment of (declared length - 2) bytes, even when the file ends right
      after the marker. */
  function Markers(rest: Bytes, m: Bytes, readOnly: bool): (r: Result<Image>)
    decreases |rest|, 2
  {
    if |m| < 2 || m[1] == EOI_TAG then Ok(Image([], []))
    else
      var tag := m[1];
      if IsRst(tag) then AfterSegment(rest, tag, readOnly)
      else
        var size := Take(rest, 2);
        var data := Take(rest[|size|..], Declared(size) - 2);
        Cons(Segment(SegmentName(tag), tag, data), AfterSegment(rest[|size| + |data|..], tag, readOnly))
  }

  /** A segment in front of what the rest of the loop reads, or its error. */
  function Cons(s: Segment, after: Result<Image>): Result<Image>
  {
    if after.Err? then Err(after.error) else Ok(Image([s] + after.value.header, after.value.scan))
  }

  /** After a segment: SOS ends the header, and (unless read-only) the scan is
      everything up to the first FF D9, which must exist; any other marker is
      followed by the next marker. */
  function AfterSegment(rest: Bytes, tag: byte, readOnly: bool): (r: Result<Image>)
    decreases |rest|, 1
  {
    if tag == SOS then
      if readOnly then Ok(Image([], []))
      else
        match FindEoi(rest, 0)
        case None => Err(FileCorrupt)
        case Some(k) => Ok(Image([], rest[..k]))
    else NextMarker(rest, readOnly)
  }

  /** Reads the next marker; its first byte must be FF. */
  function NextMarker(rest: Bytes, readOnly: bool): (r: Result<Image>)
    decreases |rest|, 0
  {
    var m := Take(rest, 2);
    if m == [] || m[0] != 0xFF then Err(FileCorrupt)
    else Markers(rest[|m|..], m, readOnly)
  }

  /** The header and scan read() extracts from a file, or its error. */
  function Parse(file: Bytes, readOnly: bool): Result<Image>
  {
    if Take(file, 2) != SOI then Err(FileTypeError) else NextMarker(file[2..], readOnly)
  }

  // ---------------------------------------------------------------------------
  // The shape of what read() produces.

  /** A segment read can return: a marker with a length, named after its marker. */
  predicate Framable(s: Segment)
  {
    !IsRst(s.tag) && s.tag != EOI_TAG && s.name == SegmentName(s.tag)
  }

  predicate EndsWithSos(h: seq<Segment>)
  {
    h != [] && h[|h| - 1].tag == SOS
  }

  /** Segments and scan as read() leaves them: every segment framable, SOS at
      most as the last segment, no scan without SOS, and no FF D9 in the scan. */
  predicate Framed(h: seq<Segment>, scan: Bytes)
  {
    (forall i :: 0 <= i < |h| ==> Framable(h[i])) &&
    (forall i :: 0 <= i < |h| - 1 ==> h[i].tag != SOS) &&
    (!EndsWithSos(h) ==> scan == []) &&
    NoEoi(scan)
  }

  /** Every segment fits a two-byte length field. */
  predicate Fits(h: seq<Segment>)
  {
    forall i :: 0 <= i < |h| ==> |h[i].data| <= MAX_SEGMENT_DATA
  }

  /** What read() can produce: framed segments that fit their length field. */
  predicate WellRead(image: Image)
  {
    Framed(image.header, image.scan) && Fits(image.header)
  }

  /** read() only ever produces framed segments that fit their length field. */
  lemma {:induction false} MarkersFramed(rest: Bytes, m: Bytes, readOnly: bool)
    ensures Markers(rest, m, readOnly).Ok? ==> WellRead(Markers(rest, m, readOnly).value)
    decreases |rest|, 2
  {
    if |m| >= 2 && m[1] != EOI_TAG {
      var tag := m[1];
      if IsRst(tag) {
        AfterSegmentFramed(rest, tag, readOnly);
      } else {
        var size := Take(rest, 2);
        var data := Take(rest[|size|..], Declared(size) - 2);
        var tail := rest[|size| + |data|..];
        var seg := Segment(SegmentName(tag), tag, data);
        assert Markers(rest, m, readOnly) == Cons(seg, AfterSegment(tail, tag, readOnly));
        AfterSegmentFramed(tail, tag, readOnly);
        ConsFramed(seg, AfterSegment(tail, tag, readOnly));
      }
    }
  }

  /** A framed segment in front of what follows it keeps the whole framed. */
  lemma ConsFramed(s: Segment, after: Result<Image>)
    requires Framable(s) && |s.data| <= MAX_SEGMENT_DATA
    requires after.Ok? && s.tag == SOS ==> after.value.header == [] && NoEoi(after.value.scan)
    requires after.Ok? && s.tag != SOS ==> WellRead(after.value)
    ensures Cons(s, after).Ok? ==> WellRead(Cons(s, after).value)
  {
    if after.Ok? {
      var h := [s] + after.value.header;
      assert forall i :: 1 <= i < |h| ==> h[i] == after.value.header[i - 1];
      assert EndsWithSos(h) <==> (s.tag == SOS || EndsWithSos(after.value.header));
    }
  }

  lemma {:induction false} AfterSegmentFramed(rest: Bytes, tag: byte, readOnly: bool)
    ensures tag != SOS && AfterSegment(rest, tag, readOnly).Ok? ==> WellRead(AfterSegment(rest, tag, readOnly).value)
    ensures tag == SOS && AfterSegment(rest, tag, readOnly).Ok? ==>
              AfterSegment(rest, tag, readOnly).value.header == [] && NoEoi(AfterSegment(rest, tag, readOnly).value.scan)
    decreases |rest|, 1
  {
    if tag == SOS {
      if !readOnly && FindEoi(rest, 0).Some? {
        var k := FindEoi(rest, 0).value;
        forall j | 0 <= j < k
          ensures !EoiAt(rest[..k], j)
        {
          assert !EoiAt(rest, j);
        }
      }
    } else {
      NextMarkerFramed(rest, readOnly);
    }
  }

  lemma {:induction false} NextMarkerFramed(rest: Bytes, readOnly: bool)
    ensures NextMarker(rest, readOnly).Ok? ==> WellRead(NextMarker(rest, readOnly).value)
    decreases |rest|, 0
  {
    var m := Take(rest, 2);
    if m != [] && m[0] == 0xFF {
      MarkersFramed(rest[|m|..], m, readOnly);
    }
  }

  /** Whatever read() accepts is framed and fits. */
  lemma ParseFramed(file: Bytes, readOnly: bool)
    ensures Parse(file, readOnly).Ok? ==> WellRead(Parse(file, readOnly).value)
  {
    if Take(file, 2) == SOI {
      NextMarkerFramed(file[2..], readOnly);
    }
  }

  /** The two failures read() reports on the framing: a file that does not start
      with FF D8, and a marker whose first byte is not FF. */
  lemma ParseErrors(file: Bytes, readOnly: bool)
    ensures (|file| < 2 || file[..2] != SOI) ==> Parse(file, readOnly) == Err(FileTypeError)
    ensures |file| >= 3 && file[..2] == SOI && file[2] != 0xFF ==> Parse(file, readOnly) == Err(FileCorrupt)
    ensures |file| == 2 && file == SOI ==> Parse(file, readOnly) == Err(FileCorrupt)
  {
    if |file| >= 2 && file[..2] == SOI {
      assert Take(file, 2) == SOI;
    }
  }

  /** A file cut right after a marker: the length and data reads come back
      empty, the segment is still recorded, and the next marker read fails
      unless the loop stops at SOS (read-only) first. */
  lemma ParseCutAfterMarker(readOnly: bool)
    ensures Parse(SOI + [0xFF, 0xE0], readOnly) == Err(FileCorrupt)
    ensures Parse(SOI + [0xFF, SOS], true) == Ok(Image([Segment(SegmentName(SOS), SOS, [])], []))
    ensures Parse(SOI + [0xFF, SOS], false) == Err(FileCorrupt)
  {
    var app0 := SOI + [0xFF, 0xE0];
    assert Take(app0, 2) == SOI && app0[2..] == [0xFF, 0xE0];
    assert Take([0xFF, 0xE0], 2) == [0xFF, 0xE0];
    var sos := SOI + [0xFF, SOS];
    assert Take(sos, 2) == SOI && sos[2..] == [0xFF, SOS];
    assert Take([0xFF, SOS], 2) == [0xFF, SOS];
    var seg := Segment(SegmentName(SOS), SOS, []);
    assert NextMarker([0xFF, SOS], true) == Markers([], [0xFF, SOS], true);
    assert NextMarker([0xFF, SOS], false) == Markers([], [0xFF, SOS], false);
    assert Markers([], [0xFF, SOS], true) == Cons(seg, Ok(Image([], [])));
    assert [seg] + [] == [seg];
    assert Markers([], [0xFF, SOS], false) == Cons(seg, Err(FileCorrupt));
    assert Markers([], [0xFF, 0xE0], readOnly) == Cons(Segment(SegmentName(0xE0), 0xE0, []), AfterSegment([], 0xE0, readOnly));
  }

  /** A file that is just SOI and EOI has no segments and an empty scan. */
  lemma ParseEmptyImage(readOnly: bool)
    ensures Parse(SOI + EOI, readOnly) == Ok(Image([], []))
  {
    var file := SOI + EOI;
    assert Take(file, 2) == SOI;
    assert file[2..] == EOI;
    assert Take(EOI, 2) == EOI;
  }

  // ---------------------------------------------------------------------------
  // Writing.

  /** FF, the marker, the length (data plus the two length bytes) and the data. */
  function SegmentBytes(s: Segment): (r: Bytes)
    ensures |r| == 4 + |s.data|
  {
    [0xFF, s.tag] + BE16(|s.data| + 2) + s.data
  }

  function HeaderBytes(h: seq<Segment>): Bytes
  {
    if h == [] then [] else SegmentBytes(h[0]) + HeaderBytes(h[1..])
  }

  /** What write() emits: SOI, every segment, the scan, EOI. */
  function Emitted(h: seq<Segment>, scan: Bytes): Bytes
  {
    SOI + HeaderBytes(h) + scan + EOI
  }

  lemma {:induction false} HeaderBytesSnoc(h: seq<Segment>, s: Segment)
    ensures HeaderBytes(h + [s]) == HeaderBytes(h) + SegmentBytes(s)
  {
    if h != [] {
      assert (h + [s])[1..] == h[1..] + [s];
      HeaderBytesSnoc(h[1..], s);
    }
  }

  /** A scan without FF D9 is found again in front of the EOI that follows it. */
  lemma ScanBeforeEoi(scan: Bytes)
    requires NoEoi(scan)
    ensures FindEoi(scan + EOI, 0) == Some(|scan|)
  {
    var s := scan + EOI;
    assert EoiAt(s, |scan|);
    forall k | 0 <= k < |scan|
      ensures !EoiAt(s, k)
    {
      assert !EoiAt(scan, k);
    }
  }

  /** The fields of a written segment as the reader takes them apart. */
  lemma SegmentFields(s: Segment, tail: Bytes)
    requires |s.data| <= MAX_SEGMENT_DATA
    ensures var rest := SegmentBytes(s) + tail;
            Take(rest, 2) == [0xFF, s.tag] && |rest| > 2 &&
            Declared(Take(rest[2..], 2)) == |s.data| + 2 &&
            Take(rest[2..][2..], |s.data|) == s.data &&
            rest[2..][2 + |s.data|..] == tail
  {
    var rest := SegmentBytes(s) + tail;
    var n := |s.data| + 2;
    assert rest == [0xFF, s.tag] + (BE16(n) + s.data + tail);
    var body := rest[2..];
    assert body == BE16(n) + s.data + tail;
    assert Take(body, 2) == BE16(n);
    BE16RoundTrip(n, [], s.data + tail);
    assert BE16(n) + s.data + tail == [] + BE16(n) + (s.data + tail);
    assert body[2..] == s.data + tail;
  }

  /** One written segment read back: the marker, the length and the data. */
  lemma SegmentReadBack(s: Segment, tail: Bytes, readOnly: bool)
    requires Framable(s) && |s.data| <= MAX_SEGMENT_DATA
    ensures NextMarker(SegmentBytes(s) + tail, readOnly) == Cons(s, AfterSegment(tail, s.tag, readOnly))
  {
    SegmentFields(s, tail);
  }

  /** The first of well-read segments, and what follows it. */
  lemma WellReadTail(h: seq<Segment>, scan: Bytes)
    requires WellRead(Image(h, scan)) && h != []
    ensures Framable(h[0]) && |h[0].data| <= MAX_SEGMENT_DATA
    ensures h[0].tag == SOS ==> h[1..] == [] && NoEoi(scan)
    ensures h[0].tag != SOS ==> WellRead(Image(h[1..], scan))
  {
    var t := h[1..];
    assert forall i :: 0 <= i < |t| ==> t[i] == h[i + 1];
    assert t != [] ==> (EndsWithSos(t) <==> EndsWithSos(h));
  }

  /** Reading back what write() emits for framed segments gives the same
      segments and scan. */
  lemma {:induction false} NextMarkerEmitted(h: seq<Segment>, scan: Bytes)
    requires WellRead(Image(h, scan))
    ensures NextMarker(HeaderBytes(h) + scan + EOI, false) == Ok(Image(h, scan))
    decreases |h|
  {
    if h == [] {
      assert HeaderBytes(h) + scan + EOI == EOI;
      assert Take(EOI, 2) == EOI && EOI[2..] == [];
    } else {
      var s := h[0];
      var t := h[1..];
      var tail := HeaderBytes(t) + scan + EOI;
      assert HeaderBytes(h) + scan + EOI == SegmentBytes(s) + tail;
      WellReadTail(h, scan);
      SegmentReadBack(s, tail, false);
      assert AfterSegment(tail, s.tag, false) == Ok(Image(t, scan)) by {
        if s.tag == SOS {
          assert tail == scan + EOI;
          ScanBeforeEoi(scan);
          assert (scan + EOI)[..|scan|] == scan;
        } else {
          NextMarkerEmitted(t, scan);
        }
      }
      assert [s] + t == h;
    }
  }

  /** The round trip of write() and read(): emitting framed segments that fit
      and the scan, then parsing the bytes, gives them back. */
  lemma WriteReadRoundTrip(h: seq<Segment>, scan: Bytes)
    requires WellRead(Image(h, scan))
    ensures Parse(Emitted(h, scan), false) == Ok(Image(h, scan))
  {
    EmittedStart(h, scan);
    NextMarkerEmitted(h, scan);
  }

  lemma EmittedStart(h: seq<Segment>, scan: Bytes)
    ensures Take(Emitted(h, scan), 2) == SOI
    ensures Emitted(h, scan)[2..] == HeaderBytes(h) + scan + EOI
  {
    assert Emitted(h, scan) == SOI + (HeaderBytes(h) + scan + EOI);
  }
}
