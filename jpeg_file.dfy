// Class Jpeg of src/Metadata/Jpeg.php: the header segments and scan of one
// JPEG file, with the IPTC, XMP and EXIF metadata decoded from them. Files are
// byte sequences: read() takes the file's bytes, write() returns them.

module JpegFile {
  import opened Common
  import opened JpegFraming
  import opened JpegSegments
  import opened MetadataArrays
  import Iptc
  import Exif

  // ---------------------------------------------------------------------------
  // read()'s marker loop, with a cursor over the file's bytes.

  /** The segments read so far in front of what the rest of the loop reads. */
  function Glue(acc: seq<Segment>, after: Result<Image>): Result<Image>
  {
    if after.Err? then after else Ok(Image(acc + after.value.header, after.value.scan))
  }

  lemma GlueCons(acc: seq<Segment>, s: Segment, after: Result<Image>)
    ensures Glue(acc, Cons(s, after)) == Glue(acc + [s], after)
  {
    if after.Ok? {
      assert acc + ([s] + after.value.header) == acc + [s] + after.value.header;
    }
  }

  lemma GlueNil(after: Result<Image>)
    ensures Glue([], after) == after
  {
    if after.Ok? {
      assert [] + after.value.header == after.value.header;
    }
  }

  /** The marker read at the cursor. */
  lemma NextMarkerAt(file: Bytes, c: nat, readOnly: bool)
    requires c <= |file|
    ensures var m := Take(file[c..], 2);
            c + |m| <= |file| &&
            NextMarker(file[c..], readOnly) ==
              if m == [] || m[0] != 0xFF then Err(FileCorrupt) else Markers(file[c + |m|..], m, readOnly)
  {
    var m := Take(file[c..], 2);
    assert file[c..][|m|..] == file[c + |m|..];
  }

  /** The segment read at the cursor after a marker other than EOI. */
  lemma MarkersAt(file: Bytes, c: nat, m: Bytes, readOnly: bool)
    requires c <= |file| && |m| == 2 && m[1] != EOI_TAG && !IsRst(m[1])
    ensures var size := Take(file[c..], 2);
            var data := Take(file[c + |size|..], Declared(size) - 2);
            c + |size| + |data| <= |file| &&
            Markers(file[c..], m, readOnly) ==
              Cons(Segment(SegmentName(m[1]), m[1], data), AfterSegment(file[c + |size| + |data|..], m[1], readOnly))
  {
    var rest := file[c..];
    var size := Take(rest, 2);
    var data := Take(rest[|size|..], Declared(size) - 2);
    assert Markers(rest, m, readOnly) ==
      Cons(Segment(SegmentName(m[1]), m[1], data), AfterSegment(rest[|size| + |data|..], m[1], readOnly));
    assert rest[|size|..] == file[c + |size|..];
    assert rest[|size| + |data|..] == file[c + |size| + |data|..];
  }

  /** A restart marker has no length: the loop goes on with the next marker. */
  lemma RstAt(rest: Bytes, m: Bytes, readOnly: bool)
    requires |m| == 2 && m[1] != EOI_TAG && IsRst(m[1])
    ensures Markers(rest, m, readOnly) == AfterSegment(rest, m[1], readOnly)
  {
  }

  /** The whole rest of the file, as the 1 MiB reads until end of file gather it. */
  method ReadRest(file: Bytes, c: nat) returns (rest: Bytes)
    requires c <= |file|
    ensures rest == file[c..]
  {
    rest := [];
    var cursor := c;
    while cursor < |file|
      invariant c <= cursor <= |file|
      invariant rest == file[c..cursor]
      decreases |file| - cursor
    {
      var chunk := Take(file[cursor..], 1048576);
      assert file[c..cursor] + chunk == file[c..cursor + |chunk|];
      rest := rest + chunk;
      cursor := cursor + |chunk|;
    }
  }

  /** One segment after its marker: the two length bytes, then the data they declare. */
  method ReadSegment(file: Bytes, c: nat, m: Bytes, readOnly: bool) returns (seg: Segment, next: nat)
    requires c <= |file| && |m| == 2 && m[1] != EOI_TAG && !IsRst(m[1])
    ensures c <= next <= |file|
    ensures seg == Segment(SegmentName(m[1]), m[1], seg.data)
    ensures Markers(file[c..], m, readOnly) == Cons(seg, AfterSegment(file[next..], m[1], readOnly))
  {
    MarkersAt(file, c, m, readOnly);
    var size := Take(file[c..], 2);
    var data := Take(file[c + |size|..], Declared(size) - 2);
    seg := Segment(SegmentName(m[1]), m[1], data);
    next := c + |size| + |data|;
  }

  /** What follows a segment: the scan after SOS (ending the loop), else the next marker. */
  method ReadAfter(file: Bytes, c: nat, tag: byte, readOnly: bool)
      returns (done: bool, r: Result<Image>, next: nat, m: Bytes)
    requires c <= |file|
    ensures done ==> r == AfterSegment(file[c..], tag, readOnly)
    ensures !done ==> c < next <= |file| && m != [] && |m| <= 2 &&
                      AfterSegment(file[c..], tag, readOnly) == Markers(file[next..], m, readOnly)
  {
    next, m := c, [];
    if tag == SOS {
      done := true;
      if readOnly {
        return done, Ok(Image([], [])), next, m;
      }
      var rest := ReadRest(file, c);
      var eoi := FindEoi(rest, 0);
      if eoi.None? {
        return done, Err(FileCorrupt), next, m;
      }
      return done, Ok(Image([], rest[..eoi.value])), next, m;
    }
    NextMarkerAt(file, c, readOnly);
    m := Take(file[c..], 2);
    if m == [] || m[0] != 0xFF {
      return true, Err(FileCorrupt), next, m;
    }
    done, r, next := false, Ok(Image([], [])), c + |m|;
  }

  /** read()'s framing: the header segments and the scan, or the error thrown. */
  method ReadSegments(file: Bytes, readOnly: bool) returns (r: Result<Image>)
    ensures r == Parse(file, readOnly)
  {
    var soi := Take(file, 2);
    if soi != SOI {
      return Err(FileTypeError);
    }
    NextMarkerAt(file, 2, readOnly);
    var data := Take(file[2..], 2);
    if data == [] || data[0] != 0xFF {
      return Err(FileCorrupt);
    }
    r := ReadMarkers(file, 2 + |data|, data, readOnly);
  }

  /** The marker loop from the marker just read until EOI, SOS or end of file,
      which a marker read of fewer than two bytes signals. */
  method ReadMarkers(file: Bytes, c: nat, m: Bytes, readOnly: bool) returns (r: Result<Image>)
    requires c <= |file| && m != [] && |m| <= 2
    ensures r == Markers(file[c..], m, readOnly)
  {
    var data := m;
    var cursor := c;
    var header: seq<Segment> := [];
    GlueNil(Markers(file[c..], m, readOnly));
    while |data| == 2 && data[1] != EOI_TAG
      invariant cursor <= |file| && data != [] && |data| <= 2
      invariant Markers(file[c..], m, readOnly) == Glue(header, Markers(file[cursor..], data, readOnly))
      decreases |file| - cursor
    {
      var tag := data[1];
      if !IsRst(tag) {
        var seg;
        seg, cursor := ReadSegment(file, cursor, data, readOnly);
        GlueCons(header, seg, AfterSegment(file[cursor..], tag, readOnly));
        header := header + [seg];
      } else {
        RstAt(file[cursor..], data, readOnly);
      }
      var done, after;
      done, after, cursor, data := ReadAfter(file, cursor, tag, readOnly);
      if done {
        return Glue(header, after);
      }
    }
    assert header + [] == header;
    return Ok(Image(header, []));
  }

  // ---------------------------------------------------------------------------
  // write()'s loops.

  /** The size check: every segment's data fits a two-byte length field. */
  method SegmentsFit(h: seq<Segment>) returns (fits: bool)
    ensures fits <==> Fits(h)
  {
    for i := 0 to |h|
      invariant forall j :: 0 <= j < i ==> |h[j].data| <= MAX_SEGMENT_DATA
    {
      if |h[i].data| > MAX_SEGMENT_DATA {
        return false;
      }
    }
    return true;
  }

  /** The segments as written: marker, length and data, one after the other. */
  method EmitSegments(h: seq<Segment>) returns (out: Bytes)
    ensures out == HeaderBytes(h)
  {
    out := [];
    for i := 0 to |h|
      invariant out == HeaderBytes(h[..i])
    {
      HeaderBytesSnoc(h[..i], h[i]);
      assert h[..i + 1] == h[..i] + [h[i]];
      out := out + ([0xFF, h[i].tag] + BE16(|h[i].data| + 2) + h[i].data);
    }
    assert h[..|h|] == h;
  }

  // ---------------------------------------------------------------------------
  // The segment selections.

  /** getIptcSegment(): the IPTC payloads of the header, concatenated. */
  method GetIptcSegment(h: seq<Segment>) returns (segment: Bytes)
    ensures segment == IptcPayload(h)
  {
    segment := [];
    for pos := 0 to |h|
      invariant segment == IptcPayload(h[..pos])
    {
      assert h[..pos + 1][..pos] == h[..pos];
      if h[pos].name == Iptc.IPTC_TYPE && HasPrefix(h[pos].data, Iptc.IPTC_HEADER) {
        segment := segment + h[pos].data[Iptc.IPTC_HEADER_LEN..];
      }
    }
    assert h[..|h|] == h;
  }

  /** getXmpSegment(): the first XMP segment's data after the namespace, or nothing. */
  method GetXmpSegment(h: seq<Segment>) returns (segment: Bytes)
    ensures segment == XmpPayload(h)
  {
    for pos := 0 to |h|
      invariant forall j :: 0 <= j < pos ==> !IsXmpSegment(h[j])
    {
      if h[pos].name == XMP_TYPE && HasPrefix(h[pos].data, XMP_HEADER) {
        FirstXmpAt(h, pos);
        return h[pos].data[XMP_HEADER_LEN..];
      }
    }
    FirstXmpAt(h, |h|);
    return [];
  }

  /** getExifSegments(): each EXIF segment's data after its six-byte header,
      with its index. */
  method GetExifSegments(h: seq<Segment>) returns (segments: seq<Exif.Segment>)
    ensures segments == ExifSegments(h)
  {
    segments := [];
    for pos := 0 to |h|
      invariant segments == ExifSegments(h[..pos])
    {
      assert h[..pos + 1][..pos] == h[..pos];
      if h[pos].name == EXIF_TYPE && (HasPrefix(h[pos].data, EXIF_HEADER) || HasPrefix(h[pos].data, EXIF_HEADER_FF)) {
        segments := segments + [Exif.Segment(pos, h[pos].data[EXIF_HEADER_LEN..])];
      }
    }
    assert h[..|h|] == h;
  }

  // ---------------------------------------------------------------------------
  // The IPTC array and setIptcData()'s loops.

  /** getIptcData()'s loop: $output[$tag][] = $data for each DataSet. */
  method GroupEntries(es: seq<Iptc.IptcEntry>) returns (output: IptcGroups)
    ensures output == Grouped(es)
  {
    output := [];
    for i := 0 to |es|
      invariant output == Grouped(es[..i])
    {
      assert es[..i + 1][..i] == es[..i];
      output := AddEntry(output, es[i]);
    }
    assert es[..|es|] == es;
  }

  /** The re-formatting loop: one DataSet per listed data, tag by tag. */
  method FlattenGroups(g: IptcGroups) returns (es: seq<Iptc.IptcEntry>)
    ensures es == Flattened(g)
  {
    es := [];
    for i := 0 to |g|
      invariant es == Flattened(g[..i])
    {
      assert g[..i + 1][..i] == g[..i];
      var (t, ds) := g[i];
      for j := 0 to |ds|
        invariant es == Flattened(g[..i]) + Entries(t, ds[..j])
      {
        assert Entries(t, ds[..j + 1]) == Entries(t, ds[..j]) + [Iptc.IptcEntry(t, ds[j])];
        es := es + [Iptc.IptcEntry(t, ds[j])];
      }
      assert ds[..|ds|] == ds;
    }
    assert g[..|g|] == g;
  }

  /** Removing the IPTC segment at the cursor and stepping past its neighbour. */
  lemma DeleteIptcStep(h: seq<Segment>, pos: nat)
    requires pos < |h| && IsIptcSegment(h[pos])
    ensures var h' := h[..pos] + h[pos + 1..];
            if pos + 1 <= |h'| then h[..pos] + DropIptc(h[pos..]) == h'[..pos + 1] + DropIptc(h'[pos + 1..])
            else h[..pos] + DropIptc(h[pos..]) == h'
  {
    var rest := h[pos..];
    var h' := h[..pos] + h[pos + 1..];
    if pos + 1 < |h| {
      assert rest[1] == h[pos + 1] && rest[2..] == h[pos + 2..];
      assert h'[..pos + 1] == h[..pos] + [h[pos + 1]] && h'[pos + 1..] == h[pos + 2..];
    } else {
      assert h' == h[..pos];
    }
  }

  /** Keeping the segment at the cursor and stepping past it. */
  lemma KeepStep(h: seq<Segment>, pos: nat)
    requires pos < |h| && !IsIptcSegment(h[pos])
    ensures h[..pos] + DropIptc(h[pos..]) == h[..pos + 1] + DropIptc(h[pos + 1..])
  {
    var rest := h[pos..];
    assert rest[1..] == h[pos + 1..];
    assert h[..pos + 1] == h[..pos] + [h[pos]];
  }

  /** The delete loop as written: array_splice removes the IPTC segment at the
      cursor, and the cursor moves on past the segment that took its place. */
  method DeleteIptc(h0: seq<Segment>) returns (h: seq<Segment>)
    ensures h == DropIptc(h0)
  {
    h := h0;
    var pos := 0;
    while pos < |h|
      invariant pos <= |h| + 1
      invariant pos <= |h| ==> DropIptc(h0) == h[..pos] + DropIptc(h[pos..])
      invariant pos == |h| + 1 ==> DropIptc(h0) == h
      decreases |h| + 1 - pos
    {
      if IsIptcSegment(h[pos]) {
        DeleteIptcStep(h, pos);
        h := h[..pos] + h[pos + 1..];
      } else {
        KeepStep(h, pos);
      }
      pos := pos + 1;
    }
    if pos == |h| {
      assert h[..pos] == h;
    }
  }

  /** The backward search for the last APP0..APP13 segment, or -1. */
  method FindAnchor(h: seq<Segment>) returns (pos: int)
    ensures pos == LastAnchor(h)
  {
    pos := |h| - 1;
    while pos >= 0 && (h[pos].tag > 0xED || h[pos].tag < 0xE0)
      invariant -1 <= pos < |h|
      invariant forall j :: pos < j < |h| ==> !IptcAnchor(h[j].tag)
    {
      pos := pos - 1;
    }
  }

  /** The insertion loop: chunks of at most 32000 bytes go in one after the
      other right after index pos, the last (possibly empty) one included. */
  method InsertIptc(h0: seq<Segment>, pos0: int, packed0: Bytes) returns (h: seq<Segment>)
    requires -1 <= pos0 < |h0|
    ensures h == h0[..pos0 + 1] + ChunkSegments(packed0) + h0[pos0 + 1..]
  {
    h := h0;
    var pos := pos0;
    var packed := packed0;
    while |packed| > IPTC_CHUNK
      invariant -1 <= pos < |h|
      invariant h[..pos + 1] + ChunkSegments(packed) + h[pos + 1..] == h0[..pos0 + 1] + ChunkSegments(packed0) + h0[pos0 + 1..]
      decreases |packed|
    {
      var s := IptcSegment(packed[..IPTC_CHUNK]);
      var h' := h[..pos + 1] + [s] + h[pos + 1..];
      assert h'[..pos + 2] == h[..pos + 1] + [s] && h'[pos + 2..] == h[pos + 1..];
      assert h[..pos + 1] + ([s] + ChunkSegments(packed[IPTC_CHUNK..])) + h[pos + 1..]
          == h'[..pos + 2] + ChunkSegments(packed[IPTC_CHUNK..]) + h'[pos + 2..];
      h := h';
      packed := packed[IPTC_CHUNK..];
      pos := pos + 1;
    }
    h := h[..pos + 1] + [IptcSegment(packed)] + h[pos + 1..];
  }

  /** setIptcData() once the IPTC data is set: encode, delete the IPTC
      segments, find the anchor and insert the packed IRBs after it. */
  method UpdateIptc(h: seq<Segment>, iptc: Option<seq<Iptc.IptcEntry>>) returns (r: Result<seq<Segment>>)
    ensures r == IptcUpdated(h, iptc)
  {
    var segment := GetIptcSegment(h);
    var packed :- Iptc.Encode(segment, iptc);
    var kept := DeleteIptc(h);
    var pos := FindAnchor(kept);
    var inserted := InsertIptc(kept, pos, packed);
    return Ok(inserted);
  }

  /** The IPTC data setIptcData() keeps: the flattened tag groups, or none
      when there are no tags. */
  function IptcOf(ary: Option<IptcGroups>): (r: Option<seq<Iptc.IptcEntry>>)
    ensures r.Some? <==> ary.Some? && Flattened(ary.value) != []
    ensures r.Some? ==> r.value == Flattened(ary.value)
  {
    if ary.None? || Flattened(ary.value) == [] then None else Some(Flattened(ary.value))
  }

  /** The whole of setIptcData() once the data has been read: the IPTC data
      it keeps and the header it writes, which stays framed. */
  method IptcState(h: seq<Segment>, scan: Bytes, ary: Option<IptcGroups>)
    returns (iptc: Option<seq<Iptc.IptcEntry>>, r: Result<seq<Segment>>)
    requires Framed(h, scan)
    ensures iptc == IptcOf(ary)
    ensures r == IptcUpdated(h, iptc)
    ensures r.Ok? ==> Framed(r.value, scan)
  {
    var entries: seq<Iptc.IptcEntry> := [];
    if ary.Some? {
      entries := FlattenGroups(ary.value);
    }
    iptc := if entries == [] then None else Some(entries);
    r := UpdateIptc(h, iptc);
    IptcUpdatedFramed(h, iptc, scan);
  }

  // ---------------------------------------------------------------------------
  // setXmpData()'s loops.

  /** Replace or remove the first XMP segment; without one, insert a segment
      after the leading APP0/APP1 segments. */
  method PlaceXmp(h: seq<Segment>, xmp: Option<Bytes>) returns (r: seq<Segment>)
    ensures r == WithXmp(h, xmp)
  {
    for pos := 0 to |h|
      invariant forall j :: 0 <= j < pos ==> !IsXmpSegment(h[j])
    {
      if h[pos].name == XMP_TYPE && HasPrefix(h[pos].data, XMP_HEADER) {
        FirstXmpAt(h, pos);
        if xmp.None? {
          return h[..pos] + h[pos + 1..];
        }
        return h[pos := Segment(h[pos].name, h[pos].tag, XMP_HEADER + xmp.value)];
      }
    }
    FirstXmpAt(h, |h|);
    var pos := 0;
    while pos < |h| && (h[pos].name == XMP_TYPE_PRV || h[pos].name == XMP_TYPE)
      invariant pos <= |h|
      invariant forall j :: 0 <= j < pos ==> h[j].name == XMP_TYPE_PRV || h[j].name == XMP_TYPE
    {
      pos := pos + 1;
    }
    XmpSlotAt(h, pos);
    return h[..pos] + [XmpSegment(xmp)] + h[pos..];
  }

  // ---------------------------------------------------------------------------
  // The EXIF array and setExifData()'s loop.

  /** getExifData()'s nested loop: $output[block:tag] = $data, segment by segment. */
  method ExifOutput(d: seq<Exif.Decoded>) returns (output: map<string, Bytes>)
    requires Exif.AllPrintable(d)
    ensures output == ExifArray(d)
  {
    output := map[];
    for i := 0 to |d|
      invariant Printables(AllEntries(d[..i]))
      invariant output == ExifMap(AllEntries(d[..i]))
    {
      assert d[..i + 1][..i] == d[..i];
      assert AllEntries(d[..i + 1]) == AllEntries(d[..i]) + d[i].entries;
      assert forall e :: e in d[i].entries ==> e.Printable();
      output := AddExifEntries(AllEntries(d[..i]), d[i].entries, output);
    }
    assert d[..|d|] == d;
  }

  /** The inner loop of getExifData(): one segment's entries. */
  method AddExifEntries(before: seq<Exif.IfdEntry>, es: seq<Exif.IfdEntry>, m: map<string, Bytes>)
      returns (output: map<string, Bytes>)
    requires Printables(before) && forall e :: e in es ==> e.Printable()
    requires m == ExifMap(before)
    ensures Printables(before + es)
    ensures output == ExifMap(before + es)
  {
    output := m;
    assert before + es[..0] == before;
    for j := 0 to |es|
      invariant Printables(before + es[..j])
      invariant output == ExifMap(before + es[..j])
    {
      assert es[j] in es;
      assert before + es[..j + 1] == (before + es[..j]) + [es[j]];
      ExifMapSnoc(before + es[..j], es[j]);
      output := output[ExifKey(es[j]) := es[j].Data()];
    }
    assert es[..|es|] == es;
  }

  /** setExifData(): encode the EXIF payloads and write each back behind
      "Exif\0\0" into the segment it came from. */
  method UpdateExif(h: seq<Segment>, decoded: seq<Exif.Decoded>, edits: Option<seq<Exif.ExifEdit>>)
      returns (r: Result<seq<Segment>>)
    requires Exif.Aligned(ExifSegments(h), decoded)
    ensures r == ExifUpdated(h, decoded, edits)
  {
    var segments := GetExifSegments(h);
    var enc :- Exif.Encode(segments, decoded, edits);
    Exif.EncodeBytes(segments, decoded, edits);
    var out := h;
    for i := 0 to |enc|
      invariant out == ExifRewritten(h, enc[..i])
    {
      assert enc[..i + 1][..i] == enc[..i];
      var k := enc[i].index;
      out := out[k := Segment(out[k].name, out[k].tag, EXIF_HEADER + enc[i].data)];
    }
    assert enc[..|enc|] == enc;
    return Ok(out);
  }

  // ---------------------------------------------------------------------------
  // The class.

  class Jpeg {
    var header: seq<Segment>
    var img: Bytes
    var iptcData: Option<seq<Iptc.IptcEntry>>
    var xmpData: Option<Bytes>
    var exifData: Option<seq<Exif.Decoded>>
    var dataRead: bool
    var readOnly: bool

    /** The header and scan are framed as read() leaves them, and every decoded
        EXIF entry has a printable value. */
    ghost predicate Valid()
      reads this
    {
      Framed(header, img) && (exifData.Some? ==> Exif.AllPrintable(exifData.value))
    }

    constructor()
      ensures Valid()
      ensures header == [] && img == [] && iptcData.None? && xmpData.None? && exifData.None?
      ensures !dataRead && readOnly
    {
      header, img := [], [];
      iptcData, xmpData, exifData := None, None, None;
      dataRead, readOnly := false, true;
    }

    /** read(): frame the file, then decode IPTC, XMP and EXIF from the header.
        A framing error leaves nothing read; a decoding error leaves the header
        and scan but marks no data as read. */
    method Read(file: Bytes, asReadOnly: bool, fuel: nat) returns (r: Result<()>)
      modifies this
      ensures Valid()
      ensures readOnly == asReadOnly
      ensures Parse(file, asReadOnly).Err? ==>
                r == Err(Parse(file, asReadOnly).error) && header == [] && img == [] &&
                iptcData.None? && xmpData.None? && exifData.None?
      ensures Parse(file, asReadOnly).Ok? ==> Image(header, img) == Parse(file, asReadOnly).value
      ensures r.Ok? <==> Parse(file, asReadOnly).Ok? && Iptc.Decoded(IptcPayload(header)).Ok? &&
                         Exif.Decoding(ExifSegments(header), fuel).Ok?
      ensures r.Ok? ==> iptcData == Iptc.Decoded(IptcPayload(header)).value &&
                        xmpData == Some(XmpPayload(header)) &&
                        exifData == Exif.Decoding(ExifSegments(header), fuel).value
      ensures dataRead <==> r.Ok?
      ensures exifData.Some? ==> Exif.Aligned(ExifSegments(header), exifData.value)
    {
      header, img := [], [];
      iptcData, xmpData, exifData := None, None, None;
      dataRead, readOnly := false, asReadOnly;
      ParseFramed(file, asReadOnly);
      var image := ReadSegments(file, asReadOnly);
      if image.Err? {
        return Err(image.error);
      }
      header, img := image.value.header, image.value.scan;
      var iptc := GetIptcSegment(header);
      var decoded := Iptc.Decode(iptc);
      if decoded.Err? {
        return Err(decoded.error);
      }
      iptcData := decoded.value;
      var xmp := GetXmpSegment(header);
      xmpData := Some(xmp);
      var segments := GetExifSegments(header);
      var exif := Exif.Decode(segments, fuel);
      if exif.Err? {
        return Err(exif.error);
      }
      if exif.value.Some? {
        Exif.DecodeAllAligned(segments, fuel);
      }
      exifData := exif.value;
      dataRead := true;
      return Ok(());
    }

    /** write(): the bytes of the file, refused before a writable read and when
        a segment is too large for its length field; reading them back gives the
        header and scan. */
    method Write() returns (r: Result<Bytes>)
      requires Valid()
      ensures !dataRead || readOnly ==> r == Err(DataNotFound)
      ensures dataRead && !readOnly && !Fits(header) ==> r == Err(DataFormatError)
      ensures dataRead && !readOnly && Fits(header) ==> r == Ok(Emitted(header, img))
      ensures r.Ok? ==> Parse(r.value, false) == Ok(Image(header, img))
    {
      if !dataRead || readOnly {
        return Err(DataNotFound);
      }
      var fits := SegmentsFit(header);
      if !fits {
        return Err(DataFormatError);
      }
      var segments := EmitSegments(header);
      WriteReadRoundTrip(header, img);
      return Ok(SOI + segments + img + EOI);
    }

    /** getIptcData(): the DataSets grouped by tag, each tag's data in order. */
    method GetIptcData() returns (r: Result<Option<IptcGroups>>)
      ensures !dataRead ==> r == Err(DataNotFound)
      ensures dataRead && iptcData.None? ==> r == Ok(None)
      ensures dataRead && iptcData.Some? ==> r == Ok(Some(Grouped(iptcData.value)))
    {
      if !dataRead {
        return Err(DataNotFound);
      }
      if iptcData.None? {
        return Ok(None);
      }
      var output := GroupEntries(iptcData.value);
      return Ok(Some(output));
    }

    /** setIptcData(): the caller's array becomes the IPTC data (none when it
        lists nothing), then the header gets the packed IRBs. */
    method SetIptcData(ary: Option<IptcGroups>) returns (r: Result<()>)
      requires Valid()
      modifies this
      ensures Valid()
      ensures !old(dataRead) ==> r == Err(DataNotFound) && unchanged(this)
      ensures old(dataRead) ==>
                iptcData == IptcOf(ary) &&
                var u := IptcUpdated(old(header), iptcData);
                if u.Ok? then r == Ok(()) && header == u.value else r == Err(u.error) && header == old(header)
      ensures img == old(img) && xmpData == old(xmpData) && exifData == old(exifData) &&
              dataRead == old(dataRead) && readOnly == old(readOnly)
    {
      if !dataRead {
        return Err(DataNotFound);
      }
      var iptc, updated := IptcState(header, img, ary);
      iptcData := iptc;
      if updated.Err? {
        return Err(updated.error);
      }
      header := updated.value;
      return Ok(());
    }

    /** getXmpData(): the XMP block, as bytes. */
    method GetXmpData() returns (r: Result<Option<Bytes>>)
      ensures !dataRead ==> r == Err(DataNotFound)
      ensures dataRead ==> r == Ok(xmpData)
    {
      if !dataRead {
        return Err(DataNotFound);
      }
      return Ok(xmpData);
    }

    /** setXmpData(): the new block (or none) goes into the header. */
    method SetXmpData(xmp: Option<Bytes>) returns (r: Result<()>)
      requires Valid()
      modifies this
      ensures Valid()
      ensures !old(dataRead) ==> r == Err(DataNotFound) && xmpData == old(xmpData) && header == old(header)
      ensures old(dataRead) ==> r == Ok(()) && xmpData == xmp && header == WithXmp(old(header), xmp)
      ensures img == old(img) && iptcData == old(iptcData) && exifData == old(exifData)
      ensures dataRead == old(dataRead) && readOnly == old(readOnly)
    {
      if !dataRead {
        return Err(DataNotFound);
      }
      xmpData := xmp;
      WithXmpFramed(header, xmp, img);
      header := PlaceXmp(header, xmp);
      return Ok(());
    }

    /** getExifData(): the entries keyed by block and tag. */
    method GetExifData() returns (r: Result<Option<map<string, Bytes>>>)
      requires Valid()
      ensures !dataRead ==> r == Err(DataNotFound)
      ensures dataRead && exifData.None? ==> r == Ok(None)
      ensures dataRead && exifData.Some? ==> r == Ok(Some(ExifArray(exifData.value)))
    {
      if !dataRead {
        return Err(DataNotFound);
      }
      if exifData.None? {
        return Ok(None);
      }
      var output := ExifOutput(exifData.value);
      return Ok(Some(output));
    }

    /** setExifData(): nothing without decoded EXIF data; otherwise the EXIF
        segments get the encoded payloads. The decoded entries must still
        describe the header's EXIF segments. */
    method SetExifData(edits: Option<seq<Exif.ExifEdit>>) returns (r: Result<()>)
      requires Valid()
      requires exifData.Some? ==> Exif.Aligned(ExifSegments(header), exifData.value)
      modifies this
      ensures Valid()
      ensures exifData.Some? ==> Exif.Aligned(ExifSegments(header), exifData.value)
      ensures old(exifData).None? ==> r == Ok(()) && header == old(header)
      ensures old(exifData).Some? ==>
                var u := ExifUpdated(old(header), old(exifData).value, if edits.None? || edits.value == [] then None else edits);
                (r.Err? <==> u.Err?) && (u.Err? ==> r.error == u.error && header == old(header)) &&
                (u.Ok? ==> header == u.value)
      ensures img == old(img) && iptcData == old(iptcData) && xmpData == old(xmpData) && exifData == old(exifData)
      ensures dataRead == old(dataRead) && readOnly == old(readOnly)
    {
      var ary := if edits.None? || edits.value == [] then None else edits;
      if exifData.None? {
        return Ok(());
      }
      var h, scan, decoded := header, img, exifData.value;
      assert Framed(h, scan) && Exif.Aligned(ExifSegments(h), decoded);
      var updated := UpdateExif(h, decoded, ary);
      if updated.Err? {
        return Err(updated.error);
      }
      ExifUpdatedKeeps(h, decoded, ary, scan);
      header := updated.value;
      return Ok(());
    }
  }
}
