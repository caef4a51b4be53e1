// Selecting and splicing the metadata segments of a JPEG header: the APP13
// segments that carry IPTC data, the APP1 segment that carries XMP and the
// APP1 segments that carry EXIF data (the helpers of class Jpeg in
// src/Metadata/Jpeg.php).

module JpegSegments {
  import opened Common
  import opened JpegFraming
  import Iptc
  import Exif

  // ---------------------------------------------------------------------------
  // IPTC: APP13 segments that start with "Photoshop 3.0\0".

  predicate IsIptcSegment(s: Segment)
  {
    s.name == Iptc.IPTC_TYPE && HasPrefix(s.data, Iptc.IPTC_HEADER)
  }

  /** What an IPTC segment contributes: its data after the Photoshop header. */
  function IptcPart(s: Segment): (r: Bytes)
    ensures IsIptcSegment(s) ==> s.data == Iptc.IPTC_HEADER + r
    ensures !IsIptcSegment(s) ==> r == []
  {
    if IsIptcSegment(s) then s.data[Iptc.IPTC_HEADER_LEN..] else []
  }

  /** getIptcSegment: the payloads of all IPTC segments, in header order, concatenated. */
  function IptcPayload(h: seq<Segment>): Bytes
  {
    if h == [] then [] else IptcPayload(h[..|h| - 1]) + IptcPart(h[|h| - 1])
  }

  /** Gathering payloads distributes over the parts of a header. */
  lemma {:induction false} IptcPayloadAppend(a: seq<Segment>, b: seq<Segment>)
    ensures IptcPayload(a + b) == IptcPayload(a) + IptcPayload(b)
    decreases |b|
  {
    if b != [] {
      var n := |b| - 1;
      assert (a + b)[..|a + b| - 1] == a + b[..n];
      assert (a + b)[|a + b| - 1] == b[n];
      IptcPayloadAppend(a, b[..n]);
      assert IptcPayload(a + b) == IptcPayload(a + b[..n]) + IptcPart(b[n]);
      assert IptcPayload(b) == IptcPayload(b[..n]) + IptcPart(b[n]);
    } else {
      assert a + b == a;
    }
  }

  predicate NoIptc(h: seq<Segment>)
  {
    forall i :: 0 <= i < |h| ==> !IsIptcSegment(h[i])
  }

  /** A header without IPTC segments carries no IPTC payload. */
  lemma {:induction false} NoIptcPayload(h: seq<Segment>)
    requires NoIptc(h)
    ensures IptcPayload(h) == []
    decreases |h|
  {
    if h != [] {
      NoIptcPayload(h[..|h| - 1]);
    }
  }

  /** The non-IPTC segments of a header, in order. */
  function NonIptc(h: seq<Segment>): (r: seq<Segment>)
    ensures NoIptc(r)
  {
    if h == [] then []
    else if IsIptcSegment(h[0]) then NonIptc(h[1..])
    else [h[0]] + NonIptc(h[1..])
  }

  /** The delete loop of setIptcData as written: array_splice removes the IPTC
      segment at the cursor and the cursor still advances, so the segment that
      moved into its place is never examined. */
  function DropIptc(h: seq<Segment>): (r: seq<Segment>)
    ensures |r| <= |h|
  {
    if h == [] then []
    else if IsIptcSegment(h[0]) then (if |h| == 1 then [] else [h[1]] + DropIptc(h[2..]))
    else [h[0]] + DropIptc(h[1..])
  }

  /** Two IPTC segments side by side. */
  predicate AdjacentIptc(h: seq<Segment>)
  {
    exists i :: 0 <= i < |h| - 1 && IsIptcSegment(h[i]) && IsIptcSegment(h[i + 1])
  }

  /** The delete loop never removes a segment that is not an IPTC segment. */
  lemma {:induction false} DropIptcKeeps(h: seq<Segment>)
    ensures NonIptc(DropIptc(h)) == NonIptc(h)
    decreases |h|
  {
    if h != [] {
      if IsIptcSegment(h[0]) {
        if |h| > 1 {
          DropIptcKeeps(h[2..]);
          var d := [h[1]] + DropIptc(h[2..]);
          assert d[0] == h[1] && d[1..] == DropIptc(h[2..]);
          assert h[1..][0] == h[1] && h[1..][1..] == h[2..];
        }
      } else {
        DropIptcKeeps(h[1..]);
        var d := [h[0]] + DropIptc(h[1..]);
        assert d[0] == h[0] && d[1..] == DropIptc(h[1..]);
      }
    }
  }

  /** Without two IPTC segments side by side, the delete loop removes them all. */
  lemma {:induction false} DropIptcAll(h: seq<Segment>)
    requires !AdjacentIptc(h)
    ensures DropIptc(h) == NonIptc(h)
    decreases |h|
  {
    if h != [] {
      if IsIptcSegment(h[0]) {
        if |h| > 1 {
          assert !IsIptcSegment(h[1]);
          assert h[1..][0] == h[1] && h[1..][1..] == h[2..];
          assert !AdjacentIptc(h[2..]) by {
            forall i | 0 <= i < |h[2..]| - 1
              ensures !(IsIptcSegment(h[2..][i]) && IsIptcSegment(h[2..][i + 1]))
            {
              assert h[2..][i] == h[i + 2] && h[2..][i + 1] == h[i + 3];
            }
          }
          DropIptcAll(h[2..]);
        }
      } else {
        assert !AdjacentIptc(h[1..]) by {
          forall i | 0 <= i < |h[1..]| - 1
            ensures !(IsIptcSegment(h[1..][i]) && IsIptcSegment(h[1..][i + 1]))
          {
            assert h[1..][i] == h[i + 1] && h[1..][i + 1] == h[i + 2];
          }
        }
        DropIptcAll(h[1..]);
      }
    }
  }

  /** With two IPTC segments side by side the second one survives the delete loop. */
  lemma DropIptcSkipsNeighbour()
    ensures var s := Segment(Iptc.IPTC_TYPE, 0xED, Iptc.IPTC_HEADER);
            IsIptcSegment(s) && DropIptc([s, s]) == [s]
  {
    var s := Segment(Iptc.IPTC_TYPE, 0xED, Iptc.IPTC_HEADER);
    assert [s, s][2..] == [];
  }

  /** The largest IPTC payload one inserted segment takes. */
  const IPTC_CHUNK := 32000

  /** An APP13 segment carrying one chunk of the packed IRBs. */
  function IptcSegment(chunk: Bytes): Segment
  {
    Segment(Iptc.IPTC_TYPE, 0xED, Iptc.IPTC_HEADER + chunk)
  }

  /** The segments setIptcData inserts: chunks of 32000 bytes while more remain,
      then the rest (possibly empty). */
  function ChunkSegments(packed: Bytes): (r: seq<Segment>)
    ensures |r| >= 1
    decreases |packed|
  {
    if |packed| > IPTC_CHUNK then [IptcSegment(packed[..IPTC_CHUNK])] + ChunkSegments(packed[IPTC_CHUNK..])
    else [IptcSegment(packed)]
  }

  /** One chunk segment: an IPTC segment whose payload is the chunk. */
  lemma IptcSegmentPart(chunk: Bytes)
    ensures IsIptcSegment(IptcSegment(chunk))
    ensures IptcPayload([IptcSegment(chunk)]) == chunk
  {
    var s := IptcSegment(chunk);
    assert s.data[..|Iptc.IPTC_HEADER|] == Iptc.IPTC_HEADER;
    assert s.data[Iptc.IPTC_HEADER_LEN..] == chunk;
    assert [s][..0] == [];
  }

  /** The payloads of the inserted segments concatenate to the packed IRBs. */
  lemma {:induction false} ChunkSegmentsPayload(packed: Bytes)
    ensures IptcPayload(ChunkSegments(packed)) == packed
    decreases |packed|
  {
    if |packed| > IPTC_CHUNK {
      var chunk := packed[..IPTC_CHUNK];
      var rest := packed[IPTC_CHUNK..];
      IptcSegmentPart(chunk);
      ChunkSegmentsPayload(rest);
      IptcPayloadAppend([IptcSegment(chunk)], ChunkSegments(rest));
      assert packed == chunk + rest;
    } else {
      IptcSegmentPart(packed);
    }
  }

  /** The inserted segments are APP13 IPTC segments, each within the segment
      size limit. */
  lemma {:induction false} ChunkSegmentsShape(packed: Bytes)
    ensures forall i :: 0 <= i < |ChunkSegments(packed)| ==>
              var s := ChunkSegments(packed)[i];
              IsIptcSegment(s) && s.tag == 0xED && |s.data| <= Iptc.IPTC_HEADER_LEN + IPTC_CHUNK
    decreases |packed|
  {
    if |packed| > IPTC_CHUNK {
      var chunk := packed[..IPTC_CHUNK];
      var rest := packed[IPTC_CHUNK..];
      IptcSegmentPart(chunk);
      ChunkSegmentsShape(rest);
      var r := ChunkSegments(packed);
      assert r == [IptcSegment(chunk)] + ChunkSegments(rest);
      assert forall i :: 1 <= i < |r| ==> r[i] == ChunkSegments(rest)[i - 1];
    } else {
      IptcSegmentPart(packed);
    }
  }

  /** An APP marker after which setIptcData inserts: APP0..APP13. */
  predicate IptcAnchor(tag: byte)
  {
    0xE0 <= tag <= 0xED
  }

  /** The index of the last segment with an APP0..APP13 marker, or -1. */
  function LastAnchor(h: seq<Segment>): (r: int)
    ensures -1 <= r < |h|
    ensures r >= 0 ==> IptcAnchor(h[r].tag)
    ensures forall j :: r < j < |h| ==> !IptcAnchor(h[j].tag)
  {
    if h == [] then -1
    else if IptcAnchor(h[|h| - 1].tag) then |h| - 1
    else LastAnchor(h[..|h| - 1])
  }

  /** setIptcData's splice: the new segments go right after the last APP0..APP13
      segment, or at the front when there is none. */
  function WithIptc(h: seq<Segment>, packed: Bytes): seq<Segment>
  {
    var at := LastAnchor(h) + 1;
    h[..at] + ChunkSegments(packed) + h[at..]
  }

  /** What setIptcData does to the header once the IRBs are packed. */
  function IptcReplaced(h: seq<Segment>, packed: Bytes): seq<Segment>
  {
    WithIptc(DropIptc(h), packed)
  }

  /** Reading the IPTC payload back after setIptcData gives exactly the packed
      IRBs, provided no two IPTC segments stood side by side before. */
  lemma IptcReplacedPayload(h: seq<Segment>, packed: Bytes)
    requires !AdjacentIptc(h)
    ensures IptcPayload(IptcReplaced(h, packed)) == packed
  {
    DropIptcAll(h);
    var d := NonIptc(h);
    var at := LastAnchor(d) + 1;
    var segs := ChunkSegments(packed);
    assert IptcReplaced(h, packed) == d[..at] + segs + d[at..];
    NoIptcSplit(d, at);
    ChunkSegmentsPayload(packed);
    IptcPayloadAppend(d[..at], segs);
    IptcPayloadAppend(d[..at] + segs, d[at..]);
  }

  // ---------------------------------------------------------------------------
  // The splices keep the header framed.

  /** The framing of a header, apart from the scan. */
  predicate Shaped(h: seq<Segment>)
  {
    (forall i :: 0 <= i < |h| ==> Framable(h[i])) &&
    (forall i :: 0 <= i < |h| - 1 ==> h[i].tag != SOS)
  }

  /** A header shaped like a framed one, ending with SOS exactly when the framed
      one does, is framed with the same scan. */
  lemma ShapedFramed(h: seq<Segment>, h': seq<Segment>, scan: Bytes)
    requires Framed(h, scan) && Shaped(h') && (EndsWithSos(h') <==> EndsWithSos(h))
    ensures Framed(h', scan)
  {
  }

  /** A framed IPTC segment is an APP13 segment, so not SOS. */
  lemma IptcSegmentTag(s: Segment)
    requires Framable(s) && IsIptcSegment(s)
    ensures s.tag == 0xED
  {
    SegmentNameKnown(s.tag);
  }

  /** A suffix of a shaped header is shaped and ends like it. */
  lemma ShapedSuffix(h: seq<Segment>, k: nat)
    requires Shaped(h) && k <= |h|
    ensures Shaped(h[k..])
    ensures h[k..] != [] ==> (EndsWithSos(h[k..]) <==> EndsWithSos(h))
    ensures k < |h| - 1 ==> h[k].tag != SOS
  {
    var t := h[k..];
    forall i | 0 <= i < |t|
      ensures Framable(t[i])
    {
      assert t[i] == h[k + i];
    }
    forall i | 0 <= i < |t| - 1
      ensures t[i].tag != SOS
    {
      assert t[i] == h[k + i];
    }
    if t != [] {
      assert t[|t| - 1] == h[|h| - 1];
    }
  }

  /** A framable segment in front of a shaped header, not SOS unless it ends up last. */
  lemma ConsShaped(s: Segment, d: seq<Segment>)
    requires Shaped(d) && Framable(s) && (d != [] ==> s.tag != SOS)
    ensures Shaped([s] + d)
    ensures EndsWithSos([s] + d) <==> (if d == [] then s.tag == SOS else EndsWithSos(d))
  {
    var r := [s] + d;
    assert forall i :: 1 <= i < |r| ==> r[i] == d[i - 1];
  }

  /** Taking segments out with the delete loop keeps the shape, and keeps a final SOS. */
  lemma {:induction false} DropIptcShaped(h: seq<Segment>)
    requires Shaped(h)
    ensures Shaped(DropIptc(h)) && (EndsWithSos(DropIptc(h)) <==> EndsWithSos(h))
    decreases |h|
  {
    if h != [] {
      var k := if IsIptcSegment(h[0]) then 1 else 0;
      if IsIptcSegment(h[0]) {
        IptcSegmentTag(h[0]);
      }
      if k < |h| {
        var t := h[k + 1..];
        ShapedSuffix(h, k + 1);
        ShapedSuffix(h, k);
        DropIptcShaped(t);
        assert DropIptc(h) == [h[k]] + DropIptc(t);
        ConsShaped(h[k], DropIptc(t));
        if t == [] {
          assert h[|h| - 1] == h[k];
        }
      }
    }
  }


  /** Segments spliced in before SOS keep the header framed. */
  lemma InsertShaped(h: seq<Segment>, at: nat, segs: seq<Segment>)
    requires Shaped(h) && at <= |h| && (EndsWithSos(h) ==> at < |h|)
    requires forall i :: 0 <= i < |segs| ==> Framable(segs[i]) && segs[i].tag != SOS
    ensures Shaped(h[..at] + segs + h[at..])
    ensures EndsWithSos(h[..at] + segs + h[at..]) <==> EndsWithSos(h)
  {
    var r := h[..at] + segs + h[at..];
    forall i | 0 <= i < |r|
      ensures Framable(r[i]) && (i < |r| - 1 ==> r[i].tag != SOS)
    {
      InsertedAt(h, at, segs, i);
      if i < at {
        assert r[i] == h[i];
      } else if i < at + |segs| {
        assert r[i] == segs[i - at];
      } else {
        assert r[i] == h[i - |segs|];
      }
    }
    if r != [] {
      InsertedAt(h, at, segs, |r| - 1);
    }
    if at == |h| && h != [] {
      assert h[|h| - 1].tag != SOS;
    }
  }

  /** Where each segment of a splice comes from. */
  lemma InsertedAt(h: seq<Segment>, at: nat, segs: seq<Segment>, i: nat)
    requires at <= |h| && i < |h| + |segs|
    ensures (h[..at] + segs + h[at..])[i] ==
            if i < at then h[i] else if i < at + |segs| then segs[i - at] else h[i - |segs|]
  {
  }

  /** Taking out a segment other than SOS keeps the header framed. */
  lemma RemoveShaped(h: seq<Segment>, k: nat)
    requires Shaped(h) && k < |h| && h[k].tag != SOS
    ensures Shaped(h[..k] + h[k + 1..])
    ensures EndsWithSos(h[..k] + h[k + 1..]) <==> EndsWithSos(h)
  {
    var r := h[..k] + h[k + 1..];
    assert forall i :: 0 <= i < k ==> r[i] == h[i];
    assert forall i :: k <= i < |r| ==> r[i] == h[i + 1];
  }

  /** Segments that keep their names and markers; only data may differ. */
  predicate SameMarkers(h: seq<Segment>, h': seq<Segment>)
  {
    |h| == |h'| && forall k :: 0 <= k < |h| ==> h'[k].name == h[k].name && h'[k].tag == h[k].tag
  }

  /** Changing only the data of segments keeps the header framed. */
  lemma SameMarkersShaped(h: seq<Segment>, h': seq<Segment>)
    requires Shaped(h) && SameMarkers(h, h')
    ensures Shaped(h') && (EndsWithSos(h') <==> EndsWithSos(h))
  {
  }

  /** Both sides of a cut through a header without IPTC segments carry no IPTC payload. */
  lemma NoIptcSplit(d: seq<Segment>, at: nat)
    requires NoIptc(d) && at <= |d|
    ensures IptcPayload(d[..at]) == [] && IptcPayload(d[at..]) == []
  {
    assert forall i :: 0 <= i < |d| - at ==> d[at..][i] == d[at + i];
    NoIptcPayload(d[..at]);
    NoIptcPayload(d[at..]);
  }

  /** setIptcData keeps a framed header framed: the IPTC segments it deletes
      are APP13 segments, and it inserts after the last APP0..APP13 segment,
      so before SOS. */
  lemma IptcReplacedFramed(h: seq<Segment>, packed: Bytes, scan: Bytes)
    requires Framed(h, scan)
    ensures Framed(IptcReplaced(h, packed), scan)
  {
    DropIptcShaped(h);
    var d := DropIptc(h);
    var at := LastAnchor(d) + 1;
    if EndsWithSos(d) {
      assert !IptcAnchor(d[|d| - 1].tag);
    }
    var segs := ChunkSegments(packed);
    ChunksInsertable(packed);
    InsertShaped(d, at, segs);
    assert IptcReplaced(h, packed) == d[..at] + segs + d[at..];
    ShapedFramed(h, IptcReplaced(h, packed), scan);
  }

  /** The chunk segments are framable APP13 segments, so none is SOS. */
  lemma ChunksInsertable(packed: Bytes)
    ensures forall i :: 0 <= i < |ChunkSegments(packed)| ==>
              Framable(ChunkSegments(packed)[i]) && ChunkSegments(packed)[i].tag != SOS
  {
    ChunkSegmentsShape(packed);
    SegmentNameKnown(0xED);
  }

  /** setIptcData's new header for the IPTC data `iptc`: the IRBs packed from
      the current IPTC payload and `iptc` replace the IPTC segments, or the
      encoder's error. */
  function IptcUpdated(h: seq<Segment>, iptc: Option<seq<Iptc.IptcEntry>>): Result<seq<Segment>>
  {
    var packed :- Iptc.Encoded(IptcPayload(h), iptc);
    Ok(IptcReplaced(h, packed))
  }

  /** setIptcData keeps the header framed. */
  lemma IptcUpdatedFramed(h: seq<Segment>, iptc: Option<seq<Iptc.IptcEntry>>, scan: Bytes)
    requires Framed(h, scan)
    ensures IptcUpdated(h, iptc).Ok? ==> Framed(IptcUpdated(h, iptc).value, scan)
  {
    var packed := Iptc.Encoded(IptcPayload(h), iptc);
    if packed.Ok? {
      assert IptcUpdated(h, iptc) == Ok(IptcReplaced(h, packed.value));
      IptcReplacedFramed(h, packed.value, scan);
    }
  }

  /** The IPTC payload read back after setIptcData is what the encoder packed,
      when no two IPTC segments stood side by side. */
  lemma IptcUpdatedPayload(h: seq<Segment>, iptc: Option<seq<Iptc.IptcEntry>>)
    requires !AdjacentIptc(h)
    ensures IptcUpdated(h, iptc).Ok? ==>
              IptcPayload(IptcUpdated(h, iptc).value) == Iptc.Encoded(IptcPayload(h), iptc).value
  {
    var packed := Iptc.Encoded(IptcPayload(h), iptc);
    if packed.Ok? {
      var r := IptcReplaced(h, packed.value);
      assert IptcUpdated(h, iptc) == Ok(r);
      IptcReplacedPayload(h, packed.value);
      assert IptcPayload(r) == packed.value;
    }
  }

  // ---------------------------------------------------------------------------
  // XMP: the first APP1 segment that starts with the XMP namespace.

  const XMP_TYPE := "APP1"
  const XMP_TYPE_PRV := "APP0"
  const XMP_TYPE_TAG: byte := 0xE1
  const XMP_HEADER: Bytes := Ascii("http://ns.adobe.com/xap/1.0/") + [0]
  const XMP_HEADER_LEN := 29

  predicate IsXmpSegment(s: Segment)
  {
    s.name == XMP_TYPE && HasPrefix(s.data, XMP_HEADER)
  }

  /** The index of the first XMP segment from `from` on, or |h| when there is none. */
  function FirstXmpFrom(h: seq<Segment>, from: nat): (r: nat)
    requires from <= |h|
    ensures from <= r <= |h|
    ensures r < |h| ==> IsXmpSegment(h[r])
    ensures forall j :: from <= j < r ==> !IsXmpSegment(h[j])
    decreases |h| - from
  {
    if from == |h| || IsXmpSegment(h[from]) then from else FirstXmpFrom(h, from + 1)
  }

  /** The index of the first XMP segment, or |h| when there is none. */
  function FirstXmp(h: seq<Segment>): (r: nat)
    ensures r <= |h|
    ensures r < |h| ==> IsXmpSegment(h[r])
    ensures forall j :: 0 <= j < r ==> !IsXmpSegment(h[j])
  {
    FirstXmpFrom(h, 0)
  }

  /** getXmpSegment: the data of the first XMP segment after the namespace, or
      nothing when there is none. */
  function XmpPayload(h: seq<Segment>): Bytes
  {
    var k := FirstXmp(h);
    if k < |h| then h[k].data[XMP_HEADER_LEN..] else []
  }

  /** Where setXmpData adds a segment: after the APP0 and APP1 segments that
      lead the header from `from` on. */
  function XmpSlotFrom(h: seq<Segment>, from: nat): (r: nat)
    requires from <= |h|
    ensures from <= r <= |h|
    ensures r < |h| ==> h[r].name != XMP_TYPE_PRV && h[r].name != XMP_TYPE
    ensures forall j :: from <= j < r ==> h[j].name == XMP_TYPE_PRV || h[j].name == XMP_TYPE
    decreases |h| - from
  {
    if from == |h| || (h[from].name != XMP_TYPE_PRV && h[from].name != XMP_TYPE) then from
    else XmpSlotFrom(h, from + 1)
  }

  /** Where setXmpData adds a segment: after the leading APP0 and APP1 segments. */
  function XmpSlot(h: seq<Segment>): (r: nat)
    ensures r <= |h|
    ensures r < |h| ==> h[r].name != XMP_TYPE_PRV && h[r].name != XMP_TYPE
    ensures forall j :: 0 <= j < r ==> h[j].name == XMP_TYPE_PRV || h[j].name == XMP_TYPE
  {
    XmpSlotFrom(h, 0)
  }

  /** The segment setXmpData adds when the header has no XMP segment; without a
      new XMP block it carries the namespace alone. */
  function XmpSegment(xmp: Option<Bytes>): Segment
  {
    Segment(XMP_TYPE, XMP_TYPE_TAG, XMP_HEADER + (if xmp.Some? then xmp.value else []))
  }

  /** What setXmpData does to the header: the first XMP segment gets the new
      block, or is removed when there is none; without an XMP segment a new one
      is added after the leading APP0/APP1 segments. */
  function WithXmp(h: seq<Segment>, xmp: Option<Bytes>): seq<Segment>
  {
    var k := FirstXmp(h);
    if k < |h| then
      if xmp.None? then h[..k] + h[k + 1..]
      else h[k := Segment(h[k].name, h[k].tag, XMP_HEADER + xmp.value)]
    else
      var at := XmpSlot(h);
      h[..at] + [XmpSegment(xmp)] + h[at..]
  }

  /** The segment setXmpData writes is an XMP segment carrying the block. */
  lemma XmpSegmentPayload(name: string, tag: byte, b: Bytes)
    requires name == XMP_TYPE
    ensures IsXmpSegment(Segment(name, tag, XMP_HEADER + b))
    ensures (XMP_HEADER + b)[XMP_HEADER_LEN..] == b
  {
    assert (XMP_HEADER + b)[..|XMP_HEADER|] == XMP_HEADER;
  }

  /** Reading the XMP block back after setXmpData with a block gives that block. */
  lemma XmpRoundTrip(h: seq<Segment>, b: Bytes)
    ensures XmpPayload(WithXmp(h, Some(b))) == b
  {
    var k := FirstXmp(h);
    var r := WithXmp(h, Some(b));
    if k < |h| {
      XmpSegmentPayload(h[k].name, h[k].tag, b);
      assert forall j :: 0 <= j < k ==> r[j] == h[j];
      FirstXmpAt(r, k);
    } else {
      var at := XmpSlot(h);
      XmpSegmentPayload(XMP_TYPE, XMP_TYPE_TAG, b);
      assert r[at] == XmpSegment(Some(b));
      assert forall j :: 0 <= j < at ==> r[j] == h[j];
      FirstXmpAt(r, at);
    }
  }

  /** The first XMP segment is at k when it is one and none comes before it. */
  lemma FirstXmpAt(h: seq<Segment>, k: nat)
    requires k <= |h| && (k < |h| ==> IsXmpSegment(h[k])) && forall j :: 0 <= j < k ==> !IsXmpSegment(h[j])
    ensures FirstXmp(h) == k
  {
  }

  /** The slot is the first segment that is neither APP0 nor APP1. */
  lemma XmpSlotAt(h: seq<Segment>, k: nat)
    requires k <= |h| && (k < |h| ==> h[k].name != XMP_TYPE_PRV && h[k].name != XMP_TYPE)
    requires forall j :: 0 <= j < k ==> h[j].name == XMP_TYPE_PRV || h[j].name == XMP_TYPE
    ensures XmpSlot(h) == k
  {
  }

  /** setXmpData without a block removes the first XMP segment, so a later one
      (if any) surfaces. */
  lemma XmpUnsetRemoves(h: seq<Segment>)
    requires FirstXmp(h) < |h|
    ensures WithXmp(h, None) == h[..FirstXmp(h)] + h[FirstXmp(h) + 1..]
    ensures XmpPayload(WithXmp(h, None)) == XmpPayload(h[FirstXmp(h) + 1..])
  {
    var k := FirstXmp(h);
    var t := h[k + 1..];
    var r := h[..k] + t;
    assert forall j :: 0 <= j < k ==> r[j] == h[j];
    var m := FirstXmp(t);
    if m < |t| {
      assert r[k + m] == t[m];
      FirstXmpAt(r, k + m);
    } else {
      assert forall j :: k <= j < |r| ==> r[j] == t[j - k];
      FirstXmpAt(r, |r|);
    }
  }

  /** setXmpData without a block, on a header without XMP, adds a segment that
      carries the namespace alone, whose block reads back empty. */
  lemma XmpUnsetAdds(h: seq<Segment>)
    requires FirstXmp(h) == |h|
    ensures |WithXmp(h, None)| == |h| + 1
    ensures XmpPayload(WithXmp(h, None)) == []
  {
    var at := XmpSlot(h);
    var r := WithXmp(h, None);
    XmpSegmentPayload(XMP_TYPE, XMP_TYPE_TAG, []);
    assert r[at] == XmpSegment(None);
    assert forall j :: 0 <= j < at ==> r[j] == h[j];
    FirstXmpAt(r, at);
  }

  /** setXmpData keeps a framed header framed. */
  lemma WithXmpFramed(h: seq<Segment>, xmp: Option<Bytes>, scan: Bytes)
    requires Framed(h, scan)
    ensures Framed(WithXmp(h, xmp), scan)
  {
    var k := FirstXmp(h);
    if k < |h| {
      if xmp.None? {
        SegmentNameKnown(h[k].tag);
        RemoveShaped(h, k);
      } else {
        SameMarkersShaped(h, WithXmp(h, xmp));
      }
    } else {
      XmpAddShaped(h, xmp);
    }
    ShapedFramed(h, WithXmp(h, xmp), scan);
  }

  /** The added XMP segment lands before SOS, since SOS is named "0xda". */
  lemma XmpAddShaped(h: seq<Segment>, xmp: Option<Bytes>)
    requires Shaped(h)
    ensures var r := h[..XmpSlot(h)] + [XmpSegment(xmp)] + h[XmpSlot(h)..];
            Shaped(r) && (EndsWithSos(r) <==> EndsWithSos(h))
  {
    var at := XmpSlot(h);
    SegmentNameKnown(XMP_TYPE_TAG);
    if EndsWithSos(h) {
      SegmentNameKnown(SOS);
      assert h[|h| - 1].name == SegmentName(SOS);
    }
    InsertShaped(h, at, [XmpSegment(xmp)]);
  }

  // ---------------------------------------------------------------------------
  // EXIF: APP1 segments that start with "Exif\0\0" or "Exif\0\xFF".

  const EXIF_TYPE := "APP1"
  const EXIF_HEADER: Bytes := Ascii("Exif") + [0, 0]
  const EXIF_HEADER_FF: Bytes := Ascii("Exif") + [0, 0xFF]
  const EXIF_HEADER_LEN := 6

  predicate IsExifSegment(s: Segment)
  {
    s.name == EXIF_TYPE && (HasPrefix(s.data, EXIF_HEADER) || HasPrefix(s.data, EXIF_HEADER_FF))
  }

  /** getExifSegments: every EXIF segment's data after its six-byte header,
      with the segment's index in the header. */
  function ExifSegments(h: seq<Segment>): (r: seq<Exif.Segment>)
    ensures forall i :: 0 <= i < |r| ==> r[i].index < |h|
    ensures forall i, j :: 0 <= i < j < |r| ==> r[i].index < r[j].index
  {
    if h == [] then []
    else
      var n := |h| - 1;
      var init := ExifSegments(h[..n]);
      if IsExifSegment(h[n]) then init + [Exif.Segment(n, h[n].data[EXIF_HEADER_LEN..])] else init
  }

  /** Each selected payload comes from an EXIF segment, after its header. */
  lemma {:induction false} ExifSegmentsSound(h: seq<Segment>, i: nat)
    requires i < |ExifSegments(h)|
    ensures IsExifSegment(h[ExifSegments(h)[i].index])
    ensures ExifSegments(h)[i].data == h[ExifSegments(h)[i].index].data[EXIF_HEADER_LEN..]
  {
    var n := |h| - 1;
    var init := ExifSegments(h[..n]);
    var r := ExifSegments(h);
    if i < |init| {
      assert r[i] == init[i];
      ExifSegmentsSound(h[..n], i);
      assert h[..n][init[i].index] == h[init[i].index];
    } else {
      assert r[i] == Exif.Segment(n, h[n].data[EXIF_HEADER_LEN..]);
    }
  }

  /** Every EXIF segment of the header is selected. */
  lemma {:induction false} ExifSegmentsComplete(h: seq<Segment>, k: nat)
    requires k < |h| && IsExifSegment(h[k])
    ensures exists i :: 0 <= i < |ExifSegments(h)| && ExifSegments(h)[i].index == k
  {
    var n := |h| - 1;
    var r := ExifSegments(h);
    if k < n {
      assert h[..n][k] == h[k];
      ExifSegmentsComplete(h[..n], k);
      var i :| 0 <= i < |ExifSegments(h[..n])| && ExifSegments(h[..n])[i].index == k;
      assert r[i] == ExifSegments(h[..n])[i];
    } else {
      assert r[|r| - 1].index == k;
    }
  }

  /** Indices of payloads that lie in the header, each after the one before. */
  predicate Placed(enc: seq<Exif.Segment>, n: nat)
  {
    (forall i :: 0 <= i < |enc| ==> enc[i].index < n) &&
    (forall i, j :: 0 <= i < j < |enc| ==> enc[i].index < enc[j].index)
  }

  /** setExifData's write-back: each encoded payload becomes the data of the
      segment it came from, behind "Exif\0\0"; names and markers stay. */
  function ExifRewritten(h: seq<Segment>, enc: seq<Exif.Segment>): (r: seq<Segment>)
    requires forall i :: 0 <= i < |enc| ==> enc[i].index < |h|
    ensures SameMarkers(h, r)
  {
    if enc == [] then h
    else
      var p := ExifRewritten(h, enc[..|enc| - 1]);
      var e := enc[|enc| - 1];
      p[e.index := Segment(p[e.index].name, p[e.index].tag, EXIF_HEADER + e.data)]
  }

  /** The segment of each payload holds that payload after the header; every
      other segment is unchanged. */
  lemma {:induction false} ExifRewrittenAt(h: seq<Segment>, enc: seq<Exif.Segment>, k: nat)
    requires Placed(enc, |h|) && k < |h|
    ensures forall i :: 0 <= i < |enc| && enc[i].index == k ==>
              ExifRewritten(h, enc)[k] == Segment(h[k].name, h[k].tag, EXIF_HEADER + enc[i].data)
    ensures (forall i :: 0 <= i < |enc| ==> enc[i].index != k) ==> ExifRewritten(h, enc)[k] == h[k]
  {
    if enc != [] {
      var m := |enc| - 1;
      var init := enc[..m];
      var e := enc[m];
      assert Placed(init, |h|) by {
        assert forall i :: 0 <= i < m ==> init[i] == enc[i];
      }
      ExifRewrittenAt(h, init, k);
      var p := ExifRewritten(h, init);
      var r := ExifRewritten(h, enc);
      assert r == p[e.index := Segment(p[e.index].name, p[e.index].tag, EXIF_HEADER + e.data)];
      if e.index != k {
        assert r[k] == p[k];
        forall i | 0 <= i < |enc| && enc[i].index == k
          ensures r[k] == Segment(h[k].name, h[k].tag, EXIF_HEADER + enc[i].data)
        {
          assert init[i] == enc[i];
        }
      } else {
        assert p[k] == h[k] by {
          forall i | 0 <= i < m
            ensures init[i].index != k
          {
            assert init[i] == enc[i];
          }
        }
        forall i | 0 <= i < |enc| && enc[i].index == k
          ensures i == m
        {
        }
      }
    }
  }

  /** Headers whose segments are EXIF segments at the same places select payloads
      from the same segments. */
  lemma {:induction false} ExifSegmentsSamePlaces(h: seq<Segment>, h': seq<Segment>)
    requires |h| == |h'| && forall k :: 0 <= k < |h| ==> (IsExifSegment(h'[k]) <==> IsExifSegment(h[k]))
    ensures |ExifSegments(h')| == |ExifSegments(h)|
    ensures forall i :: 0 <= i < |ExifSegments(h)| ==> ExifSegments(h')[i].index == ExifSegments(h)[i].index
  {
    if h != [] {
      var n := |h| - 1;
      assert forall k :: 0 <= k < n ==> h[..n][k] == h[k] && h'[..n][k] == h'[k];
      ExifSegmentsSamePlaces(h[..n], h'[..n]);
    }
  }

  /** After setExifData the header selects exactly the encoded payloads. */
  lemma ExifRewrittenSegments(h: seq<Segment>, enc: seq<Exif.Segment>)
    requires |enc| == |ExifSegments(h)|
    requires forall i :: 0 <= i < |enc| ==> enc[i].index == ExifSegments(h)[i].index
    ensures ExifSegments(ExifRewritten(h, enc)) == enc
  {
    var r := ExifRewritten(h, enc);
    assert Placed(enc, |h|);
    forall k | 0 <= k < |h|
      ensures IsExifSegment(r[k]) <==> IsExifSegment(h[k])
    {
      ExifRewrittenAt(h, enc, k);
      if i :| 0 <= i < |enc| && enc[i].index == k {
        ExifSegmentsSound(h, i);
        assert (EXIF_HEADER + enc[i].data)[..|EXIF_HEADER|] == EXIF_HEADER;
      }
    }
    ExifSegmentsSamePlaces(h, r);
    var now := ExifSegments(r);
    forall i | 0 <= i < |enc|
      ensures now[i] == enc[i]
    {
      ExifSegmentsSound(r, i);
      ExifRewrittenAt(h, enc, enc[i].index);
      assert (EXIF_HEADER + enc[i].data)[EXIF_HEADER_LEN..] == enc[i].data;
    }
  }

  /** setExifData's new header: the encoded payloads written back into the
      segments they came from, or the encoder's error. */
  function ExifUpdated(h: seq<Segment>, decoded: seq<Exif.Decoded>, edits: Option<seq<Exif.ExifEdit>>): Result<seq<Segment>>
    requires Exif.Aligned(ExifSegments(h), decoded)
  {
    Exif.EncodeBytes(ExifSegments(h), decoded, edits);
    var enc :- Exif.EncodeSpec(ExifSegments(h), decoded, edits);
    Ok(ExifRewritten(h, enc))
  }

  /** setExifData changes only the data of EXIF segments, keeps the header
      framed, and the decoded entries still fit the EXIF payloads it selects. */
  lemma ExifUpdatedKeeps(h: seq<Segment>, decoded: seq<Exif.Decoded>, edits: Option<seq<Exif.ExifEdit>>, scan: Bytes)
    requires Framed(h, scan) && Exif.Aligned(ExifSegments(h), decoded)
    ensures var r := ExifUpdated(h, decoded, edits);
            r.Ok? ==> SameMarkers(h, r.value) && Framed(r.value, scan) && Exif.Aligned(ExifSegments(r.value), decoded)
  {
    var segments := ExifSegments(h);
    Exif.EncodeBytes(segments, decoded, edits);
    var enc := Exif.EncodeSpec(segments, decoded, edits);
    if enc.Ok? {
      var r := ExifRewritten(h, enc.value);
      SameMarkersShaped(h, r);
      ShapedFramed(h, r, scan);
      ExifRewrittenSegments(h, enc.value);
    }
  }
}
