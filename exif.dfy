/** The EXIF codec: decoding the TIFF directory (IFD) structure of APP1 EXIF
    payloads into entries, and the limited encoder that blanks the four
    writable text tags in place. */
module Exif {
  import opened Common
  import opened TiffValue

  const IFD_ROOT := "IFD"
  const TIFF_ID := 42

  // The tags the encoder may change (Exif 2.3, section 4.6.5 and 4.6.6)
  const TAG_IFD0_IMAGE_DESCRIPTION := 0x010e
  const TAG_IFD0_COPYRIGHT := 0x8298
  const TAG_EXIF_OWNER_NAME := 0xa430
  const TAG_IFD0_ARTIST := 0x013b

  /** One decoded field: the IFD it belongs to, its tag, its TIFF type and
      decoded value, and the byte range [ptr, ptr + size) of the segment the
      encoder blanks for it. The printable string stored under 'data' is Data(),
      computed from the value and the type. */
  datatype IfdEntry = IfdEntry(block: string, tag: nat, typ: nat, value: IfdValue, ptr: nat, size: nat)
  {
    /** A known type, and a rational value only for a rational type. */
    predicate Printable()
    {
      TYPE_UBYTE <= typ <= TYPE_DOUBLE && (value.Rational? ==> IsRationalType(typ))
    }

    /** The entry's 'data': getIFDString of its value and type. */
    function Data(): Bytes
      requires Printable()
    {
      GetIfdString(value, typ).value
    }
  }

  /** An EXIF payload (the APP1 data after "Exif\0\0") and the index of the
      header segment it came from. */
  datatype Segment = Segment(index: nat, data: Bytes)

  /** The entries decoded from the segment with the same index; an empty list
      stands for the source's `false`. */
  datatype Decoded = Decoded(index: nat, entries: seq<IfdEntry>)

  /** The one field of a caller's edit the encoder looks at. */
  datatype ExifEdit = ExifEdit(block: string, tag: nat)

  // ---------------------------------------------------------------------------
  // Decoding

  /** A USHORT at `pos`, failing when it lies outside the segment. */
  function ReadUShort(seg: Bytes, pos: int, order: ByteOrder): (r: Result<nat>)
    ensures r.Ok? <==> 0 <= pos && pos + 2 <= |seg|
    ensures r.Ok? ==> r.value == UShort(seg, pos, order)
  {
    if 0 <= pos && pos + 2 <= |seg| then Ok(UShort(seg, pos, order)) else Err(DataFormatError)
  }

  /** A ULONG at `pos`, failing when it lies outside the segment. */
  function ReadULong(seg: Bytes, pos: int, order: ByteOrder): (r: Result<nat>)
    ensures r.Ok? <==> 0 <= pos && pos + 4 <= |seg|
    ensures r.Ok? ==> r.value == ULong(seg, pos, order)
  {
    if 0 <= pos && pos + 4 <= |seg| then Ok(ULong(seg, pos, order)) else Err(DataFormatError)
  }

  /** The name entries of a block get: IFD0, IFD1, ... along the root chain,
      the fixed name of the pointer tag for a sub-IFD chain. */
  function BlockLabel(name: string, id: nat): string
  {
    if name == IFD_ROOT then name + NatString(id) else name
  }

  /** The IFD table (tag count and entries) at `pos` lies inside the segment. */
  predicate TableFits(seg: Bytes, pos: int, nb: nat)
  {
    0 <= pos && pos + 2 + 12 * nb <= |seg|
  }

  /** The four fields of a 12-byte IFD entry: tag, type, count and the value
      (or value offset) field. */
  datatype TagFields = TagFields(tag: nat, typ: nat, count: nat, value: nat)

  function Fields(seg: Bytes, pos: int, t: nat, order: ByteOrder): TagFields
    requires TableFits(seg, pos, t + 1)
  {
    var base := pos + 2 + 12 * t;
    TagFields(UShort(seg, base, order), UShort(seg, base + 2, order),
              ULong(seg, base + 4, order), ULong(seg, base + 8, order))
  }

  /** count * unit for the four unit sizes of the TIFF types, written so that
      the solver sees linear arithmetic. */
  function Scale(count: nat, unit: nat): (r: nat)
  {
    if unit == 1 then count else if unit == 2 then 2 * count else if unit == 4 then 4 * count else 8 * count
  }

  /** Scale is the product count * unit for every size TypeSize returns. */
  lemma ScaleProduct(count: nat, t: int)
    requires TypeSize(t).Ok?
    ensures Scale(count, TypeSize(t).value) == count * TypeSize(t).value
  {
    TypeSizeValues(t);
  }

  /** Decodes entry `t` of the table at `pos`, which is not an IFD pointer. */
  function DecodeTag(seg: Bytes, ifd: string, pos: int, t: nat, order: ByteOrder): (r: Result<IfdEntry>)
    requires TableFits(seg, pos, t + 1)
    ensures r.Ok? ==> r.value.block == ifd && r.value.tag == Fields(seg, pos, t, order).tag
    ensures r.Ok? ==> r.value.ptr + r.value.size <= |seg| && r.value.size >= 4 && r.value.Printable()
  {
    var f := Fields(seg, pos, t, order);
    var unit :- TypeSize(f.typ);
    var len := Scale(f.count, unit);
    if len > 4 then
      if f.value + len > |seg| then Err(DataFormatError)
      else
        var v := DecodeIfdData(seg[f.value..f.value + len], f.typ, order).value;
        Ok(IfdEntry(ifd, f.tag, f.typ, v, f.value, len))
    else
      Ok(IfdEntry(ifd, f.tag, f.typ, Num(f.value), pos + 12 * t, 4))
  }

  /** Where an entry's bytes are. An unknown type fails with DATA_FORMAT_ERROR.
      A value longer than four bytes is decoded from the offset in the value
      field, and that offset and length are recorded. Otherwise the value is the
      value field itself read as a ULONG, and the recorded range is the four
      bytes at pos + 12 t. */
  lemma DecodeTagLocation(seg: Bytes, ifd: string, pos: int, t: nat, order: ByteOrder)
    requires TableFits(seg, pos, t + 1)
    ensures var f := Fields(seg, pos, t, order);
            TypeSize(f.typ).Err? ==> DecodeTag(seg, ifd, pos, t, order) == Err(DataFormatError)
    ensures var f := Fields(seg, pos, t, order);
            var r := DecodeTag(seg, ifd, pos, t, order);
            r.Ok? ==> TypeSize(f.typ).Ok? && r.value.typ == f.typ
    ensures var f := Fields(seg, pos, t, order);
            var r := DecodeTag(seg, ifd, pos, t, order);
            r.Ok? && f.count * TypeSize(f.typ).value > 4 ==>
              r.value.ptr == f.value && r.value.size == f.count * TypeSize(f.typ).value &&
              r.value.value == DecodeIfdData(seg[f.value..f.value + r.value.size], f.typ, order).value
    ensures var f := Fields(seg, pos, t, order);
            var r := DecodeTag(seg, ifd, pos, t, order);
            r.Ok? && f.count * TypeSize(f.typ).value <= 4 ==>
              r.value.ptr == pos + 12 * t && r.value.size == 4 && r.value.value == Num(f.value)
  {
    var f := Fields(seg, pos, t, order);
    var r := DecodeTag(seg, ifd, pos, t, order);
    if TypeSize(f.typ).Ok? {
      ScaleProduct(f.count, f.typ);
      var len := Scale(f.count, TypeSize(f.typ).value);
      if len <= 4 {
        assert r == Ok(IfdEntry(ifd, f.tag, f.typ, Num(f.value), pos + 12 * t, 4));
      } else if f.value + len <= |seg| {
        var v := DecodeIfdData(seg[f.value..f.value + len], f.typ, order).value;
        assert r == Ok(IfdEntry(ifd, f.tag, f.typ, v, f.value, len));
      } else {
        assert r.Err?;
      }
    }
  }

  /** An entry as the decoder emits it: never an IFD pointer, its byte range
      at least four bytes long and inside the segment, and its value printable. */
  predicate WellFormed(e: IfdEntry, seg: Bytes)
  {
    BlockName(e.tag).None? && e.size >= 4 && e.ptr + e.size <= |seg| && e.Printable()
  }

  /** One IFD read at `pos`: the entries of its tags and where the chain goes
      next (None when it ends here). */
  datatype Block = Block(entries: seq<IfdEntry>, next: Option<nat>)

  /** The entries of the chain of IFDs that starts with block number `id` at
      `pos`. `fuel` bounds the nesting and length of the walk, which the source
      does not bound: it never ends on a cyclic chain (SelfLinkedChain), and
      any outcome other than LOOP_LIMIT is the unbounded one (ChainFuel). */
  function Chain(seg: Bytes, name: string, pos: int, id: nat, order: ByteOrder, fuel: nat): (r: Result<seq<IfdEntry>>)
    ensures r.Ok? ==> forall e :: e in r.value ==> WellFormed(e, seg)
    decreases fuel, 0
  {
    if fuel == 0 then Err(LoopLimit)
    else
      var b :- ReadBlock(seg, BlockLabel(name, id), pos, order, fuel - 1);
      match b.next
      case None => Ok(b.entries)
      case Some(next) =>
        var rest :- Chain(seg, name, next, id + 1, order, fuel - 1);
        Ok(b.entries + rest)
  }

  /** One IFD: a tag count of 0 ends the walk with no entries; otherwise the
      tags are decoded and the walk continues at the next-IFD offset while that
      is non-zero and inside the segment. */
  function ReadBlock(seg: Bytes, ifd: string, pos: int, order: ByteOrder, fuel: nat): (r: Result<Block>)
    ensures r.Ok? ==> forall e :: e in r.value.entries ==> WellFormed(e, seg)
    ensures r.Ok? && r.value.next.Some? ==> r.value.next.value < |seg| && r.value.next.value != 0
    decreases fuel, 3
  {
    var nb :- ReadUShort(seg, pos, order);
    if nb == 0 then Ok(Block([], None))
    else if !TableFits(seg, pos, nb) then Err(DataFormatError)
    else
      var entries :- Tags(seg, ifd, pos, nb, 0, order, fuel);
      var next :- ReadULong(seg, pos + 2 + 12 * nb, order);
      Ok(Block(entries, if next < |seg| && next != 0 then Some(next) else None))
  }

  /** What tag t of a table contributes: a pointer tag the whole chain of the
      sub-IFD it points to, under the sub-IFD's name, and no entry of its own;
      any other tag its own entry. */
  function TagEntries(seg: Bytes, ifd: string, pos: int, t: nat, order: ByteOrder, fuel: nat): (r: Result<seq<IfdEntry>>)
    requires TableFits(seg, pos, t + 1)
    ensures r.Ok? ==> forall e :: e in r.value ==> WellFormed(e, seg)
    decreases fuel, 1
  {
    var f := Fields(seg, pos, t, order);
    match BlockName(f.tag)
    case Some(sub) => Chain(seg, sub, f.value, 0, order, fuel)
    case None =>
      var e :- DecodeTag(seg, ifd, pos, t, order);
      Ok([e])
  }

  /** The entries of tags t.. of the table of `nb` tags at `pos`, in order. */
  function Tags(seg: Bytes, ifd: string, pos: int, nb: nat, t: nat, order: ByteOrder, fuel: nat): (r: Result<seq<IfdEntry>>)
    requires t <= nb && TableFits(seg, pos, nb)
    ensures r.Ok? ==> forall e :: e in r.value ==> WellFormed(e, seg)
    decreases fuel, 2, nb - t
  {
    if t == nb then Ok([])
    else
      var here :- TagEntries(seg, ifd, pos, t, order, fuel);
      var rest :- Tags(seg, ifd, pos, nb, t + 1, order, fuel);
      Ok(here + rest)
  }

  /** Prefixes already collected entries to a result. */
  function Prepend(acc: seq<IfdEntry>, r: Result<seq<IfdEntry>>): Result<seq<IfdEntry>>
  {
    if r.Ok? then Ok(acc + r.value) else r
  }

  /** decodeIFDBlock: the do-while walk along a chain of IFDs. */
  method DecodeIfdBlock(seg: Bytes, name: string, start: int, order: ByteOrder, fuel: nat)
    returns (r: Result<seq<IfdEntry>>)
    ensures r == Chain(seg, name, start, 0, order, fuel)
    decreases fuel, 0
  {
    var acc: seq<IfdEntry> := [];
    var pos := start;
    var id: nat := 0;
    var f: nat := fuel;
    ghost var whole := Chain(seg, name, start, 0, order, fuel);
    if whole.Ok? {
      assert acc + whole.value == whole.value;
    }
    while true
      invariant f <= fuel
      invariant whole == Prepend(acc, Chain(seg, name, pos, id, order, f))
      decreases f
    {
      if f == 0 {
        return Err(LoopLimit);
      }
      var b := DecodeBlock(seg, BlockLabel(name, id), pos, order, f - 1);
      if b.Err? {
        return Err(b.error);
      }
      if b.value.next.None? {
        return Ok(acc + b.value.entries);
      }
      PrependAppend(acc, b.value.entries, Chain(seg, name, b.value.next.value, id + 1, order, f - 1));
      acc := acc + b.value.entries;
      pos := b.value.next.value;
      id := id + 1;
      f := f - 1;
    }
  }

  /** The body of the do-while loop: one IFD. */
  method DecodeBlock(seg: Bytes, ifd: string, pos: int, order: ByteOrder, fuel: nat) returns (r: Result<Block>)
    ensures r == ReadBlock(seg, ifd, pos, order, fuel)
    decreases fuel, 3
  {
    if !(0 <= pos && pos + 2 <= |seg|) {
      return Err(DataFormatError);
    }
    var nb := UShort(seg, pos, order);
    if nb == 0 {
      return Ok(Block([], None));
    }
    if !TableFits(seg, pos, nb) {
      return Err(DataFormatError);
    }
    var entries :- DecodeTable(seg, ifd, pos, nb, order, fuel);
    if pos + 6 + 12 * nb > |seg| {
      return Err(DataFormatError);
    }
    var next := ULong(seg, pos + 2 + 12 * nb, order);
    r := Ok(Block(entries, if next < |seg| && next != 0 then Some(next) else None));
  }

  lemma PrependAppend(a: seq<IfdEntry>, b: seq<IfdEntry>, r: Result<seq<IfdEntry>>)
    ensures Prepend(a, Prepend(b, r)) == Prepend(a + b, r)
  {
    if r.Ok? {
      assert a + (b + r.value) == a + b + r.value;
    }
  }

  /** The for loop over the tags of one IFD table, recursing into the sub-IFDs
      named by pointer tags. */
  method DecodeTable(seg: Bytes, ifd: string, pos: int, nb: nat, order: ByteOrder, fuel: nat)
    returns (r: Result<seq<IfdEntry>>)
    requires TableFits(seg, pos, nb)
    ensures r == Tags(seg, ifd, pos, nb, 0, order, fuel)
    decreases fuel, 2
  {
    var block: seq<IfdEntry> := [];
    var whole := Tags(seg, ifd, pos, nb, 0, order, fuel);
    if whole.Ok? {
      assert block + whole.value == whole.value;
    }
    for t := 0 to nb
      invariant whole == Prepend(block, Tags(seg, ifd, pos, nb, t, order, fuel))
    {
      var f := Fields(seg, pos, t, order);
      var here: Result<seq<IfdEntry>>;
      var sub := BlockName(f.tag);
      if sub.Some? {
        here := DecodeIfdBlock(seg, sub.value, f.value, order, fuel);
      } else {
        var e := DecodeTag(seg, ifd, pos, t, order);
        here := if e.Ok? then Ok([e.value]) else Err(e.error);
      }
      assert here == TagEntries(seg, ifd, pos, t, order, fuel);
      if here.Err? {
        return Err(here.error);
      }
      PrependAppend(block, here.value, Tags(seg, ifd, pos, nb, t + 1, order, fuel));
      block := block + here.value;
    }
    assert block + [] == block;
    r := Ok(block);
  }

  /** decodeSegment: checks the TIFF header (byte order, the magic number 42,
      the offset of IFD0) and decodes the IFD chain it points to. */
  function SegmentEntries(seg: Bytes, fuel: nat): Result<seq<IfdEntry>>
  {
    if |seg| < 8 then Err(DataFormatError)
    else
      var order :- ByteAlign(seg[..2]);
      if UShort(seg, 2, order) != TIFF_ID then Err(DataFormatError)
      else
        var first := ULong(seg, 4, order);
        if first >= |seg| && first != 0 then Err(DataFormatError)
        else Chain(seg, IFD_ROOT, first, 0, order, fuel)
  }

  method DecodeSegment(seg: Bytes, fuel: nat) returns (r: Result<seq<IfdEntry>>)
    ensures r == SegmentEntries(seg, fuel)
    ensures |seg| < 8 ==> r == Err(DataFormatError)
    ensures |seg| >= 8 && seg[..2] != Ascii("II") && seg[..2] != Ascii("MM") ==> r == Err(DataFormatError)
    ensures |seg| >= 8 && ByteAlign(seg[..2]).Ok? && UShort(seg, 2, ByteAlign(seg[..2]).value) != 42
            ==> r == Err(DataFormatError)
    ensures |seg| >= 8 && ByteAlign(seg[..2]).Ok? &&
            ULong(seg, 4, ByteAlign(seg[..2]).value) >= |seg| && ULong(seg, 4, ByteAlign(seg[..2]).value) != 0
            ==> r == Err(DataFormatError)
  {
    if |seg| < 8 {
      return Err(DataFormatError);
    }
    var order :- ByteAlign(seg[..2]);
    if UShort(seg, 2, order) != TIFF_ID {
      return Err(DataFormatError);
    }
    var first := ULong(seg, 4, order);
    if first >= |seg| && first != 0 {
      return Err(DataFormatError);
    }
    r := DecodeIfdBlock(seg, IFD_ROOT, first, order, fuel);
  }

  /** The decoded entries of every segment, in order, with their indices. */
  function DecodeAll(segments: seq<Segment>, fuel: nat): (r: Result<seq<Decoded>>)
    ensures r.Ok? ==> |r.value| == |segments|
                      && forall i :: 0 <= i < |segments| ==> r.value[i].index == segments[i].index
  {
    if segments == [] then Ok([])
    else
      var init :- DecodeAll(segments[..|segments| - 1], fuel);
      var last := segments[|segments| - 1];
      var entries :- SegmentEntries(last.data, fuel);
      Ok(init + [Decoded(last.index, entries)])
  }

  predicate AnyEntries(decoded: seq<Decoded>)
  {
    exists i :: 0 <= i < |decoded| && decoded[i].entries != []
  }

  /** What decode returns for the segments: None when there is no segment or
      no segment yields an entry. */
  function Decoding(segments: seq<Segment>, fuel: nat): Result<Option<seq<Decoded>>>
  {
    if segments == [] then Ok(None)
    else
      var decoded :- DecodeAll(segments, fuel);
      Ok(if AnyEntries(decoded) then Some(decoded) else None)
  }

  /** decode: every segment decoded, or None (the source's `false`) when there is
      no segment or no segment yields an entry. */
  method Decode(segments: seq<Segment>, fuel: nat) returns (r: Result<Option<seq<Decoded>>>)
    ensures segments == [] ==> r == Ok(None)
    ensures DecodeAll(segments, fuel).Err? ==> r.Err? && r.error == DecodeAll(segments, fuel).error
    ensures DecodeAll(segments, fuel).Ok? ==>
              r == Ok(if AnyEntries(DecodeAll(segments, fuel).value) then Some(DecodeAll(segments, fuel).value) else None)
    ensures r == Decoding(segments, fuel)
  {
    if segments == [] {
      return Ok(None);
    }
    var out: seq<Decoded> := [];
    var any := false;
    for i := 0 to |segments|
      invariant DecodeAll(segments[..i], fuel) == Ok(out)
      invariant any <==> AnyEntries(out)
    {
      var entries := DecodeSegment(segments[i].data, fuel);
      DecodeAllSnoc(segments, i, fuel);
      if entries.Err? {
        DecodeAllPrefixError(segments, i + 1, fuel);
        return Err(entries.error);
      }
      var d := Decoded(segments[i].index, entries.value);
      AnyEntriesSnoc(out, d);
      out := out + [d];
      any := any || entries.value != [];
    }
    assert segments[..|segments|] == segments;
    r := Ok(if any then Some(out) else None);
  }

  /** One more segment: its error, or its entries appended. */
  lemma DecodeAllSnoc(segments: seq<Segment>, i: nat, fuel: nat)
    requires i < |segments| && DecodeAll(segments[..i], fuel).Ok?
    ensures SegmentEntries(segments[i].data, fuel).Err? ==>
              DecodeAll(segments[..i + 1], fuel) == Err(SegmentEntries(segments[i].data, fuel).error)
    ensures SegmentEntries(segments[i].data, fuel).Ok? ==>
              DecodeAll(segments[..i + 1], fuel) ==
              Ok(DecodeAll(segments[..i], fuel).value + [Decoded(segments[i].index, SegmentEntries(segments[i].data, fuel).value)])
  {
    assert segments[..i + 1][..i] == segments[..i];
  }

  lemma AnyEntriesSnoc(out: seq<Decoded>, d: Decoded)
    ensures AnyEntries(out + [d]) <==> AnyEntries(out) || d.entries != []
  {
    if AnyEntries(out) {
      var j :| 0 <= j < |out| && out[j].entries != [];
      assert (out + [d])[j] == out[j];
    }
    if d.entries != [] {
      assert (out + [d])[|out|] == d;
    }
    if AnyEntries(out + [d]) {
      var j :| 0 <= j < |out| + 1 && (out + [d])[j].entries != [];
      if j < |out| {
        assert out[j] == (out + [d])[j];
      }
    }
  }

  /** A segment that fails to decode makes the whole decode fail with its error. */
  lemma {:induction false} DecodeAllPrefixError(segments: seq<Segment>, n: nat, fuel: nat)
    requires 0 < n <= |segments| && DecodeAll(segments[..n], fuel).Err?
    ensures DecodeAll(segments, fuel) == DecodeAll(segments[..n], fuel)
    decreases |segments|
  {
    if n < |segments| {
      var init := segments[..|segments| - 1];
      assert init[..n] == segments[..n];
      DecodeAllPrefixError(init, n, fuel);
    } else {
      assert segments[..n] == segments;
    }
  }

  // ---------------------------------------------------------------------------
  // The fuel bound. Fuel only ever cuts the walk short with LOOP_LIMIT: any
  // other outcome is the one every larger fuel gives, i.e. the source's own
  // outcome, and a chain that links back to itself never ends.

  /** More fuel changes nothing once the chain was walked to its end. */
  lemma {:induction false} ChainFuel(seg: Bytes, name: string, pos: int, id: nat, order: ByteOrder, fuel: nat, more: nat)
    requires fuel <= more && Chain(seg, name, pos, id, order, fuel) != Err(LoopLimit)
    ensures Chain(seg, name, pos, id, order, more) == Chain(seg, name, pos, id, order, fuel)
    decreases fuel, 0
  {
    var b := ReadBlock(seg, BlockLabel(name, id), pos, order, fuel - 1);
    if b != Err(LoopLimit) {
      ReadBlockFuel(seg, BlockLabel(name, id), pos, order, fuel - 1, more - 1);
    }
    if b.Ok? && b.value.next.Some? {
      if Chain(seg, name, b.value.next.value, id + 1, order, fuel - 1) != Err(LoopLimit) {
        ChainFuel(seg, name, b.value.next.value, id + 1, order, fuel - 1, more - 1);
      }
    }
  }

  lemma {:induction false} ReadBlockFuel(seg: Bytes, ifd: string, pos: int, order: ByteOrder, fuel: nat, more: nat)
    requires fuel <= more && ReadBlock(seg, ifd, pos, order, fuel) != Err(LoopLimit)
    ensures ReadBlock(seg, ifd, pos, order, more) == ReadBlock(seg, ifd, pos, order, fuel)
    decreases fuel, 3
  {
    var nb := ReadUShort(seg, pos, order);
    if nb.Ok? && nb.value != 0 && TableFits(seg, pos, nb.value) {
      if Tags(seg, ifd, pos, nb.value, 0, order, fuel) != Err(LoopLimit) {
        TagsFuel(seg, ifd, pos, nb.value, 0, order, fuel, more);
      }
    }
  }

  lemma {:induction false} TagEntriesFuel(seg: Bytes, ifd: string, pos: int, t: nat, order: ByteOrder, fuel: nat, more: nat)
    requires TableFits(seg, pos, t + 1)
    requires fuel <= more && TagEntries(seg, ifd, pos, t, order, fuel) != Err(LoopLimit)
    ensures TagEntries(seg, ifd, pos, t, order, more) == TagEntries(seg, ifd, pos, t, order, fuel)
    decreases fuel, 1
  {
    var f := Fields(seg, pos, t, order);
    if BlockName(f.tag).Some? {
      ChainFuel(seg, BlockName(f.tag).value, f.value, 0, order, fuel, more);
    }
  }

  lemma {:induction false} TagsFuel(seg: Bytes, ifd: string, pos: int, nb: nat, t: nat, order: ByteOrder, fuel: nat, more: nat)
    requires t <= nb && TableFits(seg, pos, nb)
    requires fuel <= more && Tags(seg, ifd, pos, nb, t, order, fuel) != Err(LoopLimit)
    ensures Tags(seg, ifd, pos, nb, t, order, more) == Tags(seg, ifd, pos, nb, t, order, fuel)
    decreases fuel, 2, nb - t
  {
    if t < nb {
      var here := TagEntries(seg, ifd, pos, t, order, fuel);
      if here != Err(LoopLimit) {
        TagEntriesFuel(seg, ifd, pos, t, order, fuel, more);
      }
      if here.Ok? && Tags(seg, ifd, pos, nb, t + 1, order, fuel) != Err(LoopLimit) {
        TagsFuel(seg, ifd, pos, nb, t + 1, order, fuel, more);
      }
    }
  }

  /** decodeSegment with more fuel: the same outcome unless the fuel ran out. */
  lemma SegmentEntriesFuel(seg: Bytes, fuel: nat, more: nat)
    requires fuel <= more && SegmentEntries(seg, fuel) != Err(LoopLimit)
    ensures SegmentEntries(seg, more) == SegmentEntries(seg, fuel)
  {
    if |seg| >= 8 && ByteAlign(seg[..2]).Ok? {
      var order := ByteAlign(seg[..2]).value;
      var first := ULong(seg, 4, order);
      if UShort(seg, 2, order) == TIFF_ID && !(first >= |seg| && first != 0) {
        ChainFuel(seg, IFD_ROOT, first, 0, order, fuel, more);
      }
    }
  }

  lemma {:induction false} DecodeAllFuel(segments: seq<Segment>, fuel: nat, more: nat)
    requires fuel <= more && DecodeAll(segments, fuel) != Err(LoopLimit)
    ensures DecodeAll(segments, more) == DecodeAll(segments, fuel)
    decreases |segments|
  {
    if segments != [] {
      var init := segments[..|segments| - 1];
      if DecodeAll(init, fuel) != Err(LoopLimit) {
        DecodeAllFuel(init, fuel, more);
      }
      if DecodeAll(init, fuel).Ok? {
        SegmentEntriesFuel(segments[|segments| - 1].data, fuel, more);
      }
    }
  }

  /** decode with more fuel: the same outcome unless the fuel ran out. */
  lemma DecodingFuel(segments: seq<Segment>, fuel: nat, more: nat)
    requires fuel <= more && Decoding(segments, fuel) != Err(LoopLimit)
    ensures Decoding(segments, more) == Decoding(segments, fuel)
  {
    if segments != [] {
      DecodeAllFuel(segments, fuel, more);
    }
  }

  /** An IFD whose next-IFD offset is its own position: the do-while loop of
      the source revisits it forever, and no fuel is enough. */
  lemma {:induction false} SelfLinkedChain(seg: Bytes, name: string, pos: int, id: nat, order: ByteOrder, fuel: nat)
    requires forall k: nat, f: nat :: ReadBlock(seg, BlockLabel(name, k), pos, order, f).Ok? &&
                                      ReadBlock(seg, BlockLabel(name, k), pos, order, f).value.next == Some(pos)
    ensures Chain(seg, name, pos, id, order, fuel) == Err(LoopLimit)
    decreases fuel
  {
    if fuel > 0 {
      SelfLinkedChain(seg, name, pos, id + 1, order, fuel - 1);
    }
  }

  // ---------------------------------------------------------------------------
  // What a decoded entry is guaranteed to be.

  /** Every entry decoded from a segment is well formed with respect to it. */
  lemma SegmentEntriesWellFormed(seg: Bytes, fuel: nat)
    ensures SegmentEntries(seg, fuel).Ok? ==> forall e :: e in SegmentEntries(seg, fuel).value ==> WellFormed(e, seg)
  {

  }

  /** The decoder's output fits the segments it came from, as Encode needs. */
  lemma {:induction false} DecodeAllAligned(segments: seq<Segment>, fuel: nat)
    requires DecodeAll(segments, fuel).Ok?
    ensures Aligned(segments, DecodeAll(segments, fuel).value)
    ensures AllPrintable(DecodeAll(segments, fuel).value)
  {
    if segments != [] {
      var init := segments[..|segments| - 1];
      var last := segments[|segments| - 1];
      var d := DecodeAll(segments, fuel).value;
      var di := DecodeAll(init, fuel).value;
      var es := SegmentEntries(last.data, fuel).value;
      assert d == di + [Decoded(last.index, es)];
      DecodeAllAligned(init, fuel);
      SegmentEntriesWellFormed(last.data, fuel);
      forall i | 0 <= i < |segments|
        ensures d[i].index == segments[i].index
        ensures forall e :: e in d[i].entries ==> e.ptr + e.size <= |segments[i].data|
        ensures forall e :: e in d[i].entries ==> e.Printable()
      {
        if i < |init| {
          assert d[i] == di[i] && segments[i] == init[i];
        }
      }
    }
  }

  // ---------------------------------------------------------------------------
  // A worked example: a little-endian TIFF header, IFD0 at offset 8 holding one
  // ImageDescription of type ASCII and count 2, whose two characters "AB" sit
  // inline in the value field.

  const EXAMPLE: Bytes := [0x49, 0x49, 0x2A, 0, 8, 0, 0, 0,
                           1, 0, 0x0E, 0x01, 2, 0, 2, 0, 0, 0, 0x41, 0x42, 0, 0,
                           0, 0, 0, 0]

  /** The single entry of EXAMPLE: the inline value field read as a ULONG
      (0x4241 = 16961), with its range starting at the IFD itself. */
  const EXAMPLE_ENTRY := IfdEntry("IFD0", TAG_IFD0_IMAGE_DESCRIPTION, TYPE_ASCII, Num(16961), 8, 4)

  lemma ExampleTag()
    ensures DecodeTag(EXAMPLE, "IFD0", 8, 0, LittleEndian) == Ok(EXAMPLE_ENTRY)
  {
    var f := Fields(EXAMPLE, 8, 0, LittleEndian);
    assert f == TagFields(0x010e, 2, 2, 16961);
    assert TypeSize(2) == Ok(1);
  }

  lemma ExampleBlock()
    ensures ReadBlock(EXAMPLE, "IFD0", 8, LittleEndian, 0) == Ok(Block([EXAMPLE_ENTRY], None))
  {
    ExampleTag();
    assert BlockName(0x010e).None?;
    assert TagEntries(EXAMPLE, "IFD0", 8, 0, LittleEndian, 0) == Ok([EXAMPLE_ENTRY]);
    assert Tags(EXAMPLE, "IFD0", 8, 1, 1, LittleEndian, 0) == Ok([]);
    assert [EXAMPLE_ENTRY] + [] == [EXAMPLE_ENTRY];
    assert Tags(EXAMPLE, "IFD0", 8, 1, 0, LittleEndian, 0) == Ok([EXAMPLE_ENTRY]);
    assert ReadUShort(EXAMPLE, 8, LittleEndian) == Ok(1);
    assert ReadULong(EXAMPLE, 22, LittleEndian) == Ok(0);
  }

  lemma ExampleData()
    ensures EXAMPLE_ENTRY.Printable() && EXAMPLE_ENTRY.Data() == Ascii("16961")
  {
    assert NatString(16961) == "16961" by {
      assert NatString(1) == "1";
      assert NatString(16) == "16";
      assert NatString(169) == "169";
      assert NatString(1696) == "1696";
    }
    TrimProperties(Ascii("16961"));
  }

  /** Decoding EXAMPLE gives one IFD0 entry whose printable value is "16961"
      (the decimal form of the value field), not the text "AB". */
  lemma InlineAsciiExample()
    ensures SegmentEntries(EXAMPLE, 1) == Ok([EXAMPLE_ENTRY])
    ensures EXAMPLE_ENTRY.Printable() && EXAMPLE_ENTRY.Data() == Ascii("16961")
  {
    ExampleChain();
    ExampleData();
    ExampleHeader();
  }

  lemma ExampleHeader()
    ensures ByteAlign(EXAMPLE[..2]) == Ok(LittleEndian)
    ensures UShort(EXAMPLE, 2, LittleEndian) == TIFF_ID && ULong(EXAMPLE, 4, LittleEndian) == 8
  {
    assert Ascii("II") == [0x49, 0x49];
    assert EXAMPLE[..2] == [0x49, 0x49];
    assert EXAMPLE[2] == 0x2A && EXAMPLE[3] == 0;
    assert EXAMPLE[4] == 8 && EXAMPLE[5] == 0 && EXAMPLE[6] == 0 && EXAMPLE[7] == 0;
  }

  lemma ExampleChain()
    ensures Chain(EXAMPLE, IFD_ROOT, 8, 0, LittleEndian, 1) == Ok([EXAMPLE_ENTRY])
  {
    ExampleBlock();
    assert BlockLabel(IFD_ROOT, 0) == "IFD0";
  }

  // ---------------------------------------------------------------------------
  // Encoding: blanking the writable text tags in place.

  /** The (block, tag) pairs whose bytes the encoder clears. */
  const TARGETS: seq<(string, nat)> := [("IFD0", TAG_IFD0_IMAGE_DESCRIPTION), ("IFD0", TAG_IFD0_COPYRIGHT),
                                        ("EXIF", TAG_EXIF_OWNER_NAME), ("IFD0", TAG_IFD0_ARTIST)]

  predicate IsTarget(e: IfdEntry)
  {
    (e.block, e.tag) in TARGETS
  }

  /** The tags a caller may ask to write. */
  predicate EditableTag(tag: nat)
  {
    tag == TAG_IFD0_IMAGE_DESCRIPTION || tag == TAG_IFD0_COPYRIGHT || tag == TAG_EXIF_OWNER_NAME || tag == TAG_IFD0_ARTIST
  }

  /** The decoded entries line up with the segments and their ranges are inside them. */
  predicate Aligned(segments: seq<Segment>, decoded: seq<Decoded>)
  {
    |decoded| == |segments| &&
    forall i :: 0 <= i < |segments| ==>
      decoded[i].index == segments[i].index &&
      forall e :: e in decoded[i].entries ==> e.ptr + e.size <= |segments[i].data|
  }

  /** Every decoded entry has a printable value (so its 'data' string exists). */
  predicate AllPrintable(decoded: seq<Decoded>)
  {
    forall i :: 0 <= i < |decoded| ==> forall e :: e in decoded[i].entries ==> e.Printable()
  }

  /** `d` with [ptr, ptr + size) set to zero. */
  function ZeroRange(d: Bytes, ptr: nat, size: nat): (r: Bytes)
    requires ptr + size <= |d|
    ensures |r| == |d|
    ensures forall k :: 0 <= k < |d| ==> r[k] == if ptr <= k < ptr + size then 0 else d[k]
  {
    d[..ptr] + Zeros(size) + d[ptr + size..]
  }

  /** `d` with the range of every target entry among `es` set to zero. */
  function ZeroEntries(d: Bytes, es: seq<IfdEntry>): (r: Bytes)
    requires forall e :: e in es ==> e.ptr + e.size <= |d|
    ensures |r| == |d|
  {
    if es == [] then d
    else
      var last := es[|es| - 1];
      var before := ZeroEntries(d, es[..|es| - 1]);
      if IsTarget(last) then ZeroRange(before, last.ptr, last.size) else before
  }

  /** Byte k lies in the range of a target entry. */
  predicate Covered(es: seq<IfdEntry>, k: int)
  {
    exists e :: e in es && IsTarget(e) && e.ptr <= k < e.ptr + e.size
  }

  /** Zero-filling clears exactly the bytes covered by target entries and keeps
      every other byte. */
  lemma {:induction false} ZeroEntriesBytes(d: Bytes, es: seq<IfdEntry>)
    requires forall e :: e in es ==> e.ptr + e.size <= |d|
    ensures forall k :: 0 <= k < |d| ==> ZeroEntries(d, es)[k] == if Covered(es, k) then 0 else d[k]
  {
    if es != [] {
      var init := es[..|es| - 1];
      var last := es[|es| - 1];
      assert forall e :: e in init ==> e in es;
      ZeroEntriesBytes(d, init);
      forall k | 0 <= k < |d|
        ensures ZeroEntries(d, es)[k] == if Covered(es, k) then 0 else d[k]
      {
        if Covered(es, k) {
          var e :| e in es && IsTarget(e) && e.ptr <= k < e.ptr + e.size;
          if e != last {
            assert e in init;
          }
        } else {
          assert !Covered(init, k);
        }
      }
    }
  }

  /** Every segment with the ranges of its target entries zeroed. */
  function ZeroFill(segments: seq<Segment>, decoded: seq<Decoded>): (r: seq<Segment>)
    requires Aligned(segments, decoded)
    ensures |r| == |segments|
  {
    seq(|segments|, i requires 0 <= i < |segments| =>
      Segment(segments[i].index, ZeroEntries(segments[i].data, decoded[i].entries)))
  }

  /** encode: reject any edit of a read-only tag, then blank the writable ones. */
  function EncodeSpec(segments: seq<Segment>, decoded: seq<Decoded>, edits: Option<seq<ExifEdit>>): Result<seq<Segment>>
    requires Aligned(segments, decoded)
  {
    if edits.Some? && exists i :: 0 <= i < |edits.value| && !EditableTag(edits.value[i].tag)
    then Err(InvalidFieldWrite)
    else Ok(ZeroFill(segments, decoded))
  }

  /** What encode does to the bytes: a read-only tag among the edits fails with
      INVALID_FIELD_WRITE; otherwise every segment keeps its index and length,
      the bytes of the four writable tags become zero and every other byte is
      unchanged. */
  lemma EncodeBytes(segments: seq<Segment>, decoded: seq<Decoded>, edits: Option<seq<ExifEdit>>)
    requires Aligned(segments, decoded)
    ensures EncodeSpec(segments, decoded, edits).Err? <==>
              edits.Some? && exists i :: 0 <= i < |edits.value| && !EditableTag(edits.value[i].tag)
    ensures EncodeSpec(segments, decoded, edits).Err? ==> EncodeSpec(segments, decoded, edits).error == InvalidFieldWrite
    ensures var r := EncodeSpec(segments, decoded, edits);
            r.Ok? ==> (|r.value| == |segments| &&
              forall i :: 0 <= i < |segments| ==>
                r.value[i].index == segments[i].index && |r.value[i].data| == |segments[i].data| &&
                forall k :: 0 <= k < |segments[i].data| ==>
                  r.value[i].data[k] == if Covered(decoded[i].entries, k) then 0 else segments[i].data[k])
  {
    forall i | 0 <= i < |segments| {
      ZeroEntriesBytes(segments[i].data, decoded[i].entries);
    }
  }

  /** Encoding twice gives the same segments as encoding once. */
  lemma EncodeIdempotent(segments: seq<Segment>, decoded: seq<Decoded>, edits: Option<seq<ExifEdit>>)
    requires Aligned(segments, decoded)
    ensures var once := EncodeSpec(segments, decoded, edits);
            once.Ok? ==> Aligned(once.value, decoded) && EncodeSpec(once.value, decoded, edits) == once
  {
    var once := EncodeSpec(segments, decoded, edits);
    if once.Ok? {
      var s1 := once.value;
      EncodeBytes(segments, decoded, edits);
      assert Aligned(s1, decoded);
      EncodeBytes(s1, decoded, edits);
      var s2 := EncodeSpec(s1, decoded, edits).value;
      forall i | 0 <= i < |segments|
        ensures s2[i] == s1[i]
      {
        assert s2[i].data == s1[i].data;
      }
      assert s2 == s1;
    }
  }

  /** Sets buf[ptr .. ptr + size) to zero one byte at a time. */
  method ZeroBytes(buf: Bytes, ptr: nat, size: nat) returns (r: Bytes)
    requires ptr + size <= |buf|
    ensures r == ZeroRange(buf, ptr, size)
  {
    r := buf;
    for p := 0 to size
      invariant |r| == |buf|
      invariant forall k :: 0 <= k < |buf| ==> r[k] == if ptr <= k < ptr + p then 0 else buf[k]
    {
      r := r[ptr + p := 0];
    }
  }

  lemma ZeroRangeTwice(d: Bytes, ptr: nat, size: nat)
    requires ptr + size <= |d|
    ensures ZeroRange(ZeroRange(d, ptr, size), ptr, size) == ZeroRange(d, ptr, size)
  {
  }

  /** encode as the source runs it: validate the edits, then for every decoded
      entry and every writable (block, tag) pair it matches, overwrite its range
      with zeros. */
  method Encode(segments: seq<Segment>, decoded: seq<Decoded>, edits: Option<seq<ExifEdit>>)
    returns (r: Result<seq<Segment>>)
    requires Aligned(segments, decoded)
    ensures r == EncodeSpec(segments, decoded, edits)
  {
    if edits.Some? {
      for i := 0 to |edits.value|
        invariant forall j :: 0 <= j < i ==> EditableTag(edits.value[j].tag)
      {
        if !EditableTag(edits.value[i].tag) {
          return Err(InvalidFieldWrite);
        }
      }
      assert !exists i :: 0 <= i < |edits.value| && !EditableTag(edits.value[i].tag);
    }
    var out := segments;
    for i := 0 to |decoded|
      invariant |out| == |segments|
      invariant forall j :: 0 <= j < i ==> out[j] == ZeroFill(segments, decoded)[j]
      invariant forall j :: i <= j < |segments| ==> out[j] == segments[j]
    {
      var data := segments[i].data;
      var es := decoded[i].entries;
      var buf := data;
      for k := 0 to |es|
        invariant buf == ZeroEntries(data, es[..k])
      {
        assert es[..k + 1][..k] == es[..k];
        var e := es[k];
        var before := buf;
        for m := 0 to |TARGETS|
          invariant buf == if (e.block, e.tag) in TARGETS[..m] then ZeroRange(before, e.ptr, e.size) else before
        {
          assert TARGETS[..m + 1] == TARGETS[..m] + [TARGETS[m]];
          if TARGETS[m].0 == e.block && TARGETS[m].1 == e.tag {
            if (e.block, e.tag) in TARGETS[..m] {
              ZeroRangeTwice(before, e.ptr, e.size);
            }
            buf := ZeroBytes(buf, e.ptr, e.size);
          }
        }
        assert TARGETS[..|TARGETS|] == TARGETS;
      }
      assert es[..|es|] == es;
      out := out[i := Segment(segments[i].index, buf)];
    }
    assert out == ZeroFill(segments, decoded);
    r := Ok(out);
  }
}
