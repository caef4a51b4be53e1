/** The IPTC codec: Photoshop "8BIM" Image Resource Blocks (IRBs) inside the
    APP13 payload, and the IIM DataSets (0x1C, record, dataset, 16-bit size,
    data) inside resource 0x0404. */
module Iptc {
  import opened Common
  import opened Utf8

  /** An IIM DataSet tag: record number and DataSet number. The source keys
      entries by the string TagString(t), such as "2:080". */
  datatype IptcTag = IptcTag(rec: byte, dat: byte)

  /** One DataSet. */
  datatype IptcEntry = IptcEntry(tag: IptcTag, data: Bytes)

  /** One Image Resource Block: resource id, Pascal name and payload. */
  datatype Irb = Irb(id: nat, name: Bytes, data: Bytes)

  const AUTHOR := IptcTag(2, 80)
  const AUTHOR_TITLE := IptcTag(2, 85)
  const CAPTION := IptcTag(2, 120)
  const CAPTION_WRITER := IptcTag(2, 122)
  const CATEGORY := IptcTag(2, 15)
  const CITY := IptcTag(2, 90)
  const COPYRIGHT := IptcTag(2, 116)
  const COUNTRY := IptcTag(2, 101)
  const COUNTRY_CODE := IptcTag(2, 100)
  const CREATED_DATE := IptcTag(2, 55)
  const CREATED_TIME := IptcTag(2, 60)
  const CREDIT := IptcTag(2, 110)
  const EDIT_STATUS := IptcTag(2, 7)
  const GENRE := IptcTag(2, 4)
  const HEADLINE := IptcTag(2, 105)
  const INSTRUCTIONS := IptcTag(2, 40)
  const KEYWORDS := IptcTag(2, 25)
  const LOCATION := IptcTag(2, 92)
  const OBJECT := IptcTag(2, 5)
  const PRIORITY := IptcTag(2, 10)
  const SOURCE := IptcTag(2, 115)
  const STATE := IptcTag(2, 95)
  const SUBJECT_CODE := IptcTag(2, 12)
  const SUPP_CATEGORY := IptcTag(2, 20)
  const TRANSFER_REF := IptcTag(2, 103)
  const DATA_ENCODING := IptcTag(1, 90)

  const IPTC_TYPE := "APP13"
  const IPTC_HEADER: Bytes := Ascii("Photoshop 3.0") + [0]
  const IPTC_HEADER_LEN := 14
  /** ESC % G: the IIM coded character set UTF-8. */
  const UTF8_MARKER: Bytes := [0x1B, 0x25, 0x47]
  const IRB_SIGNATURE: Bytes := Ascii("8BIM")
  const IPTC_RESOURCE := 0x0404

  // ---------------------------------------------------------------------------
  // Tags

  function Pad3(d: nat): (r: string)
    requires d < 1000
    ensures |r| == 3
  {
    [DigitChar(d / 100), DigitChar(d / 10 % 10), DigitChar(d % 10)]
  }

  /** sprintf("%01d:%03d", rec, dat). */
  function TagString(t: IptcTag): (r: string)
    ensures |r| >= 5 && r[|r| - 4] == ':'
  {
    NatString(t.rec) + ":" + Pad3(t.dat)
  }

  lemma {:induction false} NatStringInjective(m: nat, n: nat)
    requires NatString(m) == NatString(n)
    ensures m == n
    decreases m
  {
    var a, b := NatString(m), NatString(n);
    if m < 10 && n < 10 {
      DigitCharInjective(m, n);
    } else if m >= 10 && n >= 10 {
      assert a[..|a| - 1] == NatString(m / 10);
      assert b[..|b| - 1] == NatString(n / 10);
      NatStringInjective(m / 10, n / 10);
      DigitCharInjective(m % 10, n % 10);
    } else {
      assert false;
    }
  }

  lemma Pad3Injective(x: nat, y: nat)
    requires x < 1000 && y < 1000 && Pad3(x) == Pad3(y)
    ensures x == y
  {
    DigitCharInjective(x / 100, y / 100);
    DigitCharInjective(x / 10 % 10, y / 10 % 10);
    DigitCharInjective(x % 10, y % 10);
    ModSplit(x, 10, 10);
    ModSplit(y, 10, 10);
  }

  /** Distinct tags have distinct tag strings, so comparing tags as pairs is
      comparing them as the source's strings. */
  lemma TagStringInjective(a: IptcTag, b: IptcTag)
    requires TagString(a) == TagString(b)
    ensures a == b
  {
    var s := TagString(a);
    var n := |s| - 4;
    assert s == NatString(a.rec) + (":" + Pad3(a.dat));
    assert s == NatString(b.rec) + (":" + Pad3(b.dat));
    assert s[..n] == NatString(a.rec) && s[..n] == NatString(b.rec);
    assert s[n + 1..] == Pad3(a.dat) && s[n + 1..] == Pad3(b.dat);
    NatStringInjective(a.rec, b.rec);
    Pad3Injective(a.dat, b.dat);
  }

  /** The tags the library lets a caller write. */
  predicate IsEditable(t: IptcTag)
  {
    t == AUTHOR || t == AUTHOR_TITLE || t == CAPTION || t == CAPTION_WRITER ||
    t == CATEGORY || t == CITY || t == COPYRIGHT || t == COUNTRY ||
    t == COUNTRY_CODE || t == CREDIT || t == EDIT_STATUS || t == GENRE ||
    t == HEADLINE || t == INSTRUCTIONS || t == KEYWORDS || t == LOCATION ||
    t == OBJECT || t == PRIORITY || t == SOURCE || t == STATE ||
    t == SUBJECT_CODE || t == SUPP_CATEGORY || t == TRANSFER_REF
  }

  /** The DataSet numbers of the editable tags, all in record 2. */
  const EDITABLE_DATASETS: seq<byte> :=
    [80, 85, 120, 122, 15, 90, 116, 101, 100, 110, 7, 4, 105, 40, 25, 92, 5, 10, 115, 95, 12, 20, 103]

  /** Exactly 23 tags are editable, all of record 2; the character set and the
      creation date and time are not. */
  lemma EditableTags(t: IptcTag)
    ensures IsEditable(t) <==> t.rec == 2 && t.dat in EDITABLE_DATASETS
    ensures !IsEditable(DATA_ENCODING) && !IsEditable(CREATED_DATE) && !IsEditable(CREATED_TIME)
  {
  }

  /** The 23 editable DataSet numbers are distinct. */
  lemma EditableCount()
    ensures |EDITABLE_DATASETS| == 23
    ensures forall i, j :: 0 <= i < j < |EDITABLE_DATASETS| ==> EDITABLE_DATASETS[i] != EDITABLE_DATASETS[j]
  {
  }

  // ---------------------------------------------------------------------------
  // Unpacking the segment into resource blocks

  /** The resource block whose "8BIM" signature ends at p: 16-bit id, Pascal
      name (length byte, name, pad to an even field), 32-bit data length and the
      data rounded up to an even length. Returns the block and the position
      after it. */
  function ReadIrb(seg: Bytes, p: nat): (r: Result<(Irb, nat)>)
    ensures r.Err? ==> r.error == FileCorrupt
    ensures r.Ok? ==> r.value.1 >= p + 8
  {
    if p + 3 > |seg| then Err(FileCorrupt)
    else
      var q := NameEnd(seg, p);
      if q + 4 > |seg| then Err(FileCorrupt)
      else
        var padded := EvenUp(ReadBE32(seg, q));
        Ok((Irb(ReadBE16(seg, p), PascalName(seg, p + 2), Substr(seg, q + 4, padded)), q + 4 + padded))
  }

  /** A block read from the segment has a 16-bit id and spans an even number
      of bytes; when it lies wholly inside the segment its data has even length. */
  lemma ReadIrbFields(seg: Bytes, p: nat)
    ensures var r := ReadIrb(seg, p);
      r.Ok? ==> r.value.0.id < 65536 && (r.value.1 - p) % 2 == 0 && (r.value.1 <= |seg| ==> |r.value.0.data| % 2 == 0)
  {
    if ReadIrb(seg, p).Ok? {
      var q := NameEnd(seg, p);
      var padded := EvenUp(ReadBE32(seg, q));
      var data := Substr(seg, q + 4, padded);
      ReadIrbSteps(seg, p);
      var r := ReadIrb(seg, p).value;
      assert r.0.id == ReadBE16(seg, p);
      assert r.0.data == data;
      assert r.1 == q + 4 + padded;
      RecordEven(p, OddUp(seg[p + 2]), padded);
      assert q + 4 + padded <= |seg| ==> |data| == padded;
    }
  }

  /** The position after the Pascal name of the block whose signature ends at
      p: the name field, with its length byte, is rounded up to an even length. */
  function NameEnd(seg: Bytes, p: nat): nat
    requires p + 3 <= |seg|
  {
    p + 3 + OddUp(seg[p + 2])
  }

  /** The trimmed name of the Pascal string whose length byte is at start. */
  function PascalName(seg: Bytes, start: nat): Bytes
    requires start < |seg|
  {
    Trim(Substr(seg, start + 1, OddUp(seg[start])))
  }

  /** A name read from a Pascal string is trimmed and shorter than 256 bytes. */
  lemma PascalNameTrimmed(seg: Bytes, start: nat)
    requires start < |seg|
    ensures IsTrimmed(PascalName(seg, start)) && |PascalName(seg, start)| < 256
  {
    TrimProperties(Substr(seg, start + 1, OddUp(seg[start])));
  }

  /** A Pascal name length rounded up to an odd number, so that the field with its
      length byte is even. */
  function OddUp(n: nat): (r: nat)
    ensures r % 2 == 1 && 1 <= r && n <= r <= n + 1
  {
    if n % 2 == 0 then n + 1 else n
  }

  /** A length rounded up to an even number. */
  function EvenUp(n: nat): (r: nat)
    ensures r % 2 == 0 && n <= r <= n + 1
  {
    n + n % 2
  }

  /** A record with an odd name length and an even data length spans an even
      number of bytes. */
  lemma RecordEven(p: nat, nameLen: nat, padded: nat)
    requires nameLen % 2 == 1 && padded % 2 == 0
    ensures (p + 3 + nameLen + 4 + padded - p) % 2 == 0
  {
  }

  /** The resource blocks found from pos on: each starts at the next "8BIM". */
  function Unpack(seg: Bytes, pos: nat): (r: Result<seq<Irb>>)
    ensures r.Err? ==> r.error == FileCorrupt
    decreases if pos < |seg| then |seg| - pos else 0
  {
    if pos >= |seg| then Ok([])
    else match IndexOf(seg, IRB_SIGNATURE, pos)
      case None => Ok([])
      case Some(k) =>
        var (irb, next) :- ReadIrb(seg, k + 4);
        var rest :- Unpack(seg, next);
        Ok([irb] + rest)
  }

  /** One step of Unpack: the block after the next signature, then the rest. */
  lemma UnpackStep(seg: Bytes, pos: nat, k: nat, irb: Irb, next: nat)
    requires pos < |seg| && IndexOf(seg, IRB_SIGNATURE, pos) == Some(k)
    requires ReadIrb(seg, k + 4).Ok? && ReadIrb(seg, k + 4).value.0 == irb && ReadIrb(seg, k + 4).value.1 == next
    ensures next > pos && Unpack(seg, pos) == Prepend([irb], Unpack(seg, next))
  {
    assert ReadIrb(seg, k + 4) == Ok((irb, next));
    var rest := Unpack(seg, next);
    assert Unpack(seg, pos) == Prepend([irb], rest) by {
      if rest.Err? {
        assert Unpack(seg, pos) == Err(rest.error);
      } else {
        assert Unpack(seg, pos) == Ok([irb] + rest.value);
      }
    }
  }

  method UnpackSegmentToIrb(seg: Bytes) returns (r: Result<seq<Irb>>)
    ensures r == Unpack(seg, 0)
  {
    var pos := 0;
    var irbs: seq<Irb> := [];
    PrependNil(Unpack(seg, 0));
    while pos < |seg|
      invariant Unpack(seg, 0) == Prepend(irbs, Unpack(seg, pos))
      decreases |seg| - pos
    {
      var found := IndexOf(seg, IRB_SIGNATURE, pos);
      if found.None? {
        break;
      }
      var block := ReadIrb(seg, found.value + 4);
      if block.Err? {
        return Err(block.error);
      }
      var irb := block.value.0;
      var next := block.value.1;
      UnpackStep(seg, pos, found.value, irb, next);
      PrependPrepend(irbs, [irb], Unpack(seg, next));
      irbs := irbs + [irb];
      pos := next;
    }
    assert irbs + [] == irbs;
    return Ok(irbs);
  }

  // ---------------------------------------------------------------------------
  // Decoding the DataSets

  /** The DataSets from pos on: 5-byte headers whose first byte is not checked;
      a size beyond the data is corrupt; a tail shorter than a header is ignored. */
  function DataSets(d: Bytes, pos: nat): (r: Result<seq<IptcEntry>>)
    ensures r.Err? ==> r.error == FileCorrupt
    decreases |d| - pos
  {
    if pos >= |d| || |d| - pos < 5 then Ok([])
    else
      var size := ReadBE16(d, pos + 3);
      if pos + 5 + size > |d| then Err(FileCorrupt)
      else
        var rest :- DataSets(d, pos + 5 + size);
        Ok([IptcEntry(IptcTag(d[pos + 1], d[pos + 2]), d[pos + 5..pos + 5 + size])] + rest)
  }

  function RecordEntries(irb: Irb): Result<seq<IptcEntry>>
  {
    if irb.id == IPTC_RESOURCE then DataSets(irb.data, 0) else Ok([])
  }

  /** The DataSets of every 0x0404 block, in order. */
  function IrbEntries(irbs: seq<Irb>): (r: Result<seq<IptcEntry>>)
    ensures r.Err? ==> r.error == FileCorrupt
  {
    if irbs == [] then Ok([])
    else
      var front :- IrbEntries(irbs[..|irbs| - 1]);
      var last :- RecordEntries(irbs[|irbs| - 1]);
      Ok(front + last)
  }

  lemma {:induction false} IrbEntriesPrefixError(irbs: seq<Irb>, i: nat)
    requires i <= |irbs| && IrbEntries(irbs[..i]).Err?
    ensures IrbEntries(irbs) == IrbEntries(irbs[..i])
    decreases |irbs| - i
  {
    if i < |irbs| {
      assert irbs[..i + 1][..i] == irbs[..i];
      IrbEntriesPrefixError(irbs, i + 1);
    } else {
      assert irbs[..i] == irbs;
    }
  }

  /** The data of the last 1:090 (coded character set) entry. */
  function LastEncoding(es: seq<IptcEntry>): (r: Option<Bytes>)
    ensures r.Some? <==> exists i :: 0 <= i < |es| && es[i].tag == DATA_ENCODING
  {
    if es == [] then None
    else if es[|es| - 1].tag == DATA_ENCODING then Some(es[|es| - 1].data)
    else LastEncoding(es[..|es| - 1])
  }

  /** When no character set is declared, editable data that is not valid
      ASCII/UTF-8 is taken as Latin-1 and converted. */
  function ConvertEntry(e: IptcEntry, encoding: Option<Bytes>): IptcEntry
  {
    if encoding.None? && IsEditable(e.tag) && !IsUtf8(e.data) then IptcEntry(e.tag, Latin1ToUtf8(e.data)) else e
  }

  function Convert(es: seq<IptcEntry>, encoding: Option<Bytes>): (r: seq<IptcEntry>)
    ensures |r| == |es|
  {
    seq(|es|, i requires 0 <= i < |es| => ConvertEntry(es[i], encoding))
  }

  function Finish(es: seq<IptcEntry>): Result<seq<IptcEntry>>
  {
    var encoding := LastEncoding(es);
    if encoding.Some? && encoding.value != UTF8_MARKER then Err(NotImplemented)
    else Ok(Convert(es, encoding))
  }

  function DecodedIrbs(irbs: seq<Irb>): Result<seq<IptcEntry>>
  {
    var es :- IrbEntries(irbs);
    Finish(es)
  }

  /** The character-set rule: only ESC % G is accepted; without a declaration,
      exactly the editable entries that are not valid UTF-8 are converted, and
      afterwards every editable entry is valid UTF-8. */
  lemma FinishProperties(es: seq<IptcEntry>)
    ensures Finish(es).Err? <==> LastEncoding(es).Some? && LastEncoding(es).value != UTF8_MARKER
    ensures Finish(es).Err? ==> Finish(es).error == NotImplemented
    ensures Finish(es).Ok? ==> |Finish(es).value| == |es|
    ensures Finish(es).Ok? ==> forall i :: 0 <= i < |es| ==>
      var e, f := es[i], Finish(es).value[i];
      f.tag == e.tag &&
      (LastEncoding(es).Some? || !IsEditable(e.tag) || IsUtf8(e.data) ==> f == e) &&
      (LastEncoding(es).None? && IsEditable(e.tag) ==> IsUtf8(f.data))
  {
    if Finish(es).Ok? {
      forall i | 0 <= i < |es| && LastEncoding(es).None? && IsEditable(es[i].tag)
        ensures IsUtf8(Finish(es).value[i].data)
      {
        Latin1ToUtf8IsUtf8(es[i].data);
      }
    }
  }

  /** Converts, in place, the entries that need it. */
  method ConvertToUtf8(es: seq<IptcEntry>, encoding: Option<Bytes>) returns (r: seq<IptcEntry>)
    ensures r == Convert(es, encoding)
  {
    r := es;
    for i := 0 to |r|
      invariant |r| == |es|
      invariant forall j :: 0 <= j < i ==> r[j] == ConvertEntry(es[j], encoding)
      invariant forall j :: i <= j < |es| ==> r[j] == es[j]
    {
      if encoding.None? && IsEditable(r[i].tag) && !IsUtf8(r[i].data) {
        r := r[i := IptcEntry(r[i].tag, Latin1ToUtf8(r[i].data))];
      }
    }
  }

  /** The DataSet loop over the data of one 0x0404 block. */
  method ReadDataSets(d: Bytes) returns (r: Result<seq<IptcEntry>>)
    ensures r == DataSets(d, 0)
  {
    var pos := 0;
    var current: seq<IptcEntry> := [];
    PrependNil(DataSets(d, 0));
    while pos < |d|
      invariant DataSets(d, 0) == Prepend(current, DataSets(d, pos))
      decreases |d| - pos
    {
      if |d| - pos < 5 {
        break;
      }
      var rec, dat, size := d[pos + 1], d[pos + 2], ReadBE16(d, pos + 3);
      ghost var start := pos;
      pos := pos + 5;
      if pos + size > |d| {
        return Err(FileCorrupt);
      }
      var e := IptcEntry(IptcTag(rec, dat), d[pos..pos + size]);
      assert DataSets(d, start) == Prepend([e], DataSets(d, pos + size));
      PrependPrepend(current, [e], DataSets(d, pos + size));
      current := current + [e];
      pos := pos + size;
    }
    assert current + [] == current;
    return Ok(current);
  }

  method DecodeIrbToIptc(irbs: seq<Irb>) returns (r: Result<seq<IptcEntry>>)
    ensures r == DecodedIrbs(irbs)
  {
    var entries: seq<IptcEntry> := [];
    for i := 0 to |irbs|
      invariant IrbEntries(irbs[..i]) == Ok(entries)
    {
      assert irbs[..i + 1][..i] == irbs[..i];
      if irbs[i].id == IPTC_RESOURCE {
        var current := ReadDataSets(irbs[i].data);
        if current.Err? {
          IrbEntriesPrefixError(irbs, i + 1);
          return Err(current.error);
        }
        entries := entries + current.value;
      } else {
        assert entries + [] == entries;
      }
    }
    assert irbs[..|irbs|] == irbs;

    var encoding: Option<Bytes> := None;
    for i := 0 to |entries|
      invariant encoding == LastEncoding(entries[..i])
    {
      assert entries[..i + 1][..i] == entries[..i];
      if entries[i].tag == DATA_ENCODING {
        encoding := Some(entries[i].data);
      }
    }
    assert entries[..|entries|] == entries;
    if encoding.Some? && encoding.value != UTF8_MARKER {
      return Err(NotImplemented);
    }
    entries := ConvertToUtf8(entries, encoding);
    return Ok(entries);
  }

  /** decode(): no data for an empty segment or when no DataSet is found. */
  function Decoded(seg: Bytes): Result<Option<seq<IptcEntry>>>
  {
    if IsEmptyString(seg) then Ok(None)
    else
      var irbs :- Unpack(seg, 0);
      var es :- DecodedIrbs(irbs);
      Ok(if es == [] then None else Some(es))
  }

  method Decode(seg: Bytes) returns (r: Result<Option<seq<IptcEntry>>>)
    ensures r == Decoded(seg)
  {
    if IsEmptyString(seg) {
      return Ok(None);
    }
    var irbs :- UnpackSegmentToIrb(seg);
    var entries :- DecodeIrbToIptc(irbs);
    return Ok(if entries == [] then None else Some(entries));
  }

  // ---------------------------------------------------------------------------
  // Encoding

  predicate KeptOnEncode(e: IptcEntry)
  {
    !IsEditable(e.tag) && e.tag != DATA_ENCODING
  }

  /** The original entries encode() keeps: the non-editable ones except 1:090. */
  function Kept(es: seq<IptcEntry>): (r: seq<IptcEntry>)
    ensures forall i :: 0 <= i < |r| ==> KeptOnEncode(r[i])
  {
    if es == [] then []
    else Kept(es[..|es| - 1]) + (if KeptOnEncode(es[|es| - 1]) then [es[|es| - 1]] else [])
  }

  /** The caller's entries encode() accepts: those with an editable tag. */
  function Editable(es: seq<IptcEntry>): (r: seq<IptcEntry>)
    ensures forall i :: 0 <= i < |r| ==> IsEditable(r[i].tag)
  {
    if es == [] then []
    else Editable(es[..|es| - 1]) + (if IsEditable(es[|es| - 1].tag) then [es[|es| - 1]] else [])
  }

  predicate Supplied(es: seq<IptcEntry>, t: IptcTag)
  {
    exists i :: 0 <= i < |es| && es[i].tag == t
  }

  lemma SuppliedSnoc(es: seq<IptcEntry>, e: IptcEntry, t: IptcTag)
    ensures Supplied(es + [e], t) <==> Supplied(es, t) || e.tag == t
  {
    if Supplied(es, t) {
      var i :| 0 <= i < |es| && es[i].tag == t;
      assert (es + [e])[i].tag == t;
    }
    if e.tag == t {
      assert (es + [e])[|es|].tag == t;
    }
  }

  /** Empty entries for whichever of caption, copyright and author the caller
      did not supply. */
  function Missing(callers: seq<IptcEntry>): seq<IptcEntry>
  {
    (if Supplied(callers, CAPTION) then [] else [IptcEntry(CAPTION, [])]) +
    (if Supplied(callers, COPYRIGHT) then [] else [IptcEntry(COPYRIGHT, [])]) +
    (if Supplied(callers, AUTHOR) then [] else [IptcEntry(AUTHOR, [])])
  }

  /** The DataSets encode() writes, given the decoded original entries and the
      caller's entries (None for the source's false). */
  function NewEntries(prior: seq<IptcEntry>, ary: Option<seq<IptcEntry>>): Result<seq<IptcEntry>>
  {
    var encoding := LastEncoding(prior);
    if encoding.Some? && encoding.value != UTF8_MARKER then Err(NotImplemented)
    else
      var callers := if ary.None? then [] else Editable(ary.value);
      Ok([IptcEntry(DATA_ENCODING, UTF8_MARKER)] + Convert(Kept(prior) + callers, encoding) + Missing(callers))
  }

  lemma {:induction false} KeptMembers(es: seq<IptcEntry>, e: IptcEntry)
    ensures e in Kept(es) <==> e in es && KeptOnEncode(e)
  {
    if es != [] {
      var init := es[..|es| - 1];
      KeptMembers(init, e);
      assert es == init + [es[|es| - 1]];
    }
  }

  lemma {:induction false} EditableMembers(es: seq<IptcEntry>, e: IptcEntry)
    ensures e in Editable(es) <==> e in es && IsEditable(e.tag)
  {
    if es != [] {
      var init := es[..|es| - 1];
      EditableMembers(init, e);
      assert es == init + [es[|es| - 1]];
    }
  }

  lemma SuppliedAppend(a: seq<IptcEntry>, b: seq<IptcEntry>, t: IptcTag)
    ensures Supplied(a + b, t) <==> Supplied(a, t) || Supplied(b, t)
  {
    if Supplied(a, t) {
      var i :| 0 <= i < |a| && a[i].tag == t;
      assert (a + b)[i].tag == t;
    }
    if Supplied(b, t) {
      var i :| 0 <= i < |b| && b[i].tag == t;
      assert (a + b)[|a| + i].tag == t;
    }
    if Supplied(a + b, t) {
      var i :| 0 <= i < |a + b| && (a + b)[i].tag == t;
      if i < |a| {
        assert a[i].tag == t;
      } else {
        assert b[i - |a|].tag == t;
      }
    }
  }

  lemma SuppliedConvert(es: seq<IptcEntry>, encoding: Option<Bytes>, t: IptcTag)
    ensures Supplied(Convert(es, encoding), t) <==> Supplied(es, t)
  {
    var c := Convert(es, encoding);
    if Supplied(es, t) {
      var i :| 0 <= i < |es| && es[i].tag == t;
      assert c[i].tag == t;
    }
    if Supplied(c, t) {
      var i :| 0 <= i < |c| && c[i].tag == t;
      assert es[i].tag == t;
    }
  }

  /** encode() refuses exactly a declared character set other than ESC % G,
      and otherwise writes ESC % G first. */
  lemma NewEntriesHead(prior: seq<IptcEntry>, ary: Option<seq<IptcEntry>>)
    ensures NewEntries(prior, ary).Err? <==> LastEncoding(prior).Some? && LastEncoding(prior).value != UTF8_MARKER
    ensures NewEntries(prior, ary).Err? ==> NewEntries(prior, ary).error == NotImplemented
    ensures NewEntries(prior, ary).Ok? ==>
      |NewEntries(prior, ary).value| > 0 && NewEntries(prior, ary).value[0] == IptcEntry(DATA_ENCODING, UTF8_MARKER)
  {
  }

  /** After ESC % G come the kept original entries, unchanged and in order,
      and after them only editable entries. */
  lemma NewEntriesKept(prior: seq<IptcEntry>, ary: Option<seq<IptcEntry>>)
    ensures NewEntries(prior, ary).Ok? ==>
      var es, k := NewEntries(prior, ary).value, |Kept(prior)|;
      1 + k <= |es| && es[1..1 + k] == Kept(prior) &&
      forall i :: 1 + k <= i < |es| ==> IsEditable(es[i].tag)
  {
    if NewEntries(prior, ary).Ok? {
      var encoding := LastEncoding(prior);
      var callers := if ary.None? then [] else Editable(ary.value);
      var kept := Kept(prior);
      var converted := Convert(kept + callers, encoding);
      var m := Missing(callers);
      var es := NewEntries(prior, ary).value;
      ConvertKept(kept, callers, encoding);
      assert es == [IptcEntry(DATA_ENCODING, UTF8_MARKER)] + converted + m;
      EditableLayout(IptcEntry(DATA_ENCODING, UTF8_MARKER), converted, m, kept);
    }
  }

  lemma EditableLayout(head: IptcEntry, converted: seq<IptcEntry>, m: seq<IptcEntry>, kept: seq<IptcEntry>)
    requires |kept| <= |converted| && converted[..|kept|] == kept
    requires forall i :: |kept| <= i < |converted| ==> IsEditable(converted[i].tag)
    requires forall i :: 0 <= i < |m| ==> IsEditable(m[i].tag)
    ensures var es := [head] + converted + m;
      (es[1..1 + |kept|] == kept) && forall i :: 1 + |kept| <= i < |es| ==> IsEditable(es[i].tag)
  {
    var es := [head] + converted + m;
    assert es[1..1 + |kept|] == converted[..|kept|];
    forall i | 1 + |kept| <= i < |es|
      ensures IsEditable(es[i].tag)
    {
      if i < 1 + |converted| {
        assert es[i] == converted[i - 1];
      } else {
        assert es[i] == m[i - 1 - |converted|];
      }
    }
  }

  /** Conversion leaves the kept entries alone and keeps every tag. */
  lemma ConvertKept(kept: seq<IptcEntry>, callers: seq<IptcEntry>, encoding: Option<Bytes>)
    requires forall i :: 0 <= i < |kept| ==> KeptOnEncode(kept[i])
    requires forall i :: 0 <= i < |callers| ==> IsEditable(callers[i].tag)
    ensures var c := Convert(kept + callers, encoding);
      c[..|kept|] == kept && forall i :: |kept| <= i < |c| ==> IsEditable(c[i].tag)
  {
    var es := kept + callers;
    var c := Convert(es, encoding);
    forall i | 0 <= i < |kept|
      ensures c[i] == kept[i]
    {
      assert es[i] == kept[i];
    }
    forall i | |kept| <= i < |c|
      ensures IsEditable(c[i].tag)
    {
      assert es[i] == callers[i - |kept|];
    }
  }

  /** Caption, copyright and author are always written. */
  lemma NewEntriesSupplied(prior: seq<IptcEntry>, ary: Option<seq<IptcEntry>>, t: IptcTag)
    requires t == CAPTION || t == COPYRIGHT || t == AUTHOR
    ensures NewEntries(prior, ary).Ok? ==> Supplied(NewEntries(prior, ary).value, t)
  {
    if NewEntries(prior, ary).Ok? {
      var encoding := LastEncoding(prior);
      var callers := if ary.None? then [] else Editable(ary.value);
      var kept := Kept(prior);
      var converted := Convert(kept + callers, encoding);
      var m := Missing(callers);
      var head := [IptcEntry(DATA_ENCODING, UTF8_MARKER)];
      assert NewEntries(prior, ary).value == (head + converted) + m;
      SuppliedAppend(kept, callers, t);
      SuppliedConvert(kept + callers, encoding, t);
      SuppliedAppend(head, converted, t);
      SuppliedAppend(head + converted, m, t);
      if !Supplied(callers, t) {
        var j := if t == CAPTION then 0
                 else if t == COPYRIGHT then (if Supplied(callers, CAPTION) then 0 else 1)
                 else |m| - 1;
        assert m[j].tag == t;
      }
    }
  }

  /** The bytes of one DataSet: 0x1C, record, dataset, 16-bit size, data. */
  function DataSetBytes(e: IptcEntry): (r: Bytes)
    ensures |r| == 5 + |e.data| && r[0] == 28 && r[1] == e.tag.rec && r[2] == e.tag.dat
    ensures r[3..5] == BE16(|e.data|) && r[5..] == e.data
  {
    var header: Bytes := [28, e.tag.rec, e.tag.dat];
    header + BE16(|e.data|) + e.data
  }

  function DataSetParts(es: seq<IptcEntry>): (r: seq<Bytes>)
    ensures |r| == |es|
  {
    seq(|es|, i requires 0 <= i < |es| => DataSetBytes(es[i]))
  }

  function DataSetBlock(es: seq<IptcEntry>): Bytes
  {
    Concat(DataSetParts(es))
  }

  lemma DataSetBlockSnoc(es: seq<IptcEntry>, i: nat)
    requires i < |es|
    ensures DataSetBlock(es[..i + 1]) == DataSetBlock(es[..i]) + DataSetBytes(es[i])
  {
    assert DataSetParts(es[..i + 1]) == DataSetParts(es[..i]) + [DataSetBytes(es[i])];
    ConcatAppend(DataSetParts(es[..i]), DataSetBytes(es[i]));
  }

  lemma DataSetBlockCons(es: seq<IptcEntry>)
    requires es != []
    ensures DataSetBlock(es) == DataSetBytes(es[0]) + DataSetBlock(es[1..])
  {
    assert DataSetParts(es) == [DataSetBytes(es[0])] + DataSetParts(es[1..]);
    ConcatCons(DataSetBytes(es[0]), DataSetParts(es[1..]));
  }

  /** One DataSet as written reads back as the same entry. */
  lemma DataSetStep(s: Bytes, k: nat, e: IptcEntry)
    requires |e.data| < 65536
    requires k + |DataSetBytes(e)| <= |s| && s[k..k + |DataSetBytes(e)|] == DataSetBytes(e)
    ensures DataSets(s, k) == Prepend([e], DataSets(s, k + |DataSetBytes(e)|))
  {
    var d := DataSetBytes(e);
    assert s[k + 1] == d[1] && s[k + 2] == d[2] && s[k + 3] == d[3] && s[k + 4] == d[4];
    assert s[k + 3..k + 5] == d[3..5];
    ReadBE16At(s, k + 3, |e.data|);
    DivModUnique(|e.data|, 65536, 0, |e.data|);
    assert s[k + 5..k + 5 + |e.data|] == d[5..];
    DataSetAt(s, k, e);
  }

  /** The DataSet at k whose header and data are those of e reads as e. */
  lemma DataSetAt(s: Bytes, k: nat, e: IptcEntry)
    requires k + 5 + |e.data| <= |s|
    requires s[k + 1] == e.tag.rec && s[k + 2] == e.tag.dat && ReadBE16(s, k + 3) == |e.data|
    requires s[k + 5..k + 5 + |e.data|] == e.data
    ensures DataSets(s, k) == Prepend([e], DataSets(s, k + 5 + |e.data|))
  {
  }

  /** Fewer than five bytes left hold no DataSet. */
  lemma DataSetsShortTail(s: Bytes, k: nat)
    requires k <= |s| < k + 5
    ensures DataSets(s, k) == Ok([])
  {
  }

  /** The DataSets of es lie one after another from k, followed by fewer than
      five bytes. */
  predicate LaidOut(s: Bytes, k: nat, es: seq<IptcEntry>)
    decreases |es|
  {
    if es == [] then k <= |s| < k + 5
    else
      var d := DataSetBytes(es[0]);
      k + |d| <= |s| && s[k..k + |d|] == d && LaidOut(s, k + |d|, es[1..])
  }

  lemma {:induction false} LaidOutReads(s: Bytes, k: nat, es: seq<IptcEntry>)
    requires forall i :: 0 <= i < |es| ==> |es[i].data| < 65536
    requires LaidOut(s, k, es)
    ensures DataSets(s, k) == Ok(es)
    decreases |es|
  {
    if es == [] {
      DataSetsShortTail(s, k);
    } else {
      var e, rest := es[0], es[1..];
      var n := k + |DataSetBytes(e)|;
      assert n <= |s| && s[k..n] == DataSetBytes(e) && LaidOut(s, n, rest);
      assert forall i :: 0 <= i < |rest| ==> |rest[i].data| < 65536 by {
        assert forall i :: 0 <= i < |rest| ==> rest[i] == es[i + 1];
      }
      LaidOutReads(s, n, rest);
      DataSetStep(s, k, e);
      assert Prepend([e], Ok(rest)) == Ok(es) by {
        assert [e] + rest == es;
      }
    }
  }

  lemma {:induction false} BlockLaidOut(s: Bytes, k: nat, es: seq<IptcEntry>, tail: Bytes)
    requires |tail| < 5 && k <= |s| && s[k..] == DataSetBlock(es) + tail
    ensures LaidOut(s, k, es)
    decreases |es|
  {
    if es == [] {
      assert DataSetBlock(es) == [];
    } else {
      var d := DataSetBytes(es[0]);
      DataSetBlockCons(es);
      assert s[k..] == d + (DataSetBlock(es[1..]) + tail);
      SliceSplit(s, k, d, DataSetBlock(es[1..]) + tail);
      BlockLaidOut(s, k + |d|, es[1..], tail);
    }
  }

  /** Decoding a block of DataSets written by encode() gives the entries back,
      whenever every size fits the 16-bit field; a short tail (such as the IRB
      pad byte) is ignored. */
  lemma DataSetsRoundTrip(pre: Bytes, es: seq<IptcEntry>, tail: Bytes)
    requires forall i :: 0 <= i < |es| ==> |es[i].data| < 65536
    requires |tail| < 5
    ensures DataSets(pre + DataSetBlock(es) + tail, |pre|) == Ok(es)
  {
    var s := pre + DataSetBlock(es) + tail;
    DropJoin(pre, DataSetBlock(es), tail);
    BlockLaidOut(s, |pre|, es, tail);
    LaidOutReads(pre + DataSetBlock(es) + tail, |pre|, es);
  }

  /** Position of the last 0x0404 block, or -1. */
  function LastResource(irbs: seq<Irb>): (r: int)
    ensures -1 <= r < |irbs|
    ensures r >= 0 ==> irbs[r].id == IPTC_RESOURCE
    ensures forall j :: r < j < |irbs| ==> irbs[j].id != IPTC_RESOURCE
  {
    if irbs == [] then -1
    else if irbs[|irbs| - 1].id == IPTC_RESOURCE then |irbs| - 1
    else LastResource(irbs[..|irbs| - 1])
  }

  function IptcRecord(block: Bytes): Irb
  {
    Irb(IPTC_RESOURCE, [0, 0], block)
  }

  /** The block list with the new 0x0404 record in place of the last existing
      one, or appended when there is none; every other block is unchanged. */
  function Placed(irbs: seq<Irb>, block: Bytes): (r: seq<Irb>)
    ensures var k := LastResource(irbs);
      |r| == (if k < 0 then |irbs| + 1 else |irbs|) &&
      r[if k < 0 then |irbs| else k] == IptcRecord(block) &&
      forall j :: 0 <= j < |irbs| && j != k ==> r[j] == irbs[j]
  {
    var k := LastResource(irbs);
    if k < 0 then irbs + [IptcRecord(block)] else irbs[k := IptcRecord(block)]
  }

  /** A Pascal name as packed: the name, and a zero byte when its length is
      even, so that the field with its length byte has even length. */
  function NameField(name: Bytes): (r: Bytes)
    ensures |r| == OddUp(|name|) && r[..|name|] == name
  {
    if |name| % 2 == 0 then name + [0] else name
  }

  /** Resource data as packed: a zero byte is added to an odd length. */
  function PaddedData(data: Bytes): (r: Bytes)
    ensures |r| == EvenUp(|data|) && r[..|data|] == data
  {
    if |data| % 2 == 1 then data + [0] else data
  }

  /** One packed block: "8BIM", 16-bit id, the trimmed name as a Pascal string
      padded to an even field, 32-bit length, data padded to even length. */
  function IrbBytes(irb: Irb): Bytes
  {
    var name := Trim(irb.name);
    var nameLen: byte := |name| % 256;
    IRB_SIGNATURE + BE16(irb.id) + [nameLen] + NameField(name) + BE32(|irb.data|) + PaddedData(irb.data)
  }

  /** Blocks without data are left out. */
  function PackedBytes(irb: Irb): Bytes
  {
    if irb.data == [] then [] else IrbBytes(irb)
  }

  function PackParts(irbs: seq<Irb>): (r: seq<Bytes>)
    ensures |r| == |irbs|
  {
    seq(|irbs|, i requires 0 <= i < |irbs| => PackedBytes(irbs[i]))
  }

  function Pack(irbs: seq<Irb>): Bytes
  {
    Concat(PackParts(irbs))
  }

  lemma PackSnoc(irbs: seq<Irb>, i: nat)
    requires i < |irbs|
    ensures Pack(irbs[..i + 1]) == Pack(irbs[..i]) + PackedBytes(irbs[i])
  {
    assert PackParts(irbs[..i + 1]) == PackParts(irbs[..i]) + [PackedBytes(irbs[i])];
    ConcatAppend(PackParts(irbs[..i]), PackedBytes(irbs[i]));
  }

  lemma PackCons(irbs: seq<Irb>)
    requires irbs != []
    ensures Pack(irbs) == PackedBytes(irbs[0]) + Pack(irbs[1..])
  {
    assert PackParts(irbs) == [PackedBytes(irbs[0])] + PackParts(irbs[1..]);
    ConcatCons(PackedBytes(irbs[0]), PackParts(irbs[1..]));
  }

  /** encode(). */
  function Encoded(seg: Bytes, ary: Option<seq<IptcEntry>>): Result<Bytes>
  {
    var irbs :- Unpack(seg, 0);
    var prior :- DecodedIrbs(irbs);
    var es :- NewEntries(prior, ary);
    Ok(Pack(Placed(irbs, DataSetBlock(es))))
  }

  method Encode(seg: Bytes, ary: Option<seq<IptcEntry>>) returns (r: Result<Bytes>)
    ensures r == Encoded(seg, ary)
  {
    var irbs :- UnpackSegmentToIrb(seg);
    var prior :- DecodeIrbToIptc(irbs);
    var entries :- AssembleEntries(prior, ary);
    var block := BuildBlock(entries);
    var k := FindLastResource(irbs);
    var placed := if k == -1 then irbs + [IptcRecord(block)] else irbs[k := IptcRecord(block)];
    assert placed == Placed(irbs, block);
    var packed := PackIrbs(placed);
    return Ok(packed);
  }

  /** The entries encode() writes: the character set, the kept and the
      caller's entries converted to UTF-8, then the missing placeholders. */
  method AssembleEntries(prior: seq<IptcEntry>, ary: Option<seq<IptcEntry>>) returns (r: Result<seq<IptcEntry>>)
    ensures r == NewEntries(prior, ary)
  {
    var entries, encoding := KeepNonEditable(prior);
    ghost var callers: seq<IptcEntry> := [];
    assert entries == entries + callers;
    var foundCaption, foundCopyright, foundAuthor := false, false, false;
    if ary.Some? {
      callers := Editable(ary.value);
      entries, foundCaption, foundCopyright, foundAuthor := AddEditable(entries, ary.value);
    }
    if encoding.Some? && encoding.value != UTF8_MARKER {
      return Err(NotImplemented);
    }
    ghost var kept := entries;
    entries := ConvertToUtf8(entries, encoding);
    entries := [IptcEntry(DATA_ENCODING, UTF8_MARKER)] + entries;
    var missing: seq<IptcEntry> := [];
    if !foundCaption {
      missing := missing + [IptcEntry(CAPTION, [])];
    }
    if !foundCopyright {
      missing := missing + [IptcEntry(COPYRIGHT, [])];
    }
    if !foundAuthor {
      missing := missing + [IptcEntry(AUTHOR, [])];
    }
    assert missing == Missing(callers);
    assert NewEntries(prior, ary) == Ok([IptcEntry(DATA_ENCODING, UTF8_MARKER)] + Convert(kept, encoding) + Missing(callers));
    return Ok(entries + missing);
  }

  /** The non-editable entries other than the character set, and the last
      character set declared. */
  method KeepNonEditable(prior: seq<IptcEntry>) returns (entries: seq<IptcEntry>, encoding: Option<Bytes>)
    ensures entries == Kept(prior) && encoding == LastEncoding(prior)
  {
    entries, encoding := [], None;
    for i := 0 to |prior|
      invariant entries == Kept(prior[..i])
      invariant encoding == LastEncoding(prior[..i])
    {
      assert prior[..i + 1][..i] == prior[..i];
      if !IsEditable(prior[i].tag) {
        if prior[i].tag != DATA_ENCODING {
          entries := entries + [prior[i]];
        } else {
          encoding := Some(prior[i].data);
        }
      }
    }
    assert prior[..|prior|] == prior;
  }

  /** Appends the caller's editable entries, noting whether a caption, a
      copyright notice and an author were among them. */
  method AddEditable(entries: seq<IptcEntry>, given: seq<IptcEntry>)
    returns (result: seq<IptcEntry>, foundCaption: bool, foundCopyright: bool, foundAuthor: bool)
    ensures result == entries + Editable(given)
    ensures foundCaption == Supplied(Editable(given), CAPTION)
    ensures foundCopyright == Supplied(Editable(given), COPYRIGHT)
    ensures foundAuthor == Supplied(Editable(given), AUTHOR)
  {
    ghost var callers: seq<IptcEntry> := [];
    result, foundCaption, foundCopyright, foundAuthor := entries, false, false, false;
    for i := 0 to |given|
      invariant callers == Editable(given[..i])
      invariant result == entries + callers
      invariant foundCaption == Supplied(callers, CAPTION)
      invariant foundCopyright == Supplied(callers, COPYRIGHT)
      invariant foundAuthor == Supplied(callers, AUTHOR)
    {
      assert given[..i + 1][..i] == given[..i];
      if IsEditable(given[i].tag) {
        SuppliedSnoc(callers, given[i], CAPTION);
        SuppliedSnoc(callers, given[i], COPYRIGHT);
        SuppliedSnoc(callers, given[i], AUTHOR);
        result := result + [given[i]];
        callers := callers + [given[i]];
        foundCaption := foundCaption || given[i].tag == CAPTION;
        foundCopyright := foundCopyright || given[i].tag == COPYRIGHT;
        foundAuthor := foundAuthor || given[i].tag == AUTHOR;
      }
    }
    assert given[..|given|] == given;
  }

  /** The DataSet block of the entries. */
  method BuildBlock(entries: seq<IptcEntry>) returns (block: Bytes)
    ensures block == DataSetBlock(entries)
  {
    block := [];
    for i := 0 to |entries|
      invariant block == DataSetBlock(entries[..i])
    {
      DataSetBlockSnoc(entries, i);
      block := block + DataSetBytes(entries[i]);
    }
    assert entries[..|entries|] == entries;
  }

  /** The index of the last IPTC resource block, or -1. */
  method FindLastResource(irbs: seq<Irb>) returns (k: int)
    ensures k == LastResource(irbs)
  {
    k := -1;
    for i := 0 to |irbs|
      invariant k == LastResource(irbs[..i])
    {
      assert irbs[..i + 1][..i] == irbs[..i];
      if irbs[i].id == IPTC_RESOURCE {
        k := i;
      }
    }
    assert irbs[..|irbs|] == irbs;
  }

  /** The packed resource blocks; blocks without data are skipped. */
  method PackIrbs(irbs: seq<Irb>) returns (packed: Bytes)
    ensures packed == Pack(irbs)
  {
    packed := [];
    for i := 0 to |irbs|
      invariant packed == Pack(irbs[..i])
    {
      PackSnoc(irbs, i);
      if |irbs[i].data| != 0 {
        packed := packed + IrbBytes(irbs[i]);
      }
    }
    assert irbs[..|irbs|] == irbs;
  }

  // ---------------------------------------------------------------------------
  // The pack / unpack round trip

  /** A block whose fields fit the packed format. */
  predicate Packable(irb: Irb)
  {
    irb.id < 65536 && |Trim(irb.name)| < 256 && |irb.data| < 4294967296
  }

  /** A block as unpacking sees it after packing: trimmed name, data padded to
      an even length. */
  function Normalized(irb: Irb): Irb
  {
    Irb(irb.id, Trim(irb.name), PaddedData(irb.data))
  }

  function Repacked(irbs: seq<Irb>): seq<Irb>
  {
    if irbs == [] then []
    else if irbs[0].data == [] then Repacked(irbs[1..])
    else [Normalized(irbs[0])] + Repacked(irbs[1..])
  }

  /** The Pascal name field written for a trimmed name reads back as the name. */
  /** ReadIrb on a block whose fixed fields lie inside the segment. */
  lemma ReadIrbSteps(s: Bytes, p: nat)
    requires p + 3 <= |s| && NameEnd(s, p) + 4 <= |s|
    ensures var q := NameEnd(s, p); var m := EvenUp(ReadBE32(s, q));
      ReadIrb(s, p).Ok? &&
      ReadIrb(s, p).value.0 == Irb(ReadBE16(s, p), PascalName(s, p + 2), Substr(s, q + 4, m)) &&
      ReadIrb(s, p).value.1 == q + 4 + m
  {
  }

  lemma PascalNameAt(s: Bytes, start: nat, name: Bytes)
    requires IsTrimmed(name) && |name| < 256
    requires start + 1 + OddUp(|name|) <= |s| && s[start] == |name|
    requires s[start + 1..start + 1 + OddUp(|name|)] == NameField(name)
    ensures PascalName(s, start) == name
  {
    assert Substr(s, start + 1, OddUp(s[start])) == NameField(name);
    TrimProperties(name);
    if |name| % 2 == 0 {
      TrimPadded(name);
    }
  }

  /** The fields of a block as the packer writes them, after its signature at
      p: q is where the name field ends and next where the block ends. */
  predicate FieldsAt(s: Bytes, p: nat, id: nat, name: Bytes, data: Bytes, q: nat, next: nat)
  {
    id < 65536 && IsTrimmed(name) && |name| < 256 && |data| < 4294967296 &&
    q == p + 3 + OddUp(|name|) && next == q + 4 + EvenUp(|data|) && next <= |s| &&
    s[p..p + 2] == BE16(id) && s[p + 2] == |name| && s[p + 3..q] == NameField(name) &&
    s[q..q + 4] == BE32(|data|) && s[q + 4..next] == PaddedData(data)
  }

  /** A block whose fields lie after p as the packer writes them reads back as
      those fields. */
  lemma ReadIrbAt(s: Bytes, p: nat, id: nat, name: Bytes, data: Bytes, q: nat, next: nat)
    requires FieldsAt(s, p, id, name, data, q, next)
    ensures ReadIrb(s, p).Ok? && ReadIrb(s, p).value.0 == Irb(id, name, PaddedData(data)) && ReadIrb(s, p).value.1 == next
  {
    IdNameAt(s, p, id, name, data, q, next);
    LengthDataAt(s, p, id, name, data, q, next);
    ReadIrbSteps(s, p);
  }

  /** The id and the Pascal name of a packed block read back. */
  lemma IdNameAt(s: Bytes, p: nat, id: nat, name: Bytes, data: Bytes, q: nat, next: nat)
    requires FieldsAt(s, p, id, name, data, q, next)
    ensures ReadBE16(s, p) == id && NameEnd(s, p) == q && PascalName(s, p + 2) == name
  {
    ReadBE16At(s, p, id);
    DivModUnique(id, 65536, 0, id);
    PascalNameAt(s, p + 2, name);
  }

  /** The data length and the padded data of a packed block read back. */
  lemma LengthDataAt(s: Bytes, p: nat, id: nat, name: Bytes, data: Bytes, q: nat, next: nat)
    requires FieldsAt(s, p, id, name, data, q, next)
    ensures EvenUp(ReadBE32(s, q)) == EvenUp(|data|) && Substr(s, q + 4, EvenUp(|data|)) == PaddedData(data)
  {
    ReadBE32At(s, q, |data|);
    DivModUnique(|data|, 4294967296, 0, |data|);
  }

  /** The block packed at k reads back, from just after its signature, as the
      normalized block, and the cursor moves past it. */
  lemma IrbAt(s: Bytes, k: nat, irb: Irb, next: nat)
    requires Packable(irb) && next == k + |IrbBytes(irb)|
    requires next <= |s| && s[k..next] == IrbBytes(irb)
    ensures ReadIrb(s, k + 4).Ok? && ReadIrb(s, k + 4).value.0 == Normalized(irb) && ReadIrb(s, k + 4).value.1 == next
  {
    var name := Trim(irb.name);
    PackedFields(s, k, irb, next);
    ReadIrbAt(s, k + 4, irb.id, name, irb.data, k + 7 + OddUp(|name|), next);
  }

  /** The fields of a block the packer wrote at k lie as FieldsAt describes. */
  lemma PackedFields(s: Bytes, k: nat, irb: Irb, next: nat)
    requires Packable(irb) && next == k + |IrbBytes(irb)|
    requires next <= |s| && s[k..next] == IrbBytes(irb)
    ensures var name := Trim(irb.name);
      FieldsAt(s, k + 4, irb.id, name, irb.data, k + 7 + OddUp(|name|), next)
  {
    var name := Trim(irb.name);
    assert |name| <= |irb.name| && IsTrimmed(name) by { TrimProperties(irb.name); }
    DivModUnique(|name|, 256, 0, |name|);
    assert IrbBytes(irb) == IRB_SIGNATURE + BE16(irb.id) + [|name|] + NameField(name) + BE32(|irb.data|) + PaddedData(irb.data);
    FieldsFromParts(s, k, irb.id, name, irb.data, next);
  }

  /** The bytes of a block laid out at k: its fields lie as FieldsAt describes. */
  lemma FieldsFromParts(s: Bytes, k: nat, id: nat, name: Bytes, data: Bytes, next: nat)
    requires id < 65536 && IsTrimmed(name) && |name| < 256 && |data| < 4294967296
    requires next <= |s| && next - k == 11 + OddUp(|name|) + EvenUp(|data|)
    requires s[k..next] == IRB_SIGNATURE + BE16(id) + [|name|] + NameField(name) + BE32(|data|) + PaddedData(data)
    ensures FieldsAt(s, k + 4, id, name, data, k + 7 + OddUp(|name|), next)
  {
    var a, b, c := IRB_SIGNATURE, BE16(id), [|name|];
    var d, e, f := NameField(name), BE32(|data|), PaddedData(data);
    Fields6(s, k, a, b, c, d, e, f);
    var p, q := k + 4, k + 7 + OddUp(|name|);
    assert |a| == 4 && |b| == 2 && |c| == 1 && |e| == 4;
    assert s[p + 2] == s[p + 2..p + 3][0];
  }

  lemma IrbSignature(irb: Irb)
    ensures |IrbBytes(irb)| >= 4 && IrbBytes(irb)[..4] == IRB_SIGNATURE
  {
  }

  /** Unpacking from k, where a block with data was packed, gives the
      normalized block followed by what unpacking finds after it. */
  lemma UnpackIrbAt(s: Bytes, k: nat, irb: Irb, next: nat)
    requires Packable(irb) && irb.data != [] && next == k + |IrbBytes(irb)|
    requires next <= |s| && s[k..next] == IrbBytes(irb)
    ensures Unpack(s, k) == Prepend([Normalized(irb)], Unpack(s, next))
  {
    IrbSignature(irb);
    SubSlice(s, k, IrbBytes(irb), 0, 4);
    assert s[k..k + 4] == IrbBytes(irb)[..4];
    IndexOfHere(s, IRB_SIGNATURE, k);
    IrbAt(s, k, irb, next);
    UnpackStep(s, k, k, Normalized(irb), next);
  }

  /** Unpacking, from k, blocks packed there gives the repacked blocks. */
  lemma {:induction false} UnpackPacked(s: Bytes, k: nat, irbs: seq<Irb>)
    requires forall i :: 0 <= i < |irbs| ==> Packable(irbs[i])
    requires k <= |s| && s[k..] == Pack(irbs)
    ensures Unpack(s, k) == Ok(Repacked(irbs))
    decreases |irbs|
  {
    if irbs == [] {
      assert Pack(irbs) == [];
    } else {
      var b := PackedBytes(irbs[0]);
      var next := k + |b|;
      PackCons(irbs);
      SliceSplit(s, k, b, Pack(irbs[1..]));
      assert s[next..] == Pack(irbs[1..]);
      UnpackPacked(s, next, irbs[1..]);
      UnpackFirst(s, k, irbs, next);
    }
  }

  /** The step of UnpackPacked for the first block. */
  lemma UnpackFirst(s: Bytes, k: nat, irbs: seq<Irb>, next: nat)
    requires irbs != [] && Packable(irbs[0])
    requires next == k + |PackedBytes(irbs[0])| <= |s| && s[k..next] == PackedBytes(irbs[0])
    requires Unpack(s, next) == Ok(Repacked(irbs[1..]))
    ensures Unpack(s, k) == Ok(Repacked(irbs))
  {
    if irbs[0].data != [] {
      UnpackIrbAt(s, k, irbs[0], next);
      assert Repacked(irbs) == [Normalized(irbs[0])] + Repacked(irbs[1..]);
    }
  }

  /** Unpacking what the packer wrote gives the same ids, the trimmed names and
      the data padded to even length; blocks without data are dropped. */
  lemma PackRoundTrip(irbs: seq<Irb>)
    requires forall i :: 0 <= i < |irbs| ==> Packable(irbs[i])
    ensures Unpack(Pack(irbs), 0) == Ok(Repacked(irbs))
  {
    UnpackPacked(Pack(irbs), 0, irbs);
  }
}
