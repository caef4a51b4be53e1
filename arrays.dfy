// The arrays class Jpeg hands out and takes in (src/Metadata/Jpeg.php):
// getIptcData groups the IPTC DataSets by tag, setIptcData flattens such a
// grouping again, and getExifData keys every decoded EXIF entry by its block
// and tag.

module MetadataArrays {
  import opened Common
  import Iptc
  import Exif
  import TiffValue

  // ---------------------------------------------------------------------------
  // IPTC: $output[$tag][] = $data.

  /** A PHP array indexed by tag, whose values are lists of DataSet data; the
      order of the pairs is the array's insertion order. */
  type IptcGroups = seq<(Iptc.IptcTag, seq<Bytes>)>

  /** The position of tag t among the keys from `from` on, or |g| when absent. */
  function KeyIndexFrom(g: IptcGroups, t: Iptc.IptcTag, from: nat): (r: nat)
    requires from <= |g|
    ensures from <= r <= |g|
    ensures r < |g| ==> g[r].0 == t
    ensures forall j :: from <= j < r ==> g[j].0 != t
    decreases |g| - from
  {
    if from == |g| || g[from].0 == t then from else KeyIndexFrom(g, t, from + 1)
  }

  /** The position of tag t among the keys, or |g| when it is not a key. */
  function KeyIndex(g: IptcGroups, t: Iptc.IptcTag): (r: nat)
    ensures r <= |g|
    ensures r < |g| ==> g[r].0 == t
    ensures forall j :: 0 <= j < r ==> g[j].0 != t
  {
    KeyIndexFrom(g, t, 0)
  }

  /** $output[$tag][] = $data for one DataSet. */
  function AddEntry(g: IptcGroups, e: Iptc.IptcEntry): IptcGroups
  {
    var k := KeyIndex(g, e.tag);
    if k < |g| then g[k := (e.tag, g[k].1 + [e.data])] else g + [(e.tag, [e.data])]
  }

  /** getIptcData's array for the DataSets `es`. */
  function Grouped(es: seq<Iptc.IptcEntry>): IptcGroups
  {
    if es == [] then [] else AddEntry(Grouped(es[..|es| - 1]), es[|es| - 1])
  }

  /** The data of the DataSets with tag t, in order. */
  function TagData(es: seq<Iptc.IptcEntry>, t: Iptc.IptcTag): seq<Bytes>
  {
    if es == [] then []
    else TagData(es[..|es| - 1], t) + (if es[|es| - 1].tag == t then [es[|es| - 1].data] else [])
  }

  predicate DistinctKeys(g: IptcGroups)
  {
    forall i, j :: 0 <= i < j < |g| ==> g[i].0 != g[j].0
  }

  /** KeyIndex is the first position holding the tag. */
  lemma KeyIndexIs(g: IptcGroups, t: Iptc.IptcTag, k: nat)
    requires k <= |g| && (k < |g| ==> g[k].0 == t) && forall j :: 0 <= j < k ==> g[j].0 != t
    ensures KeyIndex(g, t) == k
  {
  }

  /** One DataSet added: its tag's list grows by its data (a new key at the end
      when the tag was not a key), every other key keeps its place and list. */
  lemma AddEntryAt(g: IptcGroups, e: Iptc.IptcEntry, t: Iptc.IptcTag)
    ensures var r := AddEntry(g, e);
            var k := KeyIndex(g, e.tag);
            |r| == (if k < |g| then |g| else |g| + 1) &&
            (t == e.tag ==> KeyIndex(r, t) == k && r[k].1 == (if k < |g| then g[k].1 else []) + [e.data]) &&
            (t != e.tag && KeyIndex(g, t) < |g| ==>
               KeyIndex(r, t) == KeyIndex(g, t) && r[KeyIndex(g, t)] == g[KeyIndex(g, t)]) &&
            (t != e.tag && KeyIndex(g, t) == |g| ==> KeyIndex(r, t) == |r|)
  {
    var r := AddEntry(g, e);
    var k := KeyIndex(g, e.tag);
    assert forall j :: 0 <= j < |g| && j != k ==> r[j] == g[j];
    assert r[k].0 == e.tag;
    if t == e.tag {
      KeyIndexIs(r, t, k);
    } else {
      var kt := KeyIndex(g, t);
      if kt < |g| {
        KeyIndexIs(r, t, kt);
      } else {
        KeyIndexIs(r, t, |r|);
      }
    }
  }

  /** Under each key of getIptcData's array lies the data of exactly the
      DataSets with that tag, in order; a tag with no DataSet is no key. */
  lemma {:induction false} GroupedValues(es: seq<Iptc.IptcEntry>, t: Iptc.IptcTag)
    ensures var g := Grouped(es);
            (KeyIndex(g, t) < |g| ==> g[KeyIndex(g, t)].1 == TagData(es, t) && TagData(es, t) != []) &&
            (KeyIndex(g, t) == |g| ==> TagData(es, t) == [])
  {
    if es != [] {
      var n := |es| - 1;
      var e := es[n];
      GroupedValues(es[..n], t);
      AddEntryAt(Grouped(es[..n]), e, t);
    }
  }

  /** getIptcData's array has no key twice. */
  lemma {:induction false} GroupedDistinct(es: seq<Iptc.IptcEntry>)
    ensures DistinctKeys(Grouped(es))
  {
    if es != [] {
      var n := |es| - 1;
      var g := Grouped(es[..n]);
      var e := es[n];
      GroupedDistinct(es[..n]);
      var r := AddEntry(g, e);
      var k := KeyIndex(g, e.tag);
      assert forall j :: 0 <= j < |g| ==> r[j].0 == g[j].0;
    }
  }

  /** The list of a tag's data is non-empty exactly when a DataSet has that tag. */
  lemma {:induction false} TagDataPresent(es: seq<Iptc.IptcEntry>, t: Iptc.IptcTag)
    ensures TagData(es, t) != [] <==> exists j :: 0 <= j < |es| && es[j].tag == t
  {
    if es != [] {
      var n := |es| - 1;
      TagDataPresent(es[..n], t);
      if exists j :: 0 <= j < n && es[..n][j].tag == t {
        var j :| 0 <= j < n && es[..n][j].tag == t;
        assert es[j].tag == t;
      }
      if exists j :: 0 <= j < |es| && es[j].tag == t {
        var j :| 0 <= j < |es| && es[j].tag == t;
        if j < n {
          assert es[..n][j].tag == t;
        }
      }
    }
  }

  /** The DataSets of one tag and its list of data. */
  function Entries(t: Iptc.IptcTag, ds: seq<Bytes>): (r: seq<Iptc.IptcEntry>)
    ensures |r| == |ds|
    ensures forall i :: 0 <= i < |ds| ==> r[i] == Iptc.IptcEntry(t, ds[i])
  {
    seq(|ds|, i requires 0 <= i < |ds| => Iptc.IptcEntry(t, ds[i]))
  }

  /** setIptcData's re-formatting: one DataSet per listed data, tag by tag. */
  function Flattened(g: IptcGroups): seq<Iptc.IptcEntry>
  {
    if g == [] then [] else Flattened(g[..|g| - 1]) + Entries(g[|g| - 1].0, g[|g| - 1].1)
  }

  /** DataSets of a tag not yet among the keys add one pair at the end. */
  lemma {:induction false} GroupedAppendNew(es: seq<Iptc.IptcEntry>, t: Iptc.IptcTag, ds: seq<Bytes>)
    requires KeyIndex(Grouped(es), t) == |Grouped(es)| && ds != []
    ensures Grouped(es + Entries(t, ds)) == Grouped(es) + [(t, ds)]
    decreases |ds|
  {
    var g := Grouped(es);
    var m := |ds| - 1;
    var all := es + Entries(t, ds);
    var e := Iptc.IptcEntry(t, ds[m]);
    assert all[..|all| - 1] == es + Entries(t, ds[..m]);
    assert all[|all| - 1] == e;
    assert Grouped(all) == AddEntry(Grouped(es + Entries(t, ds[..m])), e);
    if m == 0 {
      assert es + Entries(t, ds[..m]) == es;
      assert AddEntry(g, e) == g + [(t, [ds[0]])];
      assert [ds[0]] == ds;
    } else {
      GroupedAppendNew(es, t, ds[..m]);
      var before := g + [(t, ds[..m])];
      assert KeyIndex(before, t) == |g| by {
        assert before[|g|].0 == t;
        assert forall j :: 0 <= j < |g| ==> before[j] == g[j];
      }
      assert AddEntry(before, e) == before[|g| := (t, ds[..m] + [ds[m]])];
      assert ds[..m] + [ds[m]] == ds;
      assert before[|g| := (t, ds)] == g + [(t, ds)];
    }
  }

  /** getIptcData after setIptcData: grouping the flattened array gives the
      array back, when its keys are distinct (as a PHP array's are) and no list
      is empty (an empty list leaves no DataSet behind, so its key disappears). */
  lemma {:induction false} GroupedFlattened(g: IptcGroups)
    requires DistinctKeys(g) && forall i :: 0 <= i < |g| ==> g[i].1 != []
    ensures Grouped(Flattened(g)) == g
  {
    if g != [] {
      var n := |g| - 1;
      var init := g[..n];
      assert DistinctKeys(init);
      GroupedFlattened(init);
      assert KeyIndex(init, g[n].0) == |init|;
      GroupedAppendNew(Flattened(init), g[n].0, g[n].1);
      assert init + [g[n]] == g;
    }
  }

  // ---------------------------------------------------------------------------
  // EXIF: $output[block:tag] = $data.

  /** The key getExifData files an entry under: block, ':' and four hex digits. */
  function ExifKey(e: Exif.IfdEntry): string
  {
    TiffValue.Tag(e.block, e.tag)
  }

  /** The entries of all decoded segments, segment by segment. */
  function AllEntries(decoded: seq<Exif.Decoded>): seq<Exif.IfdEntry>
  {
    if decoded == [] then [] else AllEntries(decoded[..|decoded| - 1]) + decoded[|decoded| - 1].entries
  }

  /** Every entry has a printable value. */
  predicate Printables(es: seq<Exif.IfdEntry>)
  {
    forall i :: 0 <= i < |es| ==> es[i].Printable()
  }

  lemma {:induction false} AllEntriesPrintable(decoded: seq<Exif.Decoded>)
    requires Exif.AllPrintable(decoded)
    ensures Printables(AllEntries(decoded))
  {
    if decoded != [] {
      var n := |decoded| - 1;
      assert Exif.AllPrintable(decoded[..n]) by {
        assert forall i :: 0 <= i < n ==> decoded[..n][i] == decoded[i];
      }
      AllEntriesPrintable(decoded[..n]);
      var a := AllEntries(decoded[..n]);
      var all := a + decoded[n].entries;
      forall i | 0 <= i < |all|
        ensures all[i].Printable()
      {
        if i >= |a| {
          assert all[i] in decoded[n].entries;
        }
      }
    }
  }

  /** getExifData's array for the entries `es`: a later entry under the same key
      overwrites an earlier one. */
  function ExifMap(es: seq<Exif.IfdEntry>): map<string, Bytes>
    requires Printables(es)
  {
    if es == [] then map[]
    else ExifMap(es[..|es| - 1])[ExifKey(es[|es| - 1]) := es[|es| - 1].Data()]
  }

  /** One more entry sets (or overwrites) its own key. */
  lemma ExifMapSnoc(es: seq<Exif.IfdEntry>, e: Exif.IfdEntry)
    requires Printables(es) && e.Printable()
    ensures Printables(es + [e])
    ensures ExifMap(es + [e]) == ExifMap(es)[ExifKey(e) := e.Data()]
  {
    assert (es + [e])[..|es|] == es;
  }

  /** The keys of getExifData's array are the keys of the entries. */
  lemma ExifMapKeys(es: seq<Exif.IfdEntry>, key: string)
    requires Printables(es)
    ensures key in ExifMap(es) <==> exists i :: 0 <= i < |es| && ExifKey(es[i]) == key
  {
    if key in ExifMap(es) {
      ExifMapKeyFrom(es, key);
    }
    if exists i :: 0 <= i < |es| && ExifKey(es[i]) == key {
      var i :| 0 <= i < |es| && ExifKey(es[i]) == key;
      ExifKeyIn(es, i);
    }
  }

  /** Every key of getExifData's array comes from an entry. */
  lemma {:induction false} ExifMapKeyFrom(es: seq<Exif.IfdEntry>, key: string)
    requires Printables(es) && key in ExifMap(es)
    ensures exists i :: 0 <= i < |es| && ExifKey(es[i]) == key
  {
    var n := |es| - 1;
    if key != ExifKey(es[n]) {
      var init := es[..n];
      PrintablesPrefix(es, n);
      assert key in ExifMap(init);
      ExifMapKeyFrom(init, key);
      var i :| 0 <= i < n && ExifKey(init[i]) == key;
      assert es[i] == init[i];
    }
  }

  /** Every entry's key is a key of getExifData's array. */
  lemma {:induction false} ExifKeyIn(es: seq<Exif.IfdEntry>, i: nat)
    requires Printables(es) && i < |es|
    ensures ExifKey(es[i]) in ExifMap(es)
  {
    var n := |es| - 1;
    if i < n {
      var init := es[..n];
      PrintablesPrefix(es, n);
      assert init[i] == es[i];
      ExifKeyIn(init, i);
    }
  }

  lemma PrintablesPrefix(es: seq<Exif.IfdEntry>, n: nat)
    requires Printables(es) && n <= |es|
    ensures Printables(es[..n])
  {
    forall i | 0 <= i < n
      ensures es[..n][i].Printable()
    {
      assert es[..n][i] == es[i];
    }
  }

  /** Each key of getExifData's array holds the data of the last entry with
      that key. */
  lemma {:induction false} ExifMapLast(es: seq<Exif.IfdEntry>, i: nat)
    requires Printables(es)
    requires i < |es| && forall j :: i < j < |es| ==> ExifKey(es[j]) != ExifKey(es[i])
    ensures ExifKey(es[i]) in ExifMap(es) && ExifMap(es)[ExifKey(es[i])] == es[i].Data()
  {
    var n := |es| - 1;
    if i < n {
      var init := es[..n];
      assert init[i] == es[i];
      assert forall j :: i < j < n ==> init[j] == es[j];
      ExifMapLast(init, i);
    }
  }

  /** getExifData's array for the decoded segments. */
  function ExifArray(decoded: seq<Exif.Decoded>): map<string, Bytes>
    requires Exif.AllPrintable(decoded)
  {
    AllEntriesPrintable(decoded);
    ExifMap(AllEntries(decoded))
  }
}
