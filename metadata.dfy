/** The field store of the Metadata class: typed field identifiers, the values
    kept under them, the comma-list conversions and the IPTC array exported
    from the store. */
module MetadataStore {
  import opened Common
  import Iptc
  import opened MetadataArrays
  import JpegSegments
  import JpegFile

  // ---------------------------------------------------------------------------
  // Field identifiers and their types.

  datatype FieldType = Invalid | Str | Int | Ary

  const FIELD_ID_WRITE_FIRST := 100
  const FIELD_ID_WRITE_LAST := 132

  const FILE_NAME := 1
  const FILE_EXT := 2
  const FILE_SIZE := 3
  const FILE_DATE := 4

  const AUTHOR := 101
  const AUTHOR_TITLE := 102
  const CAPTION := 103
  const CAPTION_WRITER := 104
  const CATEGORY := 105
  const CITY := 106
  const COPYRIGHT := 107
  const COUNTRY := 108
  const COUNTRY_CODE := 109
  const CREDIT := 110
  const EDIT_STATUS := 111
  const EVENT := 112
  const GENRE := 113
  const HEADLINE := 114
  const INSTRUCTIONS := 115
  const KEYWORDS := 116
  const LOCATION := 117
  const OBJECT := 118
  const ORG_CODE := 119
  const ORG_NAME := 120
  const PERSON := 121
  const PRIORITY := 122
  const RATING := 123
  const SCENES := 124
  const SOURCE := 125
  const STATE := 126
  const SUBJECT_CODE := 127
  const SUPP_CATEGORY_A := 128
  const SUPP_CATEGORY_B := 129
  const SUPP_CATEGORY_C := 130
  const TRANSFER_REF := 131
  const USAGE_TERMS := 132

  const CREATED_DATETIME := 201

  /** fieldType(): the switch over the field constants, cases written with the
      constants' values (names in the comments). */
  function FieldTypeOf(id: int): FieldType
  {
    match id
    // GENRE, KEYWORDS, ORG_CODE, ORG_NAME, PERSON, SCENES, SUBJECT_CODE
    case 113 => Ary case 116 => Ary case 119 => Ary case 120 => Ary
    case 121 => Ary case 124 => Ary case 127 => Ary
    // FILE_DATE, FILE_SIZE, CREATED_DATETIME, PRIORITY, RATING, IMG_FLASH,
    // IMG_FOCAL_LENGTH, IMG_HEIGHT, IMG_ISO, IMG_ORIENTATION, IMG_RESOLUTION,
    // IMG_TYPE, IMG_WIDTH
    case 4 => Int case 3 => Int case 201 => Int case 122 => Int case 123 => Int
    case 309 => Int case 310 => Int case 311 => Int case 312 => Int
    case 316 => Int case 317 => Int case 320 => Int case 321 => Int
    // FILE_NAME, FILE_EXT and the other IPTC/XMP and image fields
    case 1 => Str case 2 => Str
    case 101 => Str case 102 => Str case 103 => Str case 104 => Str case 105 => Str
    case 106 => Str case 107 => Str case 108 => Str case 109 => Str case 110 => Str
    case 111 => Str case 112 => Str case 114 => Str case 115 => Str case 117 => Str
    case 118 => Str case 125 => Str case 126 => Str case 128 => Str case 129 => Str
    case 130 => Str case 131 => Str case 132 => Str
    case 301 => Str case 302 => Str case 303 => Str case 304 => Str case 305 => Str
    case 306 => Str case 307 => Str case 308 => Str case 313 => Str case 314 => Str
    case 315 => Str case 318 => Str case 319 => Str case 322 => Str
    case _ => Invalid
  }

  /** The identifiers with a type are the four file fields, the writable range
      101..132, the creation timestamp and the image fields 301..322; the
      writable range holds every array field and no identifier outside it is
      writable. */
  lemma FieldTypeRanges(id: int)
    ensures FieldTypeOf(id) != Invalid <==>
              1 <= id <= 4 || 101 <= id <= 132 || id == 201 || 301 <= id <= 322
    ensures FieldTypeOf(id) == Ary ==> FIELD_ID_WRITE_FIRST <= id <= FIELD_ID_WRITE_LAST
    ensures FieldTypeOf(id) == Int && FIELD_ID_WRITE_FIRST <= id <= FIELD_ID_WRITE_LAST <==>
              id == PRIORITY || id == RATING
  {
  }

  // ---------------------------------------------------------------------------
  // Values.

  /** A PHP scalar a field can hold: a (byte) string or an integer. */
  datatype Scalar = Text(s: Bytes) | Number(n: int)

  /** The value argument of set(): a scalar, an array of scalars, or false. */
  datatype Value = One(x: Scalar) | Many(items: seq<Scalar>) | False

  /** An element of a PHP list: its integer key and its value. */
  datatype Entry = Entry(key: nat, value: Scalar)

  /** A PHP array built by `$a[] = ...`: the elements in insertion order and
      the key the next append will use (it never goes down when an element is
      unset). */
  datatype PhpList = PhpList(entries: seq<Entry>, next: nat)

  /** What the store keeps under a field: a scalar or a list. */
  datatype Field = Plain(x: Scalar) | Listed(list: PhpList)

  type Store = map<int, Field>

  const EMPTY_LIST := PhpList([], 0)

  function Values(es: seq<Entry>): seq<Scalar>
  {
    seq(|es|, i requires 0 <= i < |es| => es[i].value)
  }

  /** Keys strictly increase along the entries, from lo on and below hi. */
  predicate KeysFrom(es: seq<Entry>, lo: nat, hi: nat)
    decreases |es|
  {
    es == [] || (lo <= es[0].key < hi && KeysFrom(es[1..], es[0].key + 1, hi))
  }

  /** Keys increase along the list and stay below the next free key. */
  predicate WellKeyed(l: PhpList)
  {
    KeysFrom(l.entries, 0, l.next)
  }

  /** `$a[] = x`. */
  function Append(l: PhpList, x: Scalar): PhpList
  {
    PhpList(l.entries + [Entry(l.next, x)], l.next + 1)
  }

  /** array_search($x, $a, strict: true): the key of the first element
      identical to x. */
  function KeyOf(es: seq<Entry>, x: Scalar): Option<nat>
  {
    if es == [] then None
    else if es[0].value == x then Some(es[0].key)
    else KeyOf(es[1..], x)
  }

  /** unset($a[k]). */
  function Without(es: seq<Entry>, k: nat): seq<Entry>
  {
    if es == [] then [] else (if es[0].key == k then [] else [es[0]]) + Without(es[1..], k)
  }

  function Unset(l: PhpList, k: nat): PhpList
  {
    PhpList(Without(l.entries, k), l.next)
  }

  /** The values with the first occurrence of x taken out. */
  function RemoveFirst(xs: seq<Scalar>, x: Scalar): seq<Scalar>
  {
    if xs == [] then [] else if xs[0] == x then xs[1..] else [xs[0]] + RemoveFirst(xs[1..], x)
  }

  /** The list `foreach ($xs as $x) $a[] = $x;` builds from nothing. */
  function FromValues(xs: seq<Scalar>): PhpList
  {
    if xs == [] then EMPTY_LIST else Append(FromValues(xs[..|xs| - 1]), xs[|xs| - 1])
  }

  lemma ValuesCons(es: seq<Entry>)
    requires es != []
    ensures Values(es) == [es[0].value] + Values(es[1..])
  {
  }

  lemma {:induction false} KeysFromSnoc(es: seq<Entry>, lo: nat, hi: nat, x: Scalar)
    requires KeysFrom(es, lo, hi) && lo <= hi
    ensures KeysFrom(es + [Entry(hi, x)], lo, hi + 1)
    decreases |es|
  {
    if es != [] {
      assert (es + [Entry(hi, x)])[1..] == es[1..] + [Entry(hi, x)];
      KeysFromSnoc(es[1..], es[0].key + 1, hi, x);
    }
  }

  /** Appending keeps the keys increasing and adds the value at the end. */
  lemma AppendWellKeyed(l: PhpList, x: Scalar)
    requires WellKeyed(l)
    ensures WellKeyed(Append(l, x))
    ensures Values(Append(l, x).entries) == Values(l.entries) + [x]
  {
    KeysFromSnoc(l.entries, 0, l.next, x);
  }

  /** A list built in one go is keyed 0, 1, ... and holds the elements in order. */
  lemma {:induction false} FromValuesIndexed(xs: seq<Scalar>)
    ensures WellKeyed(FromValues(xs))
    ensures |FromValues(xs).entries| == |xs| == FromValues(xs).next
    ensures forall i :: 0 <= i < |xs| ==> FromValues(xs).entries[i] == Entry(i, xs[i])
    ensures Values(FromValues(xs).entries) == xs
  {
    if xs != [] {
      var n := |xs| - 1;
      FromValuesIndexed(xs[..n]);
      AppendWellKeyed(FromValues(xs[..n]), xs[n]);
    }
  }

  lemma KeysFromWeaken(es: seq<Entry>, lo: nat, lo': nat, hi: nat)
    requires KeysFrom(es, lo, hi) && lo' <= lo
    ensures KeysFrom(es, lo', hi)
  {
  }

  /** Keys below the first bound are not in the list: unsetting one changes nothing. */
  lemma {:induction false} WithoutBelow(es: seq<Entry>, lo: nat, hi: nat, k: nat)
    requires KeysFrom(es, lo, hi) && k < lo
    ensures Without(es, k) == es
    decreases |es|
  {
    if es != [] {
      WithoutBelow(es[1..], es[0].key + 1, hi, k);
    }
  }

  lemma {:induction false} WithoutKeys(es: seq<Entry>, lo: nat, hi: nat, k: nat)
    requires KeysFrom(es, lo, hi)
    ensures KeysFrom(Without(es, k), lo, hi)
    decreases |es|
  {
    if es != [] {
      WithoutKeys(es[1..], es[0].key + 1, hi, k);
      if es[0].key == k {
        assert Without(es, k) == Without(es[1..], k);
        KeysFromWeaken(Without(es[1..], k), es[0].key + 1, lo, hi);
      } else {
        assert Without(es, k) == [es[0]] + Without(es[1..], k);
      }
    }
  }

  /** Unsetting keeps the keys increasing. */
  lemma UnsetWellKeyed(l: PhpList, k: nat)
    requires WellKeyed(l)
    ensures WellKeyed(Unset(l, k))
  {
    WithoutKeys(l.entries, 0, l.next, k);
  }

  /** array_search() finds a key of the list exactly when the value is among its
      values, and then it is the key of the first element holding the value. */
  lemma {:induction false} KeyOfSpec(es: seq<Entry>, x: Scalar, lo: nat, hi: nat)
    requires KeysFrom(es, lo, hi)
    ensures KeyOf(es, x).None? <==> x !in Values(es)
    ensures KeyOf(es, x).Some? ==>
              exists i :: 0 <= i < |es| && es[i].key == KeyOf(es, x).value && es[i].value == x &&
                          x !in Values(es[..i])
    ensures KeyOf(es, x).Some? ==> lo <= KeyOf(es, x).value < hi
    decreases |es|
  {
    if es != [] {
      ValuesCons(es);
      KeyOfSpec(es[1..], x, es[0].key + 1, hi);
      if es[0].value == x {
        assert Values(es[..0]) == [];
      } else if KeyOf(es, x).Some? {
        var i :| 0 <= i < |es[1..]| && es[1..][i].key == KeyOf(es, x).value && es[1..][i].value == x &&
                 x !in Values(es[1..][..i]);
        assert es[..i + 1] == [es[0]] + es[1..][..i];
        ValuesCons(es[..i + 1]);
        assert es[i + 1] == es[1..][i];
      }
    }
  }

  /** Unsetting the key array_search() found removes the first occurrence of
      the value, and nothing else. */
  lemma {:induction false} UnsetFound(es: seq<Entry>, x: Scalar, lo: nat, hi: nat)
    requires KeysFrom(es, lo, hi) && KeyOf(es, x).Some?
    ensures Values(Without(es, KeyOf(es, x).value)) == RemoveFirst(Values(es), x)
    decreases |es|
  {
    var k := KeyOf(es, x).value;
    ValuesCons(es);
    if es[0].value == x {
      WithoutBelow(es[1..], es[0].key + 1, hi, k);
    } else {
      UnsetFound(es[1..], x, es[0].key + 1, hi);
      KeyOfSpec(es[1..], x, es[0].key + 1, hi);
      assert Without(es, k) == [es[0]] + Without(es[1..], k);
      ValuesCons(Without(es, k));
    }
  }

  /** Taking out a value that was appended after the others gives back the
      others. */
  lemma {:induction false} RemoveAppended(xs: seq<Scalar>, x: Scalar)
    requires x !in xs
    ensures RemoveFirst(xs + [x], x) == xs
  {
    if xs != [] {
      assert (xs + [x])[1..] == xs[1..] + [x];
      RemoveAppended(xs[1..], x);
    }
  }

  // ---------------------------------------------------------------------------
  // The typed store.

  /** isValidFieldType(): the value has the PHP type of the field. */
  predicate IsValidFieldType(id: int, v: Value)
  {
    match FieldTypeOf(id)
    case Str => v.One? && v.x.Text?
    case Int => v.One? && v.x.Number?
    case Ary => v.Many?
    case Invalid => false
  }

  /** What the store keeps under an identifier agrees with its type. */
  predicate Typed(id: int, f: Field)
  {
    match FieldTypeOf(id)
    case Str => f.Plain? && f.x.Text?
    case Int => f.Plain? && f.x.Number?
    case Ary => f.Listed? && WellKeyed(f.list)
    case Invalid => false
  }

  predicate StoreTyped(d: Store)
  {
    forall id :: id in d ==> Typed(id, d[id])
  }

  /** get(). */
  function GetField(d: Store, id: int): Result<Option<Field>>
  {
    if FieldTypeOf(id) == Invalid then Err(InvalidFieldId)
    else if id in d then Ok(Some(d[id]))
    else Ok(None)
  }

  /** isSet(): is the field set, or (with a value) is the value among the
      field's list; array_search() on a missing or scalar field is a TypeError. */
  function IsSetField(d: Store, id: int, value: Option<Bytes>): Result<bool>
  {
    if FieldTypeOf(id) == Invalid then Err(InvalidFieldId)
    else if value.None? then Ok(id in d)
    else if id !in d || !d[id].Listed? then Err(TypeError)
    else Ok(KeyOf(d[id].list.entries, Text(value.value)).Some?)
  }

  /** drop(): a value may only be dropped from an array field; dropping a value
      unsets the key array_search() gives, which is key 0 (PHP's false) when
      the value is absent; without a value the field goes. */
  function DropField(d: Store, id: int, value: Option<Bytes>): Result<Store>
  {
    if FieldTypeOf(id) == Invalid then Err(InvalidFieldId)
    else if FieldTypeOf(id) != Ary && value.Some? then Err(InvalidFieldId)
    else if value.Some? then
      if id !in d || !d[id].Listed? then Err(TypeError)
      else
        var pos := KeyOf(d[id].list.entries, Text(value.value));
        Ok(d[id := Listed(Unset(d[id].list, if pos.Some? then pos.value else 0))])
    else Ok(d - {id})
  }

  /** `$this->data[$id][] = $x`. */
  function Push(d: Store, id: int, x: Scalar): Store
  {
    var l := if id in d && d[id].Listed? && WellKeyed(d[id].list) then d[id].list else EMPTY_LIST;
    d[id := Listed(Append(l, x))]
  }

  /** The foreach of setRW() appending every element to the field. */
  function PushAll(d: Store, id: int, xs: seq<Scalar>): Store
  {
    if xs == [] then d else Push(PushAll(d, id, xs[..|xs| - 1]), id, xs[|xs| - 1])
  }

  /** setRW(): refuse an unknown field, a value of the wrong type and (unless
      the write check is off) a field outside 100..132; false drops the field;
      a scalar joins an array field that is set unless it is already there;
      otherwise an array field is rebuilt from the elements (a scalar there is
      no array to walk, so nothing is added) and a scalar field is overwritten. */
  function SetField(d: Store, id: int, v: Value, checkWrite: bool): Result<Store>
  {
    var t := FieldTypeOf(id);
    if t == Invalid then Err(InvalidFieldId)
    else if !IsValidFieldType(id, v) && !(t == Ary && !v.Many?) && v != False then Err(InvalidFieldId)
    else if checkWrite && (id < FIELD_ID_WRITE_FIRST || id > FIELD_ID_WRITE_LAST) then Err(InvalidFieldWrite)
    else if v == False then DropField(d, id, None)
    else if t == Ary then
      if id in d && !v.Many? then
        if !d[id].Listed? then Err(TypeError)
        else if v.x in Values(d[id].list.entries) then Ok(d)
        else Ok(Push(d, id, v.x))
      else Ok(PushAll(d - {id}, id, if v.Many? then v.items else []))
    else Ok(d[id := Plain(v.x)])
  }

  /** The foreach of setRW() rebuilds the field from its elements, in order,
      keyed from 0; with no elements the field stays unset. */
  lemma {:induction false} PushAllFresh(d: Store, id: int, xs: seq<Scalar>)
    requires id !in d
    ensures PushAll(d, id, xs) == if xs == [] then d else d[id := Listed(FromValues(xs))]
  {
    if xs != [] {
      var n := |xs| - 1;
      var init := xs[..n];
      PushAllFresh(d, id, init);
      var prev := PushAll(d, id, init);
      assert PushAll(d, id, xs) == Push(prev, id, xs[n]);
      assert FromValues(xs) == Append(FromValues(init), xs[n]);
      var l := if id in prev && prev[id].Listed? && WellKeyed(prev[id].list) then prev[id].list else EMPTY_LIST;
      assert l == FromValues(init) by {
        if init != [] {
          FromValuesIndexed(init);
        }
      }
      assert Push(prev, id, xs[n]) == prev[id := Listed(Append(l, xs[n]))];
    }
  }

  // ---------------------------------------------------------------------------
  // Properties of the store operations.

  /** An unknown identifier is refused by get(), setRW(), drop() and isSet(). */
  lemma InvalidIdRefused(d: Store, id: int, v: Value, checkWrite: bool, value: Option<Bytes>)
    requires FieldTypeOf(id) == Invalid
    ensures GetField(d, id) == Err(InvalidFieldId)
    ensures SetField(d, id, v, checkWrite) == Err(InvalidFieldId)
    ensures DropField(d, id, value) == Err(InvalidFieldId)
    ensures IsSetField(d, id, value) == Err(InvalidFieldId)
  {
  }

  /** set() accepts for a field exactly false, a value of its type, or (array
      fields) anything; then refuses every field outside 100..132. */
  lemma SetReadOnlyRefused(d: Store, id: int, v: Value)
    requires FieldTypeOf(id) != Invalid
    requires id < FIELD_ID_WRITE_FIRST || id > FIELD_ID_WRITE_LAST
    ensures SetField(d, id, v, true).Err?
    ensures v == False || IsValidFieldType(id, v) ==> SetField(d, id, v, true) == Err(InvalidFieldWrite)
  {
  }

  /** A value of the wrong type for a scalar field is refused, whether or not
      the write check is on. */
  lemma SetWrongTypeRefused(d: Store, id: int, v: Value, checkWrite: bool)
    requires FieldTypeOf(id) == Str || FieldTypeOf(id) == Int
    requires v != False && !IsValidFieldType(id, v)
    ensures SetField(d, id, v, checkWrite) == Err(InvalidFieldId)
  {
  }

  /** Setting a writable field to false removes it: get() then finds nothing. */
  lemma SetFalseRemoves(d: Store, id: int)
    requires FieldTypeOf(id) != Invalid && FIELD_ID_WRITE_FIRST <= id <= FIELD_ID_WRITE_LAST
    ensures SetField(d, id, False, true) == Ok(d - {id})
    ensures GetField(SetField(d, id, False, true).value, id) == Ok(None)
  {
  }

  /** A scalar field is overwritten: get() returns the new value and every other
      field is as it was. */
  lemma SetScalarOverwrites(d: Store, id: int, x: Scalar, checkWrite: bool)
    requires IsValidFieldType(id, One(x)) && FieldTypeOf(id) != Ary
    requires !checkWrite || FIELD_ID_WRITE_FIRST <= id <= FIELD_ID_WRITE_LAST
    ensures SetField(d, id, One(x), checkWrite) == Ok(d[id := Plain(x)])
    ensures GetField(SetField(d, id, One(x), checkWrite).value, id) == Ok(Some(Plain(x)))
    ensures forall k :: k != id ==> GetField(SetField(d, id, One(x), checkWrite).value, k) == GetField(d, k)
  {
  }

  /** A scalar given to an array field that is set joins the values only when
      it is not already there, so a duplicate-free list stays duplicate-free;
      isSet() then finds a string value. */
  lemma SetAddsOnce(d: Store, id: int, x: Scalar, checkWrite: bool)
    requires FieldTypeOf(id) == Ary && StoreTyped(d) && id in d
    requires !checkWrite || FIELD_ID_WRITE_FIRST <= id <= FIELD_ID_WRITE_LAST
    ensures var r := SetField(d, id, One(x), checkWrite);
      r.Ok? && r.value.Keys == d.Keys && r.value - {id} == d - {id} &&
      r.value[id].Listed? && WellKeyed(r.value[id].list) &&
      Values(r.value[id].list.entries) ==
        (if x in Values(d[id].list.entries) then Values(d[id].list.entries)
         else Values(d[id].list.entries) + [x])
    ensures var r := SetField(d, id, One(x), checkWrite);
      r.Ok? && (Distinct(Values(d[id].list.entries)) ==> Distinct(Values(r.value[id].list.entries)))
    ensures x.Text? ==> IsSetField(SetField(d, id, One(x), checkWrite).value, id, Some(x.s)) == Ok(true)
  {
    var l := d[id].list;
    var r := SetField(d, id, One(x), checkWrite).value;
    AppendWellKeyed(l, x);
    if x !in Values(l.entries) {
      assert r == d[id := Listed(Append(l, x))];
      if Distinct(Values(l.entries)) {
        DistinctSnoc(Values(l.entries), x);
      }
    }
    KeyOfSpec(r[id].list.entries, x, 0, r[id].list.next);
  }

  /** Setting an array field to an array replaces its values by the array's
      elements, keyed 0, 1, ...; an empty array leaves the field unset. */
  lemma SetArrayReplaces(d: Store, id: int, items: seq<Scalar>, checkWrite: bool)
    requires FieldTypeOf(id) == Ary
    requires !checkWrite || FIELD_ID_WRITE_FIRST <= id <= FIELD_ID_WRITE_LAST
    ensures SetField(d, id, Many(items), checkWrite) ==
              Ok(if items == [] then d - {id} else d[id := Listed(FromValues(items))])
  {
    PushAllFresh(d - {id}, id, items);
    if items != [] {
      assert (d - {id})[id := Listed(FromValues(items))] == d[id := Listed(FromValues(items))];
    }
  }

  /** A scalar given to an array field that is not set adds nothing: setRW()
      drops the field and then walks the scalar as if it were an array. */
  lemma SetScalarOnUnsetArray(d: Store, id: int, x: Scalar, checkWrite: bool)
    requires FieldTypeOf(id) == Ary && id !in d
    requires !checkWrite || FIELD_ID_WRITE_FIRST <= id <= FIELD_ID_WRITE_LAST
    ensures SetField(d, id, One(x), checkWrite) == Ok(d)
  {
    assert d - {id} == d;
  }

  /** drop() with a value on a field that is not an array is refused; without a
      value it removes the field. */
  lemma DropRules(d: Store, id: int, v: Bytes)
    requires FieldTypeOf(id) != Invalid
    ensures FieldTypeOf(id) != Ary ==> DropField(d, id, Some(v)) == Err(InvalidFieldId)
    ensures DropField(d, id, None) == Ok(d - {id})
    ensures IsSetField(DropField(d, id, None).value, id, None) == Ok(false)
  {
  }

  /** Dropping a value of an array field removes its first occurrence; dropping
      a value that is not there unsets key 0 instead, which takes out the first
      element of a list that was built in one go. */
  lemma DropValue(d: Store, id: int, v: Bytes)
    requires FieldTypeOf(id) == Ary && StoreTyped(d) && id in d
    ensures var r := DropField(d, id, Some(v));
      r.Ok? && r.value - {id} == d - {id} && r.value[id].Listed? && WellKeyed(r.value[id].list)
    ensures Text(v) in Values(d[id].list.entries) ==>
              Values(DropField(d, id, Some(v)).value[id].list.entries) ==
                RemoveFirst(Values(d[id].list.entries), Text(v))
    ensures Text(v) !in Values(d[id].list.entries) ==>
              DropField(d, id, Some(v)).value[id].list == Unset(d[id].list, 0)
  {
    var l := d[id].list;
    var pos := KeyOf(l.entries, Text(v));
    UnsetWellKeyed(l, if pos.Some? then pos.value else 0);
    KeyOfSpec(l.entries, Text(v), 0, l.next);
    if pos.Some? {
      UnsetFound(l.entries, Text(v), 0, l.next);
    }
  }

  /** The key-0 quirk: dropping an absent value from a list set in one go loses
      the list's first value. */
  lemma DropAbsentLosesFirst(d: Store, id: int, xs: seq<Scalar>, v: Bytes)
    requires FieldTypeOf(id) == Ary && id in d && d[id] == Listed(FromValues(xs))
    requires xs != [] && Text(v) !in xs
    ensures DropField(d, id, Some(v)) == Ok(d[id := Listed(PhpList(FromValues(xs).entries[1..], |xs|))])
    ensures Values(DropField(d, id, Some(v)).value[id].list.entries) == xs[1..]
  {
    FromValuesIndexed(xs);
    KeyOfSpec(FromValues(xs).entries, Text(v), 0, |xs|);
    UnsetZeroFromValues(xs);
  }

  /** Unsetting key 0 of a list built in one go takes out its first element. */
  lemma UnsetZeroFromValues(xs: seq<Scalar>)
    requires xs != []
    ensures Without(FromValues(xs).entries, 0) == FromValues(xs).entries[1..]
    ensures Values(FromValues(xs).entries[1..]) == xs[1..]
  {
    var es := FromValues(xs).entries;
    FromValuesIndexed(xs);
    assert es[0].key == 0;
    WithoutBelow(es[1..], 1, |xs|, 0);
    assert Without(es, 0) == Without(es[1..], 0);
  }

  /** Adding a new value and dropping it again gives back the values. */
  lemma AddThenDrop(d: Store, id: int, s: Bytes)
    requires FieldTypeOf(id) == Ary && StoreTyped(d) && id in d
    requires Text(s) !in Values(d[id].list.entries)
    ensures var added := SetField(d, id, One(Text(s)), true).value;
      var dropped := DropField(added, id, Some(s));
      dropped.Ok? && dropped.value - {id} == d - {id} &&
      Values(dropped.value[id].list.entries) == Values(d[id].list.entries)
  {
    FieldTypeRanges(id);
    var l := d[id].list;
    var added := SetField(d, id, One(Text(s)), true).value;
    assert added == d[id := Listed(Append(l, Text(s)))];
    AppendWellKeyed(l, Text(s));
    var es := Append(l, Text(s)).entries;
    KeyOfSpec(es, Text(s), 0, l.next + 1);
    UnsetFound(es, Text(s), 0, l.next + 1);
    RemoveAppended(Values(l.entries), Text(s));
  }

  /** setRW() and drop() keep every field typed. */
  lemma OperationsKeepTyped(d: Store, id: int, v: Value, checkWrite: bool, value: Option<Bytes>)
    requires StoreTyped(d)
    ensures SetField(d, id, v, checkWrite).Ok? ==> StoreTyped(SetField(d, id, v, checkWrite).value)
    ensures DropField(d, id, value).Ok? ==> StoreTyped(DropField(d, id, value).value)
  {
    if FieldTypeOf(id) == Ary && DropField(d, id, value).Ok? && value.Some? {
      var pos := KeyOf(d[id].list.entries, Text(value.value));
      UnsetWellKeyed(d[id].list, if pos.Some? then pos.value else 0);
    }
    if FieldTypeOf(id) == Ary && SetField(d, id, v, checkWrite).Ok? && v != False {
      if id in d && !v.Many? {
        AppendWellKeyed(d[id].list, v.x);
      } else {
        PushAllFresh(d - {id}, id, if v.Many? then v.items else []);
        FromValuesIndexed(if v.Many? then v.items else []);
      }
    }
  }

  predicate Distinct<T(==)>(xs: seq<T>)
  {
    forall i, j :: 0 <= i < j < |xs| ==> xs[i] != xs[j]
  }

  lemma DistinctSnoc<T>(xs: seq<T>, x: T)
    requires Distinct(xs) && x !in xs
    ensures Distinct(xs + [x])
  {
  }

  // ---------------------------------------------------------------------------
  // stringToArray() and arrayToString().

  const COMMA: byte := 44
  const SPACE: byte := 32

  /** The position of the last comma of s, if any. */
  function LastComma(s: Bytes): (r: Option<nat>)
    ensures r.Some? ==> r.value < |s| && s[r.value] == COMMA && COMMA !in s[r.value + 1..]
    ensures r.None? ==> COMMA !in s
  {
    if s == [] then None
    else if s[|s| - 1] == COMMA then Some(|s| - 1)
    else
      var r := LastComma(s[..|s| - 1]);
      if r.Some? then
        assert s[r.value + 1..] == s[..|s| - 1][r.value + 1..] + [s[|s| - 1]];
        r
      else
        assert s == s[..|s| - 1] + [s[|s| - 1]];
        r
  }

  /** explode(',', s): the pieces between the commas. */
  function Explode(s: Bytes): seq<Bytes>
    decreases |s|
  {
    match LastComma(s)
    case None => [s]
    case Some(i) => Explode(s[..i]) + [s[i + 1..]]
  }

  /** The pieces joined with a separator between each two. */
  function Implode(parts: seq<Bytes>, sep: Bytes): Bytes
  {
    if parts == [] then []
    else if |parts| == 1 then parts[0]
    else Implode(parts[..|parts| - 1], sep) + sep + parts[|parts| - 1]
  }

  /** explode() cuts a string into comma-free pieces that join back into it. */
  lemma {:induction false} ExplodeImplode(s: Bytes)
    ensures Explode(s) != []
    ensures forall i :: 0 <= i < |Explode(s)| ==> COMMA !in Explode(s)[i]
    ensures Implode(Explode(s), [COMMA]) == s
    decreases |s|
  {
    match LastComma(s)
    case None =>
    case Some(i) =>
      ExplodeImplode(s[..i]);
      var ps := Explode(s[..i]) + [s[i + 1..]];
      assert ps[..|ps| - 1] == Explode(s[..i]);
      assert s == s[..i] + [COMMA] + s[i + 1..];
  }

  /** A last piece without a comma is split off as it is. */
  lemma ExplodeSnoc(a: Bytes, b: Bytes)
    requires COMMA !in b
    ensures Explode(a + [COMMA] + b) == Explode(a) + [b]
  {
    var s := a + [COMMA] + b;
    assert s[..|a|] == a && s[|a| + 1..] == b;
    LastCommaAt(s, |a|);
  }

  /** A comma with none after it is the last comma. */
  lemma LastCommaAt(s: Bytes, k: nat)
    requires k < |s| && s[k] == COMMA && COMMA !in s[k + 1..]
    ensures LastComma(s) == Some(k)
  {
  }

  /** `$out[$p] = $p`: a value already among the keys keeps its place. */
  function AddNew(acc: seq<Bytes>, x: Bytes): seq<Bytes>
  {
    if x in acc then acc else acc + [x]
  }

  /** The foreach of stringToArray(): the trimmed pieces, each once, in the
      order they first appear. */
  function Collect(pieces: seq<Bytes>): seq<Bytes>
  {
    if pieces == [] then [] else AddNew(Collect(pieces[..|pieces| - 1]), Trim(pieces[|pieces| - 1]))
  }

  /** stringToArray(): false for false and for an empty string (PHP empty(),
      which "0" also is); otherwise the distinct trimmed comma-separated pieces. */
  function StringArray(input: Option<Bytes>): Option<seq<Bytes>>
  {
    if input.None? || IsEmptyString(input.value) then None
    else Some(Collect(Explode(input.value)))
  }

  method StringToArray(input: Option<Bytes>) returns (r: Option<seq<Bytes>>)
    ensures r == StringArray(input)
  {
    if input.None? || IsEmptyString(input.value) {
      return None;
    }
    var pieces := Explode(input.value);
    var output: seq<Bytes> := [];
    for i := 0 to |pieces|
      invariant output == Collect(pieces[..i])
    {
      assert pieces[..i + 1][..i] == pieces[..i];
      var piece := Trim(pieces[i]);
      if piece !in output {
        output := output + [piece];
      }
    }
    assert pieces[..|pieces|] == pieces;
    return Some(output);
  }

  /** The values of stringToArray() are trimmed, free of commas and distinct,
      and they are exactly the trimmed pieces of the input. */
  lemma {:induction false} CollectShape(pieces: seq<Bytes>)
    requires forall i :: 0 <= i < |pieces| ==> COMMA !in pieces[i]
    ensures Distinct(Collect(pieces))
    ensures forall i :: 0 <= i < |Collect(pieces)| ==> IsTrimmed(Collect(pieces)[i]) && COMMA !in Collect(pieces)[i]
    ensures forall x :: x in Collect(pieces) <==> exists i :: 0 <= i < |pieces| && Trim(pieces[i]) == x
  {
    if pieces != [] {
      var n := |pieces| - 1;
      CollectShape(pieces[..n]);
      var last := pieces[n];
      TrimProperties(last);
      TrimInfix(last);
      var acc := Collect(pieces[..n]);
      if Trim(last) !in acc {
        DistinctSnoc(acc, Trim(last));
      }
      forall x | x in Collect(pieces)
        ensures exists i :: 0 <= i < |pieces| && Trim(pieces[i]) == x
      {
        if x in acc {
          var i :| 0 <= i < |pieces[..n]| && Trim(pieces[..n][i]) == x;
          assert Trim(pieces[i]) == x;
        } else {
          assert Trim(pieces[n]) == x;
        }
      }
      forall x | exists i :: 0 <= i < |pieces| && Trim(pieces[i]) == x
        ensures x in Collect(pieces)
      {
        var i :| 0 <= i < |pieces| && Trim(pieces[i]) == x;
        if i < n {
          assert Trim(pieces[..n][i]) == x;
        }
      }
    }
  }

  /** What trim() leaves is part of its input: a comma-free input leaves a
      comma-free result. */
  lemma TrimInfix(s: Bytes)
    ensures forall b :: b in Trim(s) ==> b in s
  {
    TrimLeftSuffix(s);
    TrimRightPrefix(TrimLeft(s));
    forall b | b in Trim(s)
      ensures b in s
    {
      var j :| 0 <= j < |Trim(s)| && Trim(s)[j] == b;
      assert b == TrimLeft(s)[j];
      assert b == s[|s| - |TrimLeft(s)| + j];
    }
  }

  /** A PHP scalar as a string: integers in decimal. */
  function ScalarBytes(x: Scalar): Bytes
  {
    match x
    case Text(s) => s
    case Number(n) => Ascii(IntString(n))
  }

  /** The foreach of arrayToString(): ", " goes before each value unless the
      output so far is empty() -- which "0" also is. */
  function ArrayJoin(xs: seq<Scalar>): Bytes
  {
    if xs == [] then []
    else
      var out := ArrayJoin(xs[..|xs| - 1]);
      (if IsEmptyString(out) then out else out + [COMMA, SPACE]) + ScalarBytes(xs[|xs| - 1])
  }

  /** arrayToString(). */
  function ArrayString(input: Option<seq<Scalar>>): Option<Bytes>
  {
    if input.None? then None else Some(ArrayJoin(input.value))
  }

  method ArrayToString(input: Option<seq<Scalar>>) returns (r: Option<Bytes>)
    ensures r == ArrayString(input)
  {
    if input.None? {
      return None;
    }
    var xs := input.value;
    var output: Bytes := [];
    for i := 0 to |xs|
      invariant output == ArrayJoin(xs[..i])
    {
      assert xs[..i + 1][..i] == xs[..i];
      if !IsEmptyString(output) {
        output := output + [COMMA, SPACE];
      }
      output := output + ScalarBytes(xs[i]);
    }
    assert xs[..|xs|] == xs;
    return Some(output);
  }

  /** When the first value is not empty(), arrayToString() is the values joined
      with ", ". */
  lemma {:induction false} ArrayJoinImplode(xs: seq<Scalar>)
    requires xs != [] && !IsEmptyString(ScalarBytes(xs[0]))
    ensures ArrayJoin(xs) == Implode(seq(|xs|, i requires 0 <= i < |xs| => ScalarBytes(xs[i])), [COMMA, SPACE])
    ensures !IsEmptyString(ArrayJoin(xs))
  {
    var ts := seq(|xs|, i requires 0 <= i < |xs| => ScalarBytes(xs[i]));
    var n := |xs| - 1;
    if n > 0 {
      ArrayJoinImplode(xs[..n]);
      assert ts[..n] == seq(n, i requires 0 <= i < n => ScalarBytes(xs[..n][i]));
    }
  }

  /** The separator is skipped after a leading "0": the values "0" and "a"
      come out as "0a". */
  lemma ArrayJoinAfterZero()
    ensures ArrayJoin([Text([0x30]), Text([0x61])]) == [0x30, 0x61]
  {
    assert [Text([0x30]), Text([0x61])][..1] == [Text([0x30])];
  }

  /** The pieces explode(',') makes of values joined with ", ": the first
      value, then each further value behind a space. */
  function Spaced(ts: seq<Bytes>): (r: seq<Bytes>)
    ensures |r| == |ts|
  {
    if |ts| <= 1 then ts else Spaced(ts[..|ts| - 1]) + [[SPACE] + ts[|ts| - 1]]
  }

  lemma {:induction false} ExplodeJoined(ts: seq<Bytes>)
    requires ts != [] && forall i :: 0 <= i < |ts| ==> COMMA !in ts[i]
    ensures Explode(Implode(ts, [COMMA, SPACE])) == Spaced(ts)
  {
    var n := |ts| - 1;
    var sep: Bytes := [COMMA, SPACE];
    if n == 0 {
      assert Implode(ts, sep) == ts[0];
      assert LastComma(ts[0]).None?;
    } else {
      var init := ts[..n];
      assert forall i :: 0 <= i < |init| ==> COMMA !in init[i];
      ExplodeJoined(init);
      var j := Implode(init, sep);
      var last: Bytes := [SPACE] + ts[n];
      assert COMMA !in last;
      assert Implode(ts, sep) == j + sep + ts[n];
      assert j + sep + ts[n] == j + [COMMA] + last;
      ExplodeSnoc(j, last);
      assert Spaced(ts) == Spaced(init) + [last];
    }
  }

  /** trim() takes the space off a spaced trimmed value. */
  lemma TrimSpaced(t: Bytes)
    requires IsTrimmed(t)
    ensures Trim([SPACE] + t) == t
  {
    assert ([SPACE] + t)[1..] == t;
    TrimProperties(t);
  }

  lemma {:induction false} CollectSpaced(ts: seq<Bytes>)
    requires ts != [] && Distinct(ts) && forall i :: 0 <= i < |ts| ==> IsTrimmed(ts[i])
    ensures Collect(Spaced(ts)) == ts
  {
    var n := |ts| - 1;
    if n == 0 {
      TrimProperties(ts[0]);
    } else {
      CollectSpaced(ts[..n]);
      var sp := Spaced(ts);
      assert sp == Spaced(ts[..n]) + [[SPACE] + ts[n]];
      assert sp[..n] == Spaced(ts[..n]);
      TrimSpaced(ts[n]);
      assert Collect(sp) == AddNew(ts[..n], ts[n]);
      assert ts[n] !in ts[..n];
      assert ts[..n] + [ts[n]] == ts;
    }
  }

  /** stringToArray() undoes arrayToString() for distinct trimmed strings free
      of commas whose first one is not empty(). */
  lemma StringArrayRoundTrip(ts: seq<Bytes>)
    requires ts != [] && Distinct(ts) && !IsEmptyString(ts[0])
    requires forall i :: 0 <= i < |ts| ==> IsTrimmed(ts[i]) && COMMA !in ts[i]
    ensures StringArray(ArrayString(Some(seq(|ts|, i requires 0 <= i < |ts| => Text(ts[i]))))) == Some(ts)
  {
    var xs := seq(|ts|, i requires 0 <= i < |ts| => Text(ts[i]));
    ArrayJoinImplode(xs);
    assert seq(|xs|, i requires 0 <= i < |xs| => ScalarBytes(xs[i])) == ts;
    ExplodeJoined(ts);
    CollectSpaced(ts);
  }

  // ---------------------------------------------------------------------------
  // exportIptc(): the IPTC array built from the store.

  /** `$iptc_data[$tag][$key] = $data`: one element of a tag's array. */
  datatype Slot = Slot(key: nat, data: Bytes)

  /** $iptc_data: the tags in insertion order, each with its array. */
  type IptcArray = seq<(Iptc.IptcTag, seq<Slot>)>

  /** `$slots[$key] = $data`: overwrite in place or append. */
  function SetSlot(slots: seq<Slot>, key: nat, data: Bytes): seq<Slot>
  {
    if slots == [] then [Slot(key, data)]
    else if slots[0].key == key then [Slot(key, data)] + slots[1..]
    else [slots[0]] + SetSlot(slots[1..], key, data)
  }

  /** The array of a tag, if the tag is a key. */
  function Lookup(a: IptcArray, t: Iptc.IptcTag): Option<seq<Slot>>
  {
    if a == [] then None else if a[0].0 == t then Some(a[0].1) else Lookup(a[1..], t)
  }

  /** `$iptc_data[$t][$key] = $data`. */
  function Put(a: IptcArray, t: Iptc.IptcTag, key: nat, data: Bytes): IptcArray
  {
    if a == [] then [(t, [Slot(key, data)])]
    else if a[0].0 == t then [(t, SetSlot(a[0].1, key, data))] + a[1..]
    else [a[0]] + Put(a[1..], t, key, data)
  }

  /** `$iptc_data[$t] = $slots`. */
  function PutAll(a: IptcArray, t: Iptc.IptcTag, slots: seq<Slot>): IptcArray
  {
    if a == [] then [(t, slots)]
    else if a[0].0 == t then [(t, slots)] + a[1..]
    else [a[0]] + PutAll(a[1..], t, slots)
  }

  /** One line of exportIptc(): a field copied into slot 0 of its tag, an array
      field joined by arrayToString() into slot 0, or an array field copied whole. */
  datatype ExportRule =
    | Single(field: int, tag: Iptc.IptcTag)
    | Listing(field: int, tag: Iptc.IptcTag)
    | Whole(field: int, tag: Iptc.IptcTag)

  /** The lines of exportIptc() before the supplemental categories, in order
      (CATEGORY is written twice). */
  const EXPORT_RULES: seq<ExportRule> := [
    Single(AUTHOR, Iptc.AUTHOR), Single(AUTHOR_TITLE, Iptc.AUTHOR_TITLE), Single(CAPTION, Iptc.CAPTION),
    Single(CAPTION_WRITER, Iptc.CAPTION_WRITER), Single(CATEGORY, Iptc.CATEGORY), Single(CITY, Iptc.CITY),
    Single(COPYRIGHT, Iptc.COPYRIGHT), Single(COUNTRY, Iptc.COUNTRY), Single(COUNTRY_CODE, Iptc.COUNTRY_CODE),
    Single(CREDIT, Iptc.CREDIT), Single(EDIT_STATUS, Iptc.EDIT_STATUS), Listing(GENRE, Iptc.GENRE),
    Single(HEADLINE, Iptc.HEADLINE), Single(INSTRUCTIONS, Iptc.INSTRUCTIONS), Whole(KEYWORDS, Iptc.KEYWORDS),
    Single(LOCATION, Iptc.LOCATION), Single(OBJECT, Iptc.OBJECT), Single(PRIORITY, Iptc.PRIORITY),
    Single(SOURCE, Iptc.SOURCE), Single(STATE, Iptc.STATE), Whole(SUBJECT_CODE, Iptc.SUBJECT_CODE),
    Single(CATEGORY, Iptc.CATEGORY)]

  /** A field used as a string: a scalar as PHP prints it; a list becomes
      "Array" (a typed store never has a list under a string field). */
  function FieldBytes(f: Field): Bytes
  {
    match f
    case Plain(x) => ScalarBytes(x)
    case Listed(_) => Ascii("Array")
  }

  /** The array a rule writes under its tag for a field that is set. */
  function RuleSlots(r: ExportRule, f: Field): seq<Slot>
  {
    match r
    case Single(_, _) => [Slot(0, FieldBytes(f))]
    case Listing(_, _) => [Slot(0, if f.Listed? then ArrayJoin(Values(f.list.entries)) else FieldBytes(f))]
    case Whole(_, _) =>
      // foreach over a scalar adds nothing; a typed store has a list here
      if f.Listed? then seq(|f.list.entries|, i requires 0 <= i < |f.list.entries| =>
                              Slot(f.list.entries[i].key, ScalarBytes(f.list.entries[i].value)))
      else []
  }

  function ApplyRule(a: IptcArray, d: Store, r: ExportRule): IptcArray
  {
    if r.field !in d then a
    else if r.Whole? then PutAll(a, r.tag, RuleSlots(r, d[r.field]))
    else Put(a, r.tag, 0, RuleSlots(r, d[r.field])[0].data)
  }

  function ApplyRules(a: IptcArray, d: Store, rules: seq<ExportRule>): IptcArray
    decreases |rules|
  {
    if rules == [] then a else ApplyRules(ApplyRule(a, d, rules[0]), d, rules[1..])
  }

  const SUPP_FIELDS := [SUPP_CATEGORY_A, SUPP_CATEGORY_B, SUPP_CATEGORY_C]

  /** The supplemental categories as written: slot 0 gets a placeholder when B
      is set without A, slot 1 when C is set without B. */
  function SuppAsWritten(a: IptcArray, d: Store): IptcArray
  {
    var a1 := if SUPP_CATEGORY_A in d then Put(a, Iptc.SUPP_CATEGORY, 0, FieldBytes(d[SUPP_CATEGORY_A])) else a;
    var a2 := if SUPP_CATEGORY_A !in d && SUPP_CATEGORY_B in d then Put(a1, Iptc.SUPP_CATEGORY, 0, []) else a1;
    var a3 := if SUPP_CATEGORY_B in d then Put(a2, Iptc.SUPP_CATEGORY, 1, FieldBytes(d[SUPP_CATEGORY_B])) else a2;
    var a4 := if SUPP_CATEGORY_B !in d && SUPP_CATEGORY_C in d then Put(a3, Iptc.SUPP_CATEGORY, 1, []) else a3;
    if SUPP_CATEGORY_C in d then Put(a4, Iptc.SUPP_CATEGORY, 2, FieldBytes(d[SUPP_CATEGORY_C])) else a4
  }

  /** The supplemental categories with slot 0 also filled when only C is set,
      so that every category keeps its position. */
  function Supp(a: IptcArray, d: Store): IptcArray
  {
    var a1 := if SUPP_CATEGORY_A in d then Put(a, Iptc.SUPP_CATEGORY, 0, FieldBytes(d[SUPP_CATEGORY_A])) else a;
    var a2 := if SUPP_CATEGORY_A !in d && (SUPP_CATEGORY_B in d || SUPP_CATEGORY_C in d)
              then Put(a1, Iptc.SUPP_CATEGORY, 0, []) else a1;
    var a3 := if SUPP_CATEGORY_B in d then Put(a2, Iptc.SUPP_CATEGORY, 1, FieldBytes(d[SUPP_CATEGORY_B])) else a2;
    var a4 := if SUPP_CATEGORY_B !in d && SUPP_CATEGORY_C in d then Put(a3, Iptc.SUPP_CATEGORY, 1, []) else a3;
    if SUPP_CATEGORY_C in d then Put(a4, Iptc.SUPP_CATEGORY, 2, FieldBytes(d[SUPP_CATEGORY_C])) else a4
  }

  const TRANSFER_RULE := Single(TRANSFER_REF, Iptc.TRANSFER_REF)

  /** $iptc_data as exportIptc() builds it, except that the supplemental
      categories go through Supp, not SuppAsWritten: when only C is set the
      source exports ['', C], this exports ['', '', C]. */
  function ExportArray(d: Store): IptcArray
  {
    ApplyRule(Supp(ApplyRules([], d, EXPORT_RULES), d), d, TRANSFER_RULE)
  }

  function SlotData(slots: seq<Slot>): seq<Bytes>
  {
    seq(|slots|, i requires 0 <= i < |slots| => slots[i].data)
  }

  /** The tag groups setIptcData() receives: the keys of each array dropped. */
  function GroupsOf(a: IptcArray): IptcGroups
  {
    seq(|a|, i requires 0 <= i < |a| => (a[i].0, SlotData(a[i].1)))
  }

  /** What exportIptc() hands to setIptcData(): false for an empty array. */
  function IptcExport(d: Store): Option<IptcGroups>
  {
    var a := ExportArray(d);
    if a == [] then None else Some(GroupsOf(a))
  }

  function SlotsOf(o: Option<seq<Slot>>): seq<Slot>
  {
    if o.Some? then o.value else []
  }

  /** Writing an element changes the array of its own tag only. */
  lemma {:induction false} LookupPut(a: IptcArray, t: Iptc.IptcTag, t': Iptc.IptcTag, key: nat, data: Bytes)
    ensures Lookup(Put(a, t', key, data), t) ==
              if t == t' then Some(SetSlot(SlotsOf(Lookup(a, t)), key, data)) else Lookup(a, t)
  {
    if a != [] && a[0].0 != t' {
      LookupPut(a[1..], t, t', key, data);
    }
  }

  /** Writing a whole array changes the array of its own tag only. */
  lemma {:induction false} LookupPutAll(a: IptcArray, t: Iptc.IptcTag, t': Iptc.IptcTag, slots: seq<Slot>)
    ensures Lookup(PutAll(a, t', slots), t) == if t == t' then Some(slots) else Lookup(a, t)
  {
    if a != [] && a[0].0 != t' {
      LookupPutAll(a[1..], t, t', slots);
    }
  }

  /** A rule changes the array of its own tag only, and sets it to what the
      rule writes when that tag held nothing or the same. */
  lemma ApplyRuleLookup(a: IptcArray, d: Store, r: ExportRule, t: Iptc.IptcTag)
    requires r.tag == t ==> Lookup(a, t) == None || (r.field in d && Lookup(a, t) == Some(RuleSlots(r, d[r.field])))
    ensures Lookup(ApplyRule(a, d, r), t) ==
              if r.tag == t && r.field in d then Some(RuleSlots(r, d[r.field])) else Lookup(a, t)
  {
    if r.field in d {
      if r.Whole? {
        LookupPutAll(a, t, r.tag, RuleSlots(r, d[r.field]));
      } else {
        var v := RuleSlots(r, d[r.field])[0].data;
        assert RuleSlots(r, d[r.field]) == [Slot(0, v)];
        LookupPut(a, t, r.tag, 0, v);
        if r.tag == t && Lookup(a, t).Some? {
          assert SetSlot([Slot(0, v)], 0, v) == [Slot(0, v)];
        }
      }
    }
  }

  /** Along a list of rules, a tag that only one rule writes ends up with what
      that rule writes (if its field is set and the rule occurs). */
  lemma {:induction false} ApplyRulesTag(a: IptcArray, d: Store, rules: seq<ExportRule>, rule: ExportRule)
    requires forall i :: 0 <= i < |rules| && rules[i].tag == rule.tag ==> rules[i] == rule
    requires Lookup(a, rule.tag) == None ||
             (rule.field in d && Lookup(a, rule.tag) == Some(RuleSlots(rule, d[rule.field])))
    ensures Lookup(ApplyRules(a, d, rules), rule.tag) ==
              if rule.field in d && rule in rules then Some(RuleSlots(rule, d[rule.field]))
              else Lookup(a, rule.tag)
    decreases |rules|
  {
    if rules != [] {
      ApplyRuleLookup(a, d, rules[0], rule.tag);
      ApplyRulesTag(ApplyRule(a, d, rules[0]), d, rules[1..], rule);
      assert rule in rules <==> rules[0] == rule || rule in rules[1..];
    }
  }

  /** A tag no rule writes keeps its array. */
  lemma {:induction false} ApplyRulesOther(a: IptcArray, d: Store, rules: seq<ExportRule>, t: Iptc.IptcTag)
    requires forall i :: 0 <= i < |rules| ==> rules[i].tag != t
    ensures Lookup(ApplyRules(a, d, rules), t) == Lookup(a, t)
    decreases |rules|
  {
    if rules != [] {
      ApplyRuleLookup(a, d, rules[0], t);
      ApplyRulesOther(ApplyRule(a, d, rules[0]), d, rules[1..], t);
    }
  }

  /** The supplemental categories write their own tag only. */
  lemma SuppOther(a: IptcArray, d: Store, t: Iptc.IptcTag)
    requires t != Iptc.SUPP_CATEGORY
    ensures Lookup(Supp(a, d), t) == Lookup(a, t)
  {
    var s := Iptc.SUPP_CATEGORY;
    var a1 := if SUPP_CATEGORY_A in d then Put(a, s, 0, FieldBytes(d[SUPP_CATEGORY_A])) else a;
    var a2 := if SUPP_CATEGORY_A !in d && (SUPP_CATEGORY_B in d || SUPP_CATEGORY_C in d) then Put(a1, s, 0, []) else a1;
    var a3 := if SUPP_CATEGORY_B in d then Put(a2, s, 1, FieldBytes(d[SUPP_CATEGORY_B])) else a2;
    var a4 := if SUPP_CATEGORY_B !in d && SUPP_CATEGORY_C in d then Put(a3, s, 1, []) else a3;
    LookupPut(a, t, s, 0, if SUPP_CATEGORY_A in d then FieldBytes(d[SUPP_CATEGORY_A]) else []);
    LookupPut(a1, t, s, 0, []);
    LookupPut(a2, t, s, 1, if SUPP_CATEGORY_B in d then FieldBytes(d[SUPP_CATEGORY_B]) else []);
    LookupPut(a3, t, s, 1, []);
    LookupPut(a4, t, s, 2, if SUPP_CATEGORY_C in d then FieldBytes(d[SUPP_CATEGORY_C]) else []);
  }

  /** Each tag of the rule table is written by one rule only (CATEGORY's two
      lines are the same rule), and none is the supplemental category or the
      transmission reference. */
  lemma ExportRulesConsistent()
    ensures forall i, j :: (0 <= i < |EXPORT_RULES| && 0 <= j < |EXPORT_RULES| &&
              EXPORT_RULES[i].tag == EXPORT_RULES[j].tag) ==> EXPORT_RULES[i] == EXPORT_RULES[j]
    ensures forall i :: 0 <= i < |EXPORT_RULES| ==>
              EXPORT_RULES[i].tag != Iptc.SUPP_CATEGORY && EXPORT_RULES[i].tag != Iptc.TRANSFER_REF
  {
  }

  /** exportIptc() puts under the tag of each line of the table exactly what
      that line writes when its field is set, and nothing otherwise: slot 0
      holds the field as a string (the joined list for GENRE); KEYWORDS and
      SUBJECT_CODE carry their lists with their keys. */
  lemma ExportedTag(d: Store, k: nat)
    requires k < |EXPORT_RULES|
    ensures var r := EXPORT_RULES[k];
      Lookup(ExportArray(d), r.tag) == if r.field in d then Some(RuleSlots(r, d[r.field])) else None
  {
    var r := EXPORT_RULES[k];
    ExportRulesConsistent();
    ApplyRulesTag([], d, EXPORT_RULES, r);
    var a := ApplyRules([], d, EXPORT_RULES);
    SuppOther(a, d, r.tag);
    ApplyRuleLookup(Supp(a, d), d, TRANSFER_RULE, r.tag);
  }

  /** The transmission reference goes into slot 0 of its tag, alone. */
  lemma ExportedTransfer(d: Store)
    ensures Lookup(ExportArray(d), Iptc.TRANSFER_REF) ==
              if TRANSFER_REF in d then Some([Slot(0, FieldBytes(d[TRANSFER_REF]))]) else None
  {
    ExportRulesConsistent();
    ApplyRulesOther([], d, EXPORT_RULES, Iptc.TRANSFER_REF);
    var a := ApplyRules([], d, EXPORT_RULES);
    SuppOther(a, d, Iptc.TRANSFER_REF);
    ApplyRuleLookup(Supp(a, d), d, TRANSFER_RULE, Iptc.TRANSFER_REF);
  }

  /** Where the supplemental categories are meant to land: category k
      (A, B, C) at position k, empty placeholders before the last one set. */
  function SuppSlots(d: Store): (r: Option<seq<Slot>>)
    ensures r.Some? <==> SUPP_CATEGORY_A in d || SUPP_CATEGORY_B in d || SUPP_CATEGORY_C in d
  {
    var m := if SUPP_CATEGORY_C in d then 3 else if SUPP_CATEGORY_B in d then 2
             else if SUPP_CATEGORY_A in d then 1 else 0;
    if m == 0 then None
    else Some(seq(m, k requires 0 <= k < m =>
                     Slot(k, if SUPP_FIELDS[k] in d then FieldBytes(d[SUPP_FIELDS[k]]) else [])))
  }

  /** Every supplemental category that is set sits at its own position, with
      its position as key, so dropping the keys loses nothing. */
  lemma SuppSlotsPlaced(d: Store, k: nat)
    requires k < 3 && SUPP_FIELDS[k] in d
    ensures SuppSlots(d).Some?
    ensures var slots := SuppSlots(d).value;
      k < |slots| && SlotData(slots)[k] == FieldBytes(d[SUPP_FIELDS[k]]) &&
      forall i :: 0 <= i < |slots| ==> slots[i].key == i
  {
  }

  /** The corrected supplemental categories write SuppSlots(d) onto a tag that
      held nothing. */
  lemma SuppLookup(a: IptcArray, d: Store)
    requires Lookup(a, Iptc.SUPP_CATEGORY) == None
    ensures Lookup(Supp(a, d), Iptc.SUPP_CATEGORY) == SuppSlots(d)
  {
    var s := Iptc.SUPP_CATEGORY;
    var A, B, C := SUPP_CATEGORY_A in d, SUPP_CATEGORY_B in d, SUPP_CATEGORY_C in d;
    var va := if A then FieldBytes(d[SUPP_CATEGORY_A]) else [];
    var vb := if B then FieldBytes(d[SUPP_CATEGORY_B]) else [];
    var vc := if C then FieldBytes(d[SUPP_CATEGORY_C]) else [];
    var a1 := if A then Put(a, s, 0, va) else a;
    var a2 := if !A && (B || C) then Put(a1, s, 0, []) else a1;
    var a3 := if B then Put(a2, s, 1, vb) else a2;
    var a4 := if !B && C then Put(a3, s, 1, []) else a3;
    var a5 := if C then Put(a4, s, 2, vc) else a4;
    assert Supp(a, d) == a5;
    assert Lookup(a2, s) == if A || B || C then Some([Slot(0, va)]) else None by {
      if A {
        PutFresh(a, s, 0, va);
      } else if B || C {
        PutFresh(a1, s, 0, []);
      }
      assert SlotsOf(Lookup(a, s)) + [Slot(0, va)] == [Slot(0, va)];
    }
    assert Lookup(a4, s) == if B || C then Some([Slot(0, va), Slot(1, vb)]) else Lookup(a2, s) by {
      if B {
        PutFresh(a2, s, 1, vb);
      } else if C {
        PutFresh(a3, s, 1, []);
      }
      assert [Slot(0, va)] + [Slot(1, vb)] == [Slot(0, va), Slot(1, vb)];
    }
    assert Lookup(a5, s) == if C then Some([Slot(0, va), Slot(1, vb), Slot(2, vc)]) else Lookup(a4, s) by {
      if C {
        PutFresh(a4, s, 2, vc);
      }
      assert [Slot(0, va), Slot(1, vb)] + [Slot(2, vc)] == [Slot(0, va), Slot(1, vb), Slot(2, vc)];
    }
    SuppSlotsValue(d);
  }

  /** SuppSlots spelled out slot by slot. */
  lemma SuppSlotsValue(d: Store)
    ensures SuppSlots(d) ==
      var va := if SUPP_CATEGORY_A in d then FieldBytes(d[SUPP_CATEGORY_A]) else [];
      var vb := if SUPP_CATEGORY_B in d then FieldBytes(d[SUPP_CATEGORY_B]) else [];
      var vc := if SUPP_CATEGORY_C in d then FieldBytes(d[SUPP_CATEGORY_C]) else [];
      if SUPP_CATEGORY_C in d then Some([Slot(0, va), Slot(1, vb), Slot(2, vc)])
      else if SUPP_CATEGORY_B in d then Some([Slot(0, va), Slot(1, vb)])
      else if SUPP_CATEGORY_A in d then Some([Slot(0, va)])
      else None
  {
    var va := if SUPP_CATEGORY_A in d then FieldBytes(d[SUPP_CATEGORY_A]) else [];
    var vb := if SUPP_CATEGORY_B in d then FieldBytes(d[SUPP_CATEGORY_B]) else [];
    var vc := if SUPP_CATEGORY_C in d then FieldBytes(d[SUPP_CATEGORY_C]) else [];
    var r := SuppSlots(d);
    if SUPP_CATEGORY_C in d {
      assert |r.value| == 3 && r.value[0] == Slot(0, va) && r.value[1] == Slot(1, vb) && r.value[2] == Slot(2, vc);
      assert r.value == [Slot(0, va), Slot(1, vb), Slot(2, vc)];
    } else if SUPP_CATEGORY_B in d {
      assert |r.value| == 2 && r.value[0] == Slot(0, va) && r.value[1] == Slot(1, vb);
      assert r.value == [Slot(0, va), Slot(1, vb)];
    } else if SUPP_CATEGORY_A in d {
      assert |r.value| == 1 && r.value[0] == Slot(0, va);
      assert r.value == [Slot(0, va)];
    }
  }

  /** Writing a key its tag does not hold yet appends a slot to that tag. */
  lemma PutFresh(a: IptcArray, t: Iptc.IptcTag, key: nat, data: Bytes)
    requires forall i :: 0 <= i < |SlotsOf(Lookup(a, t))| ==> SlotsOf(Lookup(a, t))[i].key != key
    ensures Lookup(Put(a, t, key, data), t) == Some(SlotsOf(Lookup(a, t)) + [Slot(key, data)])
  {
    LookupPut(a, t, t, key, data);
    SetSlotAppend(SlotsOf(Lookup(a, t)), key, data);
  }

  /** Writing a key not yet present appends its slot. */
  lemma {:induction false} SetSlotAppend(slots: seq<Slot>, key: nat, data: Bytes)
    requires forall i :: 0 <= i < |slots| ==> slots[i].key != key
    ensures SetSlot(slots, key, data) == slots + [Slot(key, data)]
  {
    if slots != [] {
      SetSlotAppend(slots[1..], key, data);
      assert [slots[0]] + slots[1..] == slots;
    }
  }

  /** exportIptc() with the corrected categories: the supplemental tag holds
      exactly SuppSlots(d). */
  lemma ExportedSupp(d: Store)
    ensures Lookup(ExportArray(d), Iptc.SUPP_CATEGORY) == SuppSlots(d)
  {
    ExportRulesConsistent();
    ApplyRulesOther([], d, EXPORT_RULES, Iptc.SUPP_CATEGORY);
    var a := ApplyRules([], d, EXPORT_RULES);
    SuppLookup(a, d);
    ApplyRuleLookup(Supp(a, d), d, TRANSFER_RULE, Iptc.SUPP_CATEGORY);
  }

  /** As written, a store with only SUPP_CATEGORY_C set exports the datasets
      ['', c]: once the keys are dropped, c is the second dataset, which reads
      back as SUPP_CATEGORY_B. The corrected version exports ['', '', c]. */
  lemma SuppAsWrittenShiftsC(c: Bytes)
    ensures var d := map[SUPP_CATEGORY_C := Plain(Text(c))];
      Lookup(SuppAsWritten([], d), Iptc.SUPP_CATEGORY) == Some([Slot(1, []), Slot(2, c)]) &&
      SlotData(Lookup(SuppAsWritten([], d), Iptc.SUPP_CATEGORY).value) == [[], c] &&
      SlotData(Lookup(Supp([], d), Iptc.SUPP_CATEGORY).value) == [[], [], c]
  {
    var d := map[SUPP_CATEGORY_C := Plain(Text(c))];
    var s := Iptc.SUPP_CATEGORY;
    var a4 := Put([], s, 1, []);
    LookupPut(a4, s, s, 2, c);
    SetSlotAppend([Slot(1, [])], 2, c);
    assert [Slot(1, [])] + [Slot(2, c)] == [Slot(1, []), Slot(2, c)];
    assert SuppAsWritten([], d) == Put(a4, s, 2, c);
    assert Lookup(a4, s) == Some([Slot(1, [])]);
    SuppLookup([], d);
  }

  lemma PutNonEmpty(a: IptcArray, t: Iptc.IptcTag, key: nat, data: Bytes)
    ensures Put(a, t, key, data) != []
  {
  }

  /** The rules leave the array empty exactly when it was empty and none of
      their fields is set. */
  lemma {:induction false} ApplyRulesEmpty(a: IptcArray, d: Store, rules: seq<ExportRule>)
    ensures ApplyRules(a, d, rules) == [] <==>
              a == [] && forall k :: 0 <= k < |rules| ==> rules[k].field !in d
    decreases |rules|
  {
    if rules != [] {
      ApplyRulesEmpty(ApplyRule(a, d, rules[0]), d, rules[1..]);
      assert forall k :: 1 <= k < |rules| ==> rules[k] == rules[1..][k - 1];
    }
  }

  /** exportIptc() hands false to setIptcData() exactly when none of the
      exported fields is set. */
  lemma ExportNothing(d: Store)
    ensures IptcExport(d).None? <==>
              (forall k :: 0 <= k < |EXPORT_RULES| ==> EXPORT_RULES[k].field !in d) &&
              SUPP_CATEGORY_A !in d && SUPP_CATEGORY_B !in d && SUPP_CATEGORY_C !in d &&
              TRANSFER_REF !in d
  {
    ApplyRulesEmpty([], d, EXPORT_RULES);
    var a := ApplyRules([], d, EXPORT_RULES);
    ExportedSupp(d);
    ExportedTransfer(d);
    if ExportArray(d) == [] {
      assert Lookup(ExportArray(d), Iptc.SUPP_CATEGORY) == None;
      assert Lookup(ExportArray(d), Iptc.TRANSFER_REF) == None;
      forall k | 0 <= k < |EXPORT_RULES|
        ensures EXPORT_RULES[k].field !in d
      {
        ExportedTag(d, k);
      }
    }
  }

  // ---------------------------------------------------------------------------
  // The Metadata object: the field store it updates in place and the Jpeg
  // object it writes IPTC data into.

  /** What a store operation did: on success the store is the new one, on an
      error (an exception in PHP) the store is as it was. */
  predicate Applied(r: Result<()>, s: Result<Store>, before: Store, after: Store)
  {
    if s.Ok? then r == Ok(()) && after == s.value else r == Err(s.error) && after == before
  }

  class Metadata {
    var data: Store
    const jpeg: JpegFile.Jpeg

    /** Every stored value agrees with the type of its field. */
    ghost predicate Valid()
      reads this, jpeg
    {
      StoreTyped(data) && jpeg.Valid()
    }

    constructor()
      ensures Valid()
      ensures data == map[] && fresh(jpeg) && !jpeg.dataRead
    {
      data := map[];
      jpeg := new JpegFile.Jpeg();
    }

    /** get(): None stands for PHP's false. */
    method Get(id: int) returns (r: Result<Option<Field>>)
      ensures r == GetField(data, id)
    {
      if FieldTypeOf(id) == Invalid {
        return Err(InvalidFieldId);
      }
      if id in data {
        return Ok(Some(data[id]));
      }
      return Ok(None);
    }

    /** isSet(). */
    method IsSet(id: int, value: Option<Bytes>) returns (r: Result<bool>)
      ensures r == IsSetField(data, id, value)
    {
      if FieldTypeOf(id) == Invalid {
        return Err(InvalidFieldId);
      }
      if value.None? {
        return Ok(id in data);
      }
      if id !in data || !data[id].Listed? {
        return Err(TypeError);
      }
      var pos := KeyOf(data[id].list.entries, Text(value.value));
      return Ok(pos.Some?);
    }

    /** dropAll(). */
    method DropAll()
      requires Valid()
      modifies this
      ensures Valid() && data == map[]
    {
      data := map[];
    }

    /** drop(). */
    method Drop(id: int, value: Option<Bytes>) returns (r: Result<()>)
      requires Valid()
      modifies this
      ensures Valid()
      ensures Applied(r, DropField(old(data), id, value), old(data), data)
    {
      OperationsKeepTyped(data, id, False, false, value);
      var t := FieldTypeOf(id);
      if t == Invalid {
        return Err(InvalidFieldId);
      }
      if t != Ary && value.Some? {
        return Err(InvalidFieldId);
      }
      if value.Some? {
        if id !in data || !data[id].Listed? {
          return Err(TypeError);
        }
        var pos := KeyOf(data[id].list.entries, Text(value.value));
        var key := if pos.Some? then pos.value else 0;
        data := data[id := Listed(Unset(data[id].list, key))];
      } else {
        data := data - {id};
      }
      return Ok(());
    }

    /** setRW(): checks, then a scalar added once to an array field, an array
        replacing the field element by element, or a scalar stored. */
    method SetRW(id: int, v: Value, ignoreWrite: bool) returns (r: Result<()>)
      requires Valid()
      modifies this
      ensures Valid()
      ensures Applied(r, SetField(old(data), id, v, !ignoreWrite), old(data), data)
    {
      OperationsKeepTyped(data, id, v, !ignoreWrite, None);
      var t := FieldTypeOf(id);
      if t == Invalid {
        return Err(InvalidFieldId);
      }
      if !IsValidFieldType(id, v) && !(t == Ary && !v.Many?) && v != False {
        return Err(InvalidFieldId);
      }
      if !ignoreWrite && (id < FIELD_ID_WRITE_FIRST || id > FIELD_ID_WRITE_LAST) {
        return Err(InvalidFieldWrite);
      }
      if v == False {
        r := Drop(id, None);
        return;
      }
      if t == Ary {
        if id in data && !v.Many? {
          if v.x !in Values(data[id].list.entries) {
            data := Push(data, id, v.x);
          }
        } else {
          var _ := Drop(id, None);
          var xs := if v.Many? then v.items else [];
          var d0 := data;
          var i := 0;
          while i < |xs|
            invariant 0 <= i <= |xs|
            invariant data == PushAll(d0, id, xs[..i])
          {
            assert xs[..i + 1][..i] == xs[..i];
            data := Push(data, id, xs[i]);
            i := i + 1;
          }
          assert xs[..|xs|] == xs;
        }
      } else {
        data := data[id := Plain(v.x)];
      }
      return Ok(());
    }

    /** set(): setRW() with the write check. */
    method Set(id: int, v: Value) returns (r: Result<()>)
      requires Valid()
      modifies this
      ensures Valid()
      ensures Applied(r, SetField(old(data), id, v, true), old(data), data)
    {
      r := SetRW(id, v, false);
    }

    /** exportIptc(): the IPTC array built from the store replaces the IPTC
        data of the image, false when the array is empty. */
    method ExportIptc() returns (r: Result<()>)
      requires Valid()
      modifies jpeg
      ensures Valid()
      ensures !old(jpeg.dataRead) ==> r == Err(DataNotFound) && unchanged(jpeg)
      ensures old(jpeg.dataRead) ==>
                jpeg.iptcData == JpegFile.IptcOf(IptcExport(data)) &&
                var u := JpegSegments.IptcUpdated(old(jpeg.header), jpeg.iptcData);
                if u.Ok? then r == Ok(()) && jpeg.header == u.value
                else r == Err(u.error) && jpeg.header == old(jpeg.header)
      ensures jpeg.img == old(jpeg.img) && jpeg.xmpData == old(jpeg.xmpData) &&
              jpeg.exifData == old(jpeg.exifData) && jpeg.dataRead == old(jpeg.dataRead) &&
              jpeg.readOnly == old(jpeg.readOnly)
    {
      r := jpeg.SetIptcData(IptcExport(data));
    }
  }
}
