/**
 A message as a reader sees it who knows no schema: one key and payload after another. The
 encoder writes the present fields in ascending order, numbers of an array in one record and
 everything else one by one; the decoder counts the elements of fixed-count arrays.
 */
module Records {
  import opened Wire
  import opened WireFormat
  import opened LeafFormat
  import opened Schema
  import opened Encoding
  import opened Decoding
  import opened RoundTrip
  import opened Acceptance
  import opened Reorder

  /* ------------------------------------------------------- what is written */

  /** The keys in s, each payload being passed over by its wire type. */
  function ReadKeys(s: Bytes): (r: Option<seq<Key>>)
    decreases |s|
  {
    if s == [] then Some([])
    else
      var x := DecTag(s);
      if x.Err? then None
      else
        var y := SkipField(s[x.used..], x.value.wireType);
        if y.Err? then None
        else
          var rest := ReadKeys(s[x.used + y.used..]);
          if rest.None? then None else Some([x.value] + rest.value)
  }

  lemma ReadStep(s: Bytes, key: Key, k: nat, n: nat)
    requires DecTag(s) == Ok(key, k)
    requires SkipField(s[k..], key.wireType).Ok? && SkipField(s[k..], key.wireType).used == n
    ensures ReadKeys(s) == var rest := ReadKeys(s[k + n..]);
                           if rest.None? then None else Some([key] + rest.value)
  {
    hide DecTag, SkipField;
  }

  lemma ReadFirst(s: Bytes) returns (key: Key, k: nat, n: nat)
    requires s != [] && ReadKeys(s).Some?
    ensures DecTag(s) == Ok(key, k) && 1 <= k && k + n <= |s|
    ensures SkipField(s[k..], key.wireType).Ok? && SkipField(s[k..], key.wireType).used == n
    ensures ReadKeys(s[k + n..]).Some?
  {
    hide DecTag, SkipField;
    var x := DecTag(s);
    key, k, n := x.value, x.used, SkipField(s[x.used..], x.value.wireType).used;
  }

  lemma {:induction false} ReadConcat(a: Bytes, b: Bytes)
    requires ReadKeys(a).Some? && ReadKeys(b).Some?
    ensures ReadKeys(a + b) == Some(ReadKeys(a).value + ReadKeys(b).value)
    decreases |a|
  {
    hide DecTag, SkipField, ReadKeys;
    if a == [] {
      NothingRead();
      assert a + b == b && [] + ReadKeys(b).value == ReadKeys(b).value;
    } else {
      var key, k, n := ReadFirst(a);
      ReadStep(a, key, k, n);
      TagExtends(a, b);
      assert (a + b)[k..] == a[k..] + b;
      SkipExtends(a[k..], b, key.wireType);
      ReadStep(a + b, key, k, n);
      assert (a + b)[k + n..] == a[k + n..] + b;
      ReadConcat(a[k + n..], b);
      var x, y := ReadKeys(a[k + n..]).value, ReadKeys(b).value;
      assert [key] + x + y == [key] + (x + y);
    }
  }

  /** One record. */
  lemma ReadOne(tag: nat, wireType: nat, payload: Bytes)
    requires tag < 0x1_0000 && wireType < 8 && Whole(payload, wireType)
    ensures ReadKeys(EncTag(tag, wireType) + payload) == Some([Key(tag, wireType)])
  {
    hide DecTag, SkipField, EncTag, ReadKeys;
    var key := EncTag(tag, wireType);
    var s := key + payload;
    TagRoundTrip(tag, wireType, payload);
    assert s[|key|..] == payload && s[|key| + |payload|..] == [];
    ReadStep(s, Key(tag, wireType), |key|, |payload|);
    NothingRead();
    assert [Key(tag, wireType)] + [] == [Key(tag, wireType)];
  }

  lemma ItemRead(f: Field, nslots: nat, v: Value)
    requires WfField(f, nslots) && EncBasic(f, v).Some? && |EncBasic(f, v).value| < U32
    ensures ReadKeys(EncBasic(f, v).value) == Some([Key(f.tag, Code(f.ltype))])
  {
    hide ReadKeys, EncData, SkipField, EncTag;
    var data := EncData(f, v).value;
    SkipInvertsEncode(f, v, []);
    assert data + [] == data;
    assert WireTypeOf(f.ltype) == Code(f.ltype) < 8;
    ReadOne(f.tag, Code(f.ltype), data);
  }

  function Times(key: Key, n: nat): (r: seq<Key>)
    ensures |r| == n && forall k :: 0 <= k < n ==> r[k] == key
  {
    seq(n, _ => key)
  }

  lemma {:induction false} ItemsRead(f: Field, nslots: nat, items: seq<Value>)
    requires WfField(f, nslots) && EncUnpacked(f, items).Some? && |EncUnpacked(f, items).value| < U32
    ensures ReadKeys(EncUnpacked(f, items).value) == Some(Times(Key(f.tag, Code(f.ltype)), |items|))
    decreases |items|
  {
    hide ReadKeys, EncBasic;
    if items == [] {
      NothingRead();
    } else {
      ItemRead(f, nslots, items[0]);
      ItemsRead(f, nslots, items[1..]);
      ReadConcat(EncBasic(f, items[0]).value, EncUnpacked(f, items[1..]).value);
      var key := Key(f.tag, Code(f.ltype));
      assert [key] + Times(key, |items| - 1) == Times(key, |items|);
    }
  }

  lemma NothingRead()
    ensures ReadKeys([]) == Some([])
  {
  }

  /** The records of an array: one if its elements are numbers or words, else one for each element. */
  function ArrayKeys(f: Field, n: nat): seq<Key>
  {
    Times(Key(f.tag, 2), if Code(f.ltype) != 2 && n > 0 then 1 else n)
  }

  lemma ArrayRead(f: Field, nslots: nat, items: seq<Value>)
    requires WfField(f, nslots) && EncArray(f, items).Some? && |EncArray(f, items).value| < U32
    ensures ReadKeys(EncArray(f, items).value) == Some(ArrayKeys(f, |items|))
  {
    hide ReadKeys, EncUnpacked, EncPackedItems, SkipField, EncTag;
    if items == [] {
      NothingRead();
    } else if f.Packable() {
      PackedLayout(f, items, []);
      var data := EncPackedItems(f, items).value;
      var payload := EncVarint(|data|) + data;
      assert payload + [] == payload;
      DelimitedSkips(payload, data);
      ReadOne(f.tag, 2, payload);
      assert Times(Key(f.tag, 2), 1) == [Key(f.tag, 2)];
    } else {
      ItemsRead(f, nslots, items);
    }
  }

  lemma DelimitedSkips(payload: Bytes, data: Bytes)
    requires DecDelimited(payload) == Ok(data, |payload|)
    ensures Whole(payload, 2)
  {
    hide DecDelimited;
  }

  /** The records of one field. */
  ghost function FieldKeys(d: MsgDesc, f: Field, s: Slot): seq<Key>
  {
    if !Present(d, f, s) then []
    else if f.htype == Repeated then ArrayKeys(f, |s.items|)
    else [Key(f.tag, Code(f.ltype))]
  }

  lemma FieldRead(d: MsgDesc, f: Field, s: Slot)
    requires WfField(f, d.nslots) && SlotFits(f, s) && EncField(d, f, s).Some? && |EncField(d, f, s).value| < U32
    ensures ReadKeys(EncField(d, f, s).value) == Some(FieldKeys(d, f, s))
  {
    hide ReadKeys, EncBasic, EncArray, IsDefault, ValueFits, ArrayKeys;
    NothingRead();
    if !Present(d, f, s) {
      if f.htype == Repeated { NoElements(f); }
    } else if f.htype == Repeated {
      ArrayRead(f, d.nslots, s.items);
    } else {
      ItemRead(f, d.nslots, SlotValue(s));
    }
  }

  /** Those of the fields from i on, in their order, which is that of the tags. */
  ghost function KeysFrom(d: MsgDesc, m: Msg, i: nat): seq<Key>
    requires i <= |d.fields|
    decreases |d.fields| - i
  {
    if i == |d.fields| then [] else FieldKeys(d, d.fields[i], At(m, d.fields[i])) + KeysFrom(d, m, i + 1)
  }

  lemma {:induction false} FromRead(d: MsgDesc, m: Msg, i: nat)
    requires WfDesc(d) && MsgFits(d, m) && i <= |d.fields| && EncFrom(d, m, i).Some? && |EncFrom(d, m, i).value| < U32
    ensures ReadKeys(EncFrom(d, m, i).value) == Some(KeysFrom(d, m, i))
    decreases |d.fields| - i
  {
    hide ReadKeys, EncField, FieldKeys, WfField, SlotFits;
    if i == |d.fields| {
      NothingRead();
    } else {
      var f := d.fields[i];
      assert WfField(f, d.nslots) && SlotFits(f, At(m, f));
      FieldRead(d, f, At(m, f));
      FromRead(d, m, i + 1);
      ReadConcat(EncField(d, f, At(m, f)).value, EncFrom(d, m, i + 1).value);
    }
  }

  /** A reader without a schema finds the present fields in their order, with the wire types of their types. */
  lemma MessageRead(d: MsgDesc, m: Msg)
    requires WfDesc(d) && MsgFits(d, m) && EncMsg(d, m).Some? && |EncMsg(d, m).value| < U32
    ensures ReadKeys(EncMsg(d, m).value) == Some(KeysFrom(d, m, 0))
  {
    FromRead(d, m, 0);
  }

  lemma OneTag(d: MsgDesc, f: Field, s: Slot, k: nat)
    requires k < |FieldKeys(d, f, s)|
    ensures FieldKeys(d, f, s)[k].tag == f.tag
  {
    hide Present;
  }

  lemma {:induction false} KeysAbove(d: MsgDesc, m: Msg, i: nat, k: nat)
    requires WfDesc(d) && i <= |d.fields| && k < |KeysFrom(d, m, i)|
    ensures exists j :: i <= j < |d.fields| && d.fields[j].tag == KeysFrom(d, m, i)[k].tag
    decreases |d.fields| - i
  {
    hide WfDesc, FieldKeys;
    var here := FieldKeys(d, d.fields[i], At(m, d.fields[i]));
    if k < |here| {
      OneTag(d, d.fields[i], At(m, d.fields[i]), k);
    } else {
      KeysAbove(d, m, i + 1, k - |here|);
    }
  }

  lemma TagsOrdered(d: MsgDesc, i: nat, j: nat)
    requires WfDesc(d) && i < j < |d.fields|
    ensures d.fields[i].tag < d.fields[j].tag
  {
  }

  /** Their tags ascend. */
  lemma {:induction false} TagsAscend(d: MsgDesc, m: Msg, i: nat, k: nat, l: nat)
    requires WfDesc(d) && i <= |d.fields| && k < l < |KeysFrom(d, m, i)|
    ensures KeysFrom(d, m, i)[k].tag <= KeysFrom(d, m, i)[l].tag
    decreases |d.fields| - i
  {
    hide WfDesc, FieldKeys;
    var f := d.fields[i];
    var here := FieldKeys(d, f, At(m, f));
    if k >= |here| {
      TagsAscend(d, m, i + 1, k - |here|, l - |here|);
    } else {
      OneTag(d, f, At(m, f), k);
      if l < |here| {
        OneTag(d, f, At(m, f), l);
      } else {
        KeysAbove(d, m, i + 1, l - |here|);
        var rest := KeysFrom(d, m, i + 1);
        var j :| i + 1 <= j < |d.fields| && d.fields[j].tag == rest[l - |here|].tag;
        TagsOrdered(d, i, j);
      }
    }
  }

  /* --------------------------------------------------- what the arrays hold */

  /** Which types are packed. */
  lemma PackableIff(f: Field)
    ensures f.Packable() <==> f.ltype in {Bool, Varint, UVarint, SVarint, Fixed32, Fixed64}
    ensures f.Packable() <==> Code(f.ltype) != 2
  {
    match f.ltype
    case Bool =>
    case Varint =>
    case UVarint =>
    case SVarint =>
    case Fixed32 =>
    case Fixed64 =>
    case BytesArray =>
    case String =>
    case Submessage =>
    case FixedBytes =>
  }

  /** The one record of an array of numbers or words holds what stands for them. */
  lemma NumbersArrayWritten(f: Field, nslots: nat, items: seq<Value>, tail: Bytes)
    requires WfField(f, nslots) && Code(f.ltype) != 2 && items != [] && |items| <= f.arraySize
    requires forall k :: 0 <= k < |items| ==> ValueFits(f, items[k])
    requires EncArray(f, items).Some? ==> |EncArray(f, items).value| < U32
    ensures (forall k :: 0 <= k < |items| ==> items[k].VInt?) && EncArray(f, items).Some?
    ensures var b, key := EncArray(f, items).value, EncTag(f.tag, 2);
            && key <= b && DecDelimited(b[|key|..] + tail).Ok? && DecDelimited(b[|key|..] + tail).used == |b| - |key|
            && var data := DecDelimited(b[|key|..] + tail).value;
               (if f.ltype == Fixed32 then ReadWords(data, 4) else if f.ltype == Fixed64 then ReadWords(data, 8)
                else ReadNumbers(data)) == Some(WireNumbers(f.ltype, items))
  {
    hide EncVarint, DecDelimited, ReadNumbers, ReadWords, WireNumbers, EncTag, EncPackedItems;
    if f.ltype in {Fixed32, Fixed64} {
      PackedWordsWritten(f, nslots, items);
    } else {
      PackedNumbersWritten(f, nslots, items);
    }
    PackedLayout(f, items, tail);
    var data, key := EncPackedItems(f, items).value, EncTag(f.tag, 2);
    assert (key + (EncVarint(|data|) + data))[|key|..] == EncVarint(|data|) + data;
  }

  /** The records of any other array are those of its elements, one after the other. */
  lemma {:induction false} ElementsWritten(f: Field, a: seq<Value>, v: Value)
    requires Code(f.ltype) == 2
    ensures EncUnpacked(f, a + [v]) == Cat(EncUnpacked(f, a), EncBasic(f, v))
    ensures a != [] && |a| <= f.arraySize ==> EncArray(f, a) == EncUnpacked(f, a)
    ensures |a| > f.arraySize ==> EncArray(f, a).None?
    decreases |a|
  {
    hide EncBasic;
    if a == [] {
      CatNil(EncBasic(f, v));
      assert [v][1..] == [];
      var one := EncBasic(f, v);
      if one.Some? { assert one.value + [] == one.value; }
    } else {
      ElementsWritten(f, a[1..], v);
      assert (a + [v])[1..] == a[1..] + [v];
      var x := EncBasic(f, a[0]);
      if x.Some? { CatAssoc(x.value, EncUnpacked(f, a[1..]), EncBasic(f, v)); }
    }
  }

  /* ----------------------------------------------------- what arrays take */

  /** The elements of a packed record: all of it has to be elements the member takes. */
  function ReadItems(f: Field, s: Bytes): (r: Option<seq<Value>>)
    requires f.ltype != Submessage
    decreases |s|
  {
    if s == [] then Some([])
    else
      var x := DecLeaf(f, 255, s);
      if x.Err? then None
      else
        var rest := ReadItems(f, s[x.used..]);
        if rest.None? then None else Some([x.value] + rest.value)
  }

  /** A packed record is taken exactly when all of it can be read and there is room for all elements. */
  lemma {:induction false} PackedTaken(f: Field, s: Bytes, items: seq<Value>)
    requires f.Packable()
    ensures DecPacked(f, s, items, |items|) ==
              var more := ReadItems(f, s);
              if more.Some? && (more.value == [] || |items| + |more.value| <= f.arraySize)
              then Some(Filled(items + more.value, |items| + |more.value|)) else None
    decreases |s|
  {
    hide DecLeaf;
    if s == [] {
      assert items + [] == items;
    } else {
      var x := DecLeaf(f, 255, s);
      if x.Ok? {
        PackedTaken(f, s[x.used..], items + [x.value]);
        var rest := ReadItems(f, s[x.used..]);
        if rest.Some? { assert items + [x.value] + rest.value == items + ([x.value] + rest.value); }
        NothingMore(f, s[x.used..]);
      }
    }
  }

  lemma NothingMore(f: Field, s: Bytes)
    requires f.ltype != Submessage
    ensures ReadItems(f, s) == Some([]) <==> s == []
  {
    hide DecLeaf;
  }

  /* ------------------------------------------------- counting while decoding */

  /** How many elements of array i have been counted. */
  function Counted(fc: CountState, i: nat): nat
  {
    if fc.Counting? && fc.index == i then fc.size else 0
  }

  /** A fixed-count array may be gone on with, or begun once the one before has all its elements. */
  predicate MayCount(fc: CountState, i: nat)
  {
    fc.Counting? && fc.index != i ==> fc.size == fc.total
  }

  lemma ElementStored(f: Field, wireType: nat, p: Bytes, slot: Slot, n: nat)
    requires f.FixedCount() && slot.Many? && |slot.items| == f.arraySize && slot.spare == [] && n <= f.arraySize
    requires wireType != 2 || Code(f.ltype) == 2
    ensures var r := DecStatic(f, wireType, p, slot, n);
            if n == f.arraySize then r.Err?
            else
              var x := DecBasic(f, wireType, p, slot.items[n], true);
              if x.Err? then r.Err?
              else r == Ok(SlotResult(Many(slot.items[n := x.value], []), n + 1), x.used)
  {
    hide DecBasic, DecPacked, ZeroValue, DecDelimited;
    PackableIff(f);
    var r := DecRepeated(f, wireType, p, slot.items, slot.spare, n);
    if n == f.arraySize {
      assert r.Err?;
    } else {
      var x := DecBasic(f, wireType, p, slot.items[n], true);
      assert x.Err? ==> r.Err?;
      assert x.Ok? ==> r == Ok(Filled(slot.items[n := x.value], n + 1), x.used);
    }
  }

  /**
   A record of one element of a fixed-count array goes to the next place and is counted; it is
   refused when the array is full, or when another one is still incomplete.
   */
  lemma ElementCounted(d: MsgDesc, i: nat, wireType: nat, p: Bytes, st: State)
    requires i < |d.fields| && d.fields[i].FixedCount() && d.fields[i].slot < |st.m.slots|
    requires SlotFits(d.fields[i], st.m.slots[d.fields[i].slot]) && Counted(st.fc, i) <= d.fields[i].arraySize
    requires st.fc.Counting? && st.fc.index == i ==> st.fc.total == d.fields[i].arraySize
    requires wireType != 2 || Code(d.fields[i].ltype) == 2
    ensures var f := d.fields[i]; var n, items := Counted(st.fc, i), st.m.slots[f.slot].items;
            var r := DecField(d, i, wireType, p, st);
            if !MayCount(st.fc, i) || n >= f.arraySize then r.Err?
            else
              var x := DecBasic(f, wireType, p, items[n], true);
              if x.Err? then r.Err?
              else
                && r.Ok? && r.used == x.used && r.value.seen == st.seen
                && r.value.m == PutSlot(st.m, f.slot, Many(items[n := x.value], []))
                && r.value.fc == Counting(i, n + 1, f.arraySize)
  {
    hide DecBasic, DecStatic, ValueFits;
    var f := d.fields[i];
    if MayCount(st.fc, i) {
      assert Track(st.fc, i, f.arraySize) == Some(Counting(i, Counted(st.fc, i), f.arraySize));
      ElementStored(f, wireType, p, st.m.slots[f.slot], Counted(st.fc, i));
    }
  }
}
