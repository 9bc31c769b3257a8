/**
 Decoding arbitrary bytes never leaves the destination's bounds: counts stay within
 arrays, byte counts within buffers, strings keep room for their terminator, and every
 member keeps a value of its C type.
 */
module Typing {
  import opened Wire
  import opened Schema
  import opened Encoding
  import opened Decoding
  import opened RoundTrip
  import opened Content

  ghost predicate Bounded(d: MsgDesc, m: Msg)
    decreases d, 2
  {
    forall i :: 0 <= i < |d.fields| && d.fields[i].slot < |m.slots| ==>
      BoundedSlot(d.fields[i], m.slots[d.fields[i].slot])
  }

  ghost predicate BoundedSlot(f: Field, s: Slot)
    decreases f, 1
  {
    match s
    case Plain(v) => BoundedValue(f, v)
    case Opt(_, v) => BoundedValue(f, v)
    case Many(items, spare) =>
      && |items| <= f.arraySize
      && (forall k :: 0 <= k < |items| ==> BoundedValue(f, items[k]))
      && KeptElements(f, spare, f.arraySize - |items|)
    case Choice(which, v) => which == f.tag ==> BoundedValue(f, v)
  }

  ghost predicate BoundedValue(f: Field, v: Value)
    decreases f, 0
  {
    match f.ltype
    case BytesArray => v.VBytes? && |v.b| + 2 <= f.dataSize
    case String => v.VBytes? && |v.b| + 1 <= f.dataSize
    case Submessage => v.VMsg? && Bounded(f.sub, v.m)
    case _ => true
  }

  /**
   Memory that initialisation does not touch is within its bounds: fixed-count arrays, also
   those in submessages that are not simply zeroed and in array elements beyond the count.
   */
  ghost predicate KeptInBounds(d: MsgDesc, m: Msg)
    decreases d, 2
  {
    forall i :: 0 <= i < |d.fields| && d.fields[i].slot < |m.slots| ==>
      KeptSlotInBounds(d.fields[i], m.slots[d.fields[i].slot])
  }

  ghost predicate KeptSlotInBounds(f: Field, s: Slot)
    decreases f, 2
  {
    match f.htype
    case Repeated => if f.FixedCount() then BoundedSlot(f, s) else KeptElements(f, Elements(s), f.arraySize)
    case OneOf => true
    case _ => f.ltype == Submessage && f.sub.NeedsDefaults() ==> KeptValue(f, SlotValue(s))
  }

  ghost predicate KeptValue(f: Field, v: Value)
    decreases f, 0
  {
    f.ltype == Submessage && v.VMsg? ==> KeptInBounds(f.sub, v.m)
  }

  /** The first n elements of an array's memory; each is initialised as its turn comes. */
  ghost predicate KeptElements(f: Field, elements: seq<Value>, n: int)
    decreases f, 0
  {
    f.ltype == Submessage ==>
      forall k :: 0 <= k < n && k < |elements| && elements[k].VMsg? ==> KeptInBounds(f.sub, elements[k].m)
  }

  /** A value, slot or struct of its type and, if `bounded`, within its bounds. */
  ghost predicate SoundValue(f: Field, v: Value, bounded: bool)
  {
    ValueFits(f, v) && (bounded ==> BoundedValue(f, v))
  }

  ghost predicate SoundSlot(f: Field, s: Slot, bounded: bool)
  {
    SlotFits(f, s) && (bounded ==> BoundedSlot(f, s))
  }

  ghost predicate Sound(d: MsgDesc, m: Msg, bounded: bool)
  {
    MsgFits(d, m) && (bounded ==> Bounded(d, m))
  }

  /* ------------------------------------------------------ zeros and defaults */

  lemma {:induction false} ZeroValueBounded(f: Field, nslots: nat)
    requires WfField(f, nslots)
    ensures BoundedValue(f, ZeroValue(f))
    decreases f, 0
  {
    if f.ltype == Submessage { ZeroBounded(f.sub); }
  }

  lemma {:induction false} ZeroFromBounded(d: MsgDesc, i: nat)
    requires WfDesc(d) && i <= |d.fields|
    ensures forall j :: 0 <= j < i ==> BoundedSlot(d.fields[j], At(ZeroFrom(d, i), d.fields[j]))
    decreases d, 1, i
  {
    if i == 0 {
    } else {
      ZeroFromBounded(d, i - 1);
      var f := d.fields[i - 1];
      assert WfField(f, d.nslots);
      ZeroValueBounded(f, d.nslots);
      forall j | 0 <= j < i ensures BoundedSlot(d.fields[j], At(ZeroFrom(d, i), d.fields[j])) {
        assert WfField(d.fields[j], d.nslots);
        if d.fields[j].slot == f.slot && j != i - 1 { assert d.fields[j].htype == OneOf; }
      }
    }
  }

  lemma {:induction false} ZeroBounded(d: MsgDesc)
    requires WfDesc(d)
    ensures Bounded(d, ZeroMsg(d))
    decreases d, 2
  {
    ZeroFromBounded(d, |d.fields|);
  }

  /* -------------------------------------------- what initialisation leaves alone */

  /** The slots after i fields: those already visited are at their defaults, the others as before. */
  lemma {:induction false} DefaultsFromAt(d: MsgDesc, m: Msg, i: nat, j: nat)
    requires WfDesc(d) && MsgFits(d, m) && i <= |d.fields| && j < |d.fields|
    ensures var f := d.fields[j];
            && f.slot < |m.slots|
            && (j < i ==> At(DefaultsFrom(d, m, i), f) == DefaultSlot(f, At(m, f)))
            && (j >= i && f.htype != OneOf ==> At(DefaultsFrom(d, m, i), f) == At(m, f))
    decreases i
  {
    hide DefaultValue, ValueFits, SlotFits, WfField;
    InStruct(d, m, j);
    if i == 0 {
    } else {
      InStruct(d, m, i - 1);
      DefaultsFromAt(d, m, i - 1, j);
      DefaultsFromAt(d, m, i - 1, i - 1);
    }
  }

  lemma InStruct(d: MsgDesc, m: Msg, j: nat)
    requires WfDesc(d) && MsgFits(d, m) && j < |d.fields|
    ensures WfField(d.fields[j], d.nslots) && d.fields[j].slot < |m.slots| && SlotFits(d.fields[j], At(m, d.fields[j]))
  {
  }

  lemma {:induction false} DefaultSlotIff(f: Field, nslots: nat, s: Slot)
    requires WfField(f, nslots) && SlotFits(f, s)
    ensures BoundedSlot(f, DefaultSlot(f, s)) <==> KeptSlotInBounds(f, s)
    decreases f, 0
  {
    ZeroValueBounded(f, nslots);
    if f.htype in {Required, Optional} && f.ltype == Submessage && f.sub.NeedsDefaults() {
      DefaultsBoundedIff(f.sub, SlotValue(s).m);
    }
  }

  /** A defaulted struct is within its bounds exactly when the memory left alone is. */
  lemma {:induction false} DefaultsBoundedIff(d: MsgDesc, m: Msg)
    requires WfDesc(d) && MsgFits(d, m)
    ensures Bounded(d, SetDefaults(d, m)) <==> KeptInBounds(d, m)
    decreases d, 1
  {
    hide WfDesc, MsgFits, BoundedSlot, KeptSlotInBounds, DefaultSlot, DefaultsFrom;
    forall j | 0 <= j < |d.fields|
      ensures d.fields[j].slot < |m.slots|
      ensures BoundedSlot(d.fields[j], At(SetDefaults(d, m), d.fields[j])) <==>
              KeptSlotInBounds(d.fields[j], At(m, d.fields[j]))
    {
      InStruct(d, m, j);
      DefaultsFromAt(d, m, |d.fields|, j);
      DefaultSlotIff(d.fields[j], d.nslots, At(m, d.fields[j]));
    }
  }

  lemma {:induction false} BoundedIsKept(d: MsgDesc, m: Msg)
    requires WfDesc(d) && MsgFits(d, m) && Bounded(d, m)
    ensures KeptInBounds(d, m)
    decreases d
  {
    forall i | 0 <= i < |d.fields| ensures KeptSlotInBounds(d.fields[i], At(m, d.fields[i])) {
      InStruct(d, m, i);
      var f, s := d.fields[i], At(m, d.fields[i]);
      assert BoundedSlot(f, s);
      if f.htype in {Required, Optional} && f.ltype == Submessage { BoundedIsKept(f.sub, SlotValue(s).m); }
      if f.htype == Repeated && f.ltype == Submessage {
        forall k | 0 <= k < |s.items| ensures KeptInBounds(f.sub, s.items[k].m) {
          BoundedIsKept(f.sub, s.items[k].m);
        }
      }
    }
  }

  lemma DefaultsSound(d: MsgDesc, m: Msg, bounded: bool)
    requires WfDesc(d) && Sound(d, m, bounded)
    ensures Sound(d, SetDefaults(d, m), bounded)
  {
    DefaultsAreClean(d, m);
    if bounded {
      BoundedIsKept(d, m);
      DefaultsBoundedIff(d, m);
    }
  }

  lemma FreshSubSound(d: MsgDesc)
    requires WfDesc(d)
    ensures Sound(d, ZeroMsg(d), true) && Sound(d, FreshSub(d), true)
  {
    ZeroFits(d);
    ZeroBounded(d);
    DefaultsSound(d, ZeroMsg(d), true);
  }

  /** A newly selected submessage has zeros also where setting defaults would leave old contents. */
  lemma FreshArraysZeroed(d: MsgDesc, i: nat)
    requires WfDesc(d) && i < |d.fields| && d.fields[i].FixedCount()
    ensures ZeroedSlot(d.fields[i], At(FreshSub(d), d.fields[i]))
  {
    hide DefaultsFrom, MsgFits;
    ZeroFits(d);
    if d.NeedsDefaults() { DefaultsFromAt(d, ZeroMsg(d), |d.fields|, i); }
  }

  /** The type has neither default values nor submessages. */
  predicate Simple(d: MsgDesc)
  {
    forall i :: 0 <= i < |d.fields| ==> d.fields[i].dflt.None? && d.fields[i].ltype != Submessage
  }

  /** A required or optional submessage of a simple type is zeroed whole; in others the fixed-count arrays stay. */
  lemma SubmessageCleared(f: Field, nslots: nat, v: Value, i: nat)
    requires WfField(f, nslots) && f.ltype == Submessage && ValueFits(f, v)
    ensures Simple(f.sub) ==> ZeroedValue(f, DefaultValue(f, v))
    ensures !Simple(f.sub) && i < |f.sub.fields| && f.sub.fields[i].FixedCount() ==>
              DefaultValue(f, v).VMsg? && At(DefaultValue(f, v).m, f.sub.fields[i]) == At(v.m, f.sub.fields[i])
  {
    hide DefaultsFrom, MsgFits, WfDesc;
    ZeroFits(f.sub);
    if !Simple(f.sub) && i < |f.sub.fields| { DefaultsFromAt(f.sub, v.m, |f.sub.fields|, i); }
  }

  lemma ZeroValueSound(f: Field, nslots: nat)
    requires WfField(f, nslots)
    ensures SoundValue(f, ZeroValue(f), true)
  {
    ZeroValueFits(f, nslots);
    ZeroValueBounded(f, nslots);
  }

  /* ------------------------------------------------------------- decoding */

  ghost predicate SoundItems(f: Field, items: seq<Value>, bounded: bool)
  {
    && (forall k :: 0 <= k < |items| ==> SoundValue(f, items[k], bounded))
    && (bounded ==> |items| <= f.arraySize) && (f.FixedCount() ==> |items| == f.arraySize)
  }

  /** Spare memory behind n elements in use. */
  ghost predicate SoundSpare(f: Field, spare: seq<Value>, n: int, bounded: bool)
  {
    && (forall k :: 0 <= k < |spare| ==> ValueFits(f, spare[k]))
    && (bounded ==> KeptElements(f, spare, f.arraySize - n)) && (f.FixedCount() ==> spare == [])
  }

  lemma ArraySound(f: Field, items: seq<Value>, spare: seq<Value>, bounded: bool)
    requires f.htype == Repeated
    ensures SoundSlot(f, Many(items, spare), bounded) <==>
            SoundItems(f, items, bounded) && SoundSpare(f, spare, |items|, bounded)
  {
  }

  lemma SpareSound(f: Field, spare: seq<Value>, n: int, more: nat, bounded: bool)
    requires SoundSpare(f, spare, n, bounded)
    ensures SoundSpare(f, Unused(spare, more), n + more, bounded)
  {
  }

  lemma LeafSound(f: Field, nslots: nat, wireType: nat, s: Bytes)
    requires WfField(f, nslots) && f.ltype != Submessage && DecLeaf(f, wireType, s).Ok?
    ensures SoundValue(f, DecLeaf(f, wireType, s).value, true)
  {
    if f.ltype in {Fixed32, Fixed64} {
      LittleBound(s[..f.dataSize]);
      FixedBound();
    }
  }

  lemma {:induction false} PackedSound(f: Field, nslots: nat, s: Bytes, items: seq<Value>, size: nat, bounded: bool)
    requires WfField(f, nslots) && f.htype == Repeated && f.Packable() && size <= |items|
    requires SoundItems(f, items, bounded) && DecPacked(f, s, items, size).Some?
    requires f.HasSize() ==> size == |items|
    ensures var r := DecPacked(f, s, items, size).value;
            SoundItems(f, r.items, bounded) && (f.HasSize() ==> r.size == |r.items|)
    decreases |s|
  {
    if s == [] {
    } else {
      LeafSound(f, nslots, WT_PACKED, s);
      var Ok(v, n) := DecLeaf(f, WT_PACKED, s);
      PackedSound(f, nslots, s[n..], PutItem(items, size, v), size + 1, bounded);
    }
  }

  /** With initialisation the memory need only be in bounds where that leaves it alone. */
  lemma {:induction false} BasicSound(f: Field, nslots: nat, wireType: nat, s: Bytes, prior: Value, init: bool,
                                      bounded: bool)
    requires WfField(f, nslots) && DecBasic(f, wireType, s, prior, init).Ok?
    requires f.ltype == Submessage ==> ValueFits(f, prior)
    requires f.ltype == Submessage && bounded ==> if init then KeptValue(f, prior) else BoundedValue(f, prior)
    ensures SoundValue(f, DecBasic(f, wireType, s, prior, init).value, bounded)
    decreases |s|, 0
  {
    if f.ltype != Submessage {
      LeafSound(f, nslots, wireType, s);
    } else {
      StartSound(f.sub, prior.m, init, bounded);
      DecodedSound(f.sub, DecDelimited(s).value, prior.m, init, bounded);
    }
  }

  lemma StartSound(d: MsgDesc, m: Msg, init: bool, bounded: bool)
    requires WfDesc(d) && MsgFits(d, m)
    requires bounded ==> if init then KeptInBounds(d, m) else Bounded(d, m)
    ensures Sound(d, Start(d, m, init).m, bounded)
  {
    DefaultsAreClean(d, m);
    DefaultsBoundedIff(d, m);
  }

  lemma {:induction false} RepeatedSound(f: Field, nslots: nat, wireType: nat, s: Bytes, items: seq<Value>,
                                         spare: seq<Value>, size: nat, bounded: bool)
    requires WfField(f, nslots) && f.htype == Repeated && size <= |items|
    requires SoundSlot(f, Many(items, spare), bounded)
    requires f.HasSize() ==> size == |items|
    requires DecRepeated(f, wireType, s, items, spare, size).Ok?
    ensures var r := DecRepeated(f, wireType, s, items, spare, size).value.items;
            SoundSlot(f, Many(r, Unused(spare, |r| - |items|)), bounded)
    decreases |s|, 1
  {
    hide SoundItems, SoundSpare, SoundSlot, SoundValue, ValueFits, KeptValue;
    hide DecBasic, DecPacked, ElementMemory, Unused;
    ArraySound(f, items, spare, bounded);
    var r := DecRepeated(f, wireType, s, items, spare, size).value.items;
    if wireType == WT_STRING && f.Packable() {
      PackedSound(f, nslots, DecDelimited(s).value, items, size, bounded);
    } else {
      var prior := ElementMemory(f, items, spare, size);
      MemorySound(f, nslots, items, spare, size, bounded);
      BasicSound(f, nslots, wireType, s, prior, true, bounded);
      var v := DecBasic(f, wireType, s, prior, true).value;
      PutItemSound(f, items, size, v, bounded);
    }
    SpareSound(f, spare, |items|, |r| - |items|, bounded);
    ArraySound(f, r, Unused(spare, |r| - |items|), bounded);
  }

  lemma PutItemSound(f: Field, items: seq<Value>, size: nat, v: Value, bounded: bool)
    requires SoundItems(f, items, bounded) && SoundValue(f, v, bounded) && size <= |items| && size < f.arraySize
    requires f.HasSize() ==> size == |items|
    ensures SoundItems(f, PutItem(items, size, v), bounded)
  {
    var r := PutItem(items, size, v);
    assert forall k :: 0 <= k < |r| ==> r[k] == if k == size then v else items[k];
  }

  lemma MemorySound(f: Field, nslots: nat, items: seq<Value>, spare: seq<Value>, size: nat, bounded: bool)
    requires WfField(f, nslots) && f.htype == Repeated && size <= |items| && size < f.arraySize
    requires SoundItems(f, items, bounded) && SoundSpare(f, spare, |items|, bounded)
    ensures var v := ElementMemory(f, items, spare, size);
            ValueFits(f, v) && (f.ltype == Submessage && bounded ==> KeptValue(f, v))
  {
    ZeroValueSound(f, nslots);
    if f.ltype == Submessage {
      var v := ElementMemory(f, items, spare, size);
      if bounded && (size < |items| || spare == []) { BoundedIsKept(f.sub, v.m); }
    }
  }

  lemma {:induction false} StaticSound(f: Field, nslots: nat, wireType: nat, s: Bytes, slot: Slot, size: nat,
                                       bounded: bool)
    requires WfField(f, nslots) && SoundSlot(f, slot, bounded) && DecStatic(f, wireType, s, slot, size).Ok?
    requires f.htype == Repeated && f.HasSize() ==> size == |slot.items|
    ensures SoundSlot(f, DecStatic(f, wireType, s, slot, size).value.slot, bounded)
    decreases |s|, 2
  {
    hide DecBasic, DecRepeated, FreshSub, DecLeaf, SoundItems, SoundSpare;
    match f.htype
    case Required => BasicSound(f, nslots, wireType, s, slot.v, false, bounded);
    case Optional => BasicSound(f, nslots, wireType, s, slot.v, false, bounded);
    case Repeated => RepeatedSound(f, nslots, wireType, s, slot.items, slot.spare, size, bounded);
    case OneOf =>
      var prior := if f.ltype == Submessage && slot.which != f.tag then VMsg(FreshSub(f.sub)) else slot.v;
      if f.ltype == Submessage { FreshSubSound(f.sub); }
      BasicSound(f, nslots, wireType, s, prior, false, bounded);
  }

  lemma SoundAt(d: MsgDesc, m: Msg, i: nat, bounded: bool)
    requires WfDesc(d) && Sound(d, m, bounded) && i < |d.fields|
    ensures var f := d.fields[i]; WfField(f, d.nslots) && f.slot < |m.slots| && SoundSlot(f, m.slots[f.slot], bounded)
  {
  }

  /** Replacing field i's slot by a sound one keeps the whole struct sound. */
  lemma PutSound(d: MsgDesc, m: Msg, i: nat, s: Slot, bounded: bool)
    requires WfDesc(d) && Sound(d, m, bounded) && i < |d.fields| && SoundSlot(d.fields[i], s, bounded)
    requires s.Choice? ==> s.which == d.fields[i].tag
    ensures Sound(d, PutSlot(m, d.fields[i].slot, s), bounded)
  {
    var r := PutSlot(m, d.fields[i].slot, s);
    forall j | 0 <= j < |d.fields|
      ensures d.fields[j].slot < |r.slots| && SoundSlot(d.fields[j], r.slots[d.fields[j].slot], bounded)
    {
      SoundAt(d, m, j, bounded);
      SoundAt(d, m, i, bounded);
      if j != i && d.fields[j].slot == d.fields[i].slot {
        assert d.fields[j].htype == OneOf && d.fields[i].htype == OneOf;
        assert d.fields[j].tag != d.fields[i].tag;
      }
    }
  }

  lemma {:induction false} FieldSound(d: MsgDesc, i: nat, wireType: nat, s: Bytes, st: State, bounded: bool)
    requires WfDesc(d) && Sound(d, st.m, bounded) && i < |d.fields| && DecField(d, i, wireType, s, st).Ok?
    ensures Sound(d, DecField(d, i, wireType, s, st).value.m, bounded)
    decreases |s|, 3
  {
    SoundAt(d, st.m, i, bounded);
    var f := d.fields[i];
    var slot := st.m.slots[f.slot];
    var fc := if f.FixedCount() then Track(st.fc, i, f.arraySize).value else st.fc;
    var size := CountOf(f, slot, fc);
    StaticSound(f, d.nslots, wireType, s, slot, size, bounded);
    PutSound(d, st.m, i, DecStatic(f, wireType, s, slot, size).value.slot, bounded);
  }

  lemma {:induction false} StepSound(d: MsgDesc, s: Bytes, st: State, bounded: bool)
    requires WfDesc(d) && Sound(d, st.m, bounded) && DecStep(d, s, st).Ok?
    ensures Sound(d, DecStep(d, s, st).value.m, bounded)
    decreases |s|, 4
  {
    var Ok(key, k) := DecTag(s);
    var found := FindTag(d, key.tag, 0);
    if found.Some? { FieldSound(d, found.value, key.wireType, s[k..], st, bounded); }
  }

  lemma {:induction false} LoopSound(d: MsgDesc, s: Bytes, st: State, bounded: bool)
    requires WfDesc(d) && Sound(d, st.m, bounded) && DecLoop(d, s, st).Some?
    ensures Sound(d, DecLoop(d, s, st).value.m, bounded)
    decreases |s|, 5
  {
    if s == [] {
    } else {
      StepSound(d, s, st, bounded);
      var Ok(st1, n) := DecStep(d, s, st);
      LoopSound(d, s[n..], st1, bounded);
    }
  }

  /** What the loop starts from, it keeps. */
  lemma {:induction false} DecodedSound(d: MsgDesc, s: Bytes, m: Msg, init: bool, bounded: bool)
    requires WfDesc(d) && Sound(d, Start(d, m, init).m, bounded) && DecMsg(d, s, m, init).Some?
    ensures Sound(d, DecMsg(d, s, m, init).value, bounded)
    decreases |s|, 6
  {
    LoopSound(d, s, Start(d, m, init), bounded);
  }

  /**
   Whatever the bytes, a successful pb_decode leaves a struct of its type within its bounds. A
   struct that is initialised first may hold anything, but for its fixed-count arrays.
   */
  lemma MessageSound(d: MsgDesc, s: Bytes, m: Msg, init: bool)
    requires WfDesc(d) && MsgFits(d, m) && DecMsg(d, s, m, init).Some?
    requires if init then KeptInBounds(d, m) else Bounded(d, m)
    ensures Sound(d, DecMsg(d, s, m, init).value, true)
  {
    StartSound(d, m, init, true);
    DecodedSound(d, s, m, init, true);
  }

  /** A struct of its type stays one, bounds or not. */
  lemma MessageFits(d: MsgDesc, s: Bytes, m: Msg, init: bool)
    requires WfDesc(d) && MsgFits(d, m) && DecMsg(d, s, m, init).Some?
    ensures MsgFits(d, DecMsg(d, s, m, init).value)
  {
    DefaultsAreClean(d, m);
    DecodedSound(d, s, m, init, false);
  }

  /**
   A fixed-count array that no record touches keeps its old contents: the empty input gives a
   struct within its bounds exactly when the memory left alone was.
   */
  lemma UntouchedArraysKept(d: MsgDesc, m: Msg)
    requires WfDesc(d) && MsgFits(d, m)
    requires d.RequiredBefore(|d.fields|) == 0
    ensures DecMsg(d, [], m, true).Some?
    ensures forall i :: 0 <= i < |d.fields| && d.fields[i].FixedCount() ==>
              At(DecMsg(d, [], m, true).value, d.fields[i]) == At(m, d.fields[i])
    ensures Sound(d, DecMsg(d, [], m, true).value, true) <==> KeptInBounds(d, m)
  {
    hide DefaultsFrom, WfDesc, MsgFits;
    DefaultsAreClean(d, m);
    DefaultsBoundedIff(d, m);
    assert DecMsg(d, [], m, true) == Some(SetDefaults(d, m));
    forall i | 0 <= i < |d.fields| && d.fields[i].FixedCount()
      ensures At(SetDefaults(d, m), d.fields[i]) == At(m, d.fields[i])
    {
      DefaultsFromAt(d, m, |d.fields|, i);
    }
  }

  lemma {:induction false} BoundedIsEncodable(d: MsgDesc, m: Msg)
    requires WfDesc(d) && Sound(d, m, true)
    ensures Encodable(d, m)
  {
    forall i | 0 <= i < |d.fields| && Present(d, d.fields[i], At(m, d.fields[i]))
      ensures EncodableSlot(d.fields[i], At(m, d.fields[i]))
    {
      SoundAt(d, m, i, true);
      var f := d.fields[i];
      var s := At(m, f);
      if f.htype == Repeated {
        forall k | 0 <= k < |s.items| ensures EncodableValue(f, s.items[k]) {
          ValueEncodable(f, d.nslots, s.items[k]);
        }
      } else {
        ValueEncodable(f, d.nslots, SlotValue(s));
      }
    }
  }

  lemma {:induction false} ValueEncodable(f: Field, nslots: nat, v: Value)
    requires WfField(f, nslots) && SoundValue(f, v, true)
    ensures EncodableValue(f, v)
  {
    if f.ltype == Submessage { BoundedIsEncodable(f.sub, v.m); }
    if f.ltype == String { CStrShorter(v.b); }
  }

  lemma CStrShorter(b: Bytes)
    ensures |CStr(b)| <= |b|
  {
  }

  /** Anything pb_decode accepts, pb_encode can write back. */
  lemma DecodedCanBeEncoded(d: MsgDesc, s: Bytes, m: Msg, init: bool)
    requires WfDesc(d) && MsgFits(d, m) && DecMsg(d, s, m, init).Some?
    requires if init then KeptInBounds(d, m) else Bounded(d, m)
    ensures EncMsg(d, DecMsg(d, s, m, init).value).Some?
  {
    MessageSound(d, s, m, init);
    BoundedIsEncodable(d, DecMsg(d, s, m, init).value);
    EncodesIff(d, DecMsg(d, s, m, init).value);
  }
}
