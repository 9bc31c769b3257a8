/**
 What a further record does to a struct that already holds something: the last scalar
 wins, repeated fields grow, submessages merge.
 */
module Merging {
  import opened Wire
  import opened Schema
  import opened Encoding
  import opened Decoding
  import opened RoundTrip
  import Typing
  import MergeCounted

  /** The state after field i has received a value in its slot. */
  ghost function Receives(d: MsgDesc, i: nat, s: Slot, st: State): State
    requires i < |d.fields|
  {
    var k := d.RequiredBefore(i);
    State(PutSlot(st.m, d.fields[i].slot, s), st.fc,
          if d.fields[i].htype == Required && k < MAX_REQUIRED_FIELDS then st.seen + {k} else st.seen)
  }

  /** Field f holding v, marked as present. */
  ghost function Holding(f: Field, v: Value): Slot
    requires f.htype != Repeated
  {
    match f.htype
    case Required => Plain(v)
    case Optional => if f.HasSize() then Opt(true, v) else Plain(v)
    case OneOf => Choice(f.tag, v)
  }

  ghost predicate TypedSlot(f: Field, st: State)
  {
    f.slot < |st.m.slots| && SlotFits(f, st.m.slots[f.slot])
  }

  lemma SingleReceives(d: MsgDesc, i: nat, st: State, prior: Value, v: Value, payload: Bytes, tail: Bytes)
    requires i < |d.fields| && TypedSlot(d.fields[i], st) && d.fields[i].htype != Repeated
    requires var f := d.fields[i]; var s := st.m.slots[f.slot];
             && prior == (if f.htype == OneOf && f.ltype == Submessage && s.which != f.tag then VMsg(FreshSub(f.sub))
                 else SlotValue(s))
             && DecBasic(f, WireTypeOf(f.ltype), payload + tail, prior, false) == Ok(v, |payload|)
    ensures DecField(d, i, WireTypeOf(d.fields[i].ltype), payload + tail, st)
         == Ok(Receives(d, i, Holding(d.fields[i], v), st), |payload|)
  {
    hide DecBasic, ValueFits, FreshSub;
  }

  /**
   Last one wins: a record of a scalar, string or byte field replaces whatever the field held, also another
   oneof member.
   */
  lemma LastWins(d: MsgDesc, i: nat, v: Value, st: State, tail: Bytes)
    requires WfDesc(d) && i < |d.fields| && TypedSlot(d.fields[i], st)
    requires d.fields[i].htype != Repeated && d.fields[i].ltype != Submessage && ValueFits(d.fields[i], v)
    requires EncBasic(d.fields[i], v).Some? && |EncBasic(d.fields[i], v).value| < U32
    ensures var f := d.fields[i];
            DecLoop(d, EncBasic(f, v).value + tail, st)
            == DecLoop(d, tail, Receives(d, i, Holding(f, if f.ltype == String then VBytes(CStr(v.b)) else v), st))
  {
    hide DecLoop, DecField, Receives, Holding, DecBasic, EncData;
    var f := d.fields[i];
    assert WfField(f, d.nslots);
    var prior := SlotValue(st.m.slots[f.slot]);
    BasicRoundTrip(f, d.nslots, v, prior, false, tail);
    var payload := EncData(f, v).value;
    var got := if f.ltype == String then VBytes(CStr(v.b)) else v;
    SingleReceives(d, i, st, prior, got, payload, tail);
    KeyStep(d, i, WireTypeOf(f.ltype), payload, tail, st, Receives(d, i, Holding(f, got), st));
  }

  /** A length-delimited record of field f with the given body. */
  function LenRecord(f: Field, body: Bytes): Bytes
  {
    EncTag(f.tag, WT_STRING) + (EncVarint(|body|) + body)
  }

  /** The memory a submessage record is decoded over: what is there, or a fresh struct for another oneof member. */
  ghost function SubPrior(f: Field, s: Slot): Value
  {
    if f.htype == OneOf && !(s.Choice? && s.which == f.tag) then VMsg(FreshSub(f.sub)) else SlotValue(s)
  }

  ghost predicate SubField(d: MsgDesc, i: nat, st: State)
  {
    && WfDesc(d) && i < |d.fields| && TypedSlot(d.fields[i], st)
    && d.fields[i].htype != Repeated && d.fields[i].ltype == Submessage
  }

  lemma SubPriorFits(d: MsgDesc, i: nat, st: State)
    requires SubField(d, i, st)
    ensures var f := d.fields[i]; ValueFits(f, SubPrior(f, st.m.slots[f.slot]))
  {
    hide FreshSub, MsgFits;
    var f := d.fields[i];
    assert WfField(f, d.nslots);
    FreshSubIsClean(f.sub);
  }

  /** A record of a submessage field is decoded into what is there, without resetting it. */
  lemma SubmessagesMerge(d: MsgDesc, i: nat, body: Bytes, st: State, tail: Bytes)
    requires SubField(d, i, st) && |body| < U32
    ensures var f := d.fields[i]; var prior := SubPrior(f, st.m.slots[f.slot]);
            && prior.VMsg?
            && DecLoop(d, LenRecord(f, body) + tail, st) ==
                 match DecMsg(f.sub, body, prior.m, false)
                 case None => None
                 case Some(m) => DecLoop(d, tail, Receives(d, i, Holding(f, VMsg(m)), st))
  {
    hide DecLoop, DecField, Receives, Holding, DecMsg, DecDelimited, SubPrior;
    var f := d.fields[i];
    SubPriorFits(d, i, st);
    var prior := SubPrior(f, st.m.slots[f.slot]);
    var payload := EncVarint(|body|) + body;
    DelimitedRoundTrip(body, tail);
    match DecMsg(f.sub, body, prior.m, false) {
      case None =>
        assert DecBasic(f, WT_STRING, payload + tail, prior, false).Err?;
        SubFails(d, i, st, payload + tail);
        KeyStops(d, i, WT_STRING, payload, tail, st);
      case Some(m) =>
        assert DecBasic(f, WT_STRING, payload + tail, prior, false) == Ok(VMsg(m), |payload|);
        SubReceives(d, i, st, VMsg(m), payload, tail);
        KeyStep(d, i, WT_STRING, payload, tail, st, Receives(d, i, Holding(f, VMsg(m)), st));
    }
  }

  lemma SubReceives(d: MsgDesc, i: nat, st: State, v: Value, payload: Bytes, tail: Bytes)
    requires SubField(d, i, st)
    requires var f := d.fields[i];
             DecBasic(f, WT_STRING, payload + tail, SubPrior(f, st.m.slots[f.slot]), false) == Ok(v, |payload|)
    ensures DecField(d, i, WT_STRING, payload + tail, st)
         == Ok(Receives(d, i, Holding(d.fields[i], v), st), |payload|)
  {
    SingleReceives(d, i, st, SubPrior(d.fields[i], st.m.slots[d.fields[i].slot]), v, payload, tail);
  }

  lemma SubFails(d: MsgDesc, i: nat, st: State, s: Bytes)
    requires SubField(d, i, st)
    requires DecBasic(d.fields[i], WT_STRING, s, SubPrior(d.fields[i], st.m.slots[d.fields[i].slot]), false).Err?
    ensures DecField(d, i, WT_STRING, s, st).Err?
  {
    hide DecBasic, ValueFits, FreshSub;
  }

  /** Receiving twice is receiving the last value, and the struct received is there for the next record. */
  lemma ReceivesTwice(d: MsgDesc, i: nat, st: State, m1: Msg, m2: Msg)
    requires SubField(d, i, st) && MsgFits(d.fields[i].sub, m1)
    ensures var f := d.fields[i]; var st1 := Receives(d, i, Holding(f, VMsg(m1)), st);
            && SubField(d, i, st1) && SubPrior(f, st1.m.slots[f.slot]) == VMsg(m1)
            && Receives(d, i, Holding(f, VMsg(m2)), st1) == Receives(d, i, Holding(f, VMsg(m2)), st)
  {
    hide FreshSub, MsgFits, WfDesc;
    var f := d.fields[i];
    var st1 := Receives(d, i, Holding(f, VMsg(m1)), st);
    assert st1.m.slots[f.slot] == Holding(f, VMsg(m1));
    assert ValueFits(f, VMsg(m1));
    assert SlotFits(f, Holding(f, VMsg(m1)));
    assert st1.m.slots[f.slot := Holding(f, VMsg(m2))] == st.m.slots[f.slot := Holding(f, VMsg(m2))];
  }

  /**
   Two records of a submessage field, with bodies b1 and b2, leave what one record with the body
   b1 + b2 leaves, unless b2 goes on with the fixed-count array that b1 ended with; then the one
   record is refused.
   */
  lemma TwoRecordsMergeIff(d: MsgDesc, i: nat, b1: Bytes, b2: Bytes, st: State, d1: Msg, d2: Msg)
    requires SubField(d, i, st) && |b1 + b2| < U32
    requires SubPrior(d.fields[i], st.m.slots[d.fields[i].slot]).VMsg?
    requires DecMsg(d.fields[i].sub, b1, SubPrior(d.fields[i], st.m.slots[d.fields[i].slot]).m, false) == Some(d1)
    requires DecMsg(d.fields[i].sub, b2, d1, false) == Some(d2)
    ensures var f := d.fields[i];
            var prior := SubPrior(f, st.m.slots[f.slot]).m;
            var last := MergeCounted.LastCounted(f.sub, b1, Start(f.sub, prior, false));
            var first := MergeCounted.FirstCounted(f.sub, b2, Start(f.sub, d1, false));
            var two := DecLoop(d, LenRecord(f, b1) + LenRecord(f, b2), st);
            && two == Some(Receives(d, i, Holding(f, VMsg(d2)), st))
            && (DecLoop(d, LenRecord(f, b1 + b2), st) == two <==> last.None? || last != first)
            && (last.Some? && last == first ==> DecLoop(d, LenRecord(f, b1 + b2), st).None?)
  {
    hide DecLoop, Receives, Holding, DecMsg, SubPrior, LenRecord, MergeCounted.LastCounted, MergeCounted.FirstCounted,
      Start, MsgFits;
    var f := d.fields[i];
    var prior := SubPrior(f, st.m.slots[f.slot]).m;
    assert WfField(f, d.nslots);
    SubPriorFits(d, i, st);
    Typing.MessageFits(f.sub, b1, prior, false);
    ReceivesTwice(d, i, st, d1, d2);
    var st1, st2 := Receives(d, i, Holding(f, VMsg(d1)), st), Receives(d, i, Holding(f, VMsg(d2)), st);
    SubmessagesMerge(d, i, b1, st, LenRecord(f, b2));
    SubmessagesMerge(d, i, b2, st1, []);
    SubmessagesMerge(d, i, b1 + b2, st, []);
    assert LenRecord(f, b2) + [] == LenRecord(f, b2) && LenRecord(f, b1 + b2) + [] == LenRecord(f, b1 + b2);
    LoopEnd(d, st2);
    MergeCounted.MergeIff(f.sub, b1, b2, prior, false, d1, d2);
  }

  lemma LoopEnd(d: MsgDesc, st: State)
    ensures DecLoop(d, [], st) == Some(st)
  {
  }

  /** The array of a slot with more elements behind those it has, which take up spare memory. */
  function Grown(s: Slot, more: seq<Value>): Slot
    requires s.Many?
  {
    Many(s.items + more, Unused(s.spare, |more|))
  }

  lemma ElementReceives(d: MsgDesc, i: nat, st: State, v: Value, payload: Bytes, tail: Bytes)
    requires i < |d.fields| && TypedSlot(d.fields[i], st) && d.fields[i].htype == Repeated && d.fields[i].HasSize()
    requires WireTypeOf(d.fields[i].ltype) == WT_STRING ==> !d.fields[i].Packable()
    requires var f := d.fields[i]; var s := st.m.slots[f.slot];
             |s.items| < f.arraySize ==>
               DecBasic(f, WireTypeOf(f.ltype), payload + tail, ElementMemory(f, s.items, s.spare, |s.items|), true)
               == Ok(v, |payload|)
    ensures var f := d.fields[i]; var s := st.m.slots[f.slot];
            DecField(d, i, WireTypeOf(f.ltype), payload + tail, st) ==
              if |s.items| < f.arraySize then Ok(Receives(d, i, Grown(s, [v]), st), |payload|) else Err
  {
    hide DecBasic, ValueFits, ElementMemory, Unused, DecPacked;
    var f := d.fields[i];
    var slot, wt, s := st.m.slots[f.slot], WireTypeOf(f.ltype), payload + tail;
    var n := |slot.items|;
    assert DecRepeated(f, wt, s, slot.items, slot.spare, n)
        == if n < f.arraySize then Ok(Filled(slot.items + [v], n + 1), |payload|) else Err;
    assert DecStatic(f, wt, s, slot, n)
        == if n < f.arraySize then Ok(SlotResult(Grown(slot, [v]), n + 1), |payload|) else Err;
  }

  /** Element v once decoded; a submessage is decoded over the memory behind the last element, with its defaults set. */
  ghost function Element(f: Field, s: Slot, v: Value): Value
    requires s.Many?
  {
    OverlayValue(f, v, ItemBase(f, s.spare, 0))
  }

  /** Repeated fields append: a further element goes behind those there are, and is refused when the array is full. */
  lemma RepeatedAppends(d: MsgDesc, i: nat, v: Value, st: State, tail: Bytes)
    requires WfDesc(d) && i < |d.fields| && TypedSlot(d.fields[i], st)
    requires d.fields[i].htype == Repeated && d.fields[i].HasSize() && ValueFits(d.fields[i], v)
    requires EncBasic(d.fields[i], v).Some? && |EncBasic(d.fields[i], v).value| < U32
    ensures var f := d.fields[i]; var s := st.m.slots[f.slot];
            DecLoop(d, EncBasic(f, v).value + tail, st)
            == if |s.items| < f.arraySize then DecLoop(d, tail, Receives(d, i, Grown(s, [Element(f, s, v)]), st))
               else None
  {
    hide DecLoop, DecField, Receives, DecBasic, EncData, OverlayValue, ItemBase, ValueFits, Grown;
    var f := d.fields[i];
    assert WfField(f, d.nslots);
    var s := st.m.slots[f.slot];
    var prior := ElementMemory(f, s.items, s.spare, |s.items|);
    FirstSpare(f, d.nslots, s);
    BasicRoundTrip(f, d.nslots, v, prior, true, tail);
    var payload, got := EncData(f, v).value, Element(f, s, v);
    ElementReceives(d, i, st, got, payload, tail);
    if |s.items| < f.arraySize {
      KeyStep(d, i, WireTypeOf(f.ltype), payload, tail, st, Receives(d, i, Grown(s, [got]), st));
    } else {
      KeyStops(d, i, WireTypeOf(f.ltype), payload, tail, st);
    }
  }

  lemma FirstSpare(f: Field, nslots: nat, s: Slot)
    requires WfField(f, nslots) && f.htype == Repeated && SlotFits(f, s)
    ensures var prior := ElementMemory(f, s.items, s.spare, |s.items|);
            ValueFits(f, prior) && ItemBase(f, [prior], 0) == ItemBase(f, s.spare, 0)
  {
    ZeroValueFits(f, nslots);
  }

  /** The packed loop, from an array that already holds elements. */
  lemma {:induction false} PackedItemsAppend(f: Field, nslots: nat, items: seq<Value>, more: seq<Value>)
    requires WfField(f, nslots) && f.Packable() && EncPackedItems(f, more).Some?
    requires forall k :: 0 <= k < |more| ==> ValueFits(f, more[k])
    ensures DecPacked(f, EncPackedItems(f, more).value, items, |items|) ==
              if more == [] || |items| + |more| <= f.arraySize then Some(Filled(items + more, |items| + |more|))
              else None
    decreases |more|
  {
    hide DecLeaf, EncInt, EncWord, WfField, ValueFits;
    var s := EncPackedItems(f, more).value;
    if more == [] {
      assert items + more == items;
    } else {
      assert more[0..] == more;
      PackedUnfold(f, nslots, more, 0);
      var rest := EncPackedItems(f, more[1..]).value;
      var head := (if f.ltype in {Fixed32, Fixed64} then EncWord(f, more[0].n) else EncInt(f, more[0].n)).value;
      PackedHead(f, nslots, more[0], rest);
      assert s[|head|..] == rest;
      PackedItemsAppend(f, nslots, items + [more[0]], more[1..]);
      assert items + [more[0]] + more[1..] == items + more;
      if |items| + 1 == f.arraySize && |more| > 1 { assert rest != [] by { PackedNotEmpty(f, nslots, more[1..]); } }
    }
  }

  lemma PackedNotEmpty(f: Field, nslots: nat, items: seq<Value>)
    requires WfField(f, nslots) && f.Packable() && EncPackedItems(f, items).Some? && items != []
    requires ValueFits(f, items[0])
    ensures EncPackedItems(f, items).value != []
  {
    hide DecLeaf, EncInt, EncWord, WfField, ValueFits;
    assert items[0..] == items;
    PackedUnfold(f, nslots, items, 0);
    PackedHead(f, nslots, items[0], []);
  }

  lemma PackedReceives(d: MsgDesc, i: nat, st: State, more: seq<Value>, data: Bytes, tail: Bytes)
    requires i < |d.fields| && TypedSlot(d.fields[i], st) && d.fields[i].htype == Repeated && d.fields[i].HasSize()
    requires d.fields[i].Packable()
    requires DecDelimited(EncVarint(|data|) + data + tail) == Ok(data, |EncVarint(|data|) + data|)
    requires var f := d.fields[i]; var items := st.m.slots[f.slot].items;
             DecPacked(f, data, items, |items|) ==
               if more == [] || |items| + |more| <= f.arraySize then Some(Filled(items + more, |items| + |more|))
               else None
    ensures var f := d.fields[i]; var s := st.m.slots[f.slot]; var payload := EncVarint(|data|) + data;
            DecField(d, i, WT_STRING, payload + tail, st) ==
              if more == [] || |s.items| + |more| <= f.arraySize
              then Ok(Receives(d, i, Grown(s, more), st), |payload|) else Err
  {
    hide DecPacked, ValueFits, EncVarint, DecDelimited, Unused;
    var f := d.fields[i];
    var slot, payload, n := st.m.slots[f.slot], EncVarint(|data|) + data, |st.m.slots[f.slot].items|;
    var fits := more == [] || n + |more| <= f.arraySize;
    assert DecRepeated(f, WT_STRING, payload + tail, slot.items, slot.spare, n)
        == if fits then Ok(Filled(slot.items + more, n + |more|), |payload|) else Err;
    assert DecStatic(f, WT_STRING, payload + tail, slot, n)
        == if fits then Ok(SlotResult(Grown(slot, more), n + |more|), |payload|) else Err;
  }

  /** A packed record appends all its elements, and is refused when they do not all fit. */
  lemma PackedAppends(d: MsgDesc, i: nat, more: seq<Value>, st: State, tail: Bytes)
    requires WfDesc(d) && i < |d.fields| && TypedSlot(d.fields[i], st)
    requires d.fields[i].htype == Repeated && d.fields[i].HasSize() && d.fields[i].Packable()
    requires forall k :: 0 <= k < |more| ==> ValueFits(d.fields[i], more[k])
    requires EncPackedItems(d.fields[i], more).Some? && |EncPackedItems(d.fields[i], more).value| < U32
    ensures var f := d.fields[i]; var s := st.m.slots[f.slot];
            DecLoop(d, LenRecord(f, EncPackedItems(f, more).value) + tail, st)
            == if more == [] || |s.items| + |more| <= f.arraySize
               then DecLoop(d, tail, Receives(d, i, Grown(s, more), st)) else None
  {
    hide DecLoop, DecField, Receives, DecPacked, EncPackedItems, ValueFits, DecDelimited, Grown;
    var f := d.fields[i];
    assert WfField(f, d.nslots);
    var items, data := st.m.slots[f.slot].items, EncPackedItems(f, more).value;
    var payload := EncVarint(|data|) + data;
    PackedItemsAppend(f, d.nslots, items, more);
    DelimitedRoundTrip(data, tail);
    PackedReceives(d, i, st, more, data, tail);
    if more == [] || |items| + |more| <= f.arraySize {
      KeyStep(d, i, WT_STRING, payload, tail, st, Receives(d, i, Grown(st.m.slots[f.slot], more), st));
    } else {
      KeyStops(d, i, WT_STRING, payload, tail, st);
    }
  }

  lemma KeyStops(d: MsgDesc, i: nat, wireType: nat, payload: Bytes, tail: Bytes, st: State)
    requires WfDesc(d) && i < |d.fields| && wireType < 8 && DecField(d, i, wireType, payload + tail, st).Err?
    ensures DecLoop(d, EncTag(d.fields[i].tag, wireType) + payload + tail, st).None?
  {
    hide DecField;
    var key := EncTag(d.fields[i].tag, wireType);
    var s := key + payload + tail;
    assert s == key + (payload + tail);
    assert WfField(d.fields[i], d.nslots);
    TagRoundTrip(d.fields[i].tag, wireType, payload + tail);
    FindTagAt(d, i, 0);
    assert s[|key|..] == payload + tail;
  }
}
