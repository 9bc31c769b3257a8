/**
 Records of different fields may come in any order: two neighbours can be swapped, unless
 both belong to fixed-count arrays, whose elements have to follow one another.
 */
module Reorder {
  import opened Wire
  import opened Schema
  import opened Decoding
  import opened Encoding
  import opened RoundTrip
  import opened Merge
  import opened Merging

  /* ------------------------------------- a whole payload is read to its end */

  /** p is exactly one payload of the wire type. */
  predicate Whole(p: Bytes, wireType: nat)
  {
    SkipField(p, wireType) == Ok((), |p|)
  }

  lemma {:induction false} WholeVarint(p: Bytes, t: Bytes, bitpos: nat)
    requires SkipVarint(p) == Ok((), |p|)
    ensures DecVarintFrom(p + t, bitpos) == DecVarintFrom(p, bitpos)
    ensures DecVarintFrom(p, bitpos).Ok? ==> DecVarintFrom(p, bitpos).used == |p|
    decreases |p|
  {
    if p[0] < 128 {
    } else {
      assert (p + t)[1..] == p[1..] + t;
      WholeVarint(p[1..], t, bitpos + 7);
    }
  }

  lemma {:induction false} WholeVarint32(p: Bytes, t: Bytes, bitpos: nat, top: bool)
    requires SkipVarint(p) == Ok((), |p|)
    ensures DecVarint32From(p + t, bitpos, top) == DecVarint32From(p, bitpos, top)
    ensures DecVarint32From(p, bitpos, top).Ok? ==> DecVarint32From(p, bitpos, top).used == |p|
    decreases |p|
  {
    assert (p + t)[0] == p[0];
    if p[0] < 128 {
    } else {
      assert (p + t)[1..] == p[1..] + t;
      WholeVarint32(p[1..], t, bitpos + 7, top);
      WholeVarint32(p[1..], t, bitpos + 7, p[0] % 128 / 8 % 2 == 1);
    }
  }

  lemma WholeBlob(f: Field, p: Bytes, t: Bytes)
    requires Whole(p, WT_STRING)
    ensures DecBlob(f, p + t) == DecBlob(f, p) && (DecBlob(f, p).Ok? ==> DecBlob(f, p).used == |p|)
  {
    hide DecVarint32;
    DelimitedExtends(p, t);
    VarintOf(p, t);
    var Ok(size, k) := DecVarint32(p);
    assert (p + t)[k..k + size] == p[k..k + size];
  }

  lemma VarintOf(p: Bytes, t: Bytes)
    requires DecVarint32(p).Ok?
    ensures DecVarint32(p + t) == DecVarint32(p)
  {
    Varint32Extends(p, t, 0, false);
  }

  lemma WholeLeaf(f: Field, wireType: nat, p: Bytes, t: Bytes)
    requires f.ltype != Submessage && Whole(p, wireType)
    ensures DecLeaf(f, wireType, p + t) == DecLeaf(f, wireType, p)
    ensures DecLeaf(f, wireType, p).Ok? ==> DecLeaf(f, wireType, p).used == |p|
  {
    hide DecBlob;
    if wireType == WT_VARINT {
      WholeVarint(p, t, 0);
      WholeVarint32(p, t, 0, false);
    } else if wireType == WT_STRING {
      WholeBlob(f, p, t);
    } else {
      assert (p + t)[..|p|] == p[..|p|];
    }
  }

  lemma WholeBasic(f: Field, wireType: nat, p: Bytes, t: Bytes, prior: Value, init: bool)
    requires Whole(p, wireType)
    ensures DecBasic(f, wireType, p + t, prior, init) == DecBasic(f, wireType, p, prior, init)
    ensures DecBasic(f, wireType, p, prior, init).Ok? ==> DecBasic(f, wireType, p, prior, init).used == |p|
  {
    hide DecLeaf, DecMsg, DecDelimited;
    if f.ltype != Submessage {
      WholeLeaf(f, wireType, p, t);
    } else if wireType == WT_STRING {
      WholeBody(p, t);
    }
  }

  lemma WholeBody(p: Bytes, t: Bytes)
    requires Whole(p, WT_STRING)
    ensures DecDelimited(p).Ok? && DecDelimited(p + t) == DecDelimited(p) && DecDelimited(p).used == |p|
  {
    DelimitedExtends(p, t);
  }

  lemma WholeRepeated(f: Field, wireType: nat, p: Bytes, t: Bytes, items: seq<Value>, spare: seq<Value>, size: nat)
    requires Whole(p, wireType) && size <= |items|
    ensures var x := DecRepeated(f, wireType, p, items, spare, size);
            DecRepeated(f, wireType, p + t, items, spare, size) == x && (x.Ok? ==> x.used == |p|)
  {
    hide DecBasic, DecDelimited, DecPacked;
    if wireType == WT_STRING && f.Packable() {
      WholeBody(p, t);
    } else {
      WholeBasic(f, wireType, p, t, ElementMemory(f, items, spare, size), true);
    }
  }

  lemma WholeStatic(f: Field, wireType: nat, p: Bytes, t: Bytes, slot: Slot, size: nat)
    requires Whole(p, wireType)
    ensures var x := DecStatic(f, wireType, p, slot, size);
            DecStatic(f, wireType, p + t, slot, size) == x && (x.Ok? ==> x.used == |p|)
  {
    hide DecBasic, DecRepeated, Whole, FreshSub;
    match slot
    case Plain(v) => WholeBasic(f, wireType, p, t, v, false);
    case Opt(_, v) => WholeBasic(f, wireType, p, t, v, false);
    case Many(items, spare) => if size <= |items| { WholeRepeated(f, wireType, p, t, items, spare, size); }
    case Choice(which, v) =>
      var prior := if f.ltype == Submessage && which != f.tag then VMsg(FreshSub(f.sub)) else v;
      WholeBasic(f, wireType, p, t, prior, false);
  }

  /** Decoding a whole payload does not depend on what follows, and takes all of it. */
  lemma WholeField(d: MsgDesc, i: nat, wireType: nat, p: Bytes, t: Bytes, st: State)
    requires i < |d.fields| && Whole(p, wireType)
    ensures DecField(d, i, wireType, p + t, st) == DecField(d, i, wireType, p, st)
    ensures DecField(d, i, wireType, p, st).Ok? ==> DecField(d, i, wireType, p, st).used == |p|
  {
    hide DecStatic, Whole;
    var f := d.fields[i];
    if f.slot < |st.m.slots| {
      var slot := st.m.slots[f.slot];
      var fc := if f.FixedCount() then Track(st.fc, i, f.arraySize) else Some(st.fc);
      if fc.Some? { WholeStatic(f, wireType, p, t, slot, CountOf(f, slot, fc.value)); }
    }
  }

  /* ------------------------------------------------------------- one record */

  /** The record of field i with the given wire type and payload. */
  function Record(d: MsgDesc, i: nat, wireType: nat, p: Bytes): Bytes
    requires i < |d.fields|
  {
    EncTag(d.fields[i].tag, wireType) + p
  }

  ghost predicate IsRecord(d: MsgDesc, i: nat, wireType: nat, p: Bytes)
  {
    i < |d.fields| && wireType < 8 && Whole(p, wireType)
  }

  /** The loop over the tail, if the field before it could be decoded. */
  function GoesOn(d: MsgDesc, x: Parsed<State>, tail: Bytes): Option<State>
  {
    if x.Ok? then DecLoop(d, tail, x.value) else None
  }

  lemma RecordStep(d: MsgDesc, i: nat, wireType: nat, p: Bytes, tail: Bytes, st: State)
    requires WfDesc(d) && IsRecord(d, i, wireType, p)
    ensures DecLoop(d, Record(d, i, wireType, p) + tail, st) == GoesOn(d, DecField(d, i, wireType, p, st), tail)
  {
    hide DecLoop, DecField, WfDesc, EncTag, Whole;
    WholeField(d, i, wireType, p, tail, st);
    var x := DecField(d, i, wireType, p, st);
    if x.Ok? { KeyStep(d, i, wireType, p, tail, st, x.value); } else { KeyStops(d, i, wireType, p, tail, st); }
  }

  /** The required fields noted with field i. */
  function Noted(d: MsgDesc, i: nat): set<nat>
    requires i < |d.fields|
  {
    var k := d.RequiredBefore(i);
    if d.fields[i].htype == Required && k < MAX_REQUIRED_FIELDS then {k} else {}
  }

  /** Two states that look alike to field i. */
  ghost predicate Alike(d: MsgDesc, i: nat, a: State, b: State)
    requires i < |d.fields|
  {
    var f := d.fields[i];
    && |a.m.slots| == |b.m.slots|
    && (f.slot < |a.m.slots| ==> a.m.slots[f.slot] == b.m.slots[f.slot])
    && (f.FixedCount() ==> a.fc == b.fc)
  }

  /** A field is decoded by its slot, and the count variables if it is a fixed-count array, and changes no more. */
  lemma FieldIsLocal(d: MsgDesc, i: nat, wireType: nat, p: Bytes, a: State, b: State)
    requires i < |d.fields| && Alike(d, i, a, b)
    ensures var x, y, f := DecField(d, i, wireType, p, a), DecField(d, i, wireType, p, b), d.fields[i];
            && (x.Err? <==> y.Err?)
            && (x.Ok? ==>
                  && f.slot < |a.m.slots| == |x.value.m.slots|
                  && x.value.m == PutSlot(a.m, f.slot, x.value.m.slots[f.slot])
                  && x.value.seen == a.seen + Noted(d, i)
                  && (!f.FixedCount() ==> x.value.fc == a.fc)
                  && y.value == State(PutSlot(b.m, f.slot, x.value.m.slots[f.slot]),
                                      if f.FixedCount() then x.value.fc else b.fc, b.seen + Noted(d, i)))
  {
    hide DecStatic;
  }

  /** Two neighbouring records of different fields, not both fixed-count arrays, can be swapped. */
  lemma RecordsSwap(d: MsgDesc, i: nat, wt1: nat, p1: Bytes, j: nat, wt2: nat, p2: Bytes, st: State, tail: Bytes)
    requires WfDesc(d) && IsRecord(d, i, wt1, p1) && IsRecord(d, j, wt2, p2)
    requires d.fields[i].slot != d.fields[j].slot && !(d.fields[i].FixedCount() && d.fields[j].FixedCount())
    ensures DecLoop(d, Record(d, i, wt1, p1) + Record(d, j, wt2, p2) + tail, st)
         == DecLoop(d, Record(d, j, wt2, p2) + Record(d, i, wt1, p1) + tail, st)
  {
    hide DecLoop, DecField, WfDesc, Record, Whole;
    TwoRecords(d, i, wt1, p1, j, wt2, p2, st, tail);
    TwoRecords(d, j, wt2, p2, i, wt1, p1, st, tail);
    var x, y := DecField(d, i, wt1, p1, st), DecField(d, j, wt2, p2, st);
    FieldIsLocal(d, i, wt1, p1, st, st);
    FieldIsLocal(d, j, wt2, p2, st, st);
    if x.Ok? { FieldIsLocal(d, j, wt2, p2, st, x.value); }
    if y.Ok? { FieldIsLocal(d, i, wt1, p1, st, y.value); }
    if x.Ok? && y.Ok? {
      var a, b := DecField(d, j, wt2, p2, x.value).value, DecField(d, i, wt1, p1, y.value).value;
      SlotsCommute(st.m, d.fields[i].slot, x.value.m.slots[d.fields[i].slot],
        d.fields[j].slot, y.value.m.slots[d.fields[j].slot]);
      assert a.seen == b.seen;
      assert a == b;
    }
  }

  lemma SlotsCommute(m: Msg, k: nat, s: Slot, l: nat, t: Slot)
    requires k != l
    ensures PutSlot(PutSlot(m, k, s), l, t) == PutSlot(PutSlot(m, l, t), k, s)
  {
    if k < |m.slots| && l < |m.slots| { assert m.slots[k := s][l := t] == m.slots[l := t][k := s]; }
  }

  lemma TwoRecords(d: MsgDesc, i: nat, wt1: nat, p1: Bytes, j: nat, wt2: nat, p2: Bytes, st: State, tail: Bytes)
    requires WfDesc(d) && IsRecord(d, i, wt1, p1) && IsRecord(d, j, wt2, p2)
    ensures var x := DecField(d, i, wt1, p1, st);
            DecLoop(d, Record(d, i, wt1, p1) + Record(d, j, wt2, p2) + tail, st) ==
              if x.Ok? then GoesOn(d, DecField(d, j, wt2, p2, x.value), tail) else None
  {
    hide DecLoop, DecField, WfDesc, Record, Whole;
    var r1, r2 := Record(d, i, wt1, p1), Record(d, j, wt2, p2);
    assert r1 + r2 + tail == r1 + (r2 + tail);
    RecordStep(d, i, wt1, p1, r2 + tail, st);
    var x := DecField(d, i, wt1, p1, st);
    if x.Ok? { RecordStep(d, j, wt2, p2, tail, x.value); }
  }

  /** So they can anywhere in a message, at a boundary between records. */
  lemma MessageSwap(d: MsgDesc, a: Bytes, i: nat, wt1: nat, p1: Bytes, j: nat, wt2: nat, p2: Bytes, b: Bytes,
      m: Msg, init: bool)
    requires WfDesc(d) && IsRecord(d, i, wt1, p1) && IsRecord(d, j, wt2, p2)
    requires d.fields[i].slot != d.fields[j].slot && !(d.fields[i].FixedCount() && d.fields[j].FixedCount())
    requires DecLoop(d, a, Start(d, m, init)).Some?
    ensures var r1, r2 := Record(d, i, wt1, p1), Record(d, j, wt2, p2);
            DecMsg(d, a + (r1 + r2 + b), m, init) == DecMsg(d, a + (r2 + r1 + b), m, init)
  {
    hide DecLoop, WfDesc, Record, Whole, Start, Finished;
    var r1, r2 := Record(d, i, wt1, p1), Record(d, j, wt2, p2);
    LoopConcat(d, a, r1 + r2 + b, Start(d, m, init));
    LoopConcat(d, a, r2 + r1 + b, Start(d, m, init));
    RecordsSwap(d, i, wt1, p1, j, wt2, p2, DecLoop(d, a, Start(d, m, init)).value, b);
  }

  /**
   The exception: records of two fixed-count arrays, neither begun before, can follow each other
   exactly when the first completes its array. So they can be swapped only if both do.
   */
  lemma CountedRecordsIff(d: MsgDesc, i: nat, wt1: nat, p1: Bytes, j: nat, wt2: nat, p2: Bytes, st: State)
    requires WfDesc(d) && IsRecord(d, i, wt1, p1) && IsRecord(d, j, wt2, p2) && i != j
    requires d.fields[i].FixedCount() && d.fields[j].FixedCount()
    requires st.fc.Complete() && (st.fc.Counting? ==> st.fc.index !in {i, j})
    requires DecField(d, i, wt1, p1, st).Ok? && DecField(d, j, wt2, p2, st).Ok?
    ensures DecLoop(d, Record(d, i, wt1, p1) + Record(d, j, wt2, p2), st).Some? <==>
            DecField(d, i, wt1, p1, st).value.fc.Complete()
  {
    hide DecLoop, DecField, WfDesc, Record, Whole;
    var r1, r2 := Record(d, i, wt1, p1), Record(d, j, wt2, p2);
    assert r1 + r2 + [] == r1 + r2;
    var st1 := DecField(d, i, wt1, p1, st).value;
    TwoRecords(d, i, wt1, p1, j, wt2, p2, st, []);
    OtherSlot(d, i, j);
    FieldIsLocal(d, i, wt1, p1, st, st);
    FieldIsLocal(d, j, wt2, p2, st, st);
    CountedAfter(d, i, wt1, p1, st);
    NextCounted(d, j, wt2, p2, st, st1);
    var x := DecField(d, j, wt2, p2, st1);
    if x.Ok? { LoopEnd(d, x.value); }
  }

  lemma OtherSlot(d: MsgDesc, i: nat, j: nat)
    requires WfDesc(d) && i < |d.fields| && j < |d.fields| && i != j && d.fields[i].htype == Repeated
    ensures d.fields[i].slot != d.fields[j].slot
  {
  }

  lemma CountedAfter(d: MsgDesc, i: nat, wireType: nat, p: Bytes, st: State)
    requires i < |d.fields| && d.fields[i].FixedCount() && DecField(d, i, wireType, p, st).Ok?
    ensures var fc := DecField(d, i, wireType, p, st).value.fc; fc.Counting? && fc.index == i
  {
    hide DecStatic;
  }

  lemma NextCounted(d: MsgDesc, j: nat, wireType: nat, p: Bytes, a: State, b: State)
    requires j < |d.fields| && d.fields[j].FixedCount() && d.fields[j].slot < |a.m.slots| == |b.m.slots|
    requires a.m.slots[d.fields[j].slot] == b.m.slots[d.fields[j].slot]
    requires a.fc.Complete() && (a.fc.Counting? ==> a.fc.index != j) && (b.fc.Counting? ==> b.fc.index != j)
    requires DecField(d, j, wireType, p, a).Ok?
    ensures DecField(d, j, wireType, p, b).Ok? <==> b.fc.Complete()
  {
    hide DecStatic;
  }
}
