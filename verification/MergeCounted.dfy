/**
 The merge law for schemas with fixed-count arrays. Such an array has no counter in the
 struct, so the decode loop counts its elements itself; a message that goes on with the
 array the previous one ended with overflows it instead of overwriting it.
 */
module MergeCounted {
  import opened Wire
  import opened Schema
  import opened Decoding
  import opened Merge

  /** The first fixed-count array that decoding s touches. */
  ghost function FirstCounted(d: MsgDesc, s: Bytes, st: State): Option<nat>
    decreases |s|
  {
    if s == [] then None
    else
      match DecStep(d, s, st)
      case Err => None
      case Ok(st1, n) => if st1.fc.Counting? then Some(st1.fc.index) else FirstCounted(d, s[n..], st1)
  }

  /** The fixed-count array being counted when a has been decoded. */
  ghost function LastCounted(d: MsgDesc, a: Bytes, st: State): Option<nat>
  {
    var r := DecLoop(d, a, st);
    if r.Some? && r.value.fc.Counting? then Some(r.value.fc.index) else None
  }

  ghost predicate CountsField(d: MsgDesc, fc: CountState)
  {
    fc.Counting? ==> fc.index < |d.fields| && d.fields[fc.index].FixedCount()
                     && fc.total == d.fields[fc.index].arraySize
  }

  lemma StepCounts(d: MsgDesc, s: Bytes, st: State)
    requires CountsField(d, st.fc) && DecStep(d, s, st).Ok?
    ensures CountsField(d, DecStep(d, s, st).value.fc)
  {
    hide DecStatic, DecTag, SkipField, FindTag;
  }

  lemma {:induction false} LoopCounts(d: MsgDesc, s: Bytes, st: State)
    requires CountsField(d, st.fc) && DecLoop(d, s, st).Some?
    ensures CountsField(d, DecLoop(d, s, st).value.fc)
    decreases |s|
  {
    hide DecStep;
    if s == [] {
    } else {
      StepCounts(d, s, st);
      var Ok(st1, n) := DecStep(d, s, st);
      LoopCounts(d, s[n..], st1);
    }
  }

  /**
   A pass that touches no fixed-count array, or one that is not counted in c, does not depend on a complete
   count c.
   */
  lemma StepElsewhere(d: MsgDesc, s: Bytes, st: State, c: CountState)
    requires st.fc.NoField? && c.Complete() && DecStep(d, s, st).Ok?
    ensures var Ok(st1, n) := DecStep(d, s, st);
            && (st1.fc.NoField? ==> DecStep(d, s, st.(fc := c)) == Ok(st1.(fc := c), n))
            && (st1.fc.Counting? && !(c.Counting? && c.index == st1.fc.index)
                ==> DecStep(d, s, st.(fc := c)) == Ok(st1, n))
  {
    hide DecStatic, DecTag, SkipField, FindTag;
  }

  lemma {:induction false} LoopElsewhere(d: MsgDesc, s: Bytes, st: State, c: CountState)
    requires st.fc.NoField? && c.Complete() && DecLoop(d, s, st).Some? && DecLoop(d, s, st).value.fc.Complete()
    requires c.NoField? || FirstCounted(d, s, st) != Some(c.index)
    ensures var x, y := DecLoop(d, s, st), DecLoop(d, s, st.(fc := c));
            y.Some? && y.value.m == x.value.m && y.value.seen == x.value.seen && y.value.fc.Complete()
    decreases |s|
  {
    hide DecStep;
    if s == [] {
    } else {
      StepElsewhere(d, s, st, c);
      var Ok(st1, n) := DecStep(d, s, st);
      if st1.fc.NoField? { LoopElsewhere(d, s[n..], st1, c); }
    }
  }

  /** Nothing of array p has been decoded yet. */
  ghost predicate Untouched(fc: CountState, p: nat, total: nat)
  {
    fc == NoField || fc == Counting(p, 0, total)
  }

  /** Once array p is full, a further element of it is an error; an empty packed record is not. */
  lemma ElementOverflows(f: Field, wireType: nat, s: Bytes, slot: Slot, size: nat)
    requires f.htype == Repeated && size >= f.arraySize >= 1 && DecStatic(f, wireType, s, slot, 0).Ok?
    ensures var x, y := DecStatic(f, wireType, s, slot, 0), DecStatic(f, wireType, s, slot, size);
            y.Err? || (x.value.size == 0 && y == Ok(SlotResult(x.value.slot, size), x.used))
  {
    hide DecLeaf, DecBasic, DecDelimited;
    if wireType == WT_STRING && f.Packable() {
      var body := DecDelimited(s).value;
      if body == [] { assert DecPacked(f, body, slot.items, 0) == Some(Filled(slot.items, 0)); }
    }
  }

  lemma StepOverflows(d: MsgDesc, s: Bytes, st: State, p: nat)
    requires p < |d.fields| && d.fields[p].FixedCount() && d.fields[p].arraySize >= 1
    requires Untouched(st.fc, p, d.fields[p].arraySize) && DecStep(d, s, st).Ok?
    requires var fc := DecStep(d, s, st).value.fc; fc.Counting? ==> fc.index == p
    ensures var total := d.fields[p].arraySize;
            var Ok(st1, n) := DecStep(d, s, st);
            var y := DecStep(d, s, st.(fc := Counting(p, total, total)));
            y.Err? || (Untouched(st1.fc, p, total) && y == Ok(st1.(fc := Counting(p, total, total)), n))
  {
    hide DecStatic, DecTag, SkipField, FindTag;
    var Ok(key, k) := DecTag(s);
    var found := FindTag(d, key.tag, 0);
    if found == Some(p) && d.fields[p].slot < |st.m.slots| {
      var f := d.fields[p];
      ElementOverflows(f, key.wireType, s[k..], st.m.slots[f.slot], f.arraySize);
    }
  }

  lemma OnlyFirst(d: MsgDesc, s: Bytes, st: State, p: nat)
    requires p < |d.fields| && s != [] && DecStep(d, s, st).Ok? && d.fields[p].arraySize >= 1
    requires st.fc == Counting(p, 0, d.fields[p].arraySize)
    ensures DecStep(d, s, st).value.fc.Counting? && DecStep(d, s, st).value.fc.index == p
  {
    hide DecStatic, DecTag, SkipField, FindTag;
  }

  lemma {:induction false} LoopOverflows(d: MsgDesc, s: Bytes, st: State, p: nat)
    requires p < |d.fields| && d.fields[p].FixedCount() && d.fields[p].arraySize >= 1
    requires Untouched(st.fc, p, d.fields[p].arraySize)
    requires st.fc.NoField? ==> FirstCounted(d, s, st) == Some(p)
    requires DecLoop(d, s, st).Some? && DecLoop(d, s, st).value.fc.Complete()
    ensures var total := d.fields[p].arraySize; DecLoop(d, s, st.(fc := Counting(p, total, total))).None?
    decreases |s|
  {
    hide DecStep;
    if s == [] {
    } else {
      var total := d.fields[p].arraySize;
      var Ok(st1, n) := DecStep(d, s, st);
      if st.fc.Counting? { OnlyFirst(d, s, st, p); }
      StepOverflows(d, s, st, p);
      if DecStep(d, s, st.(fc := Counting(p, total, total))).Ok? { LoopOverflows(d, s[n..], st1, p); }
    }
  }

  /**
   The merge law for every schema: decoding a ++ b gives what decoding b on top of a
   gives exactly when b does not begin its fixed-count arrays with the one a ended with.
   Otherwise decoding a ++ b fails.
   */
  lemma MergeIff(d: MsgDesc, a: Bytes, b: Bytes, m: Msg, init: bool, d1: Msg, d2: Msg)
    requires WfDesc(d)
    requires DecMsg(d, a, m, init) == Some(d1)
    requires DecMsg(d, b, d1, false) == Some(d2)
    ensures var last, first := LastCounted(d, a, Start(d, m, init)), FirstCounted(d, b, Start(d, d1, false));
            && (DecMsg(d, a + b, m, init) == Some(d2) <==> last.None? || last != first)
            && (last.Some? && last == first ==> DecMsg(d, a + b, m, init).None?)
  {
    hide DecStep, DecLoop, DecField, FirstCounted, WfField;
    var s0, t0 := Start(d, m, init), Start(d, d1, false);
    var st1 := DecLoop(d, a, s0).value;
    LoopConcat(d, a, b, s0);
    LoopCounts(d, a, s0);
    LoopSeen(d, b, t0, st1.seen);
    var t1 := t0.(seen := t0.seen + st1.seen);
    FirstCountedSeen(d, b, t0, st1.seen);
    assert t0.seen + st1.seen == st1.seen;
    assert st1 == t1.(fc := st1.fc);
    if st1.fc.Counting? && FirstCounted(d, b, t0) == Some(st1.fc.index) {
      var p := st1.fc.index;
      ArrayNotEmpty(d, p);
      LoopOverflows(d, b, t1, p);
      assert st1.fc == Counting(p, st1.fc.total, st1.fc.total);
    } else {
      LoopElsewhere(d, b, t1, st1.fc);
    }
  }

  lemma ArrayNotEmpty(d: MsgDesc, p: nat)
    requires WfDesc(d) && p < |d.fields|
    ensures d.fields[p].arraySize >= 1
  {
    assert WfField(d.fields[p], d.nslots);
  }

  lemma {:induction false} FirstCountedSeen(d: MsgDesc, s: Bytes, st: State, more: set<nat>)
    requires DecLoop(d, s, st).Some?
    ensures FirstCounted(d, s, st.(seen := st.seen + more)) == FirstCounted(d, s, st)
    decreases |s|
  {
    hide DecStep;
    if s == [] {
    } else {
      StepSeen(d, s, st, more);
      var Ok(st1, n) := DecStep(d, s, st);
      FirstCountedSeen(d, s[n..], st1, more);
    }
  }

  /* ------------------------------------------------------- an input that shows it */

  /** One fixed-count array of one bool, with tag 1. */
  function OneBool(): MsgDesc
  {
    MsgDesc([Field(1, Repeated, Bool, 0, 1, 1, 0, 1, None, MsgDesc([], 0))], 1)
  }

  /** A packed record of the array holding true. */
  function OneTrue(): (b: Bytes)
  {
    [0x0A, 1, 1]
  }

  lemma TrueFills(items: seq<Value>)
    requires |items| == 1
    ensures DecRepeated(OneBool().fields[0], WT_STRING, OneTrue()[1..], items, [], 0) == Ok(Filled([VInt(1)], 1), 2)
  {
    hide DecVarint32, DecDelimited;
    TrueRecord();
    var f, body: Bytes := OneBool().fields[0], [1];
    assert items[0 := VInt(1)] == [VInt(1)] && body[1..] == [];
    assert DecLeaf(f, WT_PACKED, body) == Ok(VInt(1), 1);
    assert DecPacked(f, body[1..], [VInt(1)], 1) == Some(Filled([VInt(1)], 1));
    assert DecPacked(f, body, items, 0) == Some(Filled([VInt(1)], 1));
  }

  lemma TruePasses(st: State)
    requires |st.m.slots| == 1 && st.m.slots[0].Many? && |st.m.slots[0].items| == 1
    requires st.m.slots[0].spare == [] && st.fc.NoField?
    ensures DecStep(OneBool(), OneTrue(), st) == Ok(State(Msg([Many([VInt(1)], [])]), Counting(0, 1, 1), st.seen), 3)
  {
    hide DecVarint32, DecDelimited, DecTag, DecRepeated, SkipField, DecBasic;
    TrueRecord();
    TrueFills(st.m.slots[0].items);
    var d := OneBool();
    assert PutSlot(st.m, 0, Many([VInt(1)], [])) == Msg([Many([VInt(1)], [])]);
    assert DecStatic(d.fields[0], WT_STRING, OneTrue()[1..], st.m.slots[0], 0)
        == Ok(SlotResult(Many([VInt(1)], []), 1), 2);
    assert FindTag(d, 1, 0) == Some(0);
  }

  lemma TrueRecord()
    ensures DecTag(OneTrue()) == Ok(Key(1, WT_STRING), 1) && OneTrue()[1..] == [1, 1] && OneTrue()[3..] == []
    ensures DecDelimited(OneTrue()[1..]) == Ok([1], 2) && DecVarint32([1]) == Ok(1, 1)
  {
    var body := OneTrue()[1..];
    assert DecVarint32(body) == Ok(1, 1);
    assert body[1..2] == [1];
  }

  lemma TrueDecodes(m: Msg, init: bool)
    requires |m.slots| == 1 && m.slots[0].Many? && |m.slots[0].items| == 1 && m.slots[0].spare == []
    ensures DecMsg(OneBool(), OneTrue(), m, init) == Some(Msg([Many([VInt(1)], [])]))
    ensures LastCounted(OneBool(), OneTrue(), Start(OneBool(), m, init)) == Some(0)
    ensures FirstCounted(OneBool(), OneTrue(), Start(OneBool(), m, init)) == Some(0)
  {
    var d, st := OneBool(), Start(OneBool(), m, init);
    assert st.m == m by {
      assert DefaultsFrom(d, m, 0) == m;
      assert m.slots[0 := m.slots[0]] == m.slots;
    }
    TruePasses(st);
    TrueRecord();
    hide DecStep, Start;
    var r := State(Msg([Many([VInt(1)], [])]), Counting(0, 1, 1), st.seen);
    assert DecLoop(d, OneTrue()[3..], r) == Some(r);
    assert d.RequiredBefore(0) == 0;
  }

  lemma OneBoolIsWf()
    ensures WfDesc(OneBool())
  {
    assert WfField(OneBool().fields[0], 1);
  }

  /** Two messages that both decode, the second on top of the first, while their concatenation is rejected. */
  lemma CountedMessagesDoNotMerge()
    ensures var d, b, m := OneBool(), OneTrue(), Msg([Many([VInt(0)], [])]);
            && WfDesc(d)
            && DecMsg(d, b, m, true) == Some(Msg([Many([VInt(1)], [])]))
            && DecMsg(d, b, Msg([Many([VInt(1)], [])]), false) == Some(Msg([Many([VInt(1)], [])]))
            && DecMsg(d, b + b, m, true).None?
  {
    hide WfDesc, OneBool, OneTrue, DecMsg, LastCounted, FirstCounted, Start;
    var d, b, m, m1 := OneBool(), OneTrue(), Msg([Many([VInt(0)], [])]), Msg([Many([VInt(1)], [])]);
    OneBoolIsWf();
    TrueDecodes(m, true);
    TrueDecodes(m1, false);
    MergeIff(d, b, b, m, true, m1, m1);
  }
}
