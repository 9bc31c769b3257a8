/**
 Laws of the decode loop over concatenated input: "last one wins" merging and
 the skipping of unknown fields.
 */
module Merge {
  import opened Wire
  import opened Schema
  import opened Decoding

  /* ------------------------- what follows an item does not change its decoding */

  lemma LeafExtends(f: Field, wireType: nat, s: Bytes, t: Bytes)
    requires f.ltype != Submessage && DecLeaf(f, wireType, s).Ok?
    ensures DecLeaf(f, wireType, s + t) == DecLeaf(f, wireType, s)
  {
    match f.ltype
    case Bool => Varint32Extends(s, t, 0, false);
    case Fixed32 => assert (s + t)[..4] == s[..4];
    case Fixed64 => assert (s + t)[..8] == s[..8];
    case BytesArray => BlobExtends(f, s, t);
    case String => BlobExtends(f, s, t);
    case FixedBytes => BlobExtends(f, s, t);
    case Varint => VarintDecodeExtends(s, t, 0);
    case UVarint => VarintDecodeExtends(s, t, 0);
    case SVarint => VarintDecodeExtends(s, t, 0);
    case Submessage =>
  }

  lemma BlobExtends(f: Field, s: Bytes, t: Bytes)
    requires DecBlob(f, s).Ok?
    ensures DecBlob(f, s + t) == DecBlob(f, s)
  {
    Varint32Extends(s, t, 0, false);
    var Ok(size, k) := DecVarint32(s);
    if |s| - k >= size { assert (s + t)[k..k + size] == s[k..k + size]; }
  }

  lemma BasicExtends(f: Field, wireType: nat, s: Bytes, t: Bytes, prior: Value, init: bool)
    requires DecBasic(f, wireType, s, prior, init).Ok?
    ensures DecBasic(f, wireType, s + t, prior, init) == DecBasic(f, wireType, s, prior, init)
  {
    if f.ltype == Submessage { DelimitedExtends(s, t); } else { LeafExtends(f, wireType, s, t); }
  }

  lemma RepeatedExtends(f: Field, wireType: nat, s: Bytes, t: Bytes, items: seq<Value>, spare: seq<Value>, size: nat)
    requires size <= |items| && DecRepeated(f, wireType, s, items, spare, size).Ok?
    ensures DecRepeated(f, wireType, s + t, items, spare, size) == DecRepeated(f, wireType, s, items, spare, size)
  {
    if wireType == WT_STRING && f.Packable() {
      DelimitedExtends(s, t);
    } else {
      BasicExtends(f, wireType, s, t, ElementMemory(f, items, spare, size), true);
    }
  }

  lemma StaticExtends(f: Field, wireType: nat, s: Bytes, t: Bytes, slot: Slot, size: nat)
    requires DecStatic(f, wireType, s, slot, size).Ok?
    ensures DecStatic(f, wireType, s + t, slot, size) == DecStatic(f, wireType, s, slot, size)
  {
    match f.htype
    case Required => BasicExtends(f, wireType, s, t, slot.v, false);
    case Optional => BasicExtends(f, wireType, s, t, slot.v, false);
    case Repeated => RepeatedExtends(f, wireType, s, t, slot.items, slot.spare, size);
    case OneOf =>
      BasicExtends(f, wireType, s, t,
        if f.ltype == Submessage && slot.which != f.tag then VMsg(FreshSub(f.sub)) else slot.v, false);
  }

  lemma FieldExtends(d: MsgDesc, i: nat, wireType: nat, s: Bytes, t: Bytes, st: State)
    requires i < |d.fields| && DecField(d, i, wireType, s, st).Ok?
    ensures DecField(d, i, wireType, s + t, st) == DecField(d, i, wireType, s, st)
  {
    var f := d.fields[i];
    var slot := st.m.slots[f.slot];
    var fc := if f.FixedCount() then Track(st.fc, i, f.arraySize).value else st.fc;
    StaticExtends(f, wireType, s, t, slot, CountOf(f, slot, fc));
  }

  lemma StepExtends(d: MsgDesc, s: Bytes, t: Bytes, st: State)
    requires DecStep(d, s, st).Ok?
    ensures DecStep(d, s + t, st) == DecStep(d, s, st)
  {
    TagExtends(s, t);
    var Ok(key, k) := DecTag(s);
    assert (s + t)[k..] == s[k..] + t;
    var found := FindTag(d, key.tag, 0);
    if found.None? {
      SkipExtends(s[k..], t, key.wireType);
    } else {
      FieldExtends(d, found.value, key.wireType, s[k..], t, st);
    }
  }

  /** Running the loop over a ++ b is running it over a and then over b. */
  lemma {:induction false} LoopConcat(d: MsgDesc, a: Bytes, b: Bytes, st: State)
    requires DecLoop(d, a, st).Some?
    ensures DecLoop(d, a + b, st) == DecLoop(d, b, DecLoop(d, a, st).value)
    decreases |a|
  {
    if a == [] {
      assert a + b == b;
    } else {
      StepExtends(d, a, b, st);
      var Ok(st1, n) := DecStep(d, a, st);
      assert (a + b)[n..] == a[n..] + b;
      LoopConcat(d, a[n..], b, st1);
    }
  }

  /* ------------------------------------------------------------------ merging */

  ghost predicate NoFixedCount(d: MsgDesc)
  {
    forall i :: 0 <= i < |d.fields| ==> !d.fields[i].FixedCount()
  }

  lemma StepSeen(d: MsgDesc, s: Bytes, st: State, more: set<nat>)
    requires DecStep(d, s, st).Ok?
    ensures DecStep(d, s, st.(seen := st.seen + more)) ==
            var Ok(r, n) := DecStep(d, s, st); Ok(r.(seen := r.seen + more), n)
  {
    var Ok(key, k) := DecTag(s);
    var found := FindTag(d, key.tag, 0);
    if found.Some? && d.fields[found.value].htype == Required {
      var b := d.RequiredBefore(found.value);
      assert st.seen + {b} + more == st.seen + more + {b};
    }
  }

  /** Required fields seen earlier do not influence the loop. */
  lemma {:induction false} LoopSeen(d: MsgDesc, s: Bytes, st: State, more: set<nat>)
    requires DecLoop(d, s, st).Some?
    ensures var r := DecLoop(d, s, st).value;
            DecLoop(d, s, st.(seen := st.seen + more)) == Some(r.(seen := r.seen + more))
    decreases |s|
  {
    if s == [] {
    } else {
      StepSeen(d, s, st, more);
      var Ok(st1, n) := DecStep(d, s, st);
      LoopSeen(d, s[n..], st1, more);
    }
  }

  lemma StepUncounted(d: MsgDesc, s: Bytes, st: State)
    requires NoFixedCount(d) && DecStep(d, s, st).Ok?
    ensures DecStep(d, s, st).value.fc == st.fc
  {
    var Ok(key, k) := DecTag(s);
    var found := FindTag(d, key.tag, 0);
    if found.Some? {
      var f := d.fields[found.value];
      assert !f.FixedCount();
      assert DecField(d, found.value, key.wireType, s[k..], st).value.fc == st.fc;
    }
  }

  lemma {:induction false} LoopUncounted(d: MsgDesc, s: Bytes, st: State)
    requires NoFixedCount(d) && st.fc.NoField? && DecLoop(d, s, st).Some?
    ensures DecLoop(d, s, st).value.fc.NoField?
    decreases |s|
  {
    if s == [] {
    } else {
      var Ok(st1, n) := DecStep(d, s, st);
      StepUncounted(d, s, st);
      LoopUncounted(d, s[n..], st1);
    }
  }

  /**
   Merge law: decoding b with PB_DECODE_NOINIT on top of the struct decoded from a
   is decoding the concatenation.
   */
  lemma MergeLaw(d: MsgDesc, a: Bytes, b: Bytes, m: Msg, init: bool, d1: Msg, d2: Msg)
    requires NoFixedCount(d)
    requires DecMsg(d, a, m, init) == Some(d1)
    requires DecMsg(d, b, d1, false) == Some(d2)
    ensures DecMsg(d, a + b, m, init) == Some(d2)
  {
    var st1 := DecLoop(d, a, Start(d, m, init)).value;
    LoopConcat(d, a, b, Start(d, m, init));
    LoopUncounted(d, a, Start(d, m, init));
    LoopSeen(d, b, Start(d, d1, false), st1.seen);
    assert Start(d, d1, false).seen + st1.seen == st1.seen;
    assert st1 == Start(d, d1, false).(seen := st1.seen);
  }

  /* ------------------------------------------------------------ unknown fields */

  /** u is one complete field whose tag the descriptor does not know. */
  ghost predicate UnknownField(d: MsgDesc, u: Bytes)
  {
    && DecTag(u).Ok?
    && var Ok(key, k) := DecTag(u);
       && key.tag != 0 && FindTag(d, key.tag, 0).None?
       && SkipField(u[k..], key.wireType) == Ok((), |u| - k)
  }

  lemma UnknownStep(d: MsgDesc, u: Bytes, b: Bytes, st: State)
    requires UnknownField(d, u)
    ensures DecLoop(d, u + b, st) == DecLoop(d, b, st)
  {
    assert DecStep(d, u, st) == Ok(st, |u|);
    StepExtends(d, u, b, st);
    assert (u + b)[|u|..] == b;
  }

  /**
   An unknown field at any top-level boundary is invisible: whatever the rest holds,
   valid or not, the outcome is the same, also between elements of a fixed-count array.
   */
  lemma UnknownFieldIgnored(d: MsgDesc, a: Bytes, u: Bytes, b: Bytes, m: Msg, init: bool)
    requires DecLoop(d, a, Start(d, m, init)).Some?
    requires UnknownField(d, u)
    ensures DecMsg(d, a + u + b, m, init) == DecMsg(d, a + b, m, init)
  {
    assert a + u + b == a + (u + b);
    LoopConcat(d, a, u + b, Start(d, m, init));
    LoopConcat(d, a, b, Start(d, m, init));
    UnknownStep(d, u, b, DecLoop(d, a, Start(d, m, init)).value);
  }
}
