/**
 The stream-reading code of pb_decode.c, proved against the parsers of `Decoding`:
 same verdict on every input, same struct, same bytes consumed.
 */
module Decoder {
  import opened Wire
  import opened Schema
  import opened Encoding
  import opened Decoding
  import opened RoundTrip
  import opened Typing
  import opened InputStream
  import opened FieldsSeen
  import FieldIter

  /* ------------------------------------------------------------ leaf items */

  /** pb_dec_varint */
  method DecodeInt(stream: IStream, f: Field) returns (ok: bool, v: Value)
    requires stream.Valid()
    modifies stream
    ensures stream.Valid() && stream.state + stream.bytesLeft == old(stream.state + stream.bytesLeft)
    ensures ok <==> DecInt(f, old(stream.Rest())).Ok?
    ensures ok ==> v == DecInt(f, old(stream.Rest())).value && stream.Consumed(DecInt(f, old(stream.Rest())).used)
  {
    var value;
    ok, value := stream.DecodeVarint();
    v := VInt(0);
    if !ok || f.dataSize !in {1, 2, 4, 8} {
      return false, v;
    }
    var range := 2 * Signed(f.dataSize);
    if f.ltype == UVarint {
      var clamped := value % range;
      return clamped == value, VInt(value);
    } else {
      var svalue;
      if f.ltype == SVarint {
        svalue := UnZigZag(value);
      } else if f.dataSize == 8 {
        svalue := ToSigned(value, U64);
      } else {
        svalue := ToSigned(value, U32);
      }
      var clamped := ToSigned(svalue, range);
      return clamped == svalue, VInt(svalue);
    }
  }

  /** pb_dec_bytes, pb_dec_string and pb_dec_fixed_length_bytes */
  method DecodeBlob(stream: IStream, f: Field) returns (ok: bool, v: Value)
    requires stream.Valid() && f.ltype in {BytesArray, String, FixedBytes}
    modifies stream
    ensures stream.Valid() && stream.state + stream.bytesLeft == old(stream.state + stream.bytesLeft)
    ensures ok <==> DecBlob(f, old(stream.Rest())).Ok?
    ensures ok ==> v == DecBlob(f, old(stream.Rest())).value && stream.Consumed(DecBlob(f, old(stream.Rest())).used)
  {
    hide DecVarint32;
    ghost var s := stream.Rest();
    var size, data;
    ok, size := stream.DecodeVarint32();
    v := VInt(0);
    if !ok {
      return false, v;
    }
    ghost var k := DecVarint32(s).used;
    assert stream.Rest() == s[k..];
    if f.ltype == FixedBytes {
      if size > 0xFFFF {
        return false, v;
      }
      if size == 0 {
        return true, VBytes(seq(f.dataSize, _ => 0));
      }
      if size != f.dataSize {
        return false, v;
      }
    } else if f.ltype == BytesArray {
      if size > 0xFFFF || size + 2 > f.dataSize {
        return false, v;
      }
    } else {
      if size == U32 - 1 || size + 1 > f.dataSize {
        return false, v;
      }
    }
    ok, data := stream.Read(size);
    v := VBytes(data);
    assert ok ==> data == s[k..][..size] == s[k..k + size];
  }

  /** decode_basic_field for everything but submessages */
  method DecodeLeaf(stream: IStream, wireType: nat, f: Field) returns (ok: bool, v: Value)
    requires stream.Valid() && f.ltype != Submessage
    modifies stream
    ensures stream.Valid() && stream.state + stream.bytesLeft == old(stream.state + stream.bytesLeft)
    ensures ok <==> DecLeaf(f, wireType, old(stream.Rest())).Ok?
    ensures ok ==> v == DecLeaf(f, wireType, old(stream.Rest())).value
                   && stream.Consumed(DecLeaf(f, wireType, old(stream.Rest())).used)
  {
    var n;
    v := VInt(0);
    match f.ltype
    case Bool =>
      if wireType != WT_VARINT && wireType != WT_PACKED {
        return false, v;
      }
      ok, n := stream.DecodeVarint32();
      v := VInt(if n != 0 then 1 else 0);
    case Fixed32 =>
      if wireType != WT_32BIT && wireType != WT_PACKED {
        return false, v;
      }
      ok, n := stream.DecodeFixed(4);
      v := VInt(n);
    case Fixed64 =>
      if wireType != WT_64BIT && wireType != WT_PACKED {
        return false, v;
      }
      ok, n := stream.DecodeFixed(8);
      v := VInt(n);
    case BytesArray =>
      if wireType != WT_STRING {
        return false, v;
      }
      ok, v := DecodeBlob(stream, f);
    case String =>
      if wireType != WT_STRING {
        return false, v;
      }
      ok, v := DecodeBlob(stream, f);
    case FixedBytes =>
      if wireType != WT_STRING {
        return false, v;
      }
      ok, v := DecodeBlob(stream, f);
    case Varint =>
      if wireType != WT_VARINT && wireType != WT_PACKED {
        return false, v;
      }
      ok, v := DecodeInt(stream, f);
    case UVarint =>
      if wireType != WT_VARINT && wireType != WT_PACKED {
        return false, v;
      }
      ok, v := DecodeInt(stream, f);
    case SVarint =>
      if wireType != WT_VARINT && wireType != WT_PACKED {
        return false, v;
      }
      ok, v := DecodeInt(stream, f);
  }

  /* --------------------------------------------------------------- fields */

  /** decode_basic_field */
  method DecodeBasicField(stream: IStream, wireType: nat, f: Field, prior: Value, init: bool, ghost nslots: nat)
    returns (ok: bool, v: Value)
    requires stream.Valid() && WfField(f, nslots)
    requires f.ltype == Submessage ==> ValueFits(f, prior) && FieldIter.WfTables(f.sub)
    modifies stream
    ensures stream.Valid() && stream.state + stream.bytesLeft <= old(stream.state + stream.bytesLeft)
    ensures ok <==> DecBasic(f, wireType, old(stream.Rest()), prior, init).Ok?
    ensures ok ==> v == DecBasic(f, wireType, old(stream.Rest()), prior, init).value
                   && stream.Consumed(DecBasic(f, wireType, old(stream.Rest()), prior, init).used)
    decreases stream.bytesLeft, 1
  {
    if f.ltype != Submessage {
      ok, v := DecodeLeaf(stream, wireType, f);
    } else {
      if wireType != WT_STRING {
        return false, prior;
      }
      var m;
      ok, m := DecodeSubmessage(stream, f.sub, prior.m, init);
      v := VMsg(m);
    }
  }

  /** pb_dec_submessage: the content is decoded from a substream that is then closed. */
  method DecodeSubmessage(stream: IStream, d: MsgDesc, prior: Msg, init: bool) returns (ok: bool, m: Msg)
    requires stream.Valid() && WfDesc(d) && FieldIter.WfTables(d) && MsgFits(d, prior)
    modifies stream
    ensures stream.Valid() && stream.state + stream.bytesLeft <= old(stream.state + stream.bytesLeft)
    ensures var r := DecDelimited(old(stream.Rest()));
            && (ok <==> r.Ok? && DecMsg(d, r.value, prior, init).Some?)
            && (ok ==> m == DecMsg(d, r.value, prior, init).value && stream.Consumed(r.used))
    decreases stream.bytesLeft, 0
  {
    hide DecMsg, WfDesc, FieldIter.WfTables, MsgFits;
    var sub;
    ok, sub := stream.MakeStringSubstream();
    if !ok {
      return false, prior;
    }
    var status;
    status, m := DecodeInner(sub, d, prior, init);
    ok := stream.CloseStringSubstream(sub);
    return ok && status, m;
  }

  /** The packed branch of decode_static_field. */
  method DecodePacked(stream: IStream, f: Field, items0: seq<Value>, size0: nat)
    returns (ok: bool, items: seq<Value>, size: nat)
    requires stream.Valid() && f.Packable() && size0 <= |items0|
    modifies stream
    ensures stream.Valid() && stream.state + stream.bytesLeft <= old(stream.state + stream.bytesLeft)
    ensures var r := DecDelimited(old(stream.Rest()));
            && (ok <==> r.Ok? && DecPacked(f, r.value, items0, size0).Some?)
            && (ok ==> Filled(items, size) == DecPacked(f, r.value, items0, size0).value && stream.Consumed(r.used))
  {
    items, size := items0, size0;
    var sub;
    ok, sub := stream.MakeStringSubstream();
    if !ok {
      return false, items, size;
    }
    var status;
    status, items, size := DecodePackedItems(sub, f, items0, size0);
    if sub.bytesLeft != 0 {
      return false, items, size;
    }
    ok := stream.CloseStringSubstream(sub);
    return ok && status, items, size;
  }

  /** The loop over the substream of a packed array. */
  method DecodePackedItems(sub: IStream, f: Field, items0: seq<Value>, size0: nat)
    returns (status: bool, items: seq<Value>, size: nat)
    requires sub.Valid() && f.Packable() && size0 <= |items0|
    modifies sub
    ensures sub.Valid() && sub.state + sub.bytesLeft == old(sub.state + sub.bytesLeft)
    ensures var r := DecPacked(f, old(sub.Rest()), items0, size0);
            && (status && sub.bytesLeft == 0 <==> r.Some?)
            && (status && sub.bytesLeft == 0 ==> Filled(items, size) == r.value)
  {
    hide DecLeaf;
    items, size := items0, size0;
    status := true;
    while sub.bytesLeft > 0 && size < f.arraySize
      invariant sub.Valid() && size <= |items| && status
      invariant sub.state + sub.bytesLeft == old(sub.state + sub.bytesLeft)
      invariant DecPacked(f, old(sub.Rest()), items0, size0) == DecPacked(f, sub.Rest(), items, size)
      decreases sub.bytesLeft
    {
      ghost var here := sub.Rest();
      var v;
      status, v := DecodeLeaf(sub, WT_PACKED, f);
      if !status {
        break;
      }
      assert sub.Rest() == here[DecLeaf(f, WT_PACKED, here).used..];
      items := PutItem(items, size, v);
      size := size + 1;
    }
  }

  /** The repeated branches of decode_static_field. */
  method DecodeRepeated(stream: IStream, wireType: nat, f: Field, items0: seq<Value>, spare0: seq<Value>, size0: nat,
                        ghost nslots: nat)
    returns (ok: bool, items: seq<Value>, size: nat)
    requires stream.Valid() && WfField(f, nslots) && size0 <= |items0|
    requires forall k :: 0 <= k < |items0| ==> ValueFits(f, items0[k])
    requires forall k :: 0 <= k < |spare0| ==> ValueFits(f, spare0[k])
    requires f.ltype == Submessage ==> FieldIter.WfTables(f.sub)
    modifies stream
    ensures stream.Valid() && stream.state + stream.bytesLeft <= old(stream.state + stream.bytesLeft)
    ensures var r := DecRepeated(f, wireType, old(stream.Rest()), items0, spare0, size0);
            && (ok <==> r.Ok?)
            && (ok ==> r.value == Filled(items, size) && stream.Consumed(r.used))
    decreases stream.bytesLeft, 2
  {
    hide WfField, ValueFits, DecBasic, DecPacked;
    if wireType == WT_STRING && f.Packable() {
      ok, items, size := DecodePacked(stream, f, items0, size0);
    } else {
      items, size := items0, size0;
      if size >= f.arraySize {
        return false, items, size;
      }
      ZeroValueFits(f, nslots);
      var v;
      ok, v := DecodeBasicField(stream, wireType, f, ElementMemory(f, items, spare0, size), true, nslots);
      if ok {
        items := PutItem(items, size, v);
        size := size + 1;
      }
    }
  }

  /** decode_static_field */
  method DecodeStaticField(stream: IStream, wireType: nat, f: Field, slot0: Slot, size0: nat, ghost nslots: nat)
    returns (ok: bool, slot: Slot, size: nat)
    requires stream.Valid() && WfField(f, nslots) && SlotFits(f, slot0)
    requires f.htype == Repeated ==> size0 <= |slot0.items|
    requires f.ltype == Submessage ==> FieldIter.WfTables(f.sub)
    modifies stream
    ensures stream.Valid() && stream.state + stream.bytesLeft <= old(stream.state + stream.bytesLeft)
    ensures var r := DecStatic(f, wireType, old(stream.Rest()), slot0, size0);
            && (ok <==> r.Ok?)
            && (ok ==> r.value == SlotResult(slot, size) && stream.Consumed(r.used))
    decreases stream.bytesLeft, 3
  {
    hide WfField, ValueFits, DecBasic, DecRepeated;
    slot, size := slot0, size0;
    var v;
    match f.htype
    case Required =>
      ok, v := DecodeBasicField(stream, wireType, f, slot0.v, false, nslots);
      slot := Plain(v);
    case Optional =>
      ok, v := DecodeBasicField(stream, wireType, f, slot0.v, false, nslots);
      slot := if f.HasSize() then Opt(true, v) else Plain(v);
    case Repeated =>
      var items;
      ok, items, size := DecodeRepeated(stream, wireType, f, slot0.items, slot0.spare, size0, nslots);
      if ok { slot := Many(items, Unused(slot0.spare, |items| - |slot0.items|)); }
    case OneOf =>
      var prior := OneOfMemory(f, slot0, nslots);
      ok, v := DecodeBasicField(stream, wireType, f, prior, false, nslots);
      slot := Choice(f.tag, v);
  }

  /** A newly selected submessage member starts from zeroed and defaulted memory. */
  method OneOfMemory(f: Field, slot0: Slot, ghost nslots: nat) returns (prior: Value)
    requires WfField(f, nslots) && SlotFits(f, slot0) && f.htype == OneOf
    requires f.ltype == Submessage ==> FieldIter.WfTables(f.sub)
    ensures prior == if f.ltype == Submessage && slot0.which != f.tag then VMsg(FreshSub(f.sub)) else slot0.v
    ensures f.ltype == Submessage ==> ValueFits(f, prior)
  {
    prior := slot0.v;
    if f.ltype == Submessage && slot0.which != f.tag {
      ZeroFits(f.sub);
      FreshSubIsClean(f.sub);
      prior := VMsg(ZeroMsg(f.sub));
      if f.sub.NeedsDefaults() {
        var iter := new FieldIter.Iterator(f.sub);
        var done, m := SetToDefaults(iter, f.sub, ZeroMsg(f.sub));
        prior := VMsg(m);
      }
      SubValue(f, prior);
    }
  }

  lemma SubDescriptor(f: Field, nslots: nat)
    requires WfField(f, nslots) && f.ltype == Submessage
    ensures WfDesc(f.sub)
  {
  }

  lemma SubValue(f: Field, v: Value)
    requires f.ltype == Submessage && v.VMsg? && MsgFits(f.sub, v.m)
    ensures ValueFits(f, v)
  {
  }

  /* ------------------------------------------------------------- defaults */

  function DefaultEntry(f: Field): Bytes
    requires f.dflt.Some?
  {
    var b := EncBasic(f, f.dflt.value);
    if b.Some? then b.value else []
  }

  /** The descriptor's default_value: its defaults in field order, then a zero byte. */
  function DefaultBytes(d: MsgDesc, i: nat): Bytes
    requires i <= |d.fields|
    decreases |d.fields| - i
  {
    if i == |d.fields| then [0]
    else if d.fields[i].dflt.Some? then
      DefaultEntry(d.fields[i]) + DefaultBytes(d, i + 1)
    else DefaultBytes(d, i + 1)
  }

  /** The first field from i on that has a default. */
  ghost function NextDefault(d: MsgDesc, i: nat): (j: nat)
    requires i <= |d.fields|
    ensures i <= j <= |d.fields| && (j < |d.fields| ==> d.fields[j].dflt.Some?)
    decreases |d.fields| - i
  {
    if i == |d.fields| || d.fields[i].dflt.Some? then i else NextDefault(d, i + 1)
  }

  /** A key has been read: that of the next default, or the terminator. */
  ghost predicate Pending(d: MsgDesc, i: nat, tag: nat, wireType: nat, rest: Bytes)
    requires i <= |d.fields|
  {
    var j := NextDefault(d, i);
    if j == |d.fields| then tag == 0
    else
      var f := d.fields[j];
      && tag == f.tag && wireType == WireTypeOf(f.ltype) && EncData(f, f.dflt.value).Some?
      && rest == EncData(f, f.dflt.value).value + DefaultBytes(d, j + 1)
  }

  lemma {:induction false} DefaultBytesAt(d: MsgDesc, i: nat)
    requires i <= |d.fields|
    ensures DefaultBytes(d, i) == DefaultBytes(d, NextDefault(d, i))
    decreases |d.fields| - i
  {
    if i >= |d.fields| || d.fields[i].dflt.Some? {
    } else {
      DefaultBytesAt(d, i + 1);
    }
  }

  lemma DefaultEncodes(f: Field, nslots: nat)
    requires WfField(f, nslots) && f.dflt.Some?
    ensures EncData(f, f.dflt.value).Some?
    ensures DefaultEntry(f) == EncTag(f.tag, WireTypeOf(f.ltype)) + EncData(f, f.dflt.value).value
  {
  }

  lemma ReadPending(d: MsgDesc, i: nat)
    requires WfDesc(d) && i <= |d.fields|
    ensures var r := DecTag(DefaultBytes(d, i));
            && r.Ok?
            && Pending(d, i, r.value.tag, r.value.wireType, DefaultBytes(d, i)[r.used..])
  {
    var j := NextDefault(d, i);
    DefaultBytesAt(d, i);
    if j == |d.fields| {
      assert DefaultBytes(d, i) == [0];
      assert DecVarint32([0]) == Ok(0, 1);
    } else {
      var f := d.fields[j];
      assert WfField(f, d.nslots);
      DefaultEncodes(f, d.nslots);
      var key, payload, tail := EncTag(f.tag, WireTypeOf(f.ltype)), EncData(f, f.dflt.value).value, DefaultBytes(d,
          j + 1);
      assert DefaultBytes(d, i) == key + (payload + tail);
      TagRoundTrip(f.tag, WireTypeOf(f.ltype), payload + tail);
      assert DefaultBytes(d, i)[|key|..] == payload + tail;
    }
  }

  /** The value of a default survives its encoding. */
  lemma DefaultDecodes(f: Field, nslots: nat, tail: Bytes)
    requires WfField(f, nslots) && f.dflt.Some?
    ensures EncData(f, f.dflt.value).Some?
    ensures var b := EncData(f, f.dflt.value).value;
            DecLeaf(f, WireTypeOf(f.ltype), b + tail) == Ok(f.dflt.value, |b|)
  {
    DefaultEncodes(f, nslots);
    LeafRoundTrip(f, nslots, f.dflt.value, WireTypeOf(f.ltype), tail);
  }

  /** pb_field_set_to_default for a static field: cleared, before any default is read. */
  ghost function Cleared(f: Field, s: Slot): Slot
  {
    if f.dflt.None? then DefaultSlot(f, s)
    else if f.HasSize() then Opt(false, ZeroValue(f)) else Plain(ZeroValue(f))
  }

  method FieldSetToDefault(iter: FieldIter.Iterator, f: Field, s: Slot, ghost nslots: nat)
    returns (ok: bool, slot: Slot)
    requires iter.Valid() && iter.index < |iter.desc.fields| && iter.desc.fields[iter.index] == f
    requires WfField(f, nslots) && SlotFits(f, s)
    requires f.ltype == Submessage ==> FieldIter.WfTables(f.sub)
    modifies iter`arraySize
    ensures iter.Positioned() && iter.tag == f.tag
    ensures iter.pSize == (if f.sizeOffset != 0 then FieldIter.Member
                           else if f.htype == Repeated then FieldIter.OwnArraySize else FieldIter.NoSize)
    ensures ok && slot == Cleared(f, s)
    decreases f
  {
    hide ValueFits;
    slot := s;
    if f.htype == Repeated {
      if iter.pSize == FieldIter.OwnArraySize {
        iter.arraySize := 0;
      } else {
        slot := Many([], Elements(s));
      }
      return true, slot;
    } else if f.htype == OneOf {
      return true, Choice(0, VInt(0));
    }
    var v := ZeroValue(f);
    if f.ltype == Submessage && f.sub.NeedsDefaults() {
      SubDescriptor(f, nslots);
      SubFits(f, SlotValue(s));
      var submsgIter := new FieldIter.Iterator(f.sub);
      var m;
      ok, m := SetToDefaults(submsgIter, f.sub, SlotValue(s).m);
      if !ok {
        return false, slot;
      }
      v := VMsg(m);
    }
    slot := if f.HasSize() then Opt(false, v) else Plain(v);
    assert f.dflt.None? ==> v == DefaultValue(f, SlotValue(s));
    return true, slot;
  }

  lemma SubFits(f: Field, v: Value)
    requires f.ltype == Submessage && ValueFits(f, v)
    ensures v.VMsg? && MsgFits(f.sub, v.m)
  {
  }

  /** decode_field on the default stream: a required or optional leaf. */
  method DecodeDefault(defstream: IStream, wireType: nat, f: Field, slot0: Slot) returns (ok: bool, slot: Slot)
    requires defstream.Valid() && f.ltype != Submessage && f.htype in {Required, Optional}
    modifies defstream
    ensures defstream.Valid()
    ensures ok <==> DecLeaf(f, wireType, old(defstream.Rest())).Ok?
    ensures ok ==> defstream.Consumed(DecLeaf(f, wireType, old(defstream.Rest())).used)
    ensures ok ==> var v := DecLeaf(f, wireType, old(defstream.Rest())).value;
                   slot == if f.HasSize() then Opt(true, v) else Plain(v)
  {
    var v;
    ok, v := DecodeLeaf(defstream, wireType, f);
    slot := if f.HasSize() then Opt(true, v) else Plain(v);
  }

  /**
   pb_message_set_to_defaults: one pass over the fields merged with one pass over the
   encoded defaults. It never fails, and the iterator is back at field 0.
   */
  method SetToDefaults(iter: FieldIter.Iterator, d: MsgDesc, m0: Msg) returns (ok: bool, m: Msg)
    requires iter.Valid() && iter.desc == d && iter.index == 0 && |d.fields| > 0
    requires WfDesc(d) && FieldIter.WfTables(d) && MsgFits(d, m0)
    modifies iter
    ensures iter.Valid() && iter.index == 0
    ensures ok && m == SetDefaults(d, m0)
    decreases d
  {
    hide FieldIter.Iterator.Valid, FieldIter.Iterator.Positioned, FieldIter.WfInfo, WfField, SlotFits;
    hide Pending, NextDefault, DefaultBytes, DecLeaf, DecTag, DefaultsFrom, SetDefaults, WfDesc, FieldIter.WfTables,
        MsgFits;
    DefaultsEnds(d, m0);
    m := m0;
    var bytes := DefaultBytes(d, 0);
    var defbuf := new Byte[|bytes|](i requires 0 <= i < |bytes| => bytes[i]);
    assert defbuf[..] == bytes;
    var defstream := new IStream(defbuf, 0, |bytes|);
    assert defstream.Rest() == bytes;
    var tag, wireType, eof := 0, WT_VARINT, false;
    if d.HasDefaults() {
      ReadPending(d, 0);
      ok, wireType, tag, eof := defstream.DecodeTag();
      if !ok {
        return false, m;
      }
    } else {
      NoPending(d, 0);
    }
    while true
      invariant fresh(defstream) && iter.Valid() && iter.desc == d && iter.index < |d.fields|
      invariant defstream.Valid() && Pending(d, iter.index, tag, wireType, defstream.Rest())
      invariant m == DefaultsFrom(d, m0, iter.index)
      decreases |d.fields| - iter.index
    {
      ok, m, tag, wireType := DefaultsForField(iter, defstream, d, m0, m, tag, wireType);
      if !ok {
        return false, m;
      }
      var more := iter.Next();
      if !more {
        break;
      }
    }
    return true, m;
  }

  /** The loop body of pb_message_set_to_defaults. */
  method DefaultsForField(iter: FieldIter.Iterator, defstream: IStream, d: MsgDesc, ghost m0: Msg, m1: Msg, tag0: nat,
      wireType0: nat)
    returns (ok: bool, m: Msg, tag: nat, wireType: nat)
    requires iter.Valid() && iter.desc == d && iter.index < |d.fields|
    requires WfDesc(d) && FieldIter.WfTables(d) && MsgFits(d, m0)
    requires defstream.Valid() && Pending(d, iter.index, tag0, wireType0, defstream.Rest())
    requires m1 == DefaultsFrom(d, m0, iter.index)
    modifies iter`arraySize, defstream
    ensures iter.Positioned() && defstream.Valid()
    ensures ok && m == DefaultsFrom(d, m0, iter.index + 1)
    ensures Pending(d, iter.index + 1, tag, wireType, defstream.Rest())
    decreases d, 0
  {
    hide FieldIter.Iterator.Valid, FieldIter.Iterator.Positioned, FieldIter.WfInfo, WfField, SlotFits;
    hide Pending, NextDefault, DefaultBytes, DecLeaf, DecTag, DefaultsFrom, SetDefaults, WfDesc, FieldIter.WfTables,
        MsgFits;
    ghost var i := iter.index;
    var f := d.fields[iter.index];
    m, tag, wireType := m1, tag0, wireType0;
    DefaultsStep(d, m0, i);
    PendingMatch(d, i, tag, wireType, defstream.Rest());
    var slot;
    ok, slot := FieldSetToDefault(iter, f, m.slots[f.slot], d.nslots);
    if !ok {
      return false, m, tag, wireType;
    }
    if tag != 0 && iter.tag == tag {
      label Found:
      ok, slot := DecodeDefault(defstream, wireType, f, slot);
      if !ok {
        return false, m, tag, wireType;
      }
      ReadPending(d, i + 1);
      ghost var rest := DefaultBytes(d, i + 1);
      assert defstream.Rest() == rest by {
        assert old@Found(defstream.Rest())[DecLeaf(f, wireType, old@Found(defstream.Rest())).used..] == rest;
      }
      var eof;
      ok, wireType, tag, eof := defstream.DecodeTag();
      if !ok {
        return false, m, tag, wireType;
      }
      if iter.pSize != FieldIter.NoSize {
        slot := slot.(has := false);
      }
    }
    m := PutSlot(m, f.slot, slot);
  }

  lemma DefaultsEnds(d: MsgDesc, m0: Msg)
    ensures DefaultsFrom(d, m0, 0) == m0 && SetDefaults(d, m0) == DefaultsFrom(d, m0, |d.fields|)
  {
  }

  lemma {:induction false} NoPending(d: MsgDesc, i: nat)
    requires i <= |d.fields| && !d.HasDefaults()
    ensures forall rest :: Pending(d, i, 0, WT_VARINT, rest)
    decreases |d.fields| - i
  {
    if i == |d.fields| {
    } else {
      NoPending(d, i + 1);
    }
  }

  /** What the loop needs at field i, and what it must leave there. */
  lemma DefaultsStep(d: MsgDesc, m0: Msg, i: nat)
    requires WfDesc(d) && FieldIter.WfTables(d) && MsgFits(d, m0) && i < |d.fields|
    ensures var f := d.fields[i]; var m := DefaultsFrom(d, m0, i);
            && WfField(f, d.nslots) && f.slot < |m.slots| && SlotFits(f, m.slots[f.slot])
            && (f.ltype == Submessage ==> FieldIter.WfTables(f.sub))
            && (f.dflt.Some? ==> f.ltype != Submessage && f.htype in {Required, Optional})
            && DefaultsFrom(d, m0, i + 1) == PutSlot(m, f.slot, DefaultSlot(f, m.slots[f.slot]))
            && (f.dflt.Some? ==>
                  DefaultSlot(f, m.slots[f.slot]) == if f.HasSize() then Opt(false, f.dflt.value)
                      else Plain(f.dflt.value))
  {
    DefaultsFromClean(d, m0, i);
    assert WfField(d.fields[i], d.nslots);
  }

  /** The pending key matches exactly when field i has a default. */
  lemma PendingMatch(d: MsgDesc, i: nat, tag: nat, wireType: nat, rest: Bytes)
    requires WfDesc(d) && i < |d.fields| && Pending(d, i, tag, wireType, rest)
    ensures var f := d.fields[i];
            if f.dflt.Some? then
              && tag == f.tag && tag != 0 && f.ltype != Submessage && EncData(f, f.dflt.value).Some?
              && var b := EncData(f, f.dflt.value).value;
                 DecLeaf(f, wireType, rest) == Ok(f.dflt.value, |b|) && rest[|b|..] == DefaultBytes(d, i + 1)
            else tag != f.tag && Pending(d, i + 1, tag, wireType, rest)
  {
    var f := d.fields[i];
    assert WfField(f, d.nslots);
    if f.dflt.Some? {
      DefaultDecodes(f, d.nslots, DefaultBytes(d, i + 1));
      var b := EncData(f, f.dflt.value).value;
      assert (b + DefaultBytes(d, i + 1))[|b|..] == DefaultBytes(d, i + 1);
    } else {
      var j := NextDefault(d, i);
      assert NextDefault(d, i + 1) == j;
      if j < |d.fields| { assert f.tag < d.fields[j].tag; }
    }
  }

  /* ------------------------------------------------------------- messages */

  /** The loop variables of pb_decode_inner as a State. */
  ghost function StateOf(m: Msg, fcField: nat, fcSize: nat, fcTotal: nat, seen: set<nat>): State
  {
    State(m, if fcField == 0xFFFF then NoField else Counting(fcField, fcSize, fcTotal), seen)
  }

  /** A found field is the one the specification finds. */
  lemma FoundIs(d: MsgDesc, tag: nat, found: bool, index: nat)
    requires WfDesc(d)
    requires found <==> exists i :: 0 <= i < |d.fields| && d.fields[i].tag == tag
    requires found ==> index < |d.fields| && d.fields[index].tag == tag
    ensures FindTag(d, tag, 0) == if found then Some(index) else None
  {
    if found { FindTagAt(d, index, 0); }
  }

  /** Unless told otherwise, pb_decode_inner first sets a message that has fields to its defaults. */
  method Begin(iter: FieldIter.Iterator, d: MsgDesc, dest: Msg, init: bool) returns (ok: bool, m: Msg)
    requires iter.Valid() && iter.desc == d && iter.index == 0
    requires WfDesc(d) && FieldIter.WfTables(d) && MsgFits(d, dest)
    modifies iter
    ensures iter.Valid() && ok && m == Start(d, dest, init).m && MsgFits(d, m)
  {
    StartsAt(d, dest, init);
    ok, m := true, dest;
    if |d.fields| > 0 && init {
      ok, m := SetToDefaults(iter, d, dest);
    }
  }

  lemma StartsUncounted(d: MsgDesc, dest: Msg, init: bool)
    ensures Start(d, dest, init) == StateOf(Start(d, dest, init).m, 0xFFFF, 0, 0, {})
    ensures Tracking(d, 0xFFFF, 0, 0) && Represents([0, 0], {})
  {
    NothingSeen();
  }

  /** The checks after the loop of pb_decode_inner. */
  method CheckComplete(d: MsgDesc, ghost m: Msg, fcField: nat, fcSize: nat, fcTotal: nat, bitfield: seq<nat>,
      ghost seen: set<nat>)
    returns (ok: bool)
    requires Represents(bitfield, seen) && OfFields(d, seen)
    ensures ok <==> Finished(d, StateOf(m, fcField, fcSize, fcTotal, seen))
    ensures StateOf(m, fcField, fcSize, fcTotal, seen).m == m
  {
    if fcField != 0xFFFF && fcSize != fcTotal {
      return false;
    }
    ok := AllRequiredSeen(d.RequiredBefore(|d.fields|), bitfield, seen);
  }

  /** The branch of pb_decode_inner for a key that no field has. */
  method SkipUnknown(stream: IStream, iter: FieldIter.Iterator, wireType: nat, extensionRangeStart0: nat)
    returns (ok: bool, extensionRangeStart: nat)
    requires stream.Valid() && iter.Valid()
    modifies stream, iter
    ensures stream.Valid() && stream.state + stream.bytesLeft == old(stream.state + stream.bytesLeft)
    ensures iter.Valid() && iter.index == old(iter.index)
    ensures ok <==> SkipField(old(stream.Rest()), wireType).Ok?
    ensures ok ==> var n := SkipField(old(stream.Rest()), wireType).used;
                   stream.Consumed(n) && stream.Rest() == old(stream.Rest())[n..]
  {
    extensionRangeStart := extensionRangeStart0;
    if extensionRangeStart == 0 {
      var found, _ := iter.FindExtension();
      FieldIter.NoExtensionFound(iter);
      extensionRangeStart := 0xFFFF_FFFF;
    }
    ok := stream.SkipOneField(wireType);
  }

  /** pb_decode_inner */
  method DecodeInner(stream: IStream, d: MsgDesc, dest: Msg, init: bool) returns (ok: bool, m: Msg)
    requires stream.Valid() && WfDesc(d) && FieldIter.WfTables(d) && MsgFits(d, dest)
    modifies stream
    ensures stream.Valid() && stream.state + stream.bytesLeft <= old(stream.state + stream.bytesLeft)
    ensures var r := DecMsg(d, old(stream.Rest()), dest, init);
            && (ok <==> r.Some?)
            && (ok ==> m == r.value && stream.Consumed(old(stream.bytesLeft)))
    decreases stream.bytesLeft, 6
  {
    hide FieldIter.Iterator.Valid, FieldIter.Iterator.Positioned, WfDesc, MsgFits, FieldIter.WfInfo, FieldIter.WfTables;
    hide DecMsg, DecLoop, Represents, SetDefaults, StateOf, Start, Finished, Tracking;
    var fixedCountField, fixedCountSize, fixedCountTotalSize := 0xFFFF, 0, 0;
    var bitfield: seq<nat> := [0, 0];
    var extensionRangeStart := 0;
    ghost var s := stream.Rest();
    ghost var seen: set<nat> := {};
    StartsUncounted(d, dest, init);
    Tables(d);
    MessageUnfold(d, s, dest, init);
    m := dest;
    var iter := new FieldIter.Iterator(d);
    ok, m := Begin(iter, d, dest, init);
    if !ok {
      return false, m;
    }
    ghost var whole := DecLoop(d, s, Start(d, dest, init));
    while stream.bytesLeft != 0
      invariant stream.Valid() && fresh(iter) && iter.Valid() && iter.desc == d
      invariant stream.state + stream.bytesLeft == old(stream.state + stream.bytesLeft)
      invariant stream.bytesLeft <= old(stream.bytesLeft)
      invariant MsgFits(d, m) && Represents(bitfield, seen)
            && Tracking(d, fixedCountField, fixedCountSize, fixedCountTotalSize)
      invariant OfFields(d, seen)
      invariant whole == DecLoop(d, stream.Rest(), StateOf(m, fixedCountField, fixedCountSize, fixedCountTotalSize,
            seen))
      decreases stream.bytesLeft
    {
      ok, m, fixedCountField, fixedCountSize, fixedCountTotalSize, bitfield, seen, extensionRangeStart :=
        DecodeOneField(stream, iter, m, fixedCountField, fixedCountSize, fixedCountTotalSize, bitfield, seen,
            extensionRangeStart);
      if !ok {
        return false, m;
      }
    }
    ghost var end := StateOf(m, fixedCountField, fixedCountSize, fixedCountTotalSize, seen);
    LoopEnds(d, end);
    assert stream.Rest() == [];
    ok := CheckComplete(d, m, fixedCountField, fixedCountSize, fixedCountTotalSize, bitfield, seen);
    return ok, m;
  }

  /** The loop body of pb_decode_inner: a key and what follows it. */
  method DecodeOneField(stream: IStream, iter: FieldIter.Iterator, m0: Msg, fcField0: nat, fcSize0: nat, fcTotal0: nat,
                        bitfield0: seq<nat>, ghost seen0: set<nat>, extensionRangeStart0: nat)
    returns (ok: bool, m: Msg, fcField: nat, fcSize: nat, fcTotal: nat,
             bitfield: seq<nat>, ghost seen: set<nat>, extensionRangeStart: nat)
    requires stream.Valid() && stream.bytesLeft > 0 && iter.Valid()
    requires WfDesc(iter.desc) && FieldIter.WfTables(iter.desc) && MsgFits(iter.desc, m0)
    requires Represents(bitfield0, seen0) && OfFields(iter.desc, seen0)
    requires Tracking(iter.desc, fcField0, fcSize0, fcTotal0)
    modifies stream, iter
    ensures stream.Valid() && stream.state + stream.bytesLeft <= old(stream.state + stream.bytesLeft)
    ensures var whole := DecLoop(iter.desc, old(stream.Rest()), StateOf(m0, fcField0, fcSize0, fcTotal0, seen0));
            if ok then whole == DecLoop(iter.desc, stream.Rest(), StateOf(m, fcField, fcSize, fcTotal, seen))
                else whole.None?
    ensures ok ==> stream.state + stream.bytesLeft == old(stream.state + stream.bytesLeft)
                   && stream.bytesLeft < old(stream.bytesLeft)
    ensures ok ==> iter.Valid() && MsgFits(iter.desc, m) && Represents(bitfield, seen)
                   && Tracking(iter.desc, fcField, fcSize, fcTotal)
    ensures ok ==> OfFields(iter.desc, seen)
    decreases stream.bytesLeft, 5
  {
    hide FieldIter.Iterator.Valid, FieldIter.Iterator.Positioned, WfDesc, MsgFits, FieldIter.WfInfo, FieldIter.WfTables;
    hide DecStep, DecLoop, DecField, FindTag, SkipField, DecTag, Represents, SetDefaults, StateOf, Start, Tracking;
    hide MsgDesc.RequiredBefore, OfFields, IStream.Rest;
    var d := iter.desc;
    ghost var st := StateOf(m0, fcField0, fcSize0, fcTotal0, seen0);
    ghost var here := stream.Rest();
    m, fcField, fcSize, fcTotal, bitfield, seen, extensionRangeStart :=
      m0, fcField0, fcSize0, fcTotal0, bitfield0, seen0, extensionRangeStart0;
    var wireType, tag, eof;
    ok, wireType, tag, eof := stream.DecodeTag();
    if !ok {
      LoopStops(d, here, st);
      return eof, m, fcField, fcSize, fcTotal, bitfield, seen, extensionRangeStart;
    }
    if tag == 0 {
      LoopStops(d, here, st);
      return false, m, fcField, fcSize, fcTotal, bitfield, seen, extensionRangeStart;
    }
    var found := iter.Find(tag);
    FoundIs(d, tag, found, iter.index);
    ghost var rest := here[DecTag(here).used..];
    if !found {
      LoopSkips(d, here, st, tag, wireType, rest);
      ok, extensionRangeStart := SkipUnknown(stream, iter, wireType, extensionRangeStart);
    } else {
      LoopDecodes(d, here, st, tag, wireType, rest, iter.index);
      ok, m, fcField, fcSize, fcTotal, bitfield, seen :=
        DecodeFoundField(stream, iter, wireType, m, fcField, fcSize, fcTotal, bitfield, seen);
    }
  }

  lemma StartsAt(d: MsgDesc, dest: Msg, init: bool)
    requires WfDesc(d) && MsgFits(d, dest)
    ensures MsgFits(d, Start(d, dest, init).m)
    ensures |d.fields| == 0 ==> Start(d, dest, init).m == dest
  {
    DefaultsAreClean(d, dest);
    assert SetDefaults(d, dest) == DefaultsFrom(d, dest, |d.fields|);
  }

  /** One pass of the specification's loop: a bad key, an unknown field, a known field. */
  lemma LoopStops(d: MsgDesc, s: Bytes, st: State)
    requires s != [] && (DecTag(s).Err? || DecTag(s).value.tag == 0)
    ensures DecLoop(d, s, st).None?
  {
    hide DecTag, FindTag, SkipField, DecField;
  }

  lemma LoopSkips(d: MsgDesc, s: Bytes, st: State, tag: nat, wireType: nat, rest: Bytes)
    requires DecTag(s).Ok? && DecTag(s).value == Key(tag, wireType) && tag != 0 && rest == s[DecTag(s).used..]
    requires FindTag(d, tag, 0).None?
    ensures var skipped := SkipField(rest, wireType);
            if skipped.Err? then DecLoop(d, s, st).None? else DecLoop(d, s, st) == DecLoop(d, rest[skipped.used..], st)
  {
    hide DecTag, FindTag, SkipField, DecField;
    var k, skipped := DecTag(s).used, SkipField(rest, wireType);
    if skipped.Ok? { assert s[k + skipped.used..] == rest[skipped.used..]; }
  }

  lemma LoopDecodes(d: MsgDesc, s: Bytes, st: State, tag: nat, wireType: nat, rest: Bytes, i: nat)
    requires DecTag(s).Ok? && DecTag(s).value == Key(tag, wireType) && tag != 0 && rest == s[DecTag(s).used..]
    requires i < |d.fields| && FindTag(d, tag, 0) == Some(i)
    ensures var done := DecField(d, i, wireType, rest, st);
            if done.Err? then DecLoop(d, s, st).None?
                else DecLoop(d, s, st) == DecLoop(d, rest[done.used..], done.value)
  {
    hide DecTag, FindTag, SkipField, DecField;
    var k, done := DecTag(s).used, DecField(d, i, wireType, rest, st);
    if done.Ok? { assert s[k + done.used..] == rest[done.used..]; }
  }

  lemma MessageUnfold(d: MsgDesc, s: Bytes, dest: Msg, init: bool)
    ensures DecMsg(d, s, dest, init) ==
            match DecLoop(d, s, Start(d, dest, init))
            case None => None
            case Some(st) => if Finished(d, st) then Some(st.m) else None
  {
    hide DecLoop, Start, Finished;
  }

  lemma LoopEnds(d: MsgDesc, st: State)
    ensures DecLoop(d, [], st) == Some(st)
  {
  }

  /** Only required fields of the message are marked. */
  ghost predicate OfFields(d: MsgDesc, seen: set<nat>)
  {
    forall k :: k in seen ==> k < d.RequiredBefore(|d.fields|)
  }

  /** The tracked field is a fixed-count array that has not overflowed. */
  ghost predicate Tracking(d: MsgDesc, fcField: nat, fcSize: nat, fcTotal: nat)
  {
    fcField != 0xFFFF ==>
      fcField < |d.fields| && d.fields[fcField].FixedCount() && fcSize <= fcTotal == d.fields[fcField].arraySize
  }

  /** The count a fixed-count array continues from, as it has none in the struct. */
  method TrackFixedCount(iter: FieldIter.Iterator, fcField0: nat, fcSize0: nat, fcTotal0: nat, ghost m: Msg,
      ghost seen: set<nat>)
    returns (ok: bool, fcField: nat, fcSize: nat, fcTotal: nat)
    requires iter.Valid() && iter.index < |iter.desc.fields| && WfDesc(iter.desc)
    requires Tracking(iter.desc, fcField0, fcSize0, fcTotal0)
    ensures var f, fc := iter.desc.fields[iter.index], StateOf(m, fcField0, fcSize0, fcTotal0, seen).fc;
            var r := if f.FixedCount() then Track(fc, iter.index, f.arraySize) else Some(fc);
            && (ok <==> r.Some?)
            && (ok ==> r.value == StateOf(m, fcField, fcSize, fcTotal, seen).fc)
            && (ok && f.FixedCount() ==> fcField == iter.index)
    ensures ok ==> Tracking(iter.desc, fcField, fcSize, fcTotal)
  {
    ghost var f := iter.desc.fields[iter.index];
    assert iter.pSize == FieldIter.OwnArraySize <==> f.FixedCount();
    fcField, fcSize, fcTotal := fcField0, fcSize0, fcTotal0;
    if FieldIter.IsRepeated(iter.typeCode) && iter.pSize == FieldIter.OwnArraySize {
      if fcField != iter.index {
        if fcField != 0xFFFF && fcSize != fcTotal {
          return false, fcField, fcSize, fcTotal;
        }
        fcField, fcSize, fcTotal := iter.index, 0, iter.arraySize;
      }
    }
    return true, fcField, fcSize, fcTotal;
  }

  /** decode_field at index i, once the count is known. */
  lemma FieldUnfold(d: MsgDesc, i: nat, wireType: nat, s: Bytes, st: State, fc: CountState, size: nat)
    requires i < |d.fields| && d.fields[i].slot < |st.m.slots|
    requires var f := d.fields[i];
             && (if f.FixedCount() then Track(st.fc, i, f.arraySize) == Some(fc) else fc == st.fc)
             && size == CountOf(f, st.m.slots[f.slot], fc)
    ensures var f := d.fields[i];
            var r := DecStatic(f, wireType, s, st.m.slots[f.slot], size);
            var k := d.RequiredBefore(i);
            DecField(d, i, wireType, s, st) ==
              if r.Err? then Err
              else Ok(State(PutSlot(st.m, f.slot, r.value.slot),
                            if f.FixedCount() then fc.(size := r.value.size) else fc,
                            if f.htype == Required && k < MAX_REQUIRED_FIELDS then st.seen + {k} else st.seen), r.used)
  {
    hide DecStatic;
  }

  lemma FieldUncounted(d: MsgDesc, i: nat, wireType: nat, s: Bytes, st: State)
    requires i < |d.fields| && d.fields[i].FixedCount() && Track(st.fc, i, d.fields[i].arraySize).None?
    ensures DecField(d, i, wireType, s, st).Err?
  {
    hide DecStatic;
  }

  /** An accepted element keeps a count within its array. */
  lemma StaticCounted(f: Field, wireType: nat, s: Bytes, slot: Slot, size: nat)
    requires f.htype == Repeated && size <= f.arraySize && DecStatic(f, wireType, s, slot, size).Ok?
    ensures DecStatic(f, wireType, s, slot, size).value.size <= f.arraySize
  {
    hide DecLeaf, DecBasic, DecDelimited, DecPacked;
    if wireType == WT_STRING && f.Packable() && DecDelimited(s).Ok? {
      PackedCounted(f, DecDelimited(s).value, slot.items, size);
    }
  }

  lemma {:induction false} PackedCounted(f: Field, s: Bytes, items: seq<Value>, size: nat)
    requires f.Packable() && size <= |items| && size <= f.arraySize && DecPacked(f, s, items, size).Some?
    ensures DecPacked(f, s, items, size).value.size <= f.arraySize
    decreases |s|
  {
    hide DecLeaf;
    if s == [] {
    } else {
      var Ok(v, n) := DecLeaf(f, WT_PACKED, s);
      PackedCounted(f, s[n..], PutItem(items, size, v), size + 1);
    }
  }

  lemma CountFits(f: Field, slot: Slot)
    requires SlotFits(f, slot)
    ensures f.htype == Repeated ==> slot.Many? && (f.FixedCount() ==> |slot.items| == f.arraySize)
  {
  }

  /** What the bookkeeping of a found field needs to know about it. */
  lemma AtFound(iter: FieldIter.Iterator)
    requires iter.Valid() && iter.index < |iter.desc.fields|
    ensures var d, i := iter.desc, iter.index;
            && iter.requiredFieldIndex == d.RequiredBefore(i) && i < 0xFFFF
            && (FieldIter.IsRequired(iter.typeCode) <==> d.fields[i].htype == Required)
  {
  }

  lemma Tables(d: MsgDesc)
    requires FieldIter.WfTables(d)
    ensures FieldIter.WfInfo(d)
  {
  }

  lemma SubTables(d: MsgDesc, i: nat)
    requires FieldIter.WfTables(d) && i < |d.fields|
    ensures d.fields[i].ltype == Submessage ==> FieldIter.WfTables(d.fields[i].sub)
  {
  }

  /** The part of the loop body that follows a successful find. */
  method DecodeFoundField(stream: IStream, iter: FieldIter.Iterator, wireType: nat, m0: Msg,
                          fcField0: nat, fcSize0: nat, fcTotal0: nat, bitfield0: seq<nat>, ghost seen0: set<nat>)
    returns (ok: bool, m: Msg, fcField: nat, fcSize: nat, fcTotal: nat, bitfield: seq<nat>, ghost seen: set<nat>)
    requires stream.Valid() && iter.Valid() && iter.index < |iter.desc.fields|
    requires WfDesc(iter.desc) && FieldIter.WfTables(iter.desc) && MsgFits(iter.desc, m0)
    requires Represents(bitfield0, seen0) && OfFields(iter.desc, seen0)
    requires Tracking(iter.desc, fcField0, fcSize0, fcTotal0)
    modifies stream
    ensures stream.Valid() && stream.state + stream.bytesLeft <= old(stream.state + stream.bytesLeft)
    ensures var r := DecField(iter.desc, iter.index, wireType, old(stream.Rest()),
                              StateOf(m0, fcField0, fcSize0, fcTotal0, seen0));
            && (ok <==> r.Ok?)
            && (ok ==> r.value == StateOf(m, fcField, fcSize, fcTotal, seen) && stream.Consumed(r.used)
                       && stream.Rest() == old(stream.Rest())[r.used..])
            && (ok ==> MsgFits(iter.desc, m) && Tracking(iter.desc, fcField, fcSize, fcTotal))
    ensures ok ==> Represents(bitfield, seen)
    ensures ok ==> OfFields(iter.desc, seen)
    decreases stream.bytesLeft, 4
  {
    hide FieldIter.Iterator.Valid, FieldIter.Iterator.Positioned, WfDesc, WfField, FieldIter.WfInfo, FieldIter.WfTables;
    hide MsgFits, SlotFits, DecField, DecStatic, Represents, Track;
    var d, i := iter.desc, iter.index;
    ghost var s, st := stream.Rest(), StateOf(m0, fcField0, fcSize0, fcTotal0, seen0);
    m, bitfield, seen := m0, bitfield0, seen0;
    AtFound(iter);
    SoundAt(d, m, i, false);
    SubTables(d, i);
    RequiredIndex(d, i);
    var f := d.fields[i];
    var slot := m.slots[f.slot];
    CountFits(f, slot);
    ok, fcField, fcSize, fcTotal := TrackFixedCount(iter, fcField0, fcSize0, fcTotal0, m, seen);
    if !ok {
      FieldUncounted(d, i, wireType, s, st);
      return false, m, fcField, fcSize, fcTotal, bitfield, seen;
    }
    var size := if f.FixedCount() then fcSize else if slot.Many? then |slot.items| else 0;
    ghost var fc := StateOf(m, fcField, fcSize, fcTotal, seen).fc;
    FieldUnfold(d, i, wireType, s, st, fc, size);
    if FieldIter.IsRequired(iter.typeCode) && iter.requiredFieldIndex < MAX_REQUIRED_FIELDS {
      bitfield := MarkSeen(bitfield, iter.requiredFieldIndex, seen);
      seen := seen + {iter.requiredFieldIndex};
    }
    ghost var slot0, size0 := slot, size;
    ok, slot, size := DecodeStaticField(stream, wireType, f, slot, size, d.nslots);
    if !ok {
      return false, m, fcField, fcSize, fcTotal, bitfield, seen;
    }
    m := PutSlot(m, f.slot, slot);
    if f.FixedCount() {
      StaticCounted(f, wireType, s, slot0, size0);
      fcSize := size;
    }
    FieldSound(d, i, wireType, s, st, false);
  }

  lemma {:induction false} RequiredMonotone(d: MsgDesc, i: nat, n: nat)
    requires i <= n <= |d.fields|
    ensures d.RequiredBefore(i) <= d.RequiredBefore(n)
  {
    if i == n {
    } else {
      RequiredMonotone(d, i, n - 1);
    }
  }

  lemma RequiredIndex(d: MsgDesc, i: nat)
    requires i < |d.fields|
    ensures d.fields[i].htype == Required ==> d.RequiredBefore(i) < d.RequiredBefore(|d.fields|)
  {
    RequiredMonotone(d, i + 1, |d.fields|);
  }
}
