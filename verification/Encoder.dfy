/**
 The stream-writing code of pb_encode.c. One contract covers both kinds of stream: a
 call succeeds exactly when the specification yields bytes and the stream has room
 for them, and then it has appended exactly those bytes. A sizing stream always has
 room, so sizing and writing agree by construction.
 */
module Encoder {
  import opened Wire
  import opened Schema
  import opened Encoding
  import FieldIter

  /** pb_ostream_t over a memory buffer; a null buffer is PB_OSTREAM_SIZING. */
  class OStream {
    var buf: array?<Byte>
    var state: nat
    var maxSize: nat
    var bytesWritten: nat

    /** What has been emitted so far, counted or written, and where it began. */
    ghost var out: Bytes
    ghost var start: nat

    ghost predicate Valid()
      reads this, buf
    {
      && |out| == bytesWritten
      && (buf != null ==>
            && state == start + bytesWritten && bytesWritten <= maxSize && start + maxSize <= buf.Length
            && buf[start..state] == out)
    }

    ghost predicate Room(n: nat)
      reads this
    {
      buf == null || bytesWritten + n <= maxSize
    }

    /** Same stream, and no byte outside its window of the buffer has changed. */
    twostate predicate Framed()
      reads this, buf
    {
      && buf == old(buf) && maxSize == old(maxSize) && start == old(start)
      && (buf != null ==> forall k :: 0 <= k < buf.Length && !(start <= k < start + maxSize) ==> buf[k] == old(buf[k]))
    }

    /** PB_OSTREAM_SIZING */
    constructor Sizing()
      ensures Valid() && buf == null && out == []
    {
      buf, state, maxSize, bytesWritten := null, 0, 0, 0;
      out, start := [], 0;
    }

    /** pb_ostream_from_buffer, on the part of the buffer beginning at `at`. */
    constructor FromBuffer(b: array<Byte>, at: nat, size: nat)
      requires at + size <= b.Length
      ensures Valid() && buf == b && start == at && maxSize == size && out == []
    {
      buf, state, maxSize, bytesWritten := b, at, size, 0;
      out, start := [], at;
    }

    /** pb_write */
    method Write(data: Bytes) returns (ok: bool)
      requires Valid()
      modifies this, buf
      ensures Valid() && Framed()
      ensures ok <==> old(Room(|data|))
      ensures ok ==> out == old(out) + data
    {
      if |data| > 0 && buf != null {
        if bytesWritten + |data| > maxSize {
          return false;
        }
        var at := state;
        forall k | 0 <= k < |data| {
          buf[at + k] := data[k];
        }
        state := at + |data|;
        assert buf[start..at] == out;
        assert buf[at..state] == data;
        assert buf[start..state] == out + data;
      }
      bytesWritten := bytesWritten + |data|;
      out := out + data;
      return true;
    }

    /** pb_write(stream, NULL, size): a sizing stream only counts. */
    method Count(size: nat, ghost data: Bytes) returns (ok: bool)
      requires Valid() && buf == null && |data| == size
      modifies this
      ensures Valid() && Framed() && ok && out == old(out) + data
    {
      bytesWritten := bytesWritten + size;
      out := out + data;
      return true;
    }

    /** pb_encode_varint_32: the two halves of a 64-bit value, without 64-bit shifts. */
    method EncodeVarint32(low0: nat, high0: nat) returns (ok: bool)
      requires Valid() && low0 < U32 && high0 < U32
      modifies this, buf
      ensures Valid() && Framed()
      ensures ok <==> old(Room(|EncVarint(low0 + high0 * U32)|))
      ensures ok ==> out == old(out) + EncVarint(low0 + high0 * U32)
    {
      var buffer := SplitVarint(low0, high0);
      ok := Write(buffer);
    }

    /** pb_encode_varint */
    method EncodeVarint(value: nat) returns (ok: bool)
      requires Valid() && value < U64
      modifies this, buf
      ensures Valid() && Framed()
      ensures ok <==> old(Room(|EncVarint(value)|))
      ensures ok ==> out == old(out) + EncVarint(value)
    {
      if value <= 0x7F {
        ok := Write([value]);
      } else {
        ok := EncodeVarint32(value % U32, value / U32);
      }
    }

    /** pb_encode_tag */
    method EncodeTag(wireType: nat, fieldNumber: nat) returns (ok: bool)
      requires Valid() && wireType < 8 && fieldNumber < 0x1_0000
      modifies this, buf
      ensures Valid() && Framed()
      ensures ok <==> old(Room(|EncTag(fieldNumber, wireType)|))
      ensures ok ==> out == old(out) + EncTag(fieldNumber, wireType)
    {
      ok := EncodeVarint(fieldNumber * 8 + wireType);
    }

    /** pb_encode_string */
    method EncodeString(data: Bytes) returns (ok: bool)
      requires Valid() && |data| < U64
      modifies this, buf
      ensures Valid() && Framed()
      ensures ok <==> old(Room(|EncVarint(|data|)| + |data|))
      ensures ok ==> out == old(out) + (EncVarint(|data|) + data)
    {
      ok := EncodeVarint(|data|);
      if ok {
        ok := Write(data);
      }
    }
  }

  /** The byte-splitting loops of pb_encode_varint_32. */
  method SplitVarint(low0: nat, high0: nat) returns (buffer: Bytes)
    requires low0 < U32 && high0 < U32
    ensures buffer == EncVarint(low0 + high0 * U32)
  {
    hide EncVarint, Remaining, HighWeight;
    var low: nat, high: nat := low0 / 0x80, high0;
    var b: Byte := low0 % 0x80;
    ghost var value := low0 + high0 * U32;
    buffer := [];
    SplitStart(low0, high0);
    while |buffer| < 4 && (low != 0 || high != 0)
      invariant |buffer| <= 4 && high == high0
      invariant b < 0x80 && b + 0x80 * low < HighWeight(|buffer|)
      invariant EncVarint(value) == buffer + EncVarint(Remaining(b, low, high, |buffer|))
      decreases 4 - |buffer|
    {
      PeelLow(b, low, high, |buffer|);
      Regroup(low);
      b := b + 0x80;
      buffer := buffer + [b];
      b := low % 0x80;
      low := low / 0x80;
    }
    if high != 0 {
      JoinHigh(b, low, high, |buffer|);
      buffer := SplitHigh(buffer, b + high % 8 * 0x10, high / 8);
    } else {
      SplitEnd(b, low, |buffer|);
      buffer := buffer + [b];
    }
  }

  lemma SplitStart(low: nat, high: nat)
    requires low < U32 && high < U32
    ensures low % 0x80 + 0x80 * (low / 0x80) < HighWeight(0)
    ensures Remaining(low % 0x80, low / 0x80, high, 0) == low + high * U32
  {
    Regroup(low);
  }

  /** With nothing left above it, the current group is the last. */
  lemma SplitEnd(b: Byte, low: nat, i: nat)
    requires b < 0x80 && (low == 0 || (i == 4 && b + 0x80 * low < HighWeight(i)))
    ensures EncVarint(Remaining(b, low, 0, i)) == [b]
  {
  }

  method SplitHigh(buffer0: Bytes, b0: Byte, high0: nat) returns (buffer: Bytes)
    requires b0 < 0x80
    ensures buffer == buffer0 + EncVarint(b0 + 0x80 * high0)
  {
    var b: Byte, high: nat := b0, high0;
    buffer := buffer0;
    while high != 0
      invariant b < 0x80
      invariant buffer0 + EncVarint(b0 + 0x80 * high0) == buffer + EncVarint(b + 0x80 * high)
      decreases high
    {
      Peel(b, high);
      Regroup(high);
      b := b + 0x80;
      buffer := buffer + [b];
      b := high % 0x80;
      high := high / 0x80;
    }
    buffer := buffer + [b];
  }

  lemma Regroup(n: nat)
    ensures n % 0x80 + 0x80 * (n / 0x80) == n && n % 0x80 < 0x80 && (n > 0 ==> n / 0x80 < n)
  {
  }

  /** The group that holds the top four bits of the low half and three of the high half. */
  lemma JoinHigh(b: Byte, low: nat, high: nat, i: nat)
    requires i == 4 && b + 0x80 * low < HighWeight(i) && high > 0
    ensures low == 0 && b + high % 8 * 0x10 < 0x80
    ensures Remaining(b, low, high, i) == b + high % 8 * 0x10 + 0x80 * (high / 8)
  {
    assert high == high % 8 + 8 * (high / 8);
  }

  /** The weight of the high half after i groups have been emitted. */
  ghost function HighWeight(i: nat): (w: nat)
    ensures w > 0
  {
    if i == 0 then U32 else if i == 1 then 0x200_0000 else if i == 2 then 0x4_0000
    else if i == 3 then 0x800 else 0x10
  }

  /** What is still to be emitted. */
  ghost function Remaining(b: nat, low: nat, high: nat, i: nat): nat
  {
    if high > 0 then MulAtLeast(high, HighWeight(i)); b + 0x80 * low + high * HighWeight(i)
    else b + 0x80 * low
  }

  /** The lowest group of a value is what is emitted next. */
  lemma Peel(b: Byte, rest: nat)
    requires b < 0x80 && rest > 0
    ensures EncVarint(b + 0x80 * rest) == [b + 0x80] + EncVarint(rest)
  {
    DivModUnique(b + 0x80 * rest, rest, 0x80, b);
  }

  lemma PeelLow(b: Byte, low: nat, high: nat, i: nat)
    requires i < 4 && b < 0x80 && (low != 0 || high != 0)
    requires b + 0x80 * low < HighWeight(i)
    ensures low < HighWeight(i + 1)
    ensures EncVarint(Remaining(b, low, high, i))
         == [b + 0x80] + EncVarint(Remaining(low % 0x80, low / 0x80, high, i + 1))
  {
    assert HighWeight(i) == 0x80 * HighWeight(i + 1);
    var rest := Remaining(low % 0x80, low / 0x80, high, i + 1);
    assert low % 0x80 + 0x80 * (low / 0x80) == low;
    assert Remaining(b, low, high, i) == b + 0x80 * rest by {
      assert high * HighWeight(i) == 0x80 * (high * HighWeight(i + 1));
    }
    if high != 0 { MulAtLeast(high, HighWeight(i + 1)); }
    Peel(b, rest);
  }

  /* ---------------------------------------------------------- field encoders */

  /** Every submessage's encoding has a length that a size_t can hold. */
  ghost predicate SizesFit(d: MsgDesc, m: Msg)
    decreases d, 2
  {
    forall i :: 0 <= i < |d.fields| && d.fields[i].slot < |m.slots| ==>
      SlotSizesFit(d.fields[i], m.slots[d.fields[i].slot])
  }

  ghost predicate SlotSizesFit(f: Field, s: Slot)
    decreases f, 1
  {
    match s
    case Plain(v) => ValueSizesFit(f, v)
    case Opt(_, v) => ValueSizesFit(f, v)
    case Many(items, _) => forall k :: 0 <= k < |items| ==> ValueSizesFit(f, items[k])
    case Choice(which, v) => which == f.tag ==> ValueSizesFit(f, v)
  }

  ghost predicate ValueSizesFit(f: Field, v: Value)
    decreases f, 0
  {
    f.ltype == Submessage && v.VMsg? ==>
      SizesFit(f.sub, v.m) && (EncMsg(f.sub, v.m).Some? ==> |EncMsg(f.sub, v.m).value| < U64)
  }

  /** pb_enc_varint */
  method EncVarintField(stream: OStream, f: Field, n: int) returns (ok: bool)
    requires stream.Valid() && f.dataSize in {1, 2, 4, 8} && f.Packable() && ValueFits(f, VInt(n))
    requires f.ltype !in {Fixed32, Fixed64}
    modifies stream, stream.buf
    ensures stream.Valid() && stream.Framed()
    ensures EncInt(f, n).Some?
    ensures ok <==> old(stream.Room(|EncInt(f, n).value|))
    ensures ok ==> stream.out == old(stream.out) + EncInt(f, n).value
  {
    if f.ltype == SVarint {
      ok := stream.EncodeVarint(ZigZag(n));
    } else {
      ok := stream.EncodeVarint(n % U64);
    }
  }

  /** pb_enc_fixed */
  method EncFixedField(stream: OStream, f: Field, n: nat) returns (ok: bool)
    requires stream.Valid() && f.dataSize in {4, 8}
    modifies stream, stream.buf
    ensures stream.Valid() && stream.Framed()
    ensures EncWord(f, n).Some?
    ensures ok <==> old(stream.Room(f.dataSize))
    ensures ok ==> stream.out == old(stream.out) + EncWord(f, n).value
  {
    ok := stream.Write(EncFixed(n, f.dataSize));
  }

  /** pb_enc_string: the length is found by a bounded search for the terminator. */
  method EncStringField(stream: OStream, f: Field, str: Bytes) returns (ok: bool)
    requires stream.Valid() && f.ltype == String && 1 <= f.dataSize < 0x1_0000
    modifies stream, stream.buf
    ensures stream.Valid() && stream.Framed()
    ensures var r := EncData(f, VBytes(str));
            && (ok <==> r.Some? && old(stream.Room(|r.value|)))
            && (ok ==> stream.out == old(stream.out) + r.value)
  {
    var maxSize := f.dataSize - 1;
    var size := 0;
    while size < maxSize && size < |str| && str[size] != 0
      invariant 0 <= size <= maxSize && size <= |str|
      invariant forall k :: 0 <= k < size ==> str[k] != 0
    {
      size := size + 1;
    }
    CStrLength(str, size);
    if size < |str| && str[size] != 0 {
      return false;
    }
    ok := stream.EncodeString(str[..size]);
  }

  /** A NUL-free prefix is part of the string, and ends it at a NUL or at the end. */
  lemma {:induction false} CStrLength(str: Bytes, size: nat)
    requires size <= |str| && forall k :: 0 <= k < size ==> str[k] != 0
    ensures |CStr(str)| >= size && CStr(str)[..size] == str[..size]
    ensures size < |str| && str[size] != 0 ==> |CStr(str)| > size
    ensures size == |str| || str[size] == 0 ==> CStr(str) == str[..size]
  {
    if size == 0 {
    } else {
      assert str[0] != 0;
      CStrLength(str[1..], size - 1);
      assert str[..size] == [str[0]] + str[1..][..size - 1];
    }
  }

  /** What a well-formed descriptor and a struct of its type say about field i. */
  lemma FieldFacts(d: MsgDesc, m: Msg, i: nat)
    requires WfDesc(d) && MsgFits(d, m) && i < |d.fields|
    ensures var f := d.fields[i]; WfField(f, d.nslots) && f.slot < |m.slots| && SlotFits(f, m.slots[f.slot])
  {
  }

  /** One step of the field walk, seen from what has been emitted so far. */
  lemma EncodeStep(d: MsgDesc, m: Msg, i: nat, done: Bytes)
    requires WfDesc(d) && MsgFits(d, m) && SizesFit(d, m) && FieldIter.WfTables(d) && i < |d.fields|
    ensures var f := d.fields[i];
            && WfField(f, d.nslots) && f.slot < |m.slots| && SlotFits(f, m.slots[f.slot])
            && SlotSizesFit(f, m.slots[f.slot]) && (f.ltype == Submessage ==> FieldIter.WfTables(f.sub))
            && var b := EncField(d, f, m.slots[f.slot]);
               if b.Some? then Cat(Some(done), EncFrom(d, m, i)) == Cat(Some(done + b.value), EncFrom(d, m, i + 1))
               else Cat(Some(done), EncFrom(d, m, i)).None?
  {
    FieldFacts(d, m, i);
    var f := d.fields[i];
    CatAssoc(done, EncField(d, f, m.slots[f.slot]), EncFrom(d, m, i + 1));
  }

  lemma EncodeEnds(d: MsgDesc, m: Msg)
    ensures EncMsg(d, m) == Cat(Some([]), EncFrom(d, m, 0)) && EncFrom(d, m, |d.fields|) == Some([])
    ensures |d.fields| == 0 ==> EncMsg(d, m) == Some([])
    ensures forall b: Bytes :: Cat(Some(b), Some([])) == Some(b)
  {
    CatNil(EncFrom(d, m, 0));
    forall b: Bytes ensures Cat(Some(b), Some([])) == Some(b) {
      assert b + [] == b;
    }
  }

  /** pb_check_proto3_default_value; submessages are searched field by field. */
  method CheckDefault(d: MsgDesc, f: Field, s: Slot) returns (isDefault: bool)
    requires FieldIter.WfTables(d) && WfField(f, d.nslots) && SlotFits(f, s)
    requires f.ltype == Submessage ==> FieldIter.WfTables(f.sub)
    ensures isDefault == IsDefault(d, f, s)
    decreases f
  {
    if f.htype == Required {
      return false;
    } else if f.htype == Repeated {
      return (if f.FixedCount() then f.arraySize else |s.items|) == 0;
    } else if f.htype == OneOf {
      return s.which == 0;
    } else if f.HasSize() {
      return !s.has;
    } else if d.HasDefaults() {
      return false;
    }
    match f.ltype
    case BytesArray => return |s.v.b| == 0;
    case String => return s.v.b == [] || s.v.b[0] == 0;
    case FixedBytes => return f.dataSize == 0;
    case Submessage =>
      isDefault := CheckAllDefault(f.sub, s.v.m);
    case _ => return s.v.n == 0;
  }

  method CheckAllDefault(d: MsgDesc, m: Msg) returns (isDefault: bool)
    requires WfDesc(d) && MsgFits(d, m) && FieldIter.WfTables(d)
    ensures isDefault == AllDefault(d, m)
    decreases d
  {
    hide IsDefault, WfDesc, MsgFits, WfField, SlotFits;
    hide FieldIter.WfInfo, FieldIter.Iterator.Valid, FieldIter.Iterator.Positioned;
    if |d.fields| == 0 {
      return true;
    }
    var iter := new FieldIter.Iterator(d);
    while true
      invariant fresh(iter) && iter.Valid() && iter.desc == d && iter.index < |d.fields|
      invariant forall j :: 0 <= j < iter.index ==>
        d.fields[j].slot < |m.slots| && IsDefault(d, d.fields[j], m.slots[d.fields[j].slot])
      decreases |d.fields| - iter.index
    {
      var g := d.fields[iter.index];
      FieldFacts(d, m, iter.index);
      assert g.ltype == Submessage ==> FieldIter.WfTables(g.sub);
      var b := CheckDefault(d, g, m.slots[g.slot]);
      if !b {
        return false;
      }
      var more := iter.Next();
      if !more {
        return true;
      }
    }
  }

  /** The switch of encode_basic_field, after the key. */
  method EncodeData(stream: OStream, f: Field, v: Value, ghost nslots: nat) returns (ok: bool)
    requires stream.Valid() && WfField(f, nslots) && ValueFits(f, v) && ValueSizesFit(f, v)
    requires f.ltype == Submessage ==> FieldIter.WfTables(f.sub)
    modifies stream, stream.buf
    ensures stream.Valid() && stream.Framed()
    ensures var r := EncData(f, v);
            && (ok <==> r.Some? && old(stream.Room(|r.value|)))
            && (ok ==> stream.out == old(stream.out) + r.value)
    decreases f, 0
  {
    match f.ltype
    case Bool => ok := stream.EncodeVarint(if v.n != 0 then 1 else 0);
    case Varint => ok := EncVarintField(stream, f, v.n);
    case UVarint => ok := EncVarintField(stream, f, v.n);
    case SVarint => ok := EncVarintField(stream, f, v.n);
    case Fixed32 => ok := EncFixedField(stream, f, v.n);
    case Fixed64 => ok := EncFixedField(stream, f, v.n);
    case BytesArray =>
      if |v.b| > f.dataSize - 2 {
        return false;
      }
      ok := stream.EncodeString(v.b);
    case String => ok := EncStringField(stream, f, v.b);
    case FixedBytes => ok := stream.EncodeString(v.b);
    case Submessage => ok := EncodeSubmessage(stream, f.sub, v.m);
  }

  /** encode_basic_field */
  method EncodeBasicField(stream: OStream, f: Field, v: Value, ghost nslots: nat) returns (ok: bool)
    requires stream.Valid() && WfField(f, nslots) && ValueFits(f, v) && ValueSizesFit(f, v)
    requires f.ltype == Submessage ==> FieldIter.WfTables(f.sub)
    modifies stream, stream.buf
    ensures stream.Valid() && stream.Framed()
    ensures var r := EncBasic(f, v);
            && (ok <==> r.Some? && old(stream.Room(|r.value|)))
            && (ok ==> stream.out == old(stream.out) + r.value)
    decreases f, 1
  {
    hide ValueFits, ValueSizesFit, EncData, EncVarint;
    ok := stream.EncodeTag(WireTypeOf(f.ltype), f.tag);
    if ok {
      ok := EncodeData(stream, f, v, nslots);
    }
  }

  /**
   pb_encode_submessage: a sizing pass, the length prefix, and a writing pass into a
   substream of exactly that size.
   */
  method EncodeSubmessage(stream: OStream, d: MsgDesc, m: Msg) returns (ok: bool)
    requires stream.Valid() && WfDesc(d) && MsgFits(d, m) && SizesFit(d, m) && FieldIter.WfTables(d)
    requires EncMsg(d, m).Some? ==> |EncMsg(d, m).value| < U64
    modifies stream, stream.buf
    ensures stream.Valid() && stream.Framed()
    ensures var r := EncMsg(d, m);
            && (ok <==> r.Some? && old(stream.Room(|EncVarint(|r.value|)| + |r.value|)))
            && (ok ==> stream.out == old(stream.out) + (EncVarint(|r.value|) + r.value))
    decreases d, 7
  {
    hide EncMsg, EncVarint, WfDesc, MsgFits, SizesFit, FieldIter.WfTables;
    var substream := new OStream.Sizing();
    ok := Encode(substream, d, m);
    if !ok {
      return false;
    }
    var size := substream.bytesWritten;
    ghost var body := EncMsg(d, m).value;
    assert substream.out == body;
    ok := stream.EncodeVarint(size);
    if !ok {
      return false;
    }
    if stream.buf == null {
      ok := stream.Count(size, body);
    } else if stream.bytesWritten + size > stream.maxSize {
      ok := false;
    } else {
      ok := WriteSubmessage(stream, d, m, size);
    }
  }

  /** The writing pass. It cannot fail, and the "submsg size changed" branch is never taken. */
  method WriteSubmessage(stream: OStream, d: MsgDesc, m: Msg, size: nat) returns (ok: bool)
    requires stream.Valid() && WfDesc(d) && MsgFits(d, m) && SizesFit(d, m) && FieldIter.WfTables(d)
    requires EncMsg(d, m).Some? && size == |EncMsg(d, m).value|
    requires stream.buf != null && stream.bytesWritten + size <= stream.maxSize
    modifies stream, stream.buf
    ensures stream.Valid() && stream.Framed()
    ensures ok && stream.out == old(stream.out) + EncMsg(d, m).value
    decreases d, 6
  {
    hide EncMsg, WfDesc, MsgFits, SizesFit, FieldIter.WfTables;
    var substream := new OStream.FromBuffer(stream.buf, stream.state, size);
    var status := Encode(substream, d, m);
    ghost var sizeChanged := substream.bytesWritten != size;
    assert !sizeChanged && status;
    assert stream.buf[stream.start..stream.state] == stream.out;
    assert stream.buf[stream.state..substream.state] == substream.out;
    assert stream.buf[stream.start..substream.state] == stream.out + substream.out;
    stream.bytesWritten := stream.bytesWritten + substream.bytesWritten;
    stream.state := substream.state;
    stream.out := stream.out + substream.out;
    if substream.bytesWritten != size {
      return false;
    }
    return status;
  }

  /** encode_array */
  method EncodeArray(stream: OStream, f: Field, items: seq<Value>, ghost nslots: nat) returns (ok: bool)
    requires stream.Valid() && WfField(f, nslots)
    requires forall k :: 0 <= k < |items| ==> ValueFits(f, items[k]) && ValueSizesFit(f, items[k])
    requires f.ltype == Submessage ==> FieldIter.WfTables(f.sub)
    modifies stream, stream.buf
    ensures stream.Valid() && stream.Framed()
    ensures var r := EncArray(f, items);
            && (ok <==> r.Some? && old(stream.Room(|r.value|)))
            && (ok ==> stream.out == old(stream.out) + r.value)
    decreases f, 3
  {
    if |items| == 0 {
      return true;
    }
    if |items| > f.arraySize {
      return false;
    }
    if f.Packable() {
      ok := EncodePacked(stream, f, items, nslots);
    } else {
      ok := EncodeUnpacked(stream, f, items, nslots);
    }
  }

  method EncodeUnpacked(stream: OStream, f: Field, items: seq<Value>, ghost nslots: nat) returns (ok: bool)
    requires stream.Valid() && WfField(f, nslots)
    requires forall k :: 0 <= k < |items| ==> ValueFits(f, items[k]) && ValueSizesFit(f, items[k])
    requires f.ltype == Submessage ==> FieldIter.WfTables(f.sub)
    modifies stream, stream.buf
    ensures stream.Valid() && stream.Framed()
    ensures var r := EncUnpacked(f, items);
            && (ok <==> r.Some? && old(stream.Room(|r.value|)))
            && (ok ==> stream.out == old(stream.out) + r.value)
    decreases f, 2
  {
    ghost var done: Bytes := [];
    assert items[0..] == items;
    CatNil(EncUnpacked(f, items));
    for i := 0 to |items|
      invariant stream.Valid() && stream.Framed()
      invariant stream.out == old(stream.out) + done
      invariant EncUnpacked(f, items) == Cat(Some(done), EncUnpacked(f, items[i..]))
    {
      assert items[i..][1..] == items[i + 1..];
      CatAssoc(done, EncBasic(f, items[i]), EncUnpacked(f, items[i + 1..]));
      ok := EncodeBasicField(stream, f, items[i], nslots);
      if !ok {
        return false;
      }
      done := done + EncBasic(f, items[i]).value;
    }
    return true;
  }

  /** The packed branch: key, total size, then the elements back to back. */
  method EncodePacked(stream: OStream, f: Field, items: seq<Value>, ghost nslots: nat) returns (ok: bool)
    requires stream.Valid() && WfField(f, nslots) && f.Packable() && 0 < |items| <= f.arraySize
    requires forall k :: 0 <= k < |items| ==> ValueFits(f, items[k])
    modifies stream, stream.buf
    ensures stream.Valid() && stream.Framed()
    ensures var r := EncArray(f, items);
            && (ok <==> r.Some? && old(stream.Room(|r.value|)))
            && (ok ==> stream.out == old(stream.out) + r.value)
  {
    hide ValueFits, EncPackedItems, EncVarint, EncArray;
    PackedSize(f, nslots, items);
    ghost var data := EncPackedItems(f, items).value;
    PackedBytes(f, items);
    ok := stream.EncodeTag(WT_STRING, f.tag);
    if !ok {
      return false;
    }
    var size := PackedDataSize(f, items, nslots);
    ok := stream.EncodeVarint(size);
    if !ok {
      return false;
    }
    if stream.buf == null {
      ok := stream.Count(size, data);
      return ok;
    }
    ok := EncodePackedItems(stream, f, items, nslots);
  }

  /** Fixed-size elements are counted by multiplication, varints by a sizing stream. */
  method PackedDataSize(f: Field, items: seq<Value>, ghost nslots: nat) returns (size: nat)
    requires WfField(f, nslots) && f.Packable() && forall k :: 0 <= k < |items| ==> ValueFits(f, items[k])
    ensures EncPackedItems(f, items).Some? && size == |EncPackedItems(f, items).value|
  {
    PackedSize(f, nslots, items);
    if f.ltype == Fixed32 {
      size := 4 * |items|;
    } else if f.ltype == Fixed64 {
      size := 8 * |items|;
    } else {
      var sizestream := new OStream.Sizing();
      var ok := EncodePackedItems(sizestream, f, items, nslots);
      size := sizestream.bytesWritten;
    }
  }

  lemma PackedBytes(f: Field, items: seq<Value>)
    requires f.Packable() && 0 < |items| <= f.arraySize && EncPackedItems(f, items).Some?
    ensures var data := EncPackedItems(f, items).value;
            EncArray(f, items) == Some(EncTag(f.tag, WT_STRING) + EncVarint(|data|) + data)
  {
  }

  method EncodePackedItems(stream: OStream, f: Field, items: seq<Value>, ghost nslots: nat) returns (ok: bool)
    requires stream.Valid() && WfField(f, nslots) && f.Packable()
    requires forall k :: 0 <= k < |items| ==> ValueFits(f, items[k])
    modifies stream, stream.buf
    ensures stream.Valid() && stream.Framed()
    ensures var r := EncPackedItems(f, items);
            && r.Some? && (ok <==> old(stream.Room(|r.value|)))
            && (ok ==> stream.out == old(stream.out) + r.value)
  {
    hide EncVarint, EncInt;
    PackedSize(f, nslots, items);
    ghost var done: Bytes := [];
    assert items[0..] == items;
    CatNil(EncPackedItems(f, items));
    for i := 0 to |items|
      invariant stream.Valid() && stream.Framed()
      invariant stream.out == old(stream.out) + done
      invariant EncPackedItems(f, items) == Cat(Some(done), EncPackedItems(f, items[i..]))
    {
      assert items[i..][1..] == items[i + 1..];
      assert ValueFits(f, items[i]);
      ghost var item := if f.ltype in {Fixed32, Fixed64} then EncWord(f, items[i].n) else EncInt(f, items[i].n);
      CatAssoc(done, item, EncPackedItems(f, items[i + 1..]));
      if f.ltype in {Fixed32, Fixed64} {
        ok := EncFixedField(stream, f, items[i].n);
      } else {
        ok := EncVarintField(stream, f, items[i].n);
      }
      if !ok {
        return false;
      }
      done := done + item.value;
    }
    return true;
  }

  /** Packed data always encodes; its size is fixed or at most ten bytes an element. */
  lemma {:induction false} PackedSize(f: Field, nslots: nat, items: seq<Value>)
    requires WfField(f, nslots) && f.Packable()
    requires forall k :: 0 <= k < |items| ==> ValueFits(f, items[k])
    ensures EncPackedItems(f, items).Some?
    ensures var n := |EncPackedItems(f, items).value|;
            if f.ltype == Fixed32 then n == 4 * |items|
            else if f.ltype == Fixed64 then n == 8 * |items| else n <= 10 * |items|
  {
    if items == [] {
    } else {
      PackedItemSize(f, nslots, items[0]);
      PackedSize(f, nslots, items[1..]);
    }
  }

  lemma PackedItemSize(f: Field, nslots: nat, v: Value)
    requires WfField(f, nslots) && f.Packable() && ValueFits(f, v)
    ensures if f.ltype in {Fixed32, Fixed64} then EncWord(f, v.n).Some? && |EncWord(f, v.n).value| == f.dataSize
            else EncInt(f, v.n).Some? && |EncInt(f, v.n).value| <= 10
  {
    if f.ltype !in {Fixed32, Fixed64} {
      VarintAtMostTen(if f.ltype == SVarint then ZigZag(v.n) else v.n % U64);
    }
  }

  /** encode_field */
  method EncodeField(stream: OStream, d: MsgDesc, f: Field, s: Slot) returns (ok: bool)
    requires stream.Valid() && FieldIter.WfTables(d) && WfField(f, d.nslots) && SlotFits(f, s) && SlotSizesFit(f, s)
    requires f.ltype == Submessage ==> FieldIter.WfTables(f.sub)
    modifies stream, stream.buf
    ensures stream.Valid() && stream.Framed()
    ensures var r := EncField(d, f, s);
            && (ok <==> r.Some? && old(stream.Room(|r.value|)))
            && (ok ==> stream.out == old(stream.out) + r.value)
    decreases f, 4
  {
    if f.htype == OneOf {
      if s.which != f.tag {
        return true;
      }
    } else if f.htype == Optional {
      if f.HasSize() {
        if !s.has {
          return true;
        }
      } else {
        var isDefault := CheckDefault(d, f, s);
        if isDefault {
          return true;
        }
      }
    }
    if f.htype == Repeated {
      ok := EncodeArray(stream, f, s.items, d.nslots);
    } else {
      ok := EncodeBasicField(stream, f, s.v, d.nslots);
    }
  }

  /** pb_encode */
  method Encode(stream: OStream, d: MsgDesc, m: Msg) returns (ok: bool)
    requires stream.Valid() && WfDesc(d) && MsgFits(d, m) && SizesFit(d, m) && FieldIter.WfTables(d)
    modifies stream, stream.buf
    ensures stream.Valid() && stream.Framed()
    ensures var r := EncMsg(d, m);
            && (ok <==> r.Some? && old(stream.Room(|r.value|)))
            && (ok ==> stream.out == old(stream.out) + r.value)
    decreases d, 5
  {
    hide WfDesc, MsgFits, SizesFit, EncMsg, EncFrom, EncField, WfField, SlotFits, SlotSizesFit;
    hide FieldIter.WfInfo, FieldIter.Iterator.Valid, FieldIter.Iterator.Positioned;
    EncodeEnds(d, m);
    if |d.fields| == 0 {
      return true;
    }
    var iter := new FieldIter.Iterator(d);
    ghost var done: Bytes := [];
    while true
      invariant fresh(iter) && iter.Valid() && iter.desc == d && iter.index < |d.fields|
      invariant stream.Valid() && stream.Framed()
      invariant stream.out == old(stream.out) + done
      invariant EncMsg(d, m) == Cat(Some(done), EncFrom(d, m, iter.index))
      decreases |d.fields| - iter.index
    {
      var f := d.fields[iter.index];
      EncodeStep(d, m, iter.index, done);
      ok := EncodeField(stream, d, f, m.slots[f.slot]);
      if !ok {
        return false;
      }
      done := done + EncField(d, f, m.slots[f.slot]).value;
      var more := iter.Next();
      if !more {
        return true;
      }
    }
  }

  /** pb_get_encoded_size */
  method GetEncodedSize(d: MsgDesc, m: Msg) returns (ok: bool, size: nat)
    requires WfDesc(d) && MsgFits(d, m) && SizesFit(d, m) && FieldIter.WfTables(d)
    ensures ok <==> EncMsg(d, m).Some?
    ensures ok ==> size == |EncMsg(d, m).value|
  {
    var stream := new OStream.Sizing();
    ok := Encode(stream, d, m);
    size := stream.bytesWritten;
  }
}
