/**
 The packed descriptor words (pb.h) and the iterator that walks them (pb_common.c).
 */
module FieldIter {
  import opened Wire
  import opened Schema

  type Word = x: int | 0 <= x < 0x1_0000_0000

  /* ------------------------------------------------------------- packing */

  function HTypeCode(h: HType): (c: nat)
  {
    match h case Required => 0x00 case Optional => 0x10 case Repeated => 0x20 case OneOf => 0x30
  }

  function LTypeCode(l: LType): (c: nat)
    ensures c < 16
  {
    match l
    case Bool => 0x0 case Varint => 0x1 case UVarint => 0x2 case SVarint => 0x3
    case Fixed32 => 0x4 case Fixed64 => 0x5 case BytesArray => 0x6 case String => 0x7
    case Submessage => 0x8 case FixedBytes => 0xB
  }

  const LTYPE_SUBMESSAGE: nat := 0x8
  const LTYPE_SUBMSG_W_CB: nat := 0x9
  const LTYPE_EXTENSION: nat := 0xA

  function TypeCode(f: Field): (c: nat)
    ensures c < 0x40
    ensures IsRequired(c) <==> f.htype == Required
    ensures IsRepeated(c) <==> f.htype == Repeated
    ensures IsSubmessage(c) <==> f.ltype == Submessage
  {
    HTypeCode(f.htype) + LTypeCode(f.ltype)
  }

  lemma TypeCodes(f: Field)
    ensures IsRepeated(TypeCode(f)) <==> f.htype == Repeated
    ensures IsSubmessage(TypeCode(f)) <==> f.ltype == Submessage
  {
  }

  lemma NotExtension(f: Field)
    ensures !IsExtension(TypeCode(f))
  {
  }

  /** PB_FIELDINFO_ASSERT_n, with the size offset of wide records kept below 128. */
  predicate FitsWidth(f: Field)
  {
    match f.width
    case 1 => f.tag < 0x40 && f.slot < 0x100 && f.sizeOffset < 0x10 && f.dataSize < 0x10 && f.arraySize < 2
    case 2 => f.tag < 0x400 && f.slot < 0x1_0000 && f.sizeOffset < 0x10 && f.dataSize < 0x1000 && f.arraySize < 0x1000
    case 4 => f.tag < 0x1_0000 && f.slot < 0x1_0000 && f.sizeOffset < 0x80 && f.dataSize < 0x1_0000
        && f.arraySize < 0x1_0000
    case 8 => f.tag < 0x1_0000 && f.slot < 0x1_0000 && f.sizeOffset < 0x80 && f.dataSize < 0x1_0000
        && f.arraySize < 0x1_0000
    case _ => false
  }

  /** The bits every width has in its first word: length code, low tag bits, type. */
  function Head(lengthCode: nat, f: Field): nat
  {
    lengthCode + f.tag * 4 % 0x100 + TypeCode(f) * 0x100
  }

  /** PB_FIELDINFO_1, _2, _4 and _8. */
  function Pack(f: Field): (w: seq<Word>)
    requires FitsWidth(f)
    ensures |w| == f.width
  {
    match f.width
    case 1 =>
      [Head(0, f) + f.slot % 0x100 * 0x1_0000 + f.sizeOffset % 0x10 * 0x100_0000 + f.dataSize % 0x10 * 0x1000_0000]
    case 2 =>
      [Head(1, f) + f.arraySize % 0x1000 * 0x1_0000 + f.sizeOffset % 0x10 * 0x1000_0000,
       f.slot % 0x1_0000 + f.dataSize % 0x1000 * 0x1_0000 + f.tag / 0x40 % 0x10 * 0x1000_0000]
    case 4 =>
      [Head(2, f) + f.arraySize % 0x1_0000 * 0x1_0000, f.sizeOffset + f.tag / 0x40 * 0x100, f.slot, f.dataSize]
    case 8 =>
      [Head(3, f), f.sizeOffset + f.tag / 0x40 * 0x100, f.slot, f.dataSize, f.arraySize, 0, 0, 0]
  }

  predicate AllFit(d: MsgDesc)
  {
    forall i :: 0 <= i < |d.fields| ==> FitsWidth(d.fields[i])
  }

  /** Descriptors the generator emits: well-formed, every record fits, indices fit pb_size_t. */
  ghost predicate WfInfo(d: MsgDesc)
  {
    && WfDesc(d)
    && AllFit(d)
    && WordsBefore(d, |d.fields|) < 0x1_0000
  }

  /** The same for every submessage type below. */
  ghost predicate WfTables(d: MsgDesc)
  {
    WfInfo(d) && forall i :: 0 <= i < |d.fields| && d.fields[i].ltype == Submessage ==> WfTables(d.fields[i].sub)
  }

  function WordsBefore(d: MsgDesc, i: nat): nat
    requires i <= |d.fields|
  {
    if i == 0 then 0 else WordsBefore(d, i - 1) + d.fields[i - 1].width
  }

  function SubmessagesBefore(d: MsgDesc, i: nat): (n: nat)
    requires i <= |d.fields|
    ensures n <= i
  {
    if i == 0 then 0
    else SubmessagesBefore(d, i - 1) + (if d.fields[i - 1].ltype == Submessage then 1 else 0)
  }

  function Records(d: MsgDesc, i: nat): (w: seq<Word>)
    requires i <= |d.fields| && AllFit(d)
    ensures |w| == WordsBefore(d, i)
  {
    if i == 0 then [] else Records(d, i - 1) + Pack(d.fields[i - 1])
  }

  /** structname_field_info: all records and a terminating zero word. */
  function FieldInfo(d: MsgDesc): seq<Word>
    requires AllFit(d)
  {
    Records(d, |d.fields|) + [0]
  }

  /** structname_submsg_info. */
  function SubmsgInfo(d: MsgDesc, i: nat): (r: seq<MsgDesc>)
    requires i <= |d.fields|
    ensures |r| == SubmessagesBefore(d, i)
  {
    if i == 0 then []
    else SubmsgInfo(d, i - 1) + (if d.fields[i - 1].ltype == Submessage then [d.fields[i - 1].sub] else [])
  }

  function LargestTag(d: MsgDesc): nat
  {
    if |d.fields| == 0 then 0 else d.fields[|d.fields| - 1].tag
  }

  lemma {:induction false} RecordsPrefix(d: MsgDesc, i: nat, n: nat)
    requires AllFit(d) && i <= n <= |d.fields|
    ensures WordsBefore(d, i) <= WordsBefore(d, n)
    ensures Records(d, i) <= Records(d, n)
  {
    if i == n {
    } else {
      RecordsPrefix(d, i, n - 1);
    }
  }

  lemma Slice(a: seq<Word>, b: seq<Word>, w: seq<Word>)
    requires a + b <= w
    ensures |a| + |b| <= |w| && w[|a|..|a| + |b|] == b && (b != [] ==> w[|a|] == b[0])
  {
    assert w[|a|..|a| + |b|] == (a + b)[|a|..];
    if b != [] { assert w[|a|] == (a + b)[|a|]; }
  }

  lemma RecordAt(d: MsgDesc, i: nat)
    requires AllFit(d) && i < |d.fields|
    ensures var at := WordsBefore(d, i); var f := d.fields[i];
            && FitsWidth(f) && at + f.width == WordsBefore(d, i + 1) <= WordsBefore(d, |d.fields|)
            && WordsBefore(d, |d.fields|) < |FieldInfo(d)|
            && FieldInfo(d)[at..at + f.width] == Pack(f)
            && FieldInfo(d)[at] == Pack(f)[0]
  {
    hide Pack;
    RecordsPrefix(d, i + 1, |d.fields|);
    Slice(Records(d, i), Pack(d.fields[i]), FieldInfo(d));
  }

  lemma {:induction false} SubmsgAt(d: MsgDesc, i: nat, n: nat)
    requires i < n <= |d.fields| && d.fields[i].ltype == Submessage
    ensures SubmessagesBefore(d, i) < |SubmsgInfo(d, n)|
    ensures SubmsgInfo(d, n)[SubmessagesBefore(d, i)] == d.fields[i].sub
  {
    if i == n - 1 {
    } else {
      SubmsgAt(d, i, n - 1);
    }
  }

  lemma SubmsgOf(d: MsgDesc, i: nat)
    requires i < |d.fields|
    ensures d.fields[i].ltype == Submessage ==>
              SubmessagesBefore(d, i) < |SubmsgInfo(d, |d.fields|)|
              && SubmsgInfo(d, |d.fields|)[SubmessagesBefore(d, i)] == d.fields[i].sub
  {
    if d.fields[i].ltype == Submessage { SubmsgAt(d, i, |d.fields|); }
  }

  /* ------------------------------------------------------------ unpacking */

  /** What load_descriptor_values extracts from a record. */
  datatype Loaded = Loaded(typeCode: nat, tag: nat, arraySize: nat, sizeOffset: nat, offset: nat, dataSize: nat)

  /** The switch of load_descriptor_values; w holds the record's words. */
  function Unpack(w: seq<Word>): Loaded
    requires |w| >= 1
    requires w[0] % 4 == 1 ==> |w| >= 2
    requires w[0] % 4 == 2 ==> |w| >= 4
    requires w[0] % 4 == 3 ==> |w| >= 8
  {
    var w0 := w[0];
    var typeCode := w0 / 0x100 % 0x100;
    if w0 % 4 == 0 then
      Loaded(typeCode, w0 / 4 % 0x40, 1, w0 / 0x100_0000 % 0x10, w0 / 0x1_0000 % 0x100, w0 / 0x1000_0000 % 0x10)
    else if w0 % 4 == 1 then
      Loaded(typeCode, w0 / 4 % 0x40 + w[1] / 0x1000_0000 * 0x40, w0 / 0x1_0000 % 0x1000,
             w0 / 0x1000_0000 % 0x10, w[1] % 0x1_0000, w[1] / 0x1_0000 % 0x1000)
    else if w0 % 4 == 2 then
      Loaded(typeCode, (w0 / 4 % 0x40 + w[1] / 0x100 * 0x40) % 0x1_0000, w0 / 0x1_0000,
             w[1] % 0x100, w[2], w[3] % 0x1_0000)
    else
      Loaded(typeCode, (w0 / 4 % 0x40 + w[1] / 0x100 * 0x40) % 0x1_0000, w[4] % 0x1_0000,
             w[1] % 0x100, w[2], w[3] % 0x1_0000)
  }

  function LoadedOf(f: Field): Loaded
  {
    Loaded(TypeCode(f), f.tag, f.arraySize, f.sizeOffset, f.slot, f.dataSize)
  }

  /** Splits a word into its low part (below m) and the rest. */
  lemma Split(low: nat, high: nat, m: nat)
    requires low < m
    ensures (low + high * m) % m == low && (low + high * m) / m == high
  {
    DivModUnique(low + high * m, high, m, low);
  }

  /** The first word of any record is low + rest * 2^16: its low half is read alike for all widths. */
  lemma HeadBits(lengthCode: nat, f: Field, rest: nat)
    requires lengthCode < 4 && 1 <= f.tag
    ensures var w0 := Head(lengthCode, f) + rest * 0x1_0000;
            && w0 % 4 == lengthCode && w0 / 4 % 0x40 == f.tag % 0x40
            && w0 / 0x100 % 0x100 == TypeCode(f) && w0 / 0x1_0000 == rest
  {
    var w0 := Head(lengthCode, f) + rest * 0x1_0000;
    var t := f.tag % 0x40;
    assert f.tag * 4 % 0x100 == 4 * t by {
      DivModUnique(f.tag * 4, f.tag / 0x40, 0x100, 4 * t);
    }
    assert w0 == (lengthCode + 4 * t) + (TypeCode(f) + rest * 0x100) * 0x100;
    Split(lengthCode + 4 * t, TypeCode(f) + rest * 0x100, 0x100);
    Split(TypeCode(f), rest, 0x100);
    Split(Head(lengthCode, f), rest, 0x1_0000);
    assert w0 == lengthCode + (t + (TypeCode(f) + rest * 0x100) * 0x40) * 4;
    Split(lengthCode, t + (TypeCode(f) + rest * 0x100) * 0x40, 4);
    Split(t, TypeCode(f) + rest * 0x100, 0x40);
  }

  lemma TagBits(tag: nat)
    ensures tag % 0x40 + tag / 0x40 * 0x40 == tag
  {
  }

  lemma Small(x: nat, m: nat)
    requires x < m
    ensures x % m == x
  {
  }

  lemma Width1(f: Field)
    requires FitsWidth(f) && f.width == 1 && f.tag >= 1 && f.arraySize == 1
    ensures Pack(f)[0] % 4 == 0 && Unpack(Pack(f)) == LoadedOf(f)
    ensures Pack(f)[0] == Head(0, f) + (f.slot + (f.sizeOffset + f.dataSize * 0x10) * 0x100) * 0x1_0000
  {
    var rest := f.slot + (f.sizeOffset + f.dataSize * 0x10) * 0x100;
    HeadBits(0, f, rest);
    Small(f.slot, 0x100);
    Small(f.sizeOffset, 0x10);
    Small(f.dataSize, 0x10);
    Small(f.tag, 0x40);
    var w0 := Pack(f)[0];
    assert w0 == Head(0, f) + rest * 0x1_0000;
    Split(f.slot, f.sizeOffset + f.dataSize * 0x10, 0x100);
    Split(f.sizeOffset, f.dataSize, 0x10);
    Split(Head(0, f) + f.slot * 0x1_0000, f.sizeOffset + f.dataSize * 0x10, 0x100_0000);
    Split(Head(0, f) + f.slot * 0x1_0000 + f.sizeOffset * 0x100_0000, f.dataSize, 0x1000_0000);
  }

  lemma Width2Words(f: Field)
    requires FitsWidth(f) && f.width == 2 && f.tag >= 1
    ensures Pack(f)[0] == Head(1, f) + (f.arraySize + f.sizeOffset * 0x1000) * 0x1_0000
    ensures Pack(f)[1] == f.slot + (f.dataSize + f.tag / 0x40 * 0x1000) * 0x1_0000
  {
    Small(f.arraySize, 0x1000);
    Small(f.sizeOffset, 0x10);
    Small(f.slot, 0x1_0000);
    Small(f.dataSize, 0x1000);
    Small(f.tag / 0x40, 0x10);
  }

  lemma Width2(f: Field)
    requires FitsWidth(f) && f.width == 2 && f.tag >= 1
    ensures Pack(f)[0] % 4 == 1 && Unpack(Pack(f)) == LoadedOf(f)
  {
    Width2Words(f);
    HeadBits(1, f, f.arraySize + f.sizeOffset * 0x1000);
    var w0, w1 := Pack(f)[0], Pack(f)[1];
    assert w0 / 0x1_0000 % 0x1000 == f.arraySize by { Split(f.arraySize, f.sizeOffset, 0x1000); }
    assert w0 / 0x1000_0000 == f.sizeOffset by {
      Split(Head(1, f) + f.arraySize * 0x1_0000, f.sizeOffset, 0x1000_0000);
    }
    assert w0 / 0x1000_0000 % 0x10 == f.sizeOffset by { Small(f.sizeOffset, 0x10); }
    assert w1 % 0x1_0000 == f.slot && w1 / 0x1_0000 % 0x1000 == f.dataSize by {
      Split(f.slot, f.dataSize + f.tag / 0x40 * 0x1000, 0x1_0000);
      Split(f.dataSize, f.tag / 0x40, 0x1000);
    }
    assert w1 / 0x1000_0000 == f.tag / 0x40 by {
      Split(f.slot + f.dataSize * 0x1_0000, f.tag / 0x40, 0x1000_0000);
    }
    TagBits(f.tag);
  }

  lemma WideTag(f: Field)
    requires f.tag < 0x1_0000 && f.sizeOffset < 0x80
    ensures var w1 := f.sizeOffset + f.tag / 0x40 * 0x100;
            w1 % 0x100 == f.sizeOffset && (f.tag % 0x40 + w1 / 0x100 * 0x40) % 0x1_0000 == f.tag
  {
    Split(f.sizeOffset, f.tag / 0x40, 0x100);
    TagBits(f.tag);
    Small(f.tag, 0x1_0000);
  }

  lemma Width4(f: Field)
    requires FitsWidth(f) && f.width == 4 && f.tag >= 1
    ensures Pack(f)[0] % 4 == 2 && Unpack(Pack(f)) == LoadedOf(f)
  {
    Small(f.arraySize, 0x1_0000);
    assert Pack(f)[0] == Head(2, f) + f.arraySize * 0x1_0000;
    HeadBits(2, f, f.arraySize);
    WideTag(f);
    Small(f.dataSize, 0x1_0000);
  }

  lemma Width8(f: Field)
    requires FitsWidth(f) && f.width == 8 && f.tag >= 1
    ensures Pack(f)[0] % 4 == 3 && Unpack(Pack(f)) == LoadedOf(f)
  {
    HeadBits(3, f, 0);
    WideTag(f);
    Small(f.dataSize, 0x1_0000);
    Small(f.arraySize, 0x1_0000);
  }

  function LengthCode(width: nat): (c: nat)
    ensures c < 4
  {
    if width == 1 then 0 else if width == 2 then 1 else if width == 4 then 2 else 3
  }

  /** 1 << (descriptor & 3) */
  function RecordLength(w0: Word): nat
  {
    if w0 % 4 == 0 then 1 else if w0 % 4 == 1 then 2 else if w0 % 4 == 2 then 4 else 8
  }

  lemma LowHalf(f: Field)
    requires FitsWidth(f) && f.tag >= 1 && f.arraySize >= 1
    ensures exists rest: nat :: Pack(f)[0] == Head(LengthCode(f.width), f) + rest * 0x1_0000
  {
    if f.width == 1 {
      Width1(f);
    } else if f.width == 2 {
      Width2Words(f);
    } else if f.width == 4 {
      assert Pack(f)[0] == Head(2, f) + f.arraySize % 0x1_0000 * 0x1_0000;
    } else {
      assert Pack(f)[0] == Head(3, f) + 0 * 0x1_0000;
    }
  }

  /** Bits 2..7 and 8..15 of a first word, and the predicates of a type byte. */
  function LowTag(w0: Word): nat { w0 / 4 % 0x40 }
  function TypeOf(w0: Word): nat { w0 / 0x100 % 0x100 }
  predicate IsRequired(typeCode: nat) { typeCode / 0x10 % 4 == 0 }
  predicate IsRepeated(typeCode: nat) { typeCode / 0x10 % 4 == 2 }
  predicate IsSubmessage(typeCode: nat) { typeCode % 16 in {LTYPE_SUBMESSAGE, LTYPE_SUBMSG_W_CB} }
  predicate IsExtension(typeCode: nat) { typeCode % 16 == LTYPE_EXTENSION }

  /** Unpacking inverts packing, at every width. */
  lemma UnpackInvertsPack(f: Field)
    requires FitsWidth(f) && f.tag >= 1 && f.arraySize >= 1
    ensures Pack(f)[0] % 4 == LengthCode(f.width) && RecordLength(Pack(f)[0]) == f.width
    ensures Pack(f)[0] / 4 % 0x40 == f.tag % 0x40 && Pack(f)[0] / 0x100 % 0x100 == TypeCode(f)
    ensures Unpack(Pack(f)) == LoadedOf(f)
  {
    LowHalf(f);
    var rest: nat :| Pack(f)[0] == Head(LengthCode(f.width), f) + rest * 0x1_0000;
    HeadBits(LengthCode(f.width), f, rest);
    match f.width
    case 1 => Width1(f);
    case 2 => Width2(f);
    case 4 => Width4(f);
    case 8 => Width8(f);
  }

  /** Where the members of a record stand, as pb.h documents it for the four widths. */
  lemma Layout(f: Field)
    requires FitsWidth(f) && f.tag >= 1 && f.arraySize >= 1
    ensures var w := Pack(f); var w0 := w[0];
            && w0 / 4 % 0x40 == f.tag % 0x40 && w0 / 0x100 % 0x100 == TypeCode(f)
            && (f.width == 1 ==>
                  && w0 % 4 == 0 && w0 / 0x1_0000 % 0x100 == f.slot && w0 / 0x100_0000 % 0x10 == f.sizeOffset
                  && w0 / 0x1000_0000 % 0x10 == f.dataSize)
            && (f.width == 2 ==>
                  && w0 % 4 == 1 && w0 / 0x1_0000 % 0x1000 == f.arraySize && w0 / 0x1000_0000 % 0x10 == f.sizeOffset
                  && w[1] % 0x1_0000 == f.slot && w[1] / 0x1_0000 % 0x1000 == f.dataSize
                  && f.tag % 0x40 + w[1] / 0x1000_0000 * 0x40 == f.tag)
            && (f.width in {4, 8} ==>
                  && w0 % 4 == (if f.width == 4 then 2 else 3)
                  && (if f.width == 4 then w0 / 0x1_0000 == f.arraySize else w[4] % 0x1_0000 == f.arraySize)
                  && w[1] % 0x100 == f.sizeOffset && w[2] == f.slot && w[3] % 0x1_0000 == f.dataSize
                  && (f.tag % 0x40 + w[1] / 0x100 * 0x40) % 0x1_0000 == f.tag)
  {
    hide Pack, TypeCode;
    UnpackInvertsPack(f);
  }

  /** The type byte of pb.h, at one combination for every kind of field and every type. */
  lemma TypeBytes(f: Field)
    ensures f.htype == Required && f.ltype == Bool ==> TypeCode(f) == 0x00
    ensures f.htype == Optional && f.ltype == Varint ==> TypeCode(f) == 0x11
    ensures f.htype == Repeated && f.ltype == UVarint ==> TypeCode(f) == 0x22
    ensures f.htype == OneOf && f.ltype == SVarint ==> TypeCode(f) == 0x33
    ensures f.htype == Required && f.ltype == Fixed32 ==> TypeCode(f) == 0x04
    ensures f.htype == Optional && f.ltype == Fixed64 ==> TypeCode(f) == 0x15
    ensures f.htype == Repeated && f.ltype == BytesArray ==> TypeCode(f) == 0x26
    ensures f.htype == OneOf && f.ltype == String ==> TypeCode(f) == 0x37
    ensures f.htype == Required && f.ltype == Submessage ==> TypeCode(f) == 0x08
    ensures f.htype == Optional && f.ltype == FixedBytes ==> TypeCode(f) == 0x1B
  {
  }

  /* ------------------------------------------------------------- iterator */

  /** Where pSize points: nowhere, at a struct member, or at the iterator's own array_size. */
  datatype SizePtr = NoSize | Member | OwnArraySize

  /** Everything the iterator reads about record i without unpacking it. */
  lemma RecordFacts(d: MsgDesc, i: nat)
    requires WfInfo(d) && i < |d.fields|
    ensures var at := WordsBefore(d, i); var f := d.fields[i]; var w := FieldInfo(d);
            && at + f.width == WordsBefore(d, i + 1) < 0x1_0000 && at + f.width < |w|
            && RecordLength(w[at]) == f.width
            && LowTag(w[at]) == f.tag % 0x40 && TypeOf(w[at]) == TypeCode(f)
  {
    RecordAt(d, i);
    assert WfField(d.fields[i], d.nslots);
    UnpackInvertsPack(d.fields[i]);
  }

  /** When the walk is back at its start, no field has the wanted tag. */
  lemma Exhausted(d: MsgDesc, start: nat, restart: bool, wanted: nat)
    requires WfInfo(d) && start < |d.fields|
    requires restart ==> wanted < d.fields[start].tag
    requires var first, total := if restart then 0 else start + 1, if restart then start + 1 else |d.fields|;
             forall i :: 0 <= i < |d.fields| && StepsTo(i, first, |d.fields|) < total ==> d.fields[i].tag != wanted
    ensures forall i :: 0 <= i < |d.fields| ==> d.fields[i].tag != wanted
  {
    forall i | 0 <= i < |d.fields| ensures d.fields[i].tag != wanted {
      if restart && i > start { assert d.fields[start].tag < d.fields[i].tag; }
    }
  }

  lemma AboveLargest(d: MsgDesc, wanted: nat)
    requires WfInfo(d) && wanted > LargestTag(d)
    ensures forall i :: 0 <= i < |d.fields| ==> d.fields[i].tag != wanted
  {
    forall i | 0 <= i < |d.fields| - 1 ensures d.fields[i].tag < LargestTag(d) {}
  }

  /** Adding one record's contribution stays within pb_size_t. */
  lemma CountFacts(d: MsgDesc, i: nat)
    requires WfInfo(d) && i < |d.fields|
    ensures var f := d.fields[i];
            && (WordsBefore(d, i) + f.width) % 0x1_0000 == WordsBefore(d, i + 1)
            && (d.RequiredBefore(i) + (if f.htype == Required then 1 else 0)) % 0x1_0000 == d.RequiredBefore(i + 1)
            && (SubmessagesBefore(d, i) + (if f.ltype == Submessage then 1 else 0)) % 0x1_0000
               == SubmessagesBefore(d, i + 1)
  {
    RecordFacts(d, i);
    Small(WordsBefore(d, i + 1), 0x1_0000);
    Small(d.RequiredBefore(i + 1), 0x1_0000);
    Small(SubmessagesBefore(d, i + 1), 0x1_0000);
  }

  function SizePtrOf(f: Field): SizePtr
  {
    if f.sizeOffset != 0 then Member else if f.htype == Repeated then OwnArraySize else NoSize
  }

  /** The reading half of load_descriptor_values, at the first word of record i. */
  method ReadRecord(info: seq<Word>, submsgInfo: seq<MsgDesc>, at: nat, submessageIndex: nat, ghost d: MsgDesc,
      ghost i: nat)
    returns (l: Loaded, size: SizePtr, submsg: Option<MsgDesc>)
    requires WfInfo(d) && i < |d.fields| && info == FieldInfo(d) && at == WordsBefore(d, i)
    requires submsgInfo == SubmsgInfo(d, |d.fields|) && submessageIndex == SubmessagesBefore(d, i)
    ensures l == LoadedOf(d.fields[i]) && size == SizePtrOf(d.fields[i])
    ensures submsg == if d.fields[i].ltype == Submessage then Some(d.fields[i].sub) else None
  {
    RecordAt(d, i);
    assert WfField(d.fields[i], d.nslots);
    UnpackInvertsPack(d.fields[i]);
    TypeCodes(d.fields[i]);
    SubmsgOf(d, i);
    hide WfInfo, FieldInfo, SubmsgInfo, SubmessagesBefore, WordsBefore, Pack, TypeCode, FitsWidth, IsRepeated,
        IsSubmessage;
    var len := RecordLength(info[at]);
    l := Unpack(info[at..at + len]);
    if l.sizeOffset != 0 {
      size := Member;
    } else if IsRepeated(l.typeCode) {
      size := OwnArraySize;
    } else {
      size := NoSize;
    }
    if IsSubmessage(l.typeCode) {
      submsg := Some(submsgInfo[submessageIndex]);
    } else {
      submsg := None;
    }
  }

  class Iterator {
    const desc: MsgDesc
    const info: seq<Word>
    const submsgInfo: seq<MsgDesc>

    var index: nat
    var fieldInfoIndex: nat
    var requiredFieldIndex: nat
    var submessageIndex: nat

    var tag: nat
    var dataSize: nat
    var arraySize: nat
    var typeCode: nat
    var field: nat
    var pSize: SizePtr
    var submsgDesc: Option<MsgDesc>

    /** The iterator walks the tables PB_BIND generates from a proper descriptor. */
    ghost predicate Bound()
    {
      && WfInfo(desc)
      && info == FieldInfo(desc)
      && submsgInfo == SubmsgInfo(desc, |desc.fields|)
    }

    /** The four indices are the prefix counts of the fields before the current one. */
    ghost predicate Positioned()
      reads this`index, this`fieldInfoIndex, this`requiredFieldIndex, this`submessageIndex
    {
      && Bound()
      && (index < |desc.fields| || index == |desc.fields| == 0)
      && fieldInfoIndex == WordsBefore(desc, index)
      && requiredFieldIndex == desc.RequiredBefore(index)
      && submessageIndex == SubmessagesBefore(desc, index)
    }

    /** The values loaded from f's record. */
    ghost predicate Matches(f: Field)
      reads this`typeCode, this`tag, this`dataSize, this`arraySize, this`field, this`pSize, this`submsgDesc
    {
      && typeCode == TypeCode(f) && tag == f.tag && dataSize == f.dataSize
      && arraySize == f.arraySize && field == f.slot
      && pSize == SizePtrOf(f)
      && submsgDesc == (if f.ltype == Submessage then Some(f.sub) else None)
    }

    /** The loaded values are those of the current field; on an empty message they are zero. */
    ghost predicate Valid()
      reads this
      ensures Valid() ==> Positioned()
    {
      && Positioned()
      && (index < |desc.fields| ==> Matches(desc.fields[index]))
      && (|desc.fields| == 0 ==> tag == 0 && typeCode == 0)
    }

    /** pb_field_iter_begin */
    constructor (d: MsgDesc)
      requires WfInfo(d)
      ensures desc == d && index == 0 && Valid()
    {
      desc := d;
      info := FieldInfo(d);
      submsgInfo := SubmsgInfo(d, |d.fields|);
      index, fieldInfoIndex, requiredFieldIndex, submessageIndex := 0, 0, 0, 0;
      tag, dataSize, arraySize, typeCode, field, pSize, submsgDesc := 0, 0, 0, 0, 0, NoSize, None;
      new;
      var _ := LoadDescriptorValues();
    }

    /** load_descriptor_values */
    method LoadDescriptorValues() returns (ok: bool)
      requires Positioned()
      modifies this`tag, this`dataSize, this`arraySize, this`typeCode, this`field, this`pSize, this`submsgDesc
      ensures ok <==> |desc.fields| > 0
      ensures ok ==> Valid()
      ensures !ok ==> tag == old(tag) && typeCode == old(typeCode)
    {
      hide WfInfo, WfDesc, FieldInfo, WordsBefore, SubmessagesBefore, SubmsgInfo, TypeCode, MsgDesc.RequiredBefore;
      if index >= |desc.fields| {
        return false;
      }
      var l, size, submsg := ReadRecord(info, submsgInfo, fieldInfoIndex, submessageIndex, desc, index);
      typeCode, tag, arraySize, field, dataSize, pSize, submsgDesc :=
        l.typeCode, l.tag, l.arraySize, l.offset, l.dataSize, size, submsg;
      return true;
    }

    /** advance_iterator; Find also calls it with the index set to the field count. */
    method AdvanceIterator()
      requires Bound() && (Positioned() || index == |desc.fields|)
      modifies this`index, this`fieldInfoIndex, this`requiredFieldIndex, this`submessageIndex
      ensures Positioned()
      ensures index == if old(index) + 1 < |desc.fields| then old(index) + 1 else 0
    {
      hide TypeCode, RecordLength, LowTag, TypeOf, IsRequired, IsRepeated, IsSubmessage, IsExtension;
      hide WfInfo, WfDesc, FieldInfo, Records, SubmsgInfo;
      index := index + 1;
      if index >= |desc.fields| {
        index, fieldInfoIndex, submessageIndex, requiredFieldIndex := 0, 0, 0, 0;
      } else {
        RecordFacts(desc, index - 1);
        var prevDescriptor := info[fieldInfoIndex];
        var prevType := TypeOf(prevDescriptor);
        var descriptorLen := RecordLength(prevDescriptor);
        CountFacts(desc, index - 1);
        fieldInfoIndex := (fieldInfoIndex + descriptorLen) % 0x1_0000;
        requiredFieldIndex := (requiredFieldIndex + (if IsRequired(prevType) then 1 else 0)) % 0x1_0000;
        submessageIndex := (submessageIndex
          + (if IsSubmessage(prevType) then 1 else 0)) % 0x1_0000;
      }
    }

    /** pb_field_iter_next */
    method Next() returns (more: bool)
      requires Positioned() && (|desc.fields| == 0 ==> Valid())
      modifies this
      ensures Valid()
      ensures index == if old(index) + 1 < |desc.fields| then old(index) + 1 else 0
      ensures more <==> index != 0
    {
      AdvanceIterator();
      var _ := LoadDescriptorValues();
      return index != 0;
    }

    /** The check of one position: low tag bits first, the loaded tag only if they agree. */
    method Candidate(wanted: nat) returns (hit: bool)
      requires Positioned() && index < |desc.fields|
      modifies this`tag, this`dataSize, this`arraySize, this`typeCode, this`field, this`pSize, this`submsgDesc
      ensures hit <==> desc.fields[index].tag == wanted
      ensures hit ==> Valid()
    {
      hide TypeCode, RecordLength, LowTag, TypeOf, IsRequired, IsRepeated, IsSubmessage, IsExtension;
      hide WfInfo, WfDesc, FieldInfo, Records, SubmsgInfo;
      RecordFacts(desc, index);
      var fieldInfo := info[fieldInfoIndex];
      if LowTag(fieldInfo) == wanted % 0x40 {
        var _ := LoadDescriptorValues();
        NotExtension(desc.fields[index]);
        if tag == wanted && !IsExtension(typeCode) {
          return true;
        }
      }
      return false;
    }

    /** pb_field_iter_find: an exact search that never loses its place. */
    method Find(wanted: nat) returns (found: bool)
      requires Valid() && wanted > 0
      modifies this
      ensures Valid()
      ensures found <==> exists i :: 0 <= i < |desc.fields| && desc.fields[i].tag == wanted
      ensures found ==> index < |desc.fields| && desc.fields[index].tag == wanted
      ensures !found ==> index == old(index)
    {
      hide TypeCode, RecordLength, LowTag, TypeOf, IsRequired, IsRepeated, IsSubmessage, IsExtension;
      hide WfInfo, WfDesc, FieldInfo, Records, SubmsgInfo, WordsBefore, SubmessagesBefore, MsgDesc.RequiredBefore;
      if tag == wanted {
        return true;
      } else if wanted > LargestTag(desc) {
        AboveLargest(desc, wanted);
        return false;
      }
      var start := index;
      ghost var n := |desc.fields|;
      ghost var restart := wanted < tag;
      ghost var first := if restart then 0 else start + 1;
      ghost var total := if restart then start + 1 else n;
      if wanted < tag {
        index := |desc.fields|;
      }
      ghost var steps := 0;
      while true
        invariant Bound() && 0 <= steps < total
        invariant steps == 0 ==> index == if restart then n else start
        invariant steps > 0 || !restart ==> Positioned()
        invariant steps > 0 ==> StepsTo(index, first, n) == steps - 1 && index != start
        invariant forall i :: 0 <= i < n && StepsTo(i, first, n) < steps ==> desc.fields[i].tag != wanted
        decreases total - steps
      {
        AdvanceIterator();
        steps := steps + 1;
        var hit := Candidate(wanted);
        if hit {
          return true;
        }
        if index == start {
          break;
        }
      }
      Exhausted(desc, start, restart, wanted);
      var _ := LoadDescriptorValues();
      return false;
    }

    /**
     pb_field_iter_find_extension: what is found is an extension field; else every field has been
     looked at once, in circular order, and the place is kept.
     */
    method FindExtension() returns (found: bool, ghost visited: seq<nat>)
      requires Valid()
      modifies this
      ensures Valid() && (found ==> IsExtension(typeCode)) && (!found ==> index == old(index))
      ensures !found ==> |visited| == |desc.fields|
      ensures !found ==> forall i :: 0 <= i < |desc.fields| ==> i in visited
    {
      hide Toured, TypeCode, IsExtension, RecordLength, LowTag, TypeOf, IsRequired, IsRepeated, IsSubmessage;
      var start := index;
      ghost var n := |desc.fields|;
      TourBegins(start, n);
      visited := [];
      if IsExtension(typeCode) {
        return true, visited;
      }
      while true
        invariant Positioned() && (n == 0 ==> tag == 0 && typeCode == 0)
        invariant if n == 0 then visited == [] else |visited| < n
        invariant n > 0 ==> index == if start + |visited| < n then start + |visited| else start + |visited| - n
        invariant Toured(visited, start, n)
        decreases n - |visited|
      {
        AdvanceIterator();
        if n > 0 {
          RecordFacts(desc, index);
          TourNext(visited, start, index, n);
          visited := visited + [index];
        }
        var fieldInfo := info[fieldInfoIndex];
        if IsExtension(TypeOf(fieldInfo)) {
          var ok := LoadDescriptorValues();
          return ok, visited;
        }
        if index == start {
          break;
        }
      }
      TourEnds(visited, start, n);
      var _ := LoadDescriptorValues();
      return false, visited;
    }
  }

  /** A message without extension fields has none to find. */
  lemma NoExtensionFound(iter: Iterator)
    requires iter.Valid()
    ensures !IsExtension(iter.typeCode)
  {
    if iter.index < |iter.desc.fields| { NotExtension(iter.desc.fields[iter.index]); }
  }

  /** How many fields a circular walk from `first` passes before field i. */
  function StepsTo(i: nat, first: nat, n: nat): int
  {
    if i >= first then i - first else i + n - first
  }

  /** The fields a circular walk has come to, beginning behind `start`. */
  ghost predicate Toured(visited: seq<nat>, start: nat, n: nat)
  {
    forall i :: 0 <= i < n && StepsTo(i, start + 1, n) < |visited| ==> i in visited
  }

  lemma TourBegins(start: nat, n: nat)
    requires n > 0 ==> start < n
    ensures Toured([], start, n)
  {
  }

  lemma TourNext(visited: seq<nat>, start: nat, index: nat, n: nat)
    requires Toured(visited, start, n) && start < n && |visited| < n
    requires index == if start + |visited| + 1 < n then start + |visited| + 1 else start + |visited| + 1 - n
    ensures Toured(visited + [index], start, n)
  {
  }

  lemma TourEnds(visited: seq<nat>, start: nat, n: nat)
    requires Toured(visited, start, n) && |visited| == n && (n > 0 ==> start < n)
    ensures forall i :: 0 <= i < n ==> i in visited
  {
  }
}
