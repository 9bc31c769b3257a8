/**
 The encoded_size analysis of nanopb_generator.py, and the proof that a plain number
 it returns bounds what pb_encode can emit for any value of the type.
 A size that is not a plain number (callback, pointer, unresolved submessage) is None.
 */
module SizeBound {
  import opened Wire
  import opened Schema
  import opened Encoding
  import opened Decoding

  /* ------------------------------------------------------- generator types */

  datatype IntSize = IS_DEFAULT | IS_8 | IS_16 | IS_32 | IS_64

  /** pbtype, with the values of a known enum and the definition of a known submessage. */
  datatype PbType =
    | BOOL | DOUBLE | FLOAT | FIXED32 | FIXED64 | SFIXED32 | SFIXED64
    | INT32 | INT64 | SINT32 | SINT64 | UINT32 | UINT64
    | ENUM(values: Option<seq<int>>)
    | STRING(maxSize: nat) | BYTES(maxSize: nat) | FIXED_LENGTH_BYTES(maxSize: nat)
    | MESSAGE(sub: Option<GenMessage>)

  datatype Rules = REQUIRED | OPTIONAL | SINGULAR | REPEATED | FIXARRAY | ONEOF

  /** FT_STATIC, FT_CALLBACK and, as DYNAMIC, the heap-allocated kind. */
  datatype Allocation = STATIC | DYNAMIC | CALLBACK

  datatype GenField = GenField(tag: nat, pbtype: PbType, intSize: IntSize, rules: Rules, allocation: Allocation,
      maxCount: nat)

  datatype Member = One(field: GenField) | Union(fields: seq<GenField>)

  datatype GenMessage = GenMessage(fields: seq<Member>)

  /* ---------------------------------------------------------- encoded sizes */

  ghost function Pow128(n: nat): (p: nat)
    ensures p >= 1
  {
    if n == 0 then 1 else 128 * Pow128(n - 1)
  }

  /** A varint takes at most n bytes exactly when its value has at most 7n bits. */
  lemma {:induction false} VarintLength(v: nat, n: nat)
    requires n >= 1
    ensures |EncVarint(v)| <= n <==> v < Pow128(n)
  {
    if v >= 128 && n > 1 {
      VarintLength(v / 128, n - 1);
    } else if v < 128 {
      assert Pow128(n) == 128 * Pow128(n - 1);
    }
  }

  /** The number varint_max_size measures: a negative one is turned into 2^64 minus itself. */
  function Measured(v: int): nat
  {
    if v < 0 then U64 - v else v
  }

  /** What varint_max_size returns, or None for its ValueError. */
  function VarintSize(v: int): (r: Option<nat>)
    ensures r.Some? ==> 1 <= r.value <= 10
  {
    if |EncVarint(Measured(v))| <= 10 then Some(|EncVarint(Measured(v))|) else None
  }

  /** varint_max_size */
  method VarintMaxSize(maxValue0: int) returns (r: Option<nat>)
    ensures r == VarintSize(maxValue0)
    ensures r.Some? ==> Measured(maxValue0) < Pow128(r.value)
    ensures r.Some? && r.value > 1 ==> Measured(maxValue0) >= Pow128(r.value - 1)
    ensures r.None? <==> Measured(maxValue0) >= Pow128(10)
  {
    var maxValue := if maxValue0 < 0 then U64 - maxValue0 else maxValue0;
    VarintLength(maxValue, 10);
    var p := 1;
    for i := 1 to 11
      invariant p == Pow128(i - 1)
      invariant i > 1 ==> |EncVarint(maxValue)| > i - 1 && maxValue >= Pow128(i - 1)
    {
      VarintLength(maxValue, i);
      p := 128 * p;
      ShiftedOut(maxValue, p);
      if maxValue / p == 0 {
        return Some(i);
      }
    }
    return None;
  }

  lemma ShiftedOut(v: nat, p: nat)
    requires p >= 1
    ensures v / p == 0 <==> v < p
  {
    if v < p { DivModUnique(v, 0, p, v); }
    if v / p == 0 { assert v == 0 * p + v % p; }
  }

  /** The encoded-size column of the datatypes table. */
  function TableSize(t: PbType, s: IntSize): nat
  {
    match t
    case BOOL => 1
    case DOUBLE => 8
    case FLOAT => 4
    case FIXED32 => 4
    case FIXED64 => 8
    case SFIXED32 => 4
    case SFIXED64 => 8
    case INT32 => 10
    case INT64 => 10
    case SINT32 => if s == IS_8 then 2 else if s == IS_16 then 3 else if s == IS_64 then 10 else 5
    case SINT64 => if s == IS_8 then 2 else if s == IS_16 then 3 else if s == IS_32 then 5 else 10
    case UINT32 => if s == IS_8 then 2 else if s == IS_16 then 3 else if s == IS_64 then 10 else 5
    case UINT64 => if s == IS_8 then 2 else if s == IS_16 then 3 else if s == IS_32 then 5 else 10
    case _ => 0
  }

  function Plus(a: Option<nat>, b: Option<nat>): Option<nat>
  {
    if a.Some? && b.Some? then Some(a.value + b.value) else None
  }

  /** Enum.encoded_size: the largest size of a declared value. */
  function EnumSize(values: seq<int>): Option<nat>
  {
    if values == [] then None
    else if |values| == 1 then VarintSize(values[0])
    else
      var a, b := VarintSize(values[0]), EnumSize(values[1..]);
      if a.None? || b.None? then None else if a.value >= b.value then a else b
  }

  /** A length prefix and a string, less its terminator. */
  function ForString(prefix: Option<nat>, maxSize: nat): (r: Option<nat>)
    requires prefix.Some? ==> prefix.value >= 1
  {
    if prefix.Some? then Some(prefix.value + maxSize - 1) else None
  }

  /** The size of one item without its key. */
  function ItemSize(g: GenField): Option<nat>
    decreases g, 0
  {
    match g.pbtype
    case MESSAGE(sub) =>
      if sub.None? then None
      else
        var n := MessageSize(sub.value);
        if n.None? then None else Plus(n, VarintSize(n.value))
    case ENUM(values) => if values.Some? then EnumSize(values.value) else Some(10)
    case STRING(maxSize) => ForString(VarintSize(maxSize), maxSize)
    case BYTES(maxSize) => Plus(VarintSize(maxSize), Some(maxSize))
    case FIXED_LENGTH_BYTES(maxSize) => Plus(VarintSize(maxSize), Some(maxSize))
    case _ => Some(TableSize(g.pbtype, g.intSize))
  }

  /** Field.encoded_size */
  function FieldSize(g: GenField): Option<nat>
    decreases g, 1
  {
    if g.allocation != STATIC then None
    else
      var one := Plus(ItemSize(g), VarintSize(g.tag * 8));
      if one.None? || g.rules !in {REPEATED, FIXARRAY} then one else Some(ArraySize(one.value, g.maxCount))
  }

  /** Room for n unpacked elements; a single one needs a byte more for its packed form. */
  function ArraySize(one: nat, n: nat): nat
  {
    one * n + (if n == 1 then 1 else 0)
  }

  /** The largest of the given members; what OneOf.encoded_size returns. */
  function UnionSize(fields: seq<GenField>): Option<nat>
  {
    if fields == [] then Some(0)
    else
      var a, b := UnionSize(fields[..|fields| - 1]), FieldSize(fields[|fields| - 1]);
      if a.None? || b.None? then None else if b.value > a.value then b else a
  }

  function MemberSize(g: Member): Option<nat>
  {
    match g case One(f) => FieldSize(f) case Union(fields) => UnionSize(fields)
  }

  /** The sum over the members; what Message.encoded_size returns. */
  function MembersSize(fields: seq<Member>): Option<nat>
  {
    if fields == [] then Some(0)
    else Plus(MembersSize(fields[..|fields| - 1]), MemberSize(fields[|fields| - 1]))
  }

  function MessageSize(g: GenMessage): Option<nat>
  {
    MembersSize(g.fields)
  }

  /* ------------------------------------------------ the analysis as methods */

  lemma {:induction false} UnionPrefix(fields: seq<GenField>, n: nat)
    requires n <= |fields| && UnionSize(fields[..n]).None?
    ensures UnionSize(fields).None?
    decreases |fields| - n
  {
    if n < |fields| {
      assert fields[..n + 1][..n] == fields[..n];
      UnionPrefix(fields, n + 1);
    } else {
      assert fields[..n] == fields;
    }
  }

  lemma {:induction false} MembersPrefix(fields: seq<Member>, n: nat)
    requires n <= |fields| && MembersSize(fields[..n]).None?
    ensures MembersSize(fields).None?
    decreases |fields| - n
  {
    if n < |fields| {
      assert fields[..n + 1][..n] == fields[..n];
      MembersPrefix(fields, n + 1);
    } else {
      assert fields[..n] == fields;
    }
  }

  /** Enum.encoded_size */
  method EnumEncodedSize(values: seq<int>) returns (r: Option<nat>)
    ensures r == EnumSize(values)
  {
    if values == [] {
      return None;
    }
    var i := |values| - 1;
    r := VarintMaxSize(values[i]);
    assert values[i..] == [values[i]];
    while i > 0
      invariant 0 <= i < |values| && r == EnumSize(values[i..])
    {
      i := i - 1;
      var k := VarintMaxSize(values[i]);
      assert values[i..][1..] == values[i + 1..];
      r := if k.None? || r.None? then None else if k.value >= r.value then k else r;
    }
    assert values[0..] == values;
  }

  /** The part of Field.encoded_size before the key is added. */
  method ItemEncodedSize(g: GenField) returns (r: Option<nat>)
    ensures r == ItemSize(g)
    decreases g, 0
  {
    hide VarintSize, EnumSize, MembersSize;
    var prefix;
    match g.pbtype
    case MESSAGE(sub) =>
      if sub.None? {
        return None;
      }
      r := MessageEncodedSize(sub.value);
      if r.None? {
        return None;
      }
      prefix := VarintMaxSize(r.value);
      r := Plus(r, prefix);
    case ENUM(values) =>
      if values.None? {
        return Some(10);
      }
      r := EnumEncodedSize(values.value);
    case STRING(maxSize) =>
      prefix := VarintMaxSize(maxSize);
      r := ForString(prefix, maxSize);
    case BYTES(maxSize) =>
      prefix := VarintMaxSize(maxSize);
      r := Plus(prefix, Some(maxSize));
    case FIXED_LENGTH_BYTES(maxSize) =>
      prefix := VarintMaxSize(maxSize);
      r := Plus(prefix, Some(maxSize));
    case _ =>
      r := Some(TableSize(g.pbtype, g.intSize));
  }

  /** Field.encoded_size */
  method FieldEncodedSize(g: GenField) returns (r: Option<nat>)
    ensures r == FieldSize(g)
    decreases g, 1
  {
    hide ItemSize, VarintSize;
    if g.allocation != STATIC {
      return None;
    }
    var encsize := ItemEncodedSize(g);
    var key := VarintMaxSize(g.tag * 8);
    r := Plus(encsize, key);
    if r.Some? && g.rules in {REPEATED, FIXARRAY} {
      var all := r.value * g.maxCount;
      if g.maxCount == 1 {
        all := all + 1;
      }
      r := Some(all);
    }
  }

  /** OneOf.encoded_size */
  method OneOfEncodedSize(fields: seq<GenField>) returns (r: Option<nat>)
    ensures r == UnionSize(fields)
    decreases fields
  {
    var largest := 0;
    for i := 0 to |fields|
      invariant UnionSize(fields[..i]) == Some(largest)
    {
      assert fields[..i + 1][..i] == fields[..i];
      var size := FieldEncodedSize(fields[i]);
      if size.None? {
        UnionPrefix(fields, i + 1);
        return None;
      }
      if size.value > largest {
        largest := size.value;
      }
    }
    assert fields[..|fields|] == fields;
    return Some(largest);
  }

  /** Message.encoded_size */
  method MessageEncodedSize(g: GenMessage) returns (r: Option<nat>)
    ensures r == MessageSize(g)
    decreases g
  {
    var size := 0;
    for i := 0 to |g.fields|
      invariant MembersSize(g.fields[..i]) == Some(size)
    {
      assert g.fields[..i + 1][..i] == g.fields[..i];
      var fsize;
      match g.fields[i] {
        case One(f) => fsize := FieldEncodedSize(f);
        case Union(fields) => fsize := OneOfEncodedSize(fields);
      }
      if fsize.None? {
        MembersPrefix(g.fields, i + 1);
        return None;
      }
      size := size + fsize.value;
    }
    assert g.fields[..|g.fields|] == g.fields;
    return Some(size);
  }

  /* ------------------------------------------------------------ descriptors */

  function HTypeOf(r: Rules): HType
  {
    match r
    case REQUIRED => Required
    case OPTIONAL => Optional
    case SINGULAR => Optional
    case REPEATED => Repeated
    case FIXARRAY => Repeated
    case ONEOF => OneOf
  }

  /** The bytes of an integer member: int_size if given, else the protobuf type's own. */
  function IntBytes(s: IntSize, own: nat): nat
  {
    match s case IS_DEFAULT => own case IS_8 => 1 case IS_16 => 2 case IS_32 => 4 case IS_64 => 8
  }

  /** sizeof of PB_BYTES_ARRAY_T(n): a 16-bit count and n bytes, padded to the alignment of the count. */
  function SizeofBytes(n: nat): nat
  {
    n + 2 + n % 2
  }

  /**
   f is a descriptor record of the generator's field g. The size of a bytes member depends on
   its padding: SizeofBytes where the count is aligned to two bytes.
   */
  ghost predicate Describes(f: Field, g: GenField)
    decreases g, 0
  {
    && g.allocation == STATIC && f.tag == g.tag && f.htype == HTypeOf(g.rules)
    && (g.rules in {OPTIONAL, REPEATED} ==> f.HasSize()) && (g.rules in {SINGULAR, FIXARRAY} ==> !f.HasSize())
    && (f.htype == Repeated ==> f.arraySize == g.maxCount)
    && match g.pbtype
       case BOOL => f.ltype == Bool
       case DOUBLE => f.ltype == Fixed64
       case FIXED64 => f.ltype == Fixed64
       case SFIXED64 => f.ltype == Fixed64
       case FLOAT => f.ltype == Fixed32
       case FIXED32 => f.ltype == Fixed32
       case SFIXED32 => f.ltype == Fixed32
       case INT32 => f.ltype == Varint && f.dataSize == IntBytes(g.intSize, 4)
       case INT64 => f.ltype == Varint && f.dataSize == IntBytes(g.intSize, 8)
       case SINT32 => f.ltype == SVarint && f.dataSize == IntBytes(g.intSize, 4)
       case SINT64 => f.ltype == SVarint && f.dataSize == IntBytes(g.intSize, 8)
       case UINT32 => f.ltype == UVarint && f.dataSize == IntBytes(g.intSize, 4)
       case UINT64 => f.ltype == UVarint && f.dataSize == IntBytes(g.intSize, 8)
       case ENUM(_) => f.ltype in {Varint, UVarint}
       case STRING(maxSize) => f.ltype == String && f.dataSize == maxSize
       case BYTES(maxSize) => f.ltype == BytesArray && maxSize + 2 <= f.dataSize <= maxSize + 3
       case FIXED_LENGTH_BYTES(maxSize) => f.ltype == FixedBytes && f.dataSize == maxSize
       case MESSAGE(sub) => f.ltype == Submessage && (sub.Some? ==> DescribesMessage(f.sub, sub.value))
  }

  function Count(m: Member): nat
  {
    if m.One? then 1 else |m.fields|
  }

  function FieldAt(m: Member, j: nat): GenField
    requires j < Count(m)
  {
    if m.One? then m.field else m.fields[j]
  }

  /** The j-th field of member k. */
  datatype Place = Place(k: nat, j: nat)

  ghost predicate InMessage(g: GenMessage, p: Place)
  {
    p.k < |g.fields| && p.j < Count(g.fields[p.k])
  }

  ghost function GenAt(g: GenMessage, p: Place): GenField
    requires InMessage(g, p)
  {
    FieldAt(g.fields[p.k], p.j)
  }

  /** Where the message declares the given tag, searching from a place on. */
  ghost function Locate(g: GenMessage, tag: nat, k: nat, j: nat): (r: Option<Place>)
    ensures r.Some? ==> InMessage(g, r.value) && GenAt(g, r.value).tag == tag
    decreases |g.fields| - k, if k < |g.fields| then Count(g.fields[k]) - j else 0
  {
    if k >= |g.fields| then None
    else if j >= Count(g.fields[k]) then Locate(g, tag, k + 1, 0)
    else if FieldAt(g.fields[k], j).tag == tag then Some(Place(k, j))
    else Locate(g, tag, k, j + 1)
  }

  /** The place of record i. */
  ghost function Owner(d: MsgDesc, g: GenMessage, i: nat): (r: Option<Place>)
    requires i < |d.fields|
    ensures r.Some? ==> InMessage(g, r.value) && GenAt(g, r.value).tag == d.fields[i].tag
  {
    Locate(g, d.fields[i].tag, 0, 0)
  }

  /** Every record describes a declared field; the records of one member are alternatives in one union. */
  ghost predicate DescribesMessage(d: MsgDesc, g: GenMessage)
    decreases g, 1
  {
    forall i :: 0 <= i < |d.fields| ==>
      && Owner(d, g, i).Some?
      && var p := Owner(d, g, i).value;
      && Describes(d.fields[i], GenAt(g, p))
      && (g.fields[p.k].Union? <==> GenAt(g, p).rules == ONEOF)
      && forall i' :: 0 <= i' < i && Owner(d, g, i').Some? && Owner(d, g, i').value.k == p.k ==>
           d.fields[i].slot == d.fields[i'].slot
  }

  /* ------------------------------------------------- values the bound is for */

  /**
   Enum members hold one of their declared values. Byte strings stay within max_size: of the
   lengths the encoder accepts that rules out one more byte, stored in the padding.
   */
  ghost predicate DeclaredValue(f: Field, g: GenField, v: Value)
    decreases g, 0
  {
    match g.pbtype
    case ENUM(values) => values.Some? && v.VInt? ==> v.n in values.value
    case BYTES(maxSize) => v.VBytes? && |v.b| + 2 <= f.dataSize ==> |v.b| <= maxSize
    case MESSAGE(sub) => sub.Some? && v.VMsg? ==> DeclaredMessage(f.sub, sub.value, v.m)
    case _ => true
  }

  ghost predicate DeclaredSlot(f: Field, g: GenField, s: Slot)
    decreases g, 1
  {
    match s
    case Plain(v) => DeclaredValue(f, g, v)
    case Opt(has, v) => has ==> DeclaredValue(f, g, v)
    case Many(items, _) => forall n :: 0 <= n < |items| ==> DeclaredValue(f, g, items[n])
    case Choice(which, v) => which == f.tag ==> DeclaredValue(f, g, v)
  }

  ghost predicate DeclaredMessage(d: MsgDesc, g: GenMessage, m: Msg)
    decreases g, 2
  {
    forall i :: 0 <= i < |d.fields| && d.fields[i].slot < |m.slots| && Owner(d, g, i).Some? ==>
      DeclaredSlot(d.fields[i], GenAt(g, Owner(d, g, i).value), m.slots[d.fields[i].slot])
  }

  /* -------------------------------------------------------------- the bound */

  ghost function Len(o: Option<Bytes>): nat
  {
    if o.Some? then |o.value| else 0
  }

  /** A key is as long as its tag shifted into place, whatever the wire type. */
  lemma TagLength(tag: nat, wireType: nat)
    requires wireType < 8
    ensures |EncTag(tag, wireType)| == |EncVarint(tag * 8)|
  {
    assert (tag * 8 + wireType) / 128 == tag / 16 == tag * 8 / 128;
  }

  lemma PowFacts()
    ensures Pow128(1) == 128 && Pow128(2) == 0x4000 && Pow128(3) == 0x20_0000 && Pow128(4) == 0x1000_0000
    ensures Pow128(5) == 0x8_0000_0000
  {
    assert Pow128(1) == 128 * Pow128(0);
    assert Pow128(2) == 128 * Pow128(1);
    assert Pow128(3) == 128 * Pow128(2);
    assert Pow128(4) == 128 * Pow128(3);
    assert Pow128(5) == 128 * Pow128(4);
  }

  /** Varint lengths at the widths the datatypes table distinguishes. */
  lemma WordLength(w: nat)
    requires w < U64
    ensures |EncVarint(w)| <= 10
    ensures w < 2 ==> |EncVarint(w)| == 1
    ensures w < 0x100 ==> |EncVarint(w)| <= 2
    ensures w < 0x1_0000 ==> |EncVarint(w)| <= 3
    ensures w < U32 ==> |EncVarint(w)| <= 5
  {
    PowFacts();
    VarintAtMostTen(w);
    VarintLength(w, 2);
    VarintLength(w, 3);
    VarintLength(w, 5);
  }

  /** The datatypes table never understates an integer, bool or float. */
  lemma TableBound(f: Field, g: GenField, nslots: nat, v: Value)
    requires WfField(f, nslots) && Describes(f, g) && ValueFits(f, v)
    requires f.ltype !in {BytesArray, String, FixedBytes, Submessage} && !g.pbtype.ENUM?
    ensures v.VInt? && Len(EncData(f, v)) <= TableSize(g.pbtype, g.intSize)
    ensures f.ltype == Bool ==> Len(EncInt(f, v.n)) <= TableSize(g.pbtype, g.intSize)
  {
    hide EncVarint;
    if f.ltype == SVarint {
      WordLength(ZigZag(v.n));
    } else {
      WordLength(v.n % U64);
    }
    WordLength(0);
    WordLength(1);
  }

  /** A negative value is measured as ten bytes, which is what it takes. */
  lemma NegativeLength(v: int)
    requires -U64 / 2 <= v < 0
    ensures |EncVarint(v % U64)| <= 10 && VarintSize(v) == Some(10)
  {
    hide EncVarint;
    VarintAtMostTen(v % U64);
    PowFacts();
    assert Pow128(9) == 128 * 128 * 128 * 128 * Pow128(5);
    assert Pow128(10) == 128 * Pow128(9);
    VarintLength(U64 - v, 9);
    VarintLength(U64 - v, 10);
  }

  lemma {:induction false} EnumBound(values: seq<int>, v: int)
    requires v in values && EnumSize(values).Some? && -U64 / 2 <= v < U64
    ensures |EncVarint(v % U64)| <= EnumSize(values).value <= 10
    decreases |values|
  {
    hide EncVarint;
    if v == values[0] {
      if v < 0 { NegativeLength(v); } else { assert v % U64 == v; }
      if |values| > 1 { EnumAtMostTen(values[1..]); }
    } else {
      EnumBound(values[1..], v);
    }
  }

  lemma {:induction false} EnumAtMostTen(values: seq<int>)
    requires EnumSize(values).Some?
    ensures EnumSize(values).value <= 10
  {
    if |values| == 1 {
    } else {
      EnumAtMostTen(values[1..]);
    }
  }

  /** The length prefix a packed array needs beside its items. */
  lemma {:induction false} PrefixLength(size: nat)
    ensures |EncVarint(size)| <= 1 + size / 128
  {
    if size < 128 {
    } else {
      PrefixLength(size / 128);
    }
  }

  lemma MulGrows(a: nat, b: nat, c: nat)
    requires a <= b
    ensures a * c <= b * c
  {
    assert b * c - a * c == (b - a) * c;
  }

  /** n keys of at least one byte pay for one key and the length prefix, unless n is 1. */
  lemma PackedPays(n: nat, count: nat, key: nat, item: nat, data: nat)
    requires 1 <= count <= n && key >= 1 && item <= 10 && data <= count * item
    ensures key + |EncVarint(data)| + data <= ArraySize(item + key, n)
  {
    hide EncVarint;
    PrefixLength(data);
    MulGrows(count, n, item);
    MulGrows(item, 10, n);
    MulGrows(1, key, n - 1);
    assert (item + key) * n == n * item + key * (n - 1) + key;
  }

  lemma {:induction false} PackedItemsBound(f: Field, g: GenField, nslots: nat, items: seq<Value>)
    requires WfField(f, nslots) && Describes(f, g) && f.Packable() && ItemSize(g).Some?
    requires forall k :: 0 <= k < |items| ==> ValueFits(f, items[k]) && DeclaredValue(f, g, items[k])
    ensures Len(EncPackedItems(f, items)) <= |items| * ItemSize(g).value
  {
    if items == [] {
    } else {
      PackedItemsBound(f, g, nslots, items[1..]);
      PackableBound(f, g, nslots, items[0]);
      assert |items| * ItemSize(g).value == (|items| - 1) * ItemSize(g).value + ItemSize(g).value;
    }
  }

  /** An item that may be packed, in either form. */
  lemma PackableBound(f: Field, g: GenField, nslots: nat, v: Value)
    requires WfField(f, nslots) && Describes(f, g) && f.Packable() && ItemSize(g).Some?
    requires ValueFits(f, v) && DeclaredValue(f, g, v)
    ensures v.VInt? && Len(EncData(f, v)) <= ItemSize(g).value <= 10
    ensures Len(if f.ltype in {Fixed32, Fixed64} then EncWord(f, v.n) else EncInt(f, v.n)) <= ItemSize(g).value
  {
    hide EncVarint;
    if g.pbtype.ENUM? {
      if g.pbtype.values.Some? { EnumBound(g.pbtype.values.value, v.n); }
      WordLength(v.n % U64);
    } else {
      TableBound(f, g, nslots, v);
    }
  }

  lemma {:induction false} ItemBound(f: Field, g: GenField, nslots: nat, v: Value)
    requires WfField(f, nslots) && Describes(f, g) && ItemSize(g).Some?
    requires ValueFits(f, v) && DeclaredValue(f, g, v)
    ensures Len(EncData(f, v)) <= ItemSize(g).value
    decreases f, 0
  {
    if f.Packable() {
      PackableBound(f, g, nslots, v);
    } else if f.ltype == Submessage {
      var sub := g.pbtype.sub.value;
      MessageBound(f.sub, sub, v.m);
      VarintLengthMonotone(Len(EncMsg(f.sub, v.m)), MessageSize(sub).value);
    } else {
      var content := if f.ltype == String then CStr(v.b) else v.b;
      if |content| <= g.pbtype.maxSize { VarintLengthMonotone(|content|, g.pbtype.maxSize); }
    }
  }

  lemma {:induction false} UnpackedBound(f: Field, g: GenField, nslots: nat, items: seq<Value>, key: nat)
    requires WfField(f, nslots) && Describes(f, g) && ItemSize(g).Some? && key == |EncVarint(f.tag * 8)|
    requires forall k :: 0 <= k < |items| ==> ValueFits(f, items[k]) && DeclaredValue(f, g, items[k])
    ensures Len(EncUnpacked(f, items)) <= |items| * (ItemSize(g).value + key)
    decreases f, 1, |items|
  {
    hide ItemSize, ValueFits, DeclaredValue, EncVarint, EncData, Describes;
    if items == [] {
    } else {
      UnpackedBound(f, g, nslots, items[1..], key);
      ItemBound(f, g, nslots, items[0]);
      TagLength(f.tag, WireTypeOf(f.ltype));
      var one := ItemSize(g).value + key;
      assert |items| * one == (|items| - 1) * one + one;
    }
  }

  /** encode_array against the size of a repeated field. */
  lemma {:induction false} ArrayBound(f: Field, g: GenField, nslots: nat, items: seq<Value>)
    requires WfField(f, nslots) && Describes(f, g) && ItemSize(g).Some? && f.htype == Repeated
    requires forall k :: 0 <= k < |items| ==> ValueFits(f, items[k]) && DeclaredValue(f, g, items[k])
    ensures Len(EncArray(f, items)) <= ArraySize(ItemSize(g).value + |EncVarint(g.tag * 8)|, g.maxCount)
    decreases f, 2
  {
    hide WfField, ItemSize, ValueFits, DeclaredValue, EncVarint, EncPackedItems, EncUnpacked;
    var key, item := |EncVarint(f.tag * 8)|, ItemSize(g).value;
    if items != [] && |items| <= f.arraySize {
      if f.Packable() {
        TagLength(f.tag, WT_STRING);
        PackedItemsBound(f, g, nslots, items);
        PackableBound(f, g, nslots, items[0]);
        PackedPays(g.maxCount, |items|, key, item, Len(EncPackedItems(f, items)));
      } else {
        UnpackedBound(f, g, nslots, items, key);
        MulGrows(|items|, g.maxCount, item + key);
      }
    }
  }

  lemma {:induction false} FieldBound(d: MsgDesc, f: Field, g: GenField, nslots: nat, s: Slot)
    requires WfField(f, nslots) && Describes(f, g) && FieldSize(g).Some?
    requires SlotFits(f, s) && DeclaredSlot(f, g, s)
    ensures Len(EncField(d, f, s)) <= FieldSize(g).value
    decreases f, 3
  {
    hide WfField, ItemSize, ValueFits, DeclaredValue, EncVarint, EncArray, EncData, IsDefault;
    TagLength(f.tag, WireTypeOf(f.ltype));
    match s
    case Many(items, _) => ArrayBound(f, g, nslots, items);
    case Plain(v) => ItemBound(f, g, nslots, v);
    case Opt(has, v) => if has { ItemBound(f, g, nslots, v); }
    case Choice(which, v) => if which == f.tag { ItemBound(f, g, nslots, v); }
  }

  /* -------------------------------------------------- summing over members */

  ghost function Sum(s: seq<nat>): nat
  {
    if s == [] then 0 else Sum(s[..|s| - 1]) + s[|s| - 1]
  }

  lemma {:induction false} SumPut(s: seq<nat>, k: nat, extra: nat)
    requires k < |s|
    ensures Sum(s[k := s[k] + extra]) == Sum(s) + extra
  {
    var n := |s| - 1;
    var r := s[k := s[k] + extra];
    if k < n {
      assert r[..n] == s[..n][k := s[k] + extra];
      SumPut(s[..n], k, extra);
    } else {
      assert r[..n] == s[..n];
    }
  }

  lemma {:induction false} SumZeros(n: nat)
    ensures Sum(seq(n, _ => 0)) == 0
  {
    if n == 0 {
    } else {
      assert seq(n, _ => 0)[..n - 1] == seq(n - 1, _ => 0);
      SumZeros(n - 1);
    }
  }

  lemma {:induction false} SumBelow(s: seq<nat>, fields: seq<Member>)
    requires |s| == |fields| && MembersSize(fields).Some?
    requires forall k :: 0 <= k < |s| ==> MemberSize(fields[k]).Some? && s[k] <= MemberSize(fields[k]).value
    ensures Sum(s) <= MembersSize(fields).value
  {
    if s == [] {
    } else {
      SumBelow(s[..|s| - 1], fields[..|s| - 1]);
    }
  }

  lemma {:induction false} MemberKnown(fields: seq<Member>, k: nat)
    requires MembersSize(fields).Some? && k < |fields|
    ensures MemberSize(fields[k]).Some?
  {
    if k == |fields| - 1 {
    } else {
      MemberKnown(fields[..|fields| - 1], k);
    }
  }

  lemma {:induction false} UnionCovers(fields: seq<GenField>, j: nat)
    requires UnionSize(fields).Some? && j < |fields|
    ensures FieldSize(fields[j]).Some? && FieldSize(fields[j]).value <= UnionSize(fields).value
  {
    if j == |fields| - 1 {
    } else {
      UnionCovers(fields[..|fields| - 1], j);
    }
  }

  ghost predicate AllOwned(d: MsgDesc, g: GenMessage)
  {
    forall i :: 0 <= i < |d.fields| ==> Owner(d, g, i).Some?
  }

  ghost function OwnerOf(d: MsgDesc, g: GenMessage, i: nat): (k: nat)
    requires i < |d.fields| && AllOwned(d, g)
    ensures k < |g.fields|
  {
    Owner(d, g, i).value.k
  }

  /** The bytes record i contributes. */
  ghost function FieldLen(d: MsgDesc, m: Msg, i: nat): nat
    requires i < |d.fields|
  {
    if d.fields[i].slot < |m.slots| then Len(EncField(d, d.fields[i], m.slots[d.fields[i].slot])) else 0
  }

  /** Bytes of the records from i on, charged to the members that own them. */
  ghost function Charges(d: MsgDesc, g: GenMessage, m: Msg, i: nat): (c: seq<nat>)
    requires i <= |d.fields| && AllOwned(d, g)
    ensures |c| == |g.fields|
    decreases |d.fields| - i
  {
    if i == |d.fields| then seq(|g.fields|, _ => 0)
    else
      var c, k := Charges(d, g, m, i + 1), OwnerOf(d, g, i);
      c[k := c[k] + FieldLen(d, m, i)]
  }

  lemma {:induction false} ChargesAll(d: MsgDesc, g: GenMessage, m: Msg, i: nat)
    requires i <= |d.fields| && AllOwned(d, g)
    ensures Len(EncFrom(d, m, i)) <= Sum(Charges(d, g, m, i))
    decreases |d.fields| - i
  {
    if i == |d.fields| {
      SumZeros(|g.fields|);
    } else {
      ChargesAll(d, g, m, i + 1);
      SumPut(Charges(d, g, m, i + 1), OwnerOf(d, g, i), FieldLen(d, m, i));
    }
  }

  /** Only one alternative of a member can be on the wire. */
  lemma Alone(d: MsgDesc, g: GenMessage, m: Msg, i: nat, i': nat)
    requires WfDesc(d) && DescribesMessage(d, g) && AllOwned(d, g) && MsgFits(d, m) && i < i' < |d.fields|
    requires OwnerOf(d, g, i) == OwnerOf(d, g, i')
    ensures FieldLen(d, m, i) == 0 || FieldLen(d, m, i') == 0
  {
    var k := OwnerOf(d, g, i);
    var f, f' := d.fields[i], d.fields[i'];
    assert f.tag != f'.tag && f.slot == f'.slot;
    if g.fields[k].Union? {
      assert f.htype == OneOf && f'.htype == OneOf;
      assert SlotFits(f, m.slots[f.slot]);
    }
  }

  lemma {:induction false} ChargeBound(d: MsgDesc, g: GenMessage, m: Msg, i: nat, k: nat)
    requires i <= |d.fields| && k < |g.fields|
    requires WfDesc(d) && DescribesMessage(d, g) && AllOwned(d, g) && MsgFits(d, m) && MemberSize(g.fields[k]).Some?
    requires forall j :: 0 <= j < |d.fields| && OwnerOf(d, g, j) == k ==>
               FieldLen(d, m, j) <= MemberSize(g.fields[k]).value
    ensures Charges(d, g, m, i)[k] <= MemberSize(g.fields[k]).value
    ensures Charges(d, g, m, i)[k] > 0 ==>
              exists j :: i <= j < |d.fields| && OwnerOf(d, g, j) == k && FieldLen(d, m, j) > 0
    decreases |d.fields| - i
  {
    hide WfDesc, MsgFits, DescribesMessage, MemberSize;
    if i == |d.fields| {
    } else {
      ChargeBound(d, g, m, i + 1, k);
      if OwnerOf(d, g, i) == k && Charges(d, g, m, i + 1)[k] > 0 {
        var j :| i + 1 <= j < |d.fields| && OwnerOf(d, g, j) == k && FieldLen(d, m, j) > 0;
        Alone(d, g, m, i, j);
      }
    }
  }

  /** One record's bytes fit the size of the member it belongs to. */
  lemma {:induction false} RecordBound(d: MsgDesc, g: GenMessage, m: Msg, i: nat)
    requires i < |d.fields|
    requires WfDesc(d) && DescribesMessage(d, g) && MsgFits(d, m) && DeclaredMessage(d, g, m) && MessageSize(g).Some?
    requires AllOwned(d, g)
    ensures var k := OwnerOf(d, g, i);
            MemberSize(g.fields[k]).Some? && FieldLen(d, m, i) <= MemberSize(g.fields[k]).value
    decreases d, 0
  {
    var Place(k, j) := Owner(d, g, i).value;
    var f, gf := d.fields[i], FieldAt(g.fields[k], j);
    assert WfField(f, d.nslots);
    assert SlotFits(f, m.slots[f.slot]) && DeclaredSlot(f, gf, m.slots[f.slot]);
    MemberKnown(g.fields, k);
    if g.fields[k].Union? { UnionCovers(g.fields[k].fields, j); }
    FieldBound(d, f, gf, d.nslots, m.slots[f.slot]);
  }

  /** A plain-number size is never exceeded by anything pb_encode writes for the message type. */
  lemma {:induction false} MessageBound(d: MsgDesc, g: GenMessage, m: Msg)
    requires WfDesc(d) && DescribesMessage(d, g) && MsgFits(d, m) && DeclaredMessage(d, g, m) && MessageSize(g).Some?
    ensures Len(EncMsg(d, m)) <= MessageSize(g).value
    decreases d, 1
  {
    hide WfDesc, MsgFits, DeclaredMessage, MemberSize, Describes, Locate;
    assert AllOwned(d, g);
    forall i | 0 <= i < |d.fields|
      ensures var k := OwnerOf(d, g, i);
              MemberSize(g.fields[k]).Some? && FieldLen(d, m, i) <= MemberSize(g.fields[k]).value
    {
      RecordBound(d, g, m, i);
    }
    forall k | 0 <= k < |g.fields|
      ensures MemberSize(g.fields[k]).Some? && Charges(d, g, m, 0)[k] <= MemberSize(g.fields[k]).value
    {
      MemberKnown(g.fields, k);
      ChargeBound(d, g, m, 0, k);
    }
    ChargesAll(d, g, m, 0);
    SumBelow(Charges(d, g, m, 0), g.fields);
  }

  /** With max_count 1 the additional byte is used up, by any packed bool array holding its one element. */
  lemma ExtraByteIsNeeded(f: Field, g: GenField, v: Value)
    requires Describes(f, g) && f.ltype == Bool && f.dataSize == 1 && g.rules in {REPEATED, FIXARRAY} && g.maxCount == 1
    requires ValueFits(f, v)
    ensures FieldSize(g).Some?
          ==> Len(EncArray(f, [v])) == FieldSize(g).value == ItemSize(g).value + |EncVarint(g.tag * 8)| + 1
  {
    TagLength(f.tag, WT_STRING);
    assert EncPackedItems(f, [v]) == Cat(EncInt(f, v.n), Some([]));
    WordLength(v.n);
    assert v.n % U64 == v.n;
  }

  /* ------------------------------------------------------- padded byte strings */

  ghost predicate BytesWithin(f: Field, g: GenField)
  {
    ItemSize(g).Some? && forall b: Bytes :: Len(EncData(f, VBytes(b))) <= ItemSize(g).value
  }

  /**
   Everything the encoder accepts for a bytes field stays within the size computed for it exactly
   when the member has no padding, that is with two-byte alignment when max_size is even.
   */
  lemma BytesWithinIff(f: Field, g: GenField, nslots: nat)
    requires WfField(f, nslots) && Describes(f, g) && g.pbtype.BYTES?
    ensures BytesWithin(f, g) <==> f.dataSize == g.pbtype.maxSize + 2
    ensures f.dataSize == SizeofBytes(g.pbtype.maxSize) ==> (BytesWithin(f, g) <==> g.pbtype.maxSize % 2 == 0)
  {
    var maxSize := g.pbtype.maxSize;
    WordLength(maxSize);
    if f.dataSize == maxSize + 2 {
      forall b: Bytes ensures Len(EncData(f, VBytes(b))) <= ItemSize(g).value {
        assert DeclaredValue(f, g, VBytes(b));
        ItemBound(f, g, nslots, VBytes(b));
      }
    } else {
      var b: Bytes := seq(maxSize + 1, _ => 0);
      VarintLengthMonotone(maxSize, maxSize + 1);
      assert Len(EncData(f, VBytes(b))) > ItemSize(g).value;
    }
  }

  /** A required bytes field with tag 1 and max_size 5, its record, and six bytes stored in it. */
  function OddField(): GenField
  {
    GenField(1, BYTES(5), IS_DEFAULT, REQUIRED, STATIC, 0)
  }

  function OddRecord(): Field
  {
    Field(1, Required, BytesArray, 0, SizeofBytes(5), 1, 0, 4, None, MsgDesc([], 0))
  }

  function OddDesc(): MsgDesc
  {
    MsgDesc([OddRecord()], 1)
  }

  function OddMessage(): GenMessage
  {
    GenMessage([One(OddField())])
  }

  function OddContent(): Msg
  {
    Msg([Plain(VBytes([1, 2, 3, 4, 5, 6]))])
  }

  /** Such a message: its size is 7, but it is decoded from eight bytes and encoded to as many. */
  lemma OddBytesExceed()
    ensures var d, g := OddDesc(), OddMessage();
            && WfDesc(d) && DescribesMessage(d, g) && MsgFits(d, OddContent()) && MessageSize(g) == Some(7)
            && EncMsg(d, OddContent()) == Some([0x0A, 6, 1, 2, 3, 4, 5, 6])
            && DecMsg(d, [0x0A, 6, 1, 2, 3, 4, 5, 6], ZeroMsg(d), true) == Some(OddContent())
  {
    hide WfDesc, DescribesMessage, MsgFits, MessageSize, EncMsg, DecMsg;
    OddTypes();
    OddDescribed();
    OddSize();
    OddEncoding();
    OddDecoding();
  }

  lemma OddDescribed()
    ensures DescribesMessage(OddDesc(), OddMessage())
  {
    var d, g := OddDesc(), OddMessage();
    assert Owner(d, g, 0) == Some(Place(0, 0));
    assert Describes(OddRecord(), OddField());
  }

  lemma OddTypes()
    ensures WfDesc(OddDesc()) && MsgFits(OddDesc(), OddContent())
  {
    assert WfField(OddRecord(), 1);
    assert SlotFits(OddRecord(), OddContent().slots[0]);
  }

  lemma OddSize()
    ensures MessageSize(OddMessage()) == Some(7)
  {
    var fields := [One(OddField())];
    assert fields[..0] == [];
    assert EncVarint(5) == [5] && EncVarint(8) == [8];
    assert FieldSize(OddField()) == Some(7);
  }

  lemma OddEncoding()
    ensures EncMsg(OddDesc(), OddContent()) == Some([0x0A, 6, 1, 2, 3, 4, 5, 6])
  {
    var d := OddDesc();
    OddFieldEncoding(d);
    hide EncField;
    assert EncFrom(d, OddContent(), 1) == Some([]);
    assert [0x0A, 6, 1, 2, 3, 4, 5, 6] + [] == [0x0A, 6, 1, 2, 3, 4, 5, 6];
  }

  lemma OddFieldEncoding(d: MsgDesc)
    ensures EncField(d, OddRecord(), OddContent().slots[0]) == Some([0x0A, 6, 1, 2, 3, 4, 5, 6])
  {
    var content: Bytes := [1, 2, 3, 4, 5, 6];
    assert EncVarint(6) == [6] && EncTag(1, WT_STRING) == [0x0A];
    assert [6] + content == [6, 1, 2, 3, 4, 5, 6];
    assert EncData(OddRecord(), VBytes(content)) == Some([6] + content);
    assert [0x0A] + ([6] + content) == [0x0A, 6, 1, 2, 3, 4, 5, 6];
  }

  lemma OddBlob(body: Bytes)
    requires body == [6, 1, 2, 3, 4, 5, 6]
    ensures DecBlob(OddRecord(), body) == Ok(VBytes([1, 2, 3, 4, 5, 6]), 7)
  {
    assert DecVarint32(body) == Ok(6, 1);
    assert body[1..7] == [1, 2, 3, 4, 5, 6];
  }

  lemma OddRecordDecoding(body: Bytes, st: State)
    requires body == [6, 1, 2, 3, 4, 5, 6] && |st.m.slots| == 1 && st.m.slots[0].Plain? && st.seen == {}
    ensures DecField(OddDesc(), 0, WT_STRING, body, st) == Ok(State(OddContent(), st.fc, {0}), 7)
  {
    hide DecBlob;
    OddBlob(body);
    assert PutSlot(st.m, 0, OddContent().slots[0]) == OddContent();
    assert st.seen + {0} == {0};
    assert DecStatic(OddRecord(), WT_STRING, body, st.m.slots[0], 0) == Ok(SlotResult(OddContent().slots[0], 0), 7);
  }

  lemma OddStart(st: State)
    requires st == Start(OddDesc(), ZeroMsg(OddDesc()), true)
    ensures |st.m.slots| == 1 && st.m.slots[0].Plain? && st.seen == {} && st.fc == NoField
  {
    assert DefaultsFrom(OddDesc(), ZeroMsg(OddDesc()), 0) == ZeroMsg(OddDesc());
  }

  lemma OddDecoding()
    ensures DecMsg(OddDesc(), [0x0A, 6, 1, 2, 3, 4, 5, 6], ZeroMsg(OddDesc()), true) == Some(OddContent())
  {
    hide DecField, Start, ZeroMsg;
    var d, s: Bytes := OddDesc(), [0x0A, 6, 1, 2, 3, 4, 5, 6];
    var st := Start(d, ZeroMsg(d), true);
    OddStart(st);
    assert DecTag(s) == Ok(Key(1, WT_STRING), 1);
    assert s[1..] == [6, 1, 2, 3, 4, 5, 6] && s[8..] == [];
    OddRecordDecoding(s[1..], st);
    assert FindTag(d, 1, 0) == Some(0);
    assert DecStep(d, s, st) == Ok(State(OddContent(), NoField, {0}), 8);
    hide DecStep;
    assert DecLoop(d, s[8..], State(OddContent(), NoField, {0})) == Some(State(OddContent(), NoField, {0}));
    assert d.RequiredBefore(1) == 1;
  }
}
