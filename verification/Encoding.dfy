/**
 What pb_encode writes, as a function of descriptor and struct (pb_encode.c).
 None stands for `return false`. `Encoder.dfy` proves the stream-writing code
 against these functions.
 */
module Encoding {
  import opened Wire
  import opened Schema

  function Cat(a: Option<Bytes>, b: Option<Bytes>): Option<Bytes>
  {
    if a.Some? && b.Some? then Some(a.value + b.value) else None
  }

  lemma CatNil(o: Option<Bytes>)
    ensures Cat(Some([]), o) == o
  {
    if o.Some? { assert [] + o.value == o.value; }
  }

  lemma CatAssoc(a: Bytes, b: Option<Bytes>, c: Option<Bytes>)
    ensures b.Some? ==> Cat(Some(a), Cat(b, c)) == Cat(Some(a + b.value), c)
    ensures b.None? ==> Cat(Some(a), Cat(b, c)).None?
  {
    if b.Some? && c.Some? { assert a + (b.value + c.value) == a + b.value + c.value; }
  }

  /** The characters up to the first NUL. */
  function CStr(b: Bytes): (r: Bytes)
    ensures r <= b && 0 !in r
    ensures |r| < |b| ==> b[|r|] == 0
    ensures 0 !in b ==> r == b
  {
    if b == [] || b[0] == 0 then [] else [b[0]] + CStr(b[1..])
  }

  function WireTypeOf(l: LType): nat
  {
    match l
    case Fixed32 => WT_32BIT
    case Fixed64 => WT_64BIT
    case Bool => WT_VARINT
    case Varint => WT_VARINT
    case UVarint => WT_VARINT
    case SVarint => WT_VARINT
    case _ => WT_STRING
  }

  /** pb_enc_varint */
  function EncInt(f: Field, n: int): Option<Bytes>
  {
    if f.dataSize !in {1, 2, 4, 8} then None
    else if f.ltype == SVarint then
      if -U64 / 2 <= n < U64 / 2 then Some(EncVarint(ZigZag(n))) else None
    else Some(EncVarint(n % U64))
  }

  /** pb_enc_fixed */
  function EncWord(f: Field, n: int): Option<Bytes>
  {
    if f.dataSize !in {4, 8} || n < 0 then None else Some(EncFixed(n, f.dataSize))
  }

  /** The payload of one item after its key. */
  function EncData(f: Field, v: Value): Option<Bytes>
    decreases f, 1
  {
    match f.ltype
    case Bool => if v.VInt? then Some(EncVarint(if v.n != 0 then 1 else 0)) else None
    case Varint => if v.VInt? then EncInt(f, v.n) else None
    case UVarint => if v.VInt? then EncInt(f, v.n) else None
    case SVarint => if v.VInt? then EncInt(f, v.n) else None
    case Fixed32 => if v.VInt? then EncWord(f, v.n) else None
    case Fixed64 => if v.VInt? then EncWord(f, v.n) else None
    case BytesArray =>
      if !v.VBytes? || |v.b| + 2 > f.dataSize then None else Some(EncVarint(|v.b|) + v.b)
    case String =>
      if !v.VBytes? || f.dataSize == 0 || |CStr(v.b)| > f.dataSize - 1 then None
      else Some(EncVarint(|CStr(v.b)|) + CStr(v.b))
    case FixedBytes => if v.VBytes? then Some(EncVarint(|v.b|) + v.b) else None
    case Submessage =>
      if !v.VMsg? then None
      else
        match EncMsg(f.sub, v.m)
        case None => None
        case Some(body) => Some(EncVarint(|body|) + body)
  }

  /** encode_basic_field */
  function EncBasic(f: Field, v: Value): Option<Bytes>
    decreases f, 2
  {
    Cat(Some(EncTag(f.tag, WireTypeOf(f.ltype))), EncData(f, v))
  }

  function EncUnpacked(f: Field, items: seq<Value>): Option<Bytes>
    decreases f, 3, |items|
  {
    if items == [] then Some([]) else Cat(EncBasic(f, items[0]), EncUnpacked(f, items[1..]))
  }

  /** The elements of a packed array; bools go through pb_enc_varint here. */
  function EncPackedItems(f: Field, items: seq<Value>): Option<Bytes>
  {
    if items == [] then Some([])
    else if !items[0].VInt? then None
    else Cat(if f.ltype in {Fixed32, Fixed64} then EncWord(f, items[0].n) else EncInt(f, items[0].n),
             EncPackedItems(f, items[1..]))
  }

  /** encode_array */
  function EncArray(f: Field, items: seq<Value>): Option<Bytes>
    decreases f, 4
  {
    if items == [] then Some([])
    else if |items| > f.arraySize then None
    else if f.Packable() then
      match EncPackedItems(f, items)
      case None => None
      case Some(data) => Some(EncTag(f.tag, WT_STRING) + EncVarint(|data|) + data)
    else EncUnpacked(f, items)
  }

  /** pb_check_proto3_default_value for field f of a message described by d. */
  predicate IsDefault(d: MsgDesc, f: Field, s: Slot)
    decreases f, 1
  {
    match f.htype
    case Required => false
    case Repeated => s.Many? && |s.items| == 0
    case OneOf => s.Choice? && s.which == 0
    case Optional =>
      if f.HasSize() then s.Opt? && !s.has
      else s.Plain? && !d.HasDefaults() && IsZero(f, s.v)
  }

  predicate IsZero(f: Field, v: Value)
    decreases f, 0
  {
    match f.ltype
    case BytesArray => v.VBytes? && v.b == []
    case String => v.VBytes? && (v.b == [] || v.b[0] == 0)
    case FixedBytes => f.dataSize == 0
    case Submessage => v.VMsg? && AllDefault(f.sub, v.m)
    case _ => v == VInt(0)
  }

  predicate AllDefault(d: MsgDesc, m: Msg)
    decreases d, 2
  {
    forall i :: 0 <= i < |d.fields| ==>
      d.fields[i].slot < |m.slots| && IsDefault(d, d.fields[i], m.slots[d.fields[i].slot])
  }

  /** Whether encode_field emits anything for the field. */
  predicate Present(d: MsgDesc, f: Field, s: Slot)
  {
    match f.htype
    case Required => true
    case Repeated => s.Many? && s.items != []
    case OneOf => s.Choice? && s.which == f.tag
    case Optional => if f.HasSize() then s.Opt? && s.has else !IsDefault(d, f, s)
  }

  /** encode_field */
  function EncField(d: MsgDesc, f: Field, s: Slot): Option<Bytes>
    decreases f, 5
  {
    match f.htype
    case Required => if s.Plain? then EncBasic(f, s.v) else None
    case Optional =>
      if f.HasSize() then
        if !s.Opt? then None else if !s.has then Some([]) else EncBasic(f, s.v)
      else
        if !s.Plain? then None else if IsDefault(d, f, s) then Some([]) else EncBasic(f, s.v)
    case Repeated => if s.Many? then EncArray(f, s.items) else None
    case OneOf => if !s.Choice? then None else if s.which != f.tag then Some([]) else EncBasic(f, s.v)
  }

  /** The fields of index i and up. */
  function EncFrom(d: MsgDesc, m: Msg, i: nat): Option<Bytes>
    requires i <= |d.fields|
    decreases d, 6, |d.fields| - i
  {
    if i == |d.fields| then Some([])
    else if d.fields[i].slot >= |m.slots| then None
    else Cat(EncField(d, d.fields[i], m.slots[d.fields[i].slot]), EncFrom(d, m, i + 1))
  }

  /** pb_encode */
  function EncMsg(d: MsgDesc, m: Msg): Option<Bytes>
    decreases d, 7
  {
    EncFrom(d, m, 0)
  }
}
