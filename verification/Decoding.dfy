/**
 What pb_decode does to a struct, as a function of descriptor, bytes and previous
 struct contents (pb_decode.c). Err and None stand for `return false`.
 `Decoder.dfy` proves the stream-reading code against these functions.
 */
module Decoding {
  import opened Wire
  import opened Schema

  const MAX_REQUIRED_FIELDS: nat := 64

  /* ------------------------------------------------------- zeros, defaults */

  function ZeroValue(f: Field): Value
    decreases f, 0
  {
    match f.ltype
    case BytesArray => VBytes([])
    case String => VBytes([])
    case FixedBytes => VBytes(seq(f.dataSize, _ => 0))
    case Submessage => VMsg(ZeroMsg(f.sub))
    case _ => VInt(0)
  }

  function ZeroSlot(f: Field): Slot
    decreases f, 1
  {
    match f.htype
    case Required => Plain(ZeroValue(f))
    case Optional => if f.HasSize() then Opt(false, ZeroValue(f)) else Plain(ZeroValue(f))
    case Repeated => if f.HasSize() then Many([], []) else Many(seq(f.arraySize, _ => ZeroValue(f)), [])
    case OneOf => Choice(0, VInt(0))
  }

  function ZeroFrom(d: MsgDesc, i: nat): (m: Msg)
    requires i <= |d.fields|
    ensures |m.slots| == d.nslots
    decreases d, 2, i
  {
    if i == 0 then Msg(seq(d.nslots, _ => Plain(VInt(0))))
    else PutSlot(ZeroFrom(d, i - 1), d.fields[i - 1].slot, ZeroSlot(d.fields[i - 1]))
  }

  /** A struct of all-zero bytes. */
  function ZeroMsg(d: MsgDesc): (m: Msg)
    ensures |m.slots| == d.nslots
    decreases d, 3
  {
    ZeroFrom(d, |d.fields|)
  }

  function PutSlot(m: Msg, slot: nat, s: Slot): (r: Msg)
    ensures |r.slots| == |m.slots|
  {
    if slot < |m.slots| then Msg(m.slots[slot := s]) else m
  }

  /** The struct memory an item of the slot occupies. */
  function SlotValue(s: Slot): Value
  {
    match s
    case Plain(v) => v
    case Opt(_, v) => v
    case Many(_, _) => VInt(0)
    case Choice(_, v) => v
  }

  /** Contents that pb_message_set_to_defaults gives a required, optional or singular field. */
  function DefaultValue(f: Field, prior: Value): Value
    decreases f, 4
  {
    if f.dflt.Some? then f.dflt.value
    else if f.ltype == Submessage && f.sub.NeedsDefaults() && prior.VMsg? then
      VMsg(SetDefaults(f.sub, prior.m))
    else ZeroValue(f)
  }

  /** All the elements there is memory for. */
  function Elements(s: Slot): seq<Value>
  {
    if s.Many? then s.items + s.spare else []
  }

  /** Has flags, counts and selectors are cleared; array contents are left alone. */
  function DefaultSlot(f: Field, s: Slot): Slot
    decreases f, 5
  {
    match f.htype
    case Required => Plain(DefaultValue(f, SlotValue(s)))
    case Optional =>
      if f.HasSize() then Opt(false, DefaultValue(f, SlotValue(s)))
      else Plain(DefaultValue(f, SlotValue(s)))
    case Repeated => if f.HasSize() then Many([], Elements(s)) else s
    case OneOf => Choice(0, VInt(0))
  }

  /** The struct after the first i fields have been visited. */
  function DefaultsFrom(d: MsgDesc, m: Msg, i: nat): (r: Msg)
    requires i <= |d.fields|
    ensures |r.slots| == |m.slots|
    decreases d, 6, i
  {
    if i == 0 then m
    else
      var f := d.fields[i - 1];
      var m1 := DefaultsFrom(d, m, i - 1);
      if f.slot < |m1.slots| then PutSlot(m1, f.slot, DefaultSlot(f, m1.slots[f.slot])) else m1
  }

  function SetDefaults(d: MsgDesc, m: Msg): (r: Msg)
    ensures |r.slots| == |m.slots|
    decreases d, 7
  {
    DefaultsFrom(d, m, |d.fields|)
  }

  /** The struct a submessage of a newly selected oneof member starts from. */
  function FreshSub(d: MsgDesc): Msg
  {
    if d.NeedsDefaults() then SetDefaults(d, ZeroMsg(d)) else ZeroMsg(d)
  }

  /* ------------------------------------------------------------ leaf items */

  /** pb_dec_varint: the value is cast to the member's width and compared with itself. */
  function DecInt(f: Field, s: Bytes): (r: Parsed<Value>)
    ensures r.Ok? ==> 1 <= r.used <= |s| && r.value.VInt?
  {
    match DecVarint(s)
    case Err => Err
    case Ok(v, n) =>
      if f.dataSize !in {1, 2, 4, 8} then Err
      else
        var range := 2 * Signed(f.dataSize);
        if f.ltype == UVarint then
          if v % range != v then Err else Ok(VInt(v), n)
        else
          var sv := if f.ltype == SVarint then UnZigZag(v)
                    else if f.dataSize == 8 then ToSigned(v, U64) else ToSigned(v, U32);
          if ToSigned(sv, range) != sv then Err else Ok(VInt(sv), n)
  }

  function DecWord(s: Bytes, n: nat): (r: Parsed<Value>)
    ensures r.Ok? ==> r.used == n <= |s| && r.value.VInt?
  {
    match DecFixed(s, n) case Err => Err case Ok(v, k) => Ok(VInt(v), k)
  }

  /** pb_dec_bytes, pb_dec_string and pb_dec_fixed_length_bytes. */
  function DecBlob(f: Field, s: Bytes): (r: Parsed<Value>)
    ensures r.Ok? ==> 1 <= r.used <= |s|
  {
    match DecVarint32(s)
    case Err => Err
    case Ok(size, k) =>
      if f.ltype == FixedBytes then
        if size > 0xFFFF then Err
        else if size == 0 then Ok(VBytes(seq(f.dataSize, _ => 0)), k)
        else if size != f.dataSize || |s| - k < size then Err
        else Ok(VBytes(s[k..k + size]), k + size)
      else if f.ltype == BytesArray then
        if size > 0xFFFF || size + 2 > f.dataSize || |s| - k < size then Err
        else Ok(VBytes(s[k..k + size]), k + size)
      else
        if size == U32 - 1 || size + 1 > f.dataSize || |s| - k < size then Err
        else Ok(VBytes(s[k..k + size]), k + size)
  }

  /** decode_basic_field for everything but submessages. */
  function DecLeaf(f: Field, wireType: nat, s: Bytes): (r: Parsed<Value>)
    requires f.ltype != Submessage
    ensures r.Ok? ==> 1 <= r.used <= |s|
  {
    match f.ltype
    case Bool =>
      if wireType !in {WT_VARINT, WT_PACKED} then Err
      else (match DecVarint32(s) case Err => Err case Ok(v, n) => Ok(VInt(if v != 0 then 1 else 0), n))
    case Fixed32 => if wireType !in {WT_32BIT, WT_PACKED} then Err else DecWord(s, 4)
    case Fixed64 => if wireType !in {WT_64BIT, WT_PACKED} then Err else DecWord(s, 8)
    case BytesArray => if wireType != WT_STRING then Err else DecBlob(f, s)
    case String => if wireType != WT_STRING then Err else DecBlob(f, s)
    case FixedBytes => if wireType != WT_STRING then Err else DecBlob(f, s)
    case _ => if wireType !in {WT_VARINT, WT_PACKED} then Err else DecInt(f, s)
  }

  /* --------------------------------------------------------------- arrays */

  datatype Filled = Filled(items: seq<Value>, size: nat)

  /** Stores element `size` of an array; a counted array grows by it. */
  function PutItem(items: seq<Value>, size: nat, v: Value): (r: seq<Value>)
    requires size <= |items|
    ensures |r| == if size < |items| then |items| else |items| + 1
  {
    if size < |items| then items[size := v] else items + [v]
  }

  /** The spare memory once n more elements are in use. */
  function Unused(spare: seq<Value>, n: nat): seq<Value>
  {
    if n <= |spare| then spare[n..] else []
  }

  /** The memory that element `size` is decoded into. */
  function ElementMemory(f: Field, items: seq<Value>, spare: seq<Value>, size: nat): Value
  {
    if size < |items| then items[size] else if spare != [] then spare[0] else ZeroValue(f)
  }

  /** The loop over the substream of a packed array; all of it must be consumed. */
  function DecPacked(f: Field, s: Bytes, items: seq<Value>, size: nat): (r: Option<Filled>)
    requires f.Packable() && size <= |items|
    ensures r.Some? ==> r.value.size <= |r.value.items| && |items| <= |r.value.items|
    decreases |s|
  {
    if s == [] then Some(Filled(items, size))
    else if size >= f.arraySize then None
    else
      match DecLeaf(f, WT_PACKED, s)
      case Err => None
      case Ok(v, n) => DecPacked(f, s[n..], PutItem(items, size, v), size + 1)
  }

  /* ------------------------------------------------------------- messages */

  /** fixed_count_field, fixed_count_size, fixed_count_total_size. */
  datatype CountState = NoField | Counting(index: nat, size: nat, total: nat)
  {
    predicate Complete() { NoField? || size == total }
  }

  /** The variables of pb_decode_inner's loop. */
  datatype State = State(m: Msg, fc: CountState, seen: set<nat>)

  function FindTag(d: MsgDesc, tag: nat, i: nat): (r: Option<nat>)
    requires i <= |d.fields|
    ensures r.Some? ==> i <= r.value < |d.fields| && d.fields[r.value].tag == tag
    ensures r.None? ==> forall k :: i <= k < |d.fields| ==> d.fields[k].tag != tag
    decreases |d.fields| - i
  {
    if i == |d.fields| then None
    else if d.fields[i].tag == tag then Some(i)
    else FindTag(d, tag, i + 1)
  }

  /** decode_basic_field; `init` is the absence of PB_DECODE_NOINIT. */
  function DecBasic(f: Field, wireType: nat, s: Bytes, prior: Value, init: bool): (r: Parsed<Value>)
    ensures r.Ok? ==> 1 <= r.used <= |s|
    decreases |s|, 0
  {
    if f.ltype != Submessage then DecLeaf(f, wireType, s)
    else if wireType != WT_STRING || !prior.VMsg? then Err
    else
      match DecDelimited(s)
      case Err => Err
      case Ok(body, n) =>
        match DecMsg(f.sub, body, prior.m, init)
        case None => Err
        case Some(m) => Ok(VMsg(m), n)
  }

  /** decode_static_field for a repeated field holding `size` elements. */
  function DecRepeated(f: Field, wireType: nat, s: Bytes, items: seq<Value>, spare: seq<Value>, size: nat)
    : (r: Parsed<Filled>)
    requires size <= |items|
    ensures r.Ok? ==> 1 <= r.used <= |s| && r.value.size <= |r.value.items| && |items| <= |r.value.items|
    decreases |s|, 1
  {
    if wireType == WT_STRING && f.Packable() then
      match DecDelimited(s)
      case Err => Err
      case Ok(body, n) =>
        match DecPacked(f, body, items, size)
        case None => Err
        case Some(r) => Ok(r, n)
    else if size >= f.arraySize then Err
    else
      match DecBasic(f, wireType, s, ElementMemory(f, items, spare, size), true)
      case Err => Err
      case Ok(v, n) => Ok(Filled(PutItem(items, size, v), size + 1), n)
  }

  /** Fixed-count bookkeeping before field i is decoded. */
  function Track(fc: CountState, i: nat, total: nat): Option<CountState>
  {
    if fc.Counting? && fc.index == i then Some(fc)
    else if !fc.Complete() then None
    else Some(Counting(i, 0, total))
  }

  datatype SlotResult = SlotResult(slot: Slot, size: nat)

  /** decode_static_field; `size` is what *pSize holds for an array. */
  function DecStatic(f: Field, wireType: nat, s: Bytes, slot: Slot, size: nat): (r: Parsed<SlotResult>)
    ensures r.Ok? ==> 1 <= r.used <= |s|
    decreases |s|, 2
  {
    match f.htype
    case Required =>
      if !slot.Plain? then Err
      else (
        match DecBasic(f, wireType, s, slot.v, false)
        case Err => Err
        case Ok(v, n) => Ok(SlotResult(Plain(v), size), n))
    case Optional =>
      if !(if f.HasSize() then slot.Opt? else slot.Plain?) then Err
      else (
        match DecBasic(f, wireType, s, slot.v, false)
        case Err => Err
        case Ok(v, n) => Ok(SlotResult(if f.HasSize() then Opt(true, v) else Plain(v), size), n))
    case Repeated =>
      if !slot.Many? || size > |slot.items| then Err
      else (
        match DecRepeated(f, wireType, s, slot.items, slot.spare, size)
        case Err => Err
        case Ok(r, n) =>
          Ok(SlotResult(Many(r.items, Unused(slot.spare, |r.items| - |slot.items|)), r.size), n))
    case OneOf =>
      if !slot.Choice? then Err
      else
        var prior := if f.ltype == Submessage && slot.which != f.tag then VMsg(FreshSub(f.sub)) else slot.v;
        match DecBasic(f, wireType, s, prior, false)
        case Err => Err
        case Ok(v, n) => Ok(SlotResult(Choice(f.tag, v), size), n)
  }

  /** The tail of the loop body for a field found at index i. */
  function DecField(d: MsgDesc, i: nat, wireType: nat, s: Bytes, st: State): (r: Parsed<State>)
    requires i < |d.fields|
    ensures r.Ok? ==> 1 <= r.used <= |s|
    decreases |s|, 3
  {
    var f := d.fields[i];
    if f.slot >= |st.m.slots| then Err
    else
      var slot := st.m.slots[f.slot];
      var fc := if f.FixedCount() then Track(st.fc, i, f.arraySize) else Some(st.fc);
      if fc.None? then Err
      else
        match DecStatic(f, wireType, s, slot, CountOf(f, slot, fc.value))
        case Err => Err
        case Ok(r, n) =>
          var k := d.RequiredBefore(i);
          Ok(State(PutSlot(st.m, f.slot, r.slot),
                   if f.FixedCount() && fc.value.Counting? then fc.value.(size := r.size) else fc.value,
                   if f.htype == Required && k < MAX_REQUIRED_FIELDS then st.seen + {k} else st.seen), n)
  }

  /** What pSize refers to: the tracked count, or the count member of the struct. */
  function CountOf(f: Field, slot: Slot, fc: CountState): nat
  {
    if f.FixedCount() && fc.Counting? then fc.size else if slot.Many? then |slot.items| else 0
  }

  /** One pass of the loop of pb_decode_inner. */
  function DecStep(d: MsgDesc, s: Bytes, st: State): (r: Parsed<State>)
    ensures r.Ok? ==> 1 <= r.used <= |s|
    decreases |s|, 4
  {
    match DecTag(s)
    case Err => Err
    case Ok(key, k) =>
      if key.tag == 0 then Err
      else
        match FindTag(d, key.tag, 0)
        case None =>
          (match SkipField(s[k..], key.wireType) case Err => Err case Ok(_, n) => Ok(st, k + n))
        case Some(i) =>
          (match DecField(d, i, key.wireType, s[k..], st) case Err => Err case Ok(st1, n) => Ok(st1, k + n))
  }

  function DecLoop(d: MsgDesc, s: Bytes, st: State): Option<State>
    decreases |s|, 5
  {
    if s == [] then Some(st)
    else
      match DecStep(d, s, st)
      case Err => None
      case Ok(st1, n) => DecLoop(d, s[n..], st1)
  }

  /** The required-field indices the final check looks at. */
  function RequiredChecked(d: MsgDesc): nat
  {
    var n := d.RequiredBefore(|d.fields|);
    if n > MAX_REQUIRED_FIELDS then MAX_REQUIRED_FIELDS else n
  }

  predicate Finished(d: MsgDesc, st: State)
  {
    st.fc.Complete() && forall k :: 0 <= k < RequiredChecked(d) ==> k in st.seen
  }

  function Start(d: MsgDesc, m: Msg, init: bool): State
  {
    State(if init then SetDefaults(d, m) else m, NoField, {})
  }

  /** pb_decode_inner on a stream holding exactly s. */
  function DecMsg(d: MsgDesc, s: Bytes, m: Msg, init: bool): Option<Msg>
    decreases |s|, 6
  {
    match DecLoop(d, s, Start(d, m, init))
    case None => None
    case Some(st) => if Finished(d, st) then Some(st.m) else None
  }
}
