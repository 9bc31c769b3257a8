/**
 Message descriptors and message values. A struct is a sequence of slots; the
 slot number stands for the data offset of the C descriptor. Members of one
 oneof share a slot, every other field owns its own.
 */
module Schema {
  import opened Wire

  /** PB_LTYPE_*, in the order of their codes (callback and extension types are not modelled). */
  datatype LType =
    | Bool | Varint | UVarint | SVarint | Fixed32 | Fixed64
    | BytesArray | String | Submessage | FixedBytes

  /**
   PB_HTYPE_*. As in C a proto3 singular field is Optional without a size member,
   and a fixed-count array is Repeated without one.
   */
  datatype HType = Required | Optional | Repeated | OneOf

  /** One field record: what PB_FIELDINFO_n packs, its default value and its sub-descriptor. */
  datatype Field = Field(
    tag: nat, htype: HType, ltype: LType, sizeOffset: nat,
    dataSize: nat, arraySize: nat, slot: nat, width: nat,
    dflt: Option<Value>, sub: MsgDesc)
  {
    predicate HasSize() { sizeOffset != 0 }
    predicate Singular() { htype == Optional && !HasSize() }
    predicate FixedCount() { htype == Repeated && !HasSize() }
    predicate Packable() { ltype !in {BytesArray, String, Submessage, FixedBytes} }
  }

  datatype MsgDesc = MsgDesc(fields: seq<Field>, nslots: nat)
  {
    /** descriptor->default_value != NULL */
    predicate HasDefaults() { exists i :: 0 <= i < |fields| && fields[i].dflt.Some? }

    /** default_value, field_callback or submsg_info[0] is set: zeroing is not enough. */
    predicate NeedsDefaults() {
      HasDefaults() || exists i :: 0 <= i < |fields| && fields[i].ltype == Submessage
    }

    /** required_field_index of the iterator at field i. */
    function RequiredBefore(i: nat): (n: nat)
      requires i <= |fields|
      ensures n <= i
    {
      if i == 0 then 0
      else RequiredBefore(i - 1) + (if fields[i - 1].htype == Required then 1 else 0)
    }
  }

  datatype Value = VInt(n: int) | VBytes(b: Bytes) | VMsg(m: Msg)

  /**
   Plain: required and singular members. Opt: a value and its has_ flag. Many: the
   elements of an array that its count covers and the memory of those behind them, which
   is zero from where `spare` ends (all elements of a fixed-count array are counted).
   Choice: a union and its which_ member.
   */
  datatype Slot =
    | Plain(v: Value)
    | Opt(has: bool, v: Value)
    | Many(items: seq<Value>, spare: seq<Value>)
    | Choice(which: nat, v: Value)

  datatype Msg = Msg(slots: seq<Slot>)

  /* ------------------------------------------------------ well-formed types */

  predicate WfField(f: Field, nslots: nat)
    decreases f, 1
  {
    && 1 <= f.tag < 0x1_0000 && f.slot < nslots
    && f.dataSize < 0x1_0000 && 1 <= f.arraySize < 0x1_0000
    && (f.htype == Required ==> !f.HasSize()) && (f.htype == OneOf ==> f.HasSize())
    && (f.htype != Repeated ==> f.arraySize == 1)
    && (match f.ltype
        case Bool => f.dataSize == 1
        case Varint => f.dataSize in {1, 2, 4, 8}
        case UVarint => f.dataSize in {1, 2, 4, 8}
        case SVarint => f.dataSize in {1, 2, 4, 8}
        case Fixed32 => f.dataSize == 4
        case Fixed64 => f.dataSize == 8
        case BytesArray => f.dataSize >= 2
        case String => f.dataSize >= 1
        case FixedBytes => true
        case Submessage => WfDesc(f.sub))
    && (f.dflt.Some? ==>
          && f.htype in {Required, Optional} && f.ltype != Submessage
          && ValueFits(f, f.dflt.value) && InCapacity(f, f.dflt.value))
  }

  /** Strictly ascending tags; only members of a oneof share a slot. */
  predicate WfDesc(d: MsgDesc)
    decreases d, 0
  {
    && |d.fields| < 0xFFFF
    && (forall i :: 0 <= i < |d.fields| ==> WfField(d.fields[i], d.nslots))
    && (forall i, j :: 0 <= i < j < |d.fields| ==> d.fields[i].tag < d.fields[j].tag)
    && (forall i, j :: 0 <= i < j < |d.fields| && d.fields[i].slot == d.fields[j].slot ==>
          d.fields[i].htype == OneOf && d.fields[j].htype == OneOf)
  }

  /* ---------------------------------------------------------- typed values */

  function Signed(bytes: nat): (p: int)
    ensures p > 0
  {
    if bytes == 1 then 0x80 else if bytes == 2 then 0x8000
    else if bytes == 4 then 0x8000_0000 else U64 / 2
  }

  /** v is a value of the C type of one item of f. */
  predicate ValueFits(f: Field, v: Value)
    decreases f, 2
  {
    match f.ltype
    case Bool => v.VInt? && 0 <= v.n <= 1
    case Varint => v.VInt? && -Signed(f.dataSize) <= v.n < Signed(f.dataSize)
    case SVarint => v.VInt? && -Signed(f.dataSize) <= v.n < Signed(f.dataSize)
    case UVarint => v.VInt? && 0 <= v.n < 2 * Signed(f.dataSize)
    case Fixed32 => v.VInt? && 0 <= v.n < U32
    case Fixed64 => v.VInt? && 0 <= v.n < U64
    case BytesArray => v.VBytes?
    case String => v.VBytes?
    case FixedBytes => v.VBytes? && |v.b| == f.dataSize
    case Submessage => v.VMsg? && MsgFits(f.sub, v.m)
  }

  /** Contents a well-behaved caller stores: within the buffer and free of embedded NULs. */
  predicate InCapacity(f: Field, v: Value)
  {
    match f.ltype
    case BytesArray => v.VBytes? && |v.b| + 2 <= f.dataSize
    case String => v.VBytes? && |v.b| + 1 <= f.dataSize && 0 !in v.b
    case _ => true
  }

  predicate SlotFits(f: Field, s: Slot)
    decreases f, 3
  {
    match f.htype
    case Required => s.Plain? && ValueFits(f, s.v)
    case Optional => if f.HasSize() then s.Opt? && ValueFits(f, s.v) else s.Plain? && ValueFits(f, s.v)
    case Repeated => s.Many? && (forall k :: 0 <= k < |s.items| ==> ValueFits(f, s.items[k]))
                     && (forall k :: 0 <= k < |s.spare| ==> ValueFits(f, s.spare[k]))
                     && (f.FixedCount() ==> |s.items| == f.arraySize && s.spare == [])
    case OneOf => s.Choice? && (s.which == f.tag ==> ValueFits(f, s.v))
  }

  /** m is a struct of the type d describes. */
  predicate MsgFits(d: MsgDesc, m: Msg)
    decreases d, 4
  {
    && |m.slots| == d.nslots
    && forall i :: 0 <= i < |d.fields| ==>
         d.fields[i].slot < |m.slots| && SlotFits(d.fields[i], m.slots[d.fields[i].slot])
  }

  lemma OneFieldFits(d: MsgDesc, m: Msg)
    requires |d.fields| == 1 == |m.slots| && d.nslots == 1 && d.fields[0].slot == 0
    requires SlotFits(d.fields[0], m.slots[0])
    ensures MsgFits(d, m)
  {
    hide SlotFits;
  }
}
