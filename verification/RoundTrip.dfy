/**
 pb_decode inverts pb_encode. `Overlay` is the struct the decoder must produce:
 the encoded struct's present fields laid over freshly defaulted memory.
 */
module RoundTrip {
  import opened Wire
  import opened Schema
  import opened Encoding
  import opened Decoding

  /* ------------------------------------------------------------ zeroed memory */

  /** All members at zero: numbers 0, byte strings and strings empty, flags, counts and selectors clear. */
  ghost predicate Zeroed(d: MsgDesc, m: Msg)
    decreases d, 2
  {
    && |m.slots| == d.nslots
    && forall i :: 0 <= i < |d.fields| ==>
         d.fields[i].slot < |m.slots| && ZeroedSlot(d.fields[i], m.slots[d.fields[i].slot])
  }

  ghost predicate ZeroedSlot(f: Field, s: Slot)
    decreases f, 1
  {
    match f.htype
    case Required => s.Plain? && ZeroedValue(f, s.v)
    case Optional => if f.HasSize() then s.Opt? && !s.has && ZeroedValue(f, s.v) else s.Plain? && ZeroedValue(f, s.v)
    case Repeated =>
      && s.Many? && s.spare == [] && |s.items| == (if f.HasSize() then 0 else f.arraySize)
      && forall k :: 0 <= k < |s.items| ==> ZeroedValue(f, s.items[k])
    case OneOf => s.Choice? && s.which == 0
  }

  ghost predicate ZeroedValue(f: Field, v: Value)
    decreases f, 0
  {
    match f.ltype
    case BytesArray => v.VBytes? && |v.b| == 0
    case String => v.VBytes? && |v.b| == 0
    case FixedBytes => v.VBytes? && |v.b| == f.dataSize && forall k :: 0 <= k < |v.b| ==> v.b[k] == 0
    case Submessage => v.VMsg? && Zeroed(f.sub, v.m)
    case _ => v.VInt? && v.n == 0
  }

  /* ------------------------------------------------- freshly defaulted memory */

  /**
   Memory into which nothing has been decoded yet: no counts, flags or selectors set,
   every other field at its own default, or zero, down through submessages.
   */
  ghost predicate Clean(d: MsgDesc, b: Msg)
    decreases d, 2
  {
    && |b.slots| == d.nslots
    && forall i :: 0 <= i < |d.fields| ==>
         d.fields[i].slot < |b.slots| && CleanSlot(d.fields[i], b.slots[d.fields[i].slot])
  }

  ghost predicate CleanSlot(f: Field, s: Slot)
    decreases f, 1
  {
    match f.htype
    case Required => s.Plain? && CleanValue(f, s.v)
    case Optional => if f.HasSize() then s.Opt? && !s.has && CleanValue(f, s.v) else s.Plain? && CleanValue(f, s.v)
    case Repeated => SlotFits(f, s) && (f.HasSize() ==> s.items == [])
    case OneOf => s.Choice? && s.which == 0
  }

  ghost predicate CleanValue(f: Field, v: Value)
    decreases f, 0
  {
    if f.ltype == Submessage then v.VMsg? && Clean(f.sub, v.m)
    else if f.dflt.Some? then v == f.dflt.value
    else ZeroedValue(f, v)
  }

  /** The slot of field f; the default is never reached on a struct of f's type. */
  ghost function At(m: Msg, f: Field): Slot
  {
    if f.slot < |m.slots| then m.slots[f.slot] else Plain(VInt(0))
  }

  lemma {:induction false} ZeroValueFits(f: Field, nslots: nat)
    requires WfField(f, nslots)
    ensures ValueFits(f, ZeroValue(f)) && ZeroedValue(f, ZeroValue(f))
    decreases f, 0
  {
    if f.ltype == Submessage { ZeroFits(f.sub); }
  }

  lemma {:induction false} ZeroSlotFits(f: Field, nslots: nat)
    requires WfField(f, nslots)
    ensures SlotFits(f, ZeroSlot(f)) && ZeroedSlot(f, ZeroSlot(f))
    ensures f.dflt.None? && f.ltype != Submessage ==> CleanSlot(f, ZeroSlot(f))
    decreases f, 1
  {
    hide ValueFits, ZeroValue, ZeroedValue;
    ZeroValueFits(f, nslots);
  }

  lemma {:induction false} ZeroFromFits(d: MsgDesc, i: nat)
    requires WfDesc(d) && i <= |d.fields|
    ensures forall j :: 0 <= j < i ==>
              var f := d.fields[j]; SlotFits(f, At(ZeroFrom(d, i), f)) && ZeroedSlot(f, At(ZeroFrom(d, i), f))
    ensures !d.NeedsDefaults() ==>
              forall j :: 0 <= j < i ==> CleanSlot(d.fields[j], At(ZeroFrom(d, i), d.fields[j]))
    decreases d, 2, i
  {
    if i == 0 {
    } else {
      ZeroFromFits(d, i - 1);
      assert WfField(d.fields[i - 1], d.nslots);
      ZeroSlotFits(d.fields[i - 1], d.nslots);
    }
  }

  lemma {:induction false} ZeroFits(d: MsgDesc)
    requires WfDesc(d)
    ensures MsgFits(d, ZeroMsg(d)) && Zeroed(d, ZeroMsg(d))
    ensures !d.NeedsDefaults() ==> Clean(d, ZeroMsg(d))
    decreases d, 3
  {
    ZeroFromFits(d, |d.fields|);
    forall j | 0 <= j < |d.fields| ensures d.fields[j].slot < d.nslots {
      assert WfField(d.fields[j], d.nslots);
    }
  }

  lemma {:induction false} DefaultValueIsClean(f: Field, nslots: nat, v: Value)
    requires WfField(f, nslots) && (f.ltype == Submessage ==> ValueFits(f, v))
    ensures ValueFits(f, DefaultValue(f, v)) && CleanValue(f, DefaultValue(f, v))
    decreases f, 0
  {
    ZeroValueFits(f, nslots);
    if f.ltype == Submessage {
      ZeroFits(f.sub);
      DefaultsAreClean(f.sub, v.m);
    }
  }

  lemma {:induction false} DefaultsFromClean(d: MsgDesc, m: Msg, i: nat)
    requires WfDesc(d) && MsgFits(d, m) && i <= |d.fields|
    ensures forall j :: 0 <= j < |d.fields| ==> var f := d.fields[j]; var s := DefaultsFrom(d, m, i).slots[f.slot];
              SlotFits(f, s) && (j < i ==> CleanSlot(f, s))
    decreases d, 1, i
  {
    if i == 0 {
    } else {
      DefaultsFromClean(d, m, i - 1);
      var f := d.fields[i - 1];
      var s := DefaultsFrom(d, m, i - 1).slots[f.slot];
      if f.htype in {Required, Optional} { DefaultValueIsClean(f, d.nslots, SlotValue(s)); }
      forall j | 0 <= j < |d.fields|
        ensures var g := d.fields[j]; var t := DefaultsFrom(d, m, i).slots[g.slot];
                SlotFits(g, t) && (j < i ==> CleanSlot(g, t))
      {
        var g := d.fields[j];
        assert WfField(g, d.nslots);
        if g.slot == f.slot && j != i - 1 { assert g.htype == OneOf && f.htype == OneOf; }
      }
    }
  }

  lemma {:induction false} DefaultsAreClean(d: MsgDesc, m: Msg)
    requires WfDesc(d) && MsgFits(d, m)
    ensures MsgFits(d, SetDefaults(d, m)) && Clean(d, SetDefaults(d, m))
    decreases d, 2
  {
    DefaultsFromClean(d, m, |d.fields|);
  }

  lemma FreshSubIsClean(d: MsgDesc)
    requires WfDesc(d)
    ensures MsgFits(d, FreshSub(d)) && Clean(d, FreshSub(d))
  {
    ZeroFits(d);
    DefaultsAreClean(d, ZeroMsg(d));
  }

  /* ------------------------------------------------------------- the overlay */

  /** What item v becomes when decoded over memory `base`. */
  ghost function OverlayValue(f: Field, v: Value, base: Value): Value
    decreases f, 0
  {
    match f.ltype
    case String => if v.VBytes? then VBytes(CStr(v.b)) else v
    case Submessage => if v.VMsg? && base.VMsg? then VMsg(Overlay(f.sub, v.m, base.m)) else v
    case _ => v
  }

  /** The memory that the elements of an array are decoded into, one after the other. */
  ghost function Bases(f: Field, s: Slot): seq<Value>
  {
    if !s.Many? then [] else if f.HasSize() then s.spare else s.items
  }

  /** The memory element k of an array is decoded over; only submessages care. */
  ghost function ItemBase(f: Field, bases: seq<Value>, k: nat): Value
  {
    var prior := if k < |bases| then bases[k] else ZeroValue(f);
    if f.ltype == Submessage && prior.VMsg? then VMsg(SetDefaults(f.sub, prior.m)) else prior
  }

  ghost function OverlayItems(f: Field, items: seq<Value>, bases: seq<Value>): (r: seq<Value>)
    ensures |r| == |items|
    ensures forall k :: 0 <= k < |items| ==> r[k] == OverlayValue(f, items[k], ItemBase(f, bases, k))
    decreases f, 1
  {
    seq(|items|, k requires 0 <= k < |items| => OverlayValue(f, items[k], ItemBase(f, bases, k)))
  }

  /** The memory left behind the first k elements of an array. */
  ghost function Left(f: Field, bases: seq<Value>, k: nat): seq<Value>
  {
    if f.HasSize() then Unused(bases, k) else []
  }

  ghost function OverlaySlot(f: Field, s: Slot, b: Slot): Slot
    decreases f, 2
  {
    match f.htype
    case Required => Plain(OverlayValue(f, SlotValue(s), SlotValue(b)))
    case Optional =>
      var v := OverlayValue(f, SlotValue(s), SlotValue(b));
      if f.HasSize() then Opt(true, v) else Plain(v)
    case Repeated =>
      if s.Many? then Many(OverlayItems(f, s.items, Bases(f, b)), Left(f, Bases(f, b), |s.items|)) else s
    case OneOf => Choice(f.tag, OverlayValue(f, SlotValue(s), VMsg(FreshSub(f.sub))))
  }

  /** The struct once the encodings of the first i fields have been decoded. */
  ghost function OverlayFrom(d: MsgDesc, m: Msg, base: Msg, i: nat): (r: Msg)
    requires i <= |d.fields|
    ensures |r.slots| == |base.slots|
    decreases d, 3, i
  {
    if i == 0 then base
    else
      var f := d.fields[i - 1];
      var r := OverlayFrom(d, m, base, i - 1);
      if f.slot < |m.slots| && f.slot < |base.slots| && Present(d, f, m.slots[f.slot])
      then PutSlot(r, f.slot, OverlaySlot(f, m.slots[f.slot], base.slots[f.slot]))
      else r
  }

  ghost function Overlay(d: MsgDesc, m: Msg, base: Msg): (r: Msg)
    ensures |r.slots| == |base.slots|
    decreases d, 4
  {
    OverlayFrom(d, m, base, |d.fields|)
  }

  /** A present field's slot is untouched until its turn comes. */
  lemma {:induction false} OverlayUntouched(d: MsgDesc, m: Msg, base: Msg, i: nat, j: nat)
    requires WfDesc(d) && MsgFits(d, m) && |base.slots| == d.nslots
    requires i <= j < |d.fields| && (d.fields[j].htype == OneOf ==> Present(d, d.fields[j], m.slots[d.fields[j].slot]))
    ensures OverlayFrom(d, m, base, i).slots[d.fields[j].slot] == base.slots[d.fields[j].slot]
    decreases i
  {
    if i == 0 {
    } else {
      OverlayUntouched(d, m, base, i - 1, j);
      assert d.fields[i - 1].tag < d.fields[j].tag;
    }
  }

  /* ------------------------------------------------------------ single items */

  lemma LeafRoundTrip(f: Field, nslots: nat, v: Value, wireType: nat, tail: Bytes)
    requires WfField(f, nslots) && f.ltype != Submessage && ValueFits(f, v)
    requires wireType == WireTypeOf(f.ltype) || (f.Packable() && wireType == WT_PACKED)
    requires EncData(f, v).Some?
    ensures var b := EncData(f, v).value; DecLeaf(f, wireType, b + tail) == Ok(OverlayValue(f, v, v), |b|)
  {
    hide DecVarint32, EncVarint, EncFixed, DecFixed, EncInt, DecInt, CStr;
    match f.ltype
    case Bool => Varint32Accepts(if v.n != 0 then 1 else 0, tail);
    case Varint => IntRoundTrip(f, v.n, tail);
    case UVarint => IntRoundTrip(f, v.n, tail);
    case SVarint => IntRoundTrip(f, v.n, tail);
    case Fixed32 => FixedRoundTrip(v.n, 4, tail);
    case Fixed64 => FixedRoundTrip(v.n, 8, tail);
    case BytesArray => BlobRoundTrip(v.b, tail);
    case FixedBytes =>
      BlobRoundTrip(v.b, tail);
      if v.b == [] { assert seq(f.dataSize, _ => 0 as Byte) == v.b; }
    case String => BlobRoundTrip(CStr(v.b), tail);
  }

  lemma BlobRoundTrip(body: Bytes, tail: Bytes)
    requires |body| < U32
    ensures var s := EncVarint(|body|) + body + tail;
            DecVarint32(s) == Ok(|body|, |EncVarint(|body|)|)
            && s[|EncVarint(|body|)|..|EncVarint(|body|)| + |body|] == body
  {
    var p := EncVarint(|body|);
    assert p + body + tail == p + (body + tail);
    Varint32Accepts(|body|, body + tail);
  }

  /** Width casts lose nothing on a value that fits the member. */
  lemma IntRoundTrip(f: Field, n: int, tail: Bytes)
    requires f.ltype in {Varint, UVarint, SVarint} && f.dataSize in {1, 2, 4, 8} && ValueFits(f, VInt(n))
    ensures EncInt(f, n).Some?
    ensures var b := EncInt(f, n).value; DecInt(f, b + tail) == Ok(VInt(n), |b|)
  {
    assert -U64 / 2 <= n < U64;
    if f.ltype == SVarint {
      SignedBound(n, f.dataSize);
      VarintRoundTrip(ZigZag(n), tail);
      ToSignedId(n, f.dataSize);
    } else if f.ltype == Varint {
      VarintRoundTrip(n % U64, tail);
      ToSignedWord(n, f.dataSize);
      ToSignedId(n, f.dataSize);
    } else {
      VarintRoundTrip(n % U64, tail);
      UnsignedId(n, f.dataSize);
    }
  }

  lemma SignedBound(n: int, size: nat)
    requires size in {1, 2, 4, 8} && -Signed(size) <= n < Signed(size)
    ensures -U64 / 2 <= n < U64 / 2 && UnZigZag(ZigZag(n)) == n
  {
  }

  lemma UnsignedId(n: int, size: nat)
    requires size in {1, 2, 4, 8} && 0 <= n < 2 * Signed(size)
    ensures n % U64 == n && n % (2 * Signed(size)) == n
  {
    DivModUnique(n, 0, 2 * Signed(size), n);
    DivModUnique(n, 0, U64, n);
  }

  lemma ToSignedId(n: int, size: nat)
    requires size in {1, 2, 4, 8} && -Signed(size) <= n < Signed(size)
    ensures ToSigned(n, 2 * Signed(size)) == n
  {
    var m := 2 * Signed(size);
    if n < 0 { DivModUnique(n, -1, m, n + m); } else { DivModUnique(n, 0, m, n); }
  }

  /** A sign-extended word read back through int32_t or int64_t keeps its value. */
  lemma ToSignedWord(n: int, size: nat)
    requires size in {1, 2, 4, 8} && -Signed(size) <= n < Signed(size)
    ensures (if size == 8 then ToSigned(n % U64, U64) else ToSigned(n % U64, U32)) == n
  {
    var u := n % U64;
    if n < 0 { DivModUnique(n, -1, U64, n + U64); } else { DivModUnique(n, 0, U64, n); }
    if size == 8 {
      DivModUnique(u, 0, U64, u);
    } else if n < 0 {
      DivModUnique(u, U32 - 1, U32, n + U32);
    } else {
      DivModUnique(u, 0, U32, n);
    }
  }

  /** One item, decoded over memory that is (or is about to be) freshly defaulted. */
  lemma {:induction false} BasicRoundTrip(f: Field, nslots: nat, v: Value, prior: Value, init: bool, tail: Bytes)
    requires WfField(f, nslots) && ValueFits(f, v) && EncData(f, v).Some? && |EncData(f, v).value| < U32
    requires f.ltype == Submessage ==> if init then ValueFits(f, prior) else CleanValue(f, prior)
    ensures var b := EncData(f, v).value;
            var base := if init then ItemBase(f, [prior], 0) else prior;
            DecBasic(f, WireTypeOf(f.ltype), b + tail, prior, init) == Ok(OverlayValue(f, v, base), |b|)
    decreases f, 0
  {
    var b := EncData(f, v).value;
    if f.ltype == Submessage {
      var body := EncMsg(f.sub, v.m).value;
      assert |body| < |b|;
      DelimitedRoundTrip(body, tail);
      MessageRoundTrip(f.sub, v.m, prior.m, init);
    } else {
      LeafRoundTrip(f, nslots, v, WireTypeOf(f.ltype), tail);
    }
  }

  /* ------------------------------------------------------------- one field */

  lemma {:induction false} FindTagAt(d: MsgDesc, i: nat, k: nat)
    requires WfDesc(d) && k <= i < |d.fields|
    ensures FindTag(d, d.fields[i].tag, k) == Some(i)
    decreases i - k
  {
    if k == i {
    } else {
      FindTagAt(d, i, k + 1);
    }
  }

  /** A key followed by a payload that the field's decoder accepts is one loop pass. */
  lemma KeyStep(d: MsgDesc, i: nat, wireType: nat, payload: Bytes, tail: Bytes, st: State, st1: State)
    requires WfDesc(d) && i < |d.fields| && wireType < 8
    requires DecField(d, i, wireType, payload + tail, st) == Ok(st1, |payload|)
    ensures var b := EncTag(d.fields[i].tag, wireType) + payload;
            DecLoop(d, b + tail, st) == DecLoop(d, tail, st1)
  {
    var key := EncTag(d.fields[i].tag, wireType);
    var s := key + payload + tail;
    assert s == key + (payload + tail);
    assert WfField(d.fields[i], d.nslots);
    TagRoundTrip(d.fields[i].tag, wireType, payload + tail);
    FindTagAt(d, i, 0);
    assert s[|key|..] == payload + tail;
    assert s[|key| + |payload|..] == tail;
  }

  /** The state after field i's encoding has been decoded. */
  ghost function After(d: MsgDesc, m: Msg, base: Msg, i: nat, st: State): State
    requires i < |d.fields| && d.fields[i].slot < |m.slots| && d.fields[i].slot < |base.slots|
  {
    var f := d.fields[i];
    if !Present(d, f, m.slots[f.slot]) then st
    else
      State(PutSlot(st.m, f.slot, OverlaySlot(f, m.slots[f.slot], base.slots[f.slot])),
            if f.FixedCount() then Counting(i, f.arraySize, f.arraySize) else st.fc,
            if f.htype == Required && d.RequiredBefore(i) < MAX_REQUIRED_FIELDS
            then st.seen + {d.RequiredBefore(i)} else st.seen)
  }

  ghost predicate Settled(fc: CountState, i: nat)
  {
    fc.NoField? || (fc.Complete() && fc.index < i)
  }

  /** Everything field i's decoding relies on. */
  ghost predicate Ready(d: MsgDesc, m: Msg, base: Msg, i: nat, st: State)
  {
    && WfDesc(d) && MsgFits(d, m) && Clean(d, base) && i < |d.fields|
    && |st.m.slots| == |base.slots|
    && (Present(d, d.fields[i], m.slots[d.fields[i].slot]) ==>
          st.m.slots[d.fields[i].slot] == base.slots[d.fields[i].slot])
    && Settled(st.fc, i)
  }

  lemma {:induction false} SingleRoundTrip(d: MsgDesc, m: Msg, base: Msg, i: nat, st: State, tail: Bytes)
    requires Ready(d, m, base, i, st) && d.fields[i].htype != Repeated
    requires Present(d, d.fields[i], m.slots[d.fields[i].slot])
    requires var f := d.fields[i]; var b := EncField(d, f, m.slots[f.slot]); b.Some? && |b.value| < U32
    ensures var f := d.fields[i]; var b := EncField(d, f, m.slots[f.slot]).value;
            DecLoop(d, b + tail, st) == DecLoop(d, tail, After(d, m, base, i, st))
    decreases d, 0
  {
    var f, s, b := d.fields[i], m.slots[d.fields[i].slot], base.slots[d.fields[i].slot];
    assert WfField(f, d.nslots) && SlotFits(f, s) && CleanSlot(f, b);
    var v := SlotValue(s);
    assert ValueFits(f, v) && EncField(d, f, s) == EncBasic(f, v);
    var prior := if f.htype == OneOf && f.ltype == Submessage then VMsg(FreshSub(f.sub)) else SlotValue(b);
    if f.htype == OneOf {
      if f.ltype == Submessage { FreshSubIsClean(f.sub); }
    } else {
      assert CleanValue(f, prior);
    }
    BasicRoundTrip(f, d.nslots, v, prior, false, tail);
    assert OverlayValue(f, v, prior) == OverlaySlot(f, s, b).v;
    var payload := EncData(f, v).value;
    assert st.m.slots[f.slot] == b;
    SingleStep(d, m, base, i, st, prior, payload, tail);
    hide DecLoop, DecField, After, EncData, OverlaySlot, OverlayValue;
    KeyStep(d, i, WireTypeOf(f.ltype), payload, tail, st, After(d, m, base, i, st));
  }

  /** DecField on a field that is not repeated. */
  lemma SingleStep(d: MsgDesc, m: Msg, base: Msg, i: nat, st: State, prior: Value, payload: Bytes, tail: Bytes)
    requires i < |d.fields| && d.fields[i].slot < |m.slots| && d.fields[i].slot < |base.slots| == |st.m.slots|
    requires var f := d.fields[i]; var s, b := m.slots[f.slot], base.slots[f.slot];
             && f.htype != Repeated && Present(d, f, s) && st.m.slots[f.slot] == b
             && SlotFits(f, s) && CleanSlot(f, b)
             && prior == (if f.htype == OneOf && f.ltype == Submessage then VMsg(FreshSub(f.sub)) else SlotValue(b))
             && DecBasic(f, WireTypeOf(f.ltype), payload + tail, prior, false) == Ok(OverlaySlot(f, s, b).v, |payload|)
    requires WfField(d.fields[i], d.nslots)
    ensures DecField(d, i, WireTypeOf(d.fields[i].ltype), payload + tail, st) == Ok(After(d, m, base, i, st), |payload|)
  {
    hide DecBasic, ValueFits, CleanValue, OverlayValue, IsDefault, FreshSub;
  }

  /* --------------------------------------------------------------- arrays */

  /** An array of which the first k elements have been decoded. */
  ghost function Partial(f: Field, over: seq<Value>, bases: seq<Value>, k: nat): (r: seq<Value>)
    requires k <= |over|
    ensures |r| >= k
  {
    over[..k] + (if !f.HasSize() && k < |bases| then bases[k..] else [])
  }

  lemma PartialStep(f: Field, over: seq<Value>, bases: seq<Value>, k: nat)
    requires k < |over| && (f.HasSize() || |bases| == |over|)
    ensures PutItem(Partial(f, over, bases, k), k, over[k]) == Partial(f, over, bases, k + 1)
    ensures |Partial(f, over, bases, k)| == if f.HasSize() then k else |over|
    ensures |Partial(f, over, bases, k + 1)| == if f.HasSize() then k + 1 else |over|
    ensures Unused(Left(f, bases, k), if f.HasSize() then 1 else 0) == Left(f, bases, k + 1)
    ensures ElementMemory(f, Partial(f, over, bases, k), Left(f, bases, k), k)
         == if k < |bases| then bases[k] else ZeroValue(f)
  {
    hide ZeroValue;
  }

  lemma PartialEnds(f: Field, over: seq<Value>, bases: seq<Value>)
    requires f.HasSize() || |bases| == |over|
    ensures Partial(f, over, bases, 0) == (if f.HasSize() then [] else bases)
    ensures Left(f, bases, 0) == (if f.HasSize() then bases else [])
    ensures Partial(f, over, bases, |over|) == over
  {
  }

  lemma {:induction false} PackedItemsRoundTrip(f: Field, nslots: nat, items: seq<Value>, bases: seq<Value>, k: nat)
    requires WfField(f, nslots) && f.Packable() && k <= |items| <= f.arraySize
    requires f.HasSize() || |bases| == |items|
    requires forall j :: 0 <= j < |items| ==> ValueFits(f, items[j])
    requires EncPackedItems(f, items[k..]).Some?
    ensures var over := OverlayItems(f, items, bases);
            DecPacked(f, EncPackedItems(f, items[k..]).value, Partial(f, over, bases, k), k)
            == Some(Filled(over, |items|))
    decreases |items| - k
  {
    hide EncPackedItems, EncInt, EncWord, DecLeaf, DecPacked, Partial, Left, Unused, ElementMemory, WfField, ValueFits;
    var over := OverlayItems(f, items, bases);
    if k == |items| {
      PartialEnds(f, over, bases);
      PackedEnd(f, items, over);
    } else {
      PackedUnfold(f, nslots, items, k);
      PartialStep(f, over, bases, k);
      var s, rest := EncPackedItems(f, items[k..]).value, EncPackedItems(f, items[k + 1..]).value;
      var head := if f.ltype in {Fixed32, Fixed64} then EncWord(f, items[k].n) else EncInt(f, items[k].n);
      PackedHead(f, nslots, items[k], rest);
      assert s[|head.value|..] == rest;
      PackedPass(f, s, Partial(f, over, bases, k), k, over[k], |head.value|);
      PackedItemsRoundTrip(f, nslots, items, bases, k + 1);
    }
  }

  lemma PackedEnd(f: Field, items: seq<Value>, over: seq<Value>)
    requires f.Packable() && |over| == |items|
    ensures EncPackedItems(f, items[|items|..]) == Some([])
    ensures DecPacked(f, [], over, |items|) == Some(Filled(over, |items|))
  {
  }

  /** One pass of the packed loop. */
  lemma PackedPass(f: Field, s: Bytes, items: seq<Value>, size: nat, v: Value, n: nat)
    requires f.Packable() && size <= |items| && size < f.arraySize && DecLeaf(f, WT_PACKED, s) == Ok(v, n)
    ensures DecPacked(f, s, items, size) == DecPacked(f, s[n..], PutItem(items, size, v), size + 1)
  {
    hide DecLeaf;
  }

  lemma PackedUnfold(f: Field, nslots: nat, items: seq<Value>, k: nat)
    requires WfField(f, nslots) && f.Packable() && k < |items| && ValueFits(f, items[k])
    ensures items[k].VInt?
    ensures EncPackedItems(f, items[k..]) ==
            Cat(if f.ltype in {Fixed32, Fixed64} then EncWord(f, items[k].n) else EncInt(f, items[k].n),
                EncPackedItems(f, items[k + 1..]))
  {
    assert items[k..][1..] == items[k + 1..];
  }

  /** A packed element decodes like an unpacked one, bools included. */
  lemma PackedHead(f: Field, nslots: nat, v: Value, tail: Bytes)
    requires WfField(f, nslots) && f.Packable() && ValueFits(f, v)
    requires (if f.ltype in {Fixed32, Fixed64} then EncWord(f, v.n) else EncInt(f, v.n)).Some?
    ensures var b := (if f.ltype in {Fixed32, Fixed64} then EncWord(f, v.n) else EncInt(f, v.n)).value;
            DecLeaf(f, WT_PACKED, b + tail) == Ok(v, |b|)
  {
    if f.ltype == Bool {
      DivModUnique(v.n, 0, U64, v.n);
    }
    LeafRoundTrip(f, nslots, v, WT_PACKED, tail);
  }

  /** Elements and previous memory of an array of field f. */
  ghost predicate ArrayOf(f: Field, items: seq<Value>, bases: seq<Value>)
  {
    && f.htype == Repeated && |items| <= f.arraySize
    && (forall j :: 0 <= j < |items| ==> ValueFits(f, items[j]))
    && (forall j :: 0 <= j < |bases| ==> ValueFits(f, bases[j]))
    && (f.HasSize() || |bases| == |items| == f.arraySize)
  }

  /** The state with k of the items of array field i decoded. */
  ghost predicate Filling(d: MsgDesc, i: nat, items: seq<Value>, bases: seq<Value>, k: nat, st: State)
    requires i < |d.fields| && k <= |items|
  {
    var f := d.fields[i];
    && f.slot < |st.m.slots|
    && st.m.slots[f.slot] == Many(Partial(f, OverlayItems(f, items, bases), bases, k), Left(f, bases, k))
    && (f.FixedCount() ==> Track(st.fc, i, f.arraySize) == Some(Counting(i, k, f.arraySize)))
  }

  /** The state once k of the items have been decoded. */
  ghost function Filled1(d: MsgDesc, i: nat, items: seq<Value>, bases: seq<Value>, k: nat, st: State): State
    requires i < |d.fields| && k <= |items|
  {
    var f := d.fields[i];
    State(PutSlot(st.m, f.slot, Many(Partial(f, OverlayItems(f, items, bases), bases, k), Left(f, bases, k))),
          if f.FixedCount() then Counting(i, k, f.arraySize) else st.fc, st.seen)
  }

  /** The key, length prefix and contents of a packed array. */
  lemma PackedLayout(f: Field, items: seq<Value>, tail: Bytes)
    requires f.Packable() && items != []
    requires EncArray(f, items).Some? && |EncArray(f, items).value| < U32
    ensures EncPackedItems(f, items).Some?
    ensures var data := EncPackedItems(f, items).value; var payload := EncVarint(|data|) + data;
            && EncArray(f, items).value == EncTag(f.tag, WT_STRING) + payload
            && DecDelimited(payload + tail) == Ok(data, |payload|)
  {
    var data := EncPackedItems(f, items).value;
    var key := EncTag(f.tag, WT_STRING);
    assert EncArray(f, items).value == key + EncVarint(|data|) + data;
    assert key + EncVarint(|data|) + data == key + (EncVarint(|data|) + data);
    DelimitedRoundTrip(data, tail);
  }

  lemma {:induction false} PackedRoundTrip(d: MsgDesc, i: nat, items: seq<Value>, bases: seq<Value>, st: State,
      tail: Bytes)
    requires WfDesc(d) && i < |d.fields| && d.fields[i].Packable() && items != []
    requires ArrayOf(d.fields[i], items, bases) && Filling(d, i, items, bases, 0, st)
    requires EncArray(d.fields[i], items).Some? && |EncArray(d.fields[i], items).value| < U32
    ensures DecLoop(d, EncArray(d.fields[i], items).value + tail, st)
         == DecLoop(d, tail, Filled1(d, i, items, bases, |items|, st))
  {
    var f := d.fields[i];
    assert WfField(f, d.nslots);
    PackedLayout(f, items, tail);
    var data := EncPackedItems(f, items).value;
    var payload := EncVarint(|data|) + data;
    assert items[0..] == items;
    PackedItemsRoundTrip(f, d.nslots, items, bases, 0);
    PackedStep(d, i, items, bases, st, data, payload + tail);
    KeyStep(d, i, WT_STRING, payload, tail, st, Filled1(d, i, items, bases, |items|, st));
  }

  /** DecField on a whole packed array. */
  lemma PackedStep(d: MsgDesc, i: nat, items: seq<Value>, bases: seq<Value>, st: State, data: Bytes, s: Bytes)
    requires i < |d.fields| && d.fields[i].Packable() && items != []
    requires ArrayOf(d.fields[i], items, bases) && Filling(d, i, items, bases, 0, st)
    requires DecDelimited(s) == Ok(data, |EncVarint(|data|)| + |data|)
    requires var over := OverlayItems(d.fields[i], items, bases);
             DecPacked(d.fields[i], data, Partial(d.fields[i], over, bases, 0), 0) == Some(Filled(over, |items|))
    ensures DecField(d, i, WT_STRING, s, st)
         == Ok(Filled1(d, i, items, bases, |items|, st), |EncVarint(|data|)| + |data|)
  {
    hide ValueFits, DecPacked, OverlayValue, ItemBase, Partial, Left, Unused, EncVarint, DecBasic, DecDelimited;
    var f, n := d.fields[i], |EncVarint(|data|)| + |data|;
    var over := OverlayItems(f, items, bases);
    PartialEnds(f, over, bases);
    LeftAfter(f, bases, |items|);
    var slot := st.m.slots[f.slot];
    assert DecRepeated(f, WT_STRING, s, slot.items, slot.spare, 0) == Ok(Filled(over, |items|), n);
    assert DecStatic(f, WT_STRING, s, slot, 0) == Ok(SlotResult(Many(over, Left(f, bases, |items|)), |items|), n);
  }

  lemma LeftAfter(f: Field, bases: seq<Value>, n: nat)
    ensures Unused(Left(f, bases, 0), if f.HasSize() then n else 0) == Left(f, bases, n)
  {
  }

  lemma {:induction false} ItemRoundTrip(d: MsgDesc, i: nat, items: seq<Value>, bases: seq<Value>, k: nat,
                                         st: State, tail: Bytes)
    requires WfDesc(d) && i < |d.fields| && !d.fields[i].Packable() && k < |items|
    requires ArrayOf(d.fields[i], items, bases) && Filling(d, i, items, bases, k, st)
    requires var b := EncBasic(d.fields[i], items[k]); b.Some? && |b.value| < U32
    ensures DecLoop(d, EncBasic(d.fields[i], items[k]).value + tail, st)
         == DecLoop(d, tail, Filled1(d, i, items, bases, k + 1, st))
    decreases d, 1
  {
    var f := d.fields[i];
    assert WfField(f, d.nslots) && ValueFits(f, items[k]);
    var payload := EncData(f, items[k]).value;
    var prior := if k < |bases| then bases[k] else ZeroValue(f);
    ZeroValueFits(f, d.nslots);
    BasicRoundTrip(f, d.nslots, items[k], prior, true, tail);
    ItemStep(d, i, items, bases, k, st, payload, tail);
    KeyStep(d, i, WireTypeOf(f.ltype), payload, tail, st, Filled1(d, i, items, bases, k + 1, st));
  }

  lemma {:induction false} UnpackedRoundTrip(d: MsgDesc, i: nat, items: seq<Value>, bases: seq<Value>, k: nat,
                                             st: State, tail: Bytes)
    requires WfDesc(d) && i < |d.fields| && !d.fields[i].Packable() && k < |items|
    requires ArrayOf(d.fields[i], items, bases) && Filling(d, i, items, bases, k, st)
    requires var b := EncUnpacked(d.fields[i], items[k..]); b.Some? && |b.value| < U32
    ensures DecLoop(d, EncUnpacked(d.fields[i], items[k..]).value + tail, st)
         == DecLoop(d, tail, Filled1(d, i, items, bases, |items|, st))
    decreases d, 2, |items| - k
  {
    hide DecLoop, EncUnpacked, EncBasic, WfDesc;
    var f := d.fields[i];
    UnpackedUnfold(f, items, k);
    var head, rest := EncBasic(f, items[k]).value, EncUnpacked(f, items[k + 1..]).value;
    assert head + rest + tail == head + (rest + tail);
    ItemRoundTrip(d, i, items, bases, k, st, rest + tail);
    if k + 1 < |items| {
      var st1 := Filled1(d, i, items, bases, k + 1, st);
      UnpackedRoundTrip(d, i, items, bases, k + 1, st1, tail);
      assert Filled1(d, i, items, bases, |items|, st1) == Filled1(d, i, items, bases, |items|, st);
    } else {
      assert rest + tail == tail;
    }
  }

  lemma UnpackedUnfold(f: Field, items: seq<Value>, k: nat)
    requires k < |items|
    ensures EncUnpacked(f, items[k..]) == Cat(EncBasic(f, items[k]), EncUnpacked(f, items[k + 1..]))
    ensures k + 1 == |items| ==> EncUnpacked(f, items[k + 1..]) == Some([])
  {
    assert items[k..][1..] == items[k + 1..];
  }

  /** DecField on one unpacked element. */
  lemma ItemStep(d: MsgDesc, i: nat, items: seq<Value>, bases: seq<Value>, k: nat, st: State, payload: Bytes,
      tail: Bytes)
    requires i < |d.fields| && !d.fields[i].Packable() && k < |items|
    requires ArrayOf(d.fields[i], items, bases) && Filling(d, i, items, bases, k, st)
    requires var f := d.fields[i];
             DecBasic(f, WireTypeOf(f.ltype), payload + tail, if k < |bases| then bases[k] else ZeroValue(f), true)
             == Ok(OverlayItems(f, items, bases)[k], |payload|)
    ensures DecField(d, i, WireTypeOf(d.fields[i].ltype), payload + tail, st)
         == Ok(Filled1(d, i, items, bases, k + 1, st), |payload|)
  {
    hide DecBasic, ValueFits, ZeroValue, DecPacked, OverlayValue, ItemBase;
    hide Partial, Left, Unused, ElementMemory, PutItem;
    var f := d.fields[i];
    var over := OverlayItems(f, items, bases);
    PartialStep(f, over, bases, k);
    var slot, wt := st.m.slots[f.slot], WireTypeOf(f.ltype);
    var filled, left := Partial(f, over, bases, k + 1), Left(f, bases, k + 1);
    assert |filled| - |slot.items| == if f.HasSize() then 1 else 0;
    assert DecRepeated(f, wt, payload + tail, slot.items, slot.spare, k) == Ok(Filled(filled, k + 1), |payload|);
    assert DecStatic(f, wt, payload + tail, slot, k) == Ok(SlotResult(Many(filled, left), k + 1), |payload|);
  }

  /* ------------------------------------------------------------- messages */

  lemma {:induction false} FieldRoundTrip(d: MsgDesc, m: Msg, base: Msg, i: nat, st: State, tail: Bytes)
    requires Ready(d, m, base, i, st)
    requires var f := d.fields[i]; var b := EncField(d, f, m.slots[f.slot]); b.Some? && |b.value| < U32
    ensures var f := d.fields[i]; var b := EncField(d, f, m.slots[f.slot]).value;
            DecLoop(d, b + tail, st) == DecLoop(d, tail, After(d, m, base, i, st))
    decreases d, 3
  {
    hide Partial, Left, DecLoop;
    var f := d.fields[i];
    assert WfField(f, d.nslots) && SlotFits(f, m.slots[f.slot]) && CleanSlot(f, base.slots[f.slot]);
    if !Present(d, f, m.slots[f.slot]) {
      assert EncField(d, f, m.slots[f.slot]).value + tail == tail;
    } else if f.htype != Repeated {
      SingleRoundTrip(d, m, base, i, st, tail);
    } else {
      var items, bases := m.slots[f.slot].items, Bases(f, base.slots[f.slot]);
      var over := OverlayItems(f, items, bases);
      PartialEnds(f, over, bases);
      assert items[0..] == items;
      assert ArrayOf(f, items, bases) && Filling(d, i, items, bases, 0, st);
      if f.Packable() {
        PackedRoundTrip(d, i, items, bases, st, tail);
      } else {
        UnpackedRoundTrip(d, i, items, bases, 0, st, tail);
      }
      assert After(d, m, base, i, st) == Filled1(d, i, items, bases, |items|, st);
    }
  }

  /** The loop state on reaching the encoding of field i. */
  ghost predicate Reached(d: MsgDesc, m: Msg, base: Msg, i: nat, st: State)
    requires i <= |d.fields|
  {
    && st.m == OverlayFrom(d, m, base, i)
    && Settled(st.fc, i)
    && forall k :: 0 <= k < d.RequiredBefore(i) && k < MAX_REQUIRED_FIELDS ==> k in st.seen
  }

  lemma {:induction false} FromRoundTrip(d: MsgDesc, m: Msg, base: Msg, i: nat, st: State)
    requires WfDesc(d) && MsgFits(d, m) && Clean(d, base) && i <= |d.fields|
    requires Reached(d, m, base, i, st)
    requires EncFrom(d, m, i).Some? && |EncFrom(d, m, i).value| < U32
    ensures var r := DecLoop(d, EncFrom(d, m, i).value, st);
            r.Some? && Finished(d, r.value) && r.value.m == Overlay(d, m, base)
    decreases d, 4, |d.fields| - i
  {
    if i == |d.fields| {
    } else {
      hide Clean, WfDesc, Reached, Ready, After, Present, EncField;
      AfterReached(d, m, base, i, st);
      var rest := EncFrom(d, m, i + 1).value;
      FieldRoundTrip(d, m, base, i, st, rest);
      FromRoundTrip(d, m, base, i + 1, After(d, m, base, i, st));
    }
  }

  lemma AfterReached(d: MsgDesc, m: Msg, base: Msg, i: nat, st: State)
    requires WfDesc(d) && MsgFits(d, m) && Clean(d, base) && i < |d.fields|
    requires Reached(d, m, base, i, st)
    ensures Ready(d, m, base, i, st) && Reached(d, m, base, i + 1, After(d, m, base, i, st))
  {
    if Present(d, d.fields[i], m.slots[d.fields[i].slot]) { OverlayUntouched(d, m, base, i, i); }
  }

  lemma {:induction false} MessageRoundTrip(d: MsgDesc, m: Msg, prior: Msg, init: bool)
    requires WfDesc(d) && MsgFits(d, m)
    requires if init then MsgFits(d, prior) else Clean(d, prior)
    requires EncMsg(d, m).Some? && |EncMsg(d, m).value| < U32
    ensures DecMsg(d, EncMsg(d, m).value, prior, init)
         == Some(Overlay(d, m, if init then SetDefaults(d, prior) else prior))
    decreases d, 5
  {
    if init { DefaultsAreClean(d, prior); }
    FromRoundTrip(d, m, if init then SetDefaults(d, prior) else prior, 0, Start(d, prior, init));
  }
}
