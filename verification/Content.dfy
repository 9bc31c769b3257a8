/** The round trip stated without naming a decoder result: same content, field by field. */
module Content {
  import opened Wire
  import opened Schema
  import opened Encoding
  import opened Decoding
  import opened RoundTrip

  /** w holds what v means: strings up to their terminator, submessages field by field. */
  ghost predicate SameValue(f: Field, v: Value, w: Value)
    decreases f, 0
  {
    match f.ltype
    case String => v.VBytes? && w == VBytes(CStr(v.b))
    case Submessage => v.VMsg? && w.VMsg? && SameContent(f.sub, v.m, w.m)
    case _ => w == v
  }

  /** The selector names one of the first n fields that is a member of the oneof in that slot. */
  ghost predicate Selects(d: MsgDesc, n: nat, slot: nat, which: nat)
    requires n <= |d.fields|
  {
    exists i :: 0 <= i < n && d.fields[i].htype == OneOf && d.fields[i].slot == slot && d.fields[i].tag == which
  }

  /** Present fields of m are equal in r; absent ones are at their defaults in r. */
  ghost predicate SameSlot(d: MsgDesc, f: Field, s: Slot, t: Slot)
    decreases f, 1
  {
    match f.htype
    case Required => s.Plain? && t.Plain? && SameValue(f, s.v, t.v)
    case Optional =>
      if f.HasSize() then
        && s.Opt? && t.Opt? && t.has == s.has
        && (if s.has then SameValue(f, s.v, t.v) else CleanSlot(f, t))
      else
        && s.Plain? && t.Plain?
        && (if IsDefault(d, f, s) then CleanSlot(f, t) else SameValue(f, s.v, t.v))
    case Repeated =>
      && s.Many? && t.Many? && |t.items| == |s.items|
      && forall k :: 0 <= k < |s.items| ==> SameValue(f, s.items[k], t.items[k])
    case OneOf =>
      && s.Choice? && t.Choice?
      && t.which == (if Selects(d, |d.fields|, f.slot, s.which) then s.which else 0)
      && (s.which == f.tag ==> SameValue(f, s.v, t.v))
  }

  ghost predicate SameContent(d: MsgDesc, m: Msg, r: Msg)
    decreases d, 2
  {
    forall i :: 0 <= i < |d.fields| ==>
      SameSlot(d, d.fields[i], At(m, d.fields[i]), At(r, d.fields[i]))
  }

  lemma {:induction false} OverlayPresent(d: MsgDesc, m: Msg, base: Msg, i: nat, j: nat)
    requires WfDesc(d) && MsgFits(d, m) && |base.slots| == d.nslots && j < i <= |d.fields|
    requires Present(d, d.fields[j], At(m, d.fields[j]))
    ensures At(OverlayFrom(d, m, base, i), d.fields[j])
         == OverlaySlot(d.fields[j], At(m, d.fields[j]), At(base, d.fields[j]))
  {
    assert WfField(d.fields[j], d.nslots) && WfField(d.fields[i - 1], d.nslots);
    if j == i - 1 {
    } else {
      OverlayPresent(d, m, base, i - 1, j);
      assert d.fields[j].tag < d.fields[i - 1].tag;
    }
  }

  lemma {:induction false} OverlayAbsent(d: MsgDesc, m: Msg, base: Msg, i: nat, j: nat)
    requires WfDesc(d) && MsgFits(d, m) && Clean(d, base) && i <= |d.fields| && j < |d.fields|
    requires !Present(d, d.fields[j], At(m, d.fields[j]))
    ensures var f := d.fields[j]; var t := At(OverlayFrom(d, m, base, i), f);
            if f.htype == OneOf then
              && t.Choice? && At(m, f).Choice?
              && t.which == if Selects(d, i, f.slot, At(m, f).which) then At(m, f).which else 0
            else t == At(base, f)
  {
    assert WfField(d.fields[j], d.nslots) && CleanSlot(d.fields[j], At(base, d.fields[j]));
    assert SlotFits(d.fields[j], At(m, d.fields[j]));
    if i == 0 {
    } else {
      OverlayAbsent(d, m, base, i - 1, j);
      assert WfField(d.fields[i - 1], d.nslots);
      if d.fields[i - 1].slot == d.fields[j].slot && i - 1 != j {
        assert d.fields[i - 1].htype == OneOf && d.fields[j].htype == OneOf;
      }
    }
  }

  lemma {:induction false} OverlayValueContent(f: Field, nslots: nat, v: Value, base: Value)
    requires WfField(f, nslots) && ValueFits(f, v)
    requires f.ltype == Submessage ==> CleanValue(f, base)
    ensures SameValue(f, v, OverlayValue(f, v, base))
    decreases f, 0
  {
    if f.ltype == Submessage { OverlayContent(f.sub, v.m, base.m); }
  }

  lemma {:induction false} OverlayItemsContent(f: Field, nslots: nat, items: seq<Value>, bases: seq<Value>)
    requires WfField(f, nslots)
    requires forall k :: 0 <= k < |items| ==> ValueFits(f, items[k])
    requires forall k :: 0 <= k < |bases| ==> ValueFits(f, bases[k])
    ensures var r := OverlayItems(f, items, bases);
            forall k :: 0 <= k < |items| ==> SameValue(f, items[k], r[k])
    decreases f, 1
  {
    var r := OverlayItems(f, items, bases);
    forall k | 0 <= k < |items| ensures SameValue(f, items[k], r[k]) {
      var prior := if k < |bases| then bases[k] else ZeroValue(f);
      ZeroValueFits(f, nslots);
      if f.ltype == Submessage { DefaultsAreClean(f.sub, prior.m); }
      OverlayValueContent(f, nslots, items[k], ItemBase(f, bases, k));
    }
  }

  lemma {:induction false} OverlayFieldContent(d: MsgDesc, m: Msg, base: Msg, j: nat)
    requires WfDesc(d) && MsgFits(d, m) && Clean(d, base) && j < |d.fields|
    ensures SameSlot(d, d.fields[j], At(m, d.fields[j]), At(Overlay(d, m, base), d.fields[j]))
    decreases d, 2
  {
    var f := d.fields[j];
    var s, b := At(m, f), At(base, f);
    assert WfField(f, d.nslots) && SlotFits(f, s) && CleanSlot(f, b);
    if Present(d, f, s) {
      OverlayPresent(d, m, base, |d.fields|, j);
      if f.htype == Repeated {
        OverlayItemsContent(f, d.nslots, s.items, Bases(f, b));
      } else if f.htype == OneOf {
        if f.ltype == Submessage { FreshSubIsClean(f.sub); }
        OverlayValueContent(f, d.nslots, s.v, VMsg(FreshSub(f.sub)));
      } else {
        assert CleanValue(f, SlotValue(b));
        OverlayValueContent(f, d.nslots, SlotValue(s), SlotValue(b));
      }
    } else {
      OverlayAbsent(d, m, base, |d.fields|, j);
    }
  }

  lemma {:induction false} OverlayContent(d: MsgDesc, m: Msg, base: Msg)
    requires WfDesc(d) && MsgFits(d, m) && Clean(d, base)
    ensures SameContent(d, m, Overlay(d, m, base))
    decreases d, 3
  {
    forall j | 0 <= j < |d.fields|
      ensures SameSlot(d, d.fields[j], At(m, d.fields[j]), At(Overlay(d, m, base), d.fields[j]))
    {
      OverlayFieldContent(d, m, base, j);
    }
  }

  /**
   Whole-message round trip. Whatever the struct held before, decoding the bytes
   that pb_encode produced succeeds, uses all of them, restores every present field
   and leaves the absent ones at their defaults.
   */
  lemma DecodeInvertsEncode(d: MsgDesc, m: Msg, prior: Msg)
    requires WfDesc(d) && MsgFits(d, m) && MsgFits(d, prior)
    requires EncMsg(d, m).Some? && |EncMsg(d, m).value| < U32
    ensures DecMsg(d, EncMsg(d, m).value, prior, true).Some?
    ensures SameContent(d, m, DecMsg(d, EncMsg(d, m).value, prior, true).value)
  {
    MessageRoundTrip(d, m, prior, true);
    DefaultsAreClean(d, prior);
    OverlayContent(d, m, SetDefaults(d, prior));
  }

  /**
   Two structs that encode to the same bytes have the same content: decoding those bytes, into
   whatever memory, gives one struct with the content of both.
   */
  lemma EncodingDeterminesContent(d: MsgDesc, m1: Msg, m2: Msg, prior: Msg)
    requires WfDesc(d) && MsgFits(d, m1) && MsgFits(d, m2) && MsgFits(d, prior)
    requires EncMsg(d, m1).Some? && EncMsg(d, m1) == EncMsg(d, m2) && |EncMsg(d, m1).value| < U32
    ensures var r := DecMsg(d, EncMsg(d, m1).value, prior, true);
            r.Some? && SameContent(d, m1, r.value) && SameContent(d, m2, r.value)
  {
    DecodeInvertsEncode(d, m1, prior);
    DecodeInvertsEncode(d, m2, prior);
  }

  /** The condition under which pb_encode accepts a struct: nothing overflows its member. */
  ghost predicate Encodable(d: MsgDesc, m: Msg)
    decreases d, 2
  {
    forall i :: 0 <= i < |d.fields| ==>
      Present(d, d.fields[i], At(m, d.fields[i])) ==> EncodableSlot(d.fields[i], At(m, d.fields[i]))
  }

  ghost predicate EncodableSlot(f: Field, s: Slot)
    decreases f, 1
  {
    if f.htype == Repeated then
      s.Many? && |s.items| <= f.arraySize && forall k :: 0 <= k < |s.items| ==> EncodableValue(f, s.items[k])
    else EncodableValue(f, SlotValue(s))
  }

  ghost predicate EncodableValue(f: Field, v: Value)
    decreases f, 0
  {
    match f.ltype
    case BytesArray => v.VBytes? && |v.b| <= f.dataSize - 2
    case String => v.VBytes? && |CStr(v.b)| <= f.dataSize - 1
    case Submessage => v.VMsg? && Encodable(f.sub, v.m)
    case _ => true
  }

  lemma {:induction false} DataEncodes(f: Field, nslots: nat, v: Value)
    requires WfField(f, nslots) && ValueFits(f, v)
    ensures EncData(f, v).Some? <==> EncodableValue(f, v)
    decreases f, 0
  {
    if f.ltype == Submessage { EncodesIff(f.sub, v.m); }
  }

  lemma {:induction false} PackedEncodes(f: Field, nslots: nat, items: seq<Value>)
    requires WfField(f, nslots) && f.Packable()
    requires forall k :: 0 <= k < |items| ==> ValueFits(f, items[k])
    ensures EncPackedItems(f, items).Some?
  {
    if items == [] {
    } else {
      assert ValueFits(f, items[0]);
      PackedEncodes(f, nslots, items[1..]);
    }
  }

  lemma {:induction false} UnpackedEncodes(f: Field, nslots: nat, items: seq<Value>)
    requires WfField(f, nslots)
    requires forall k :: 0 <= k < |items| ==> ValueFits(f, items[k])
    ensures EncUnpacked(f, items).Some? <==> forall k :: 0 <= k < |items| ==> EncodableValue(f, items[k])
    decreases f, 1, |items|
  {
    if items == [] {
    } else {
      DataEncodes(f, nslots, items[0]);
      UnpackedEncodes(f, nslots, items[1..]);
      assert forall k :: 0 <= k < |items| ==> items[k] == if k == 0 then items[0] else items[1..][k - 1];
    }
  }

  lemma {:induction false} FieldEncodes(d: MsgDesc, f: Field, s: Slot)
    requires WfField(f, d.nslots) && SlotFits(f, s)
    ensures EncField(d, f, s).Some? <==> (Present(d, f, s) ==> EncodableSlot(f, s))
    decreases f, 2
  {
    if f.htype == Repeated {
      if f.Packable() {
        PackedEncodes(f, d.nslots, s.items);
        assert forall k :: 0 <= k < |s.items| ==> EncodableValue(f, s.items[k]);
      } else {
        UnpackedEncodes(f, d.nslots, s.items);
      }
    } else if Present(d, f, s) {
      DataEncodes(f, d.nslots, SlotValue(s));
    }
  }

  lemma {:induction false} FromEncodes(d: MsgDesc, m: Msg, i: nat)
    requires WfDesc(d) && MsgFits(d, m) && i <= |d.fields|
    ensures EncFrom(d, m, i).Some? <==>
            forall j :: i <= j < |d.fields| ==>
              Present(d, d.fields[j], At(m, d.fields[j])) ==> EncodableSlot(d.fields[j], At(m, d.fields[j]))
    decreases d, 3, |d.fields| - i
  {
    if i == |d.fields| {
    } else {
      var f := d.fields[i];
      assert WfField(f, d.nslots) && SlotFits(f, m.slots[f.slot]);
      FieldEncodes(d, f, m.slots[f.slot]);
      FromEncodes(d, m, i + 1);
    }
  }

  /** pb_encode succeeds exactly on the structs whose present arrays, bytes and strings fit. */
  lemma {:induction false} EncodesIff(d: MsgDesc, m: Msg)
    requires WfDesc(d) && MsgFits(d, m)
    ensures EncMsg(d, m).Some? <==> Encodable(d, m)
    decreases d, 4
  {
    FromEncodes(d, m, 0);
  }
}
