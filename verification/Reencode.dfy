/**
 Encoding, decoding and encoding again. The bytes come out the same unless a proto3 submessage
 was written for nothing but a selector that names no member; then they get shorter.
 */
module Reencode {
  import opened Wire
  import opened Schema
  import opened Encoding
  import opened Decoding
  import opened RoundTrip
  import opened Content
  import Typing

  /* ------------------------------------------------------------- what lasts */

  /** Field f of m is still present once m has been encoded and decoded. */
  ghost predicate Lasts(d: MsgDesc, f: Field, s: Slot)
    decreases f, 1
  {
    match f.htype
    case Required => true
    case Repeated => s.Many? && s.items != []
    case OneOf => s.Choice? && s.which == f.tag
    case Optional => if f.HasSize() then s.Opt? && s.has else d.HasDefaults() || NonZero(f, SlotValue(s))
  }

  ghost predicate NonZero(f: Field, v: Value)
    decreases f, 0
  {
    if f.ltype == Submessage then v.VMsg? && Shows(f.sub, v.m) else !IsZero(f, v)
  }

  /** Some field of m lasts. */
  ghost predicate Shows(d: MsgDesc, m: Msg)
    decreases d, 2
  {
    exists i :: 0 <= i < |d.fields| && Lasts(d, d.fields[i], At(m, d.fields[i]))
  }

  /** At every depth, what is present lasts. */
  ghost predicate Exact(d: MsgDesc, m: Msg)
    decreases d, 2
  {
    forall i :: 0 <= i < |d.fields| && Present(d, d.fields[i], At(m, d.fields[i])) ==>
      Lasts(d, d.fields[i], At(m, d.fields[i])) && ExactSlot(d.fields[i], At(m, d.fields[i]))
  }

  ghost predicate ExactSlot(f: Field, s: Slot)
    decreases f, 1
  {
    match s
    case Many(items, _) => forall k :: 0 <= k < |items| ==> ExactValue(f, items[k])
    case _ => ExactValue(f, SlotValue(s))
  }

  ghost predicate ExactValue(f: Field, v: Value)
    decreases f, 0
  {
    f.ltype == Submessage && v.VMsg? ==> Exact(f.sub, v.m)
  }

  lemma FieldOf(d: MsgDesc, m: Msg, j: nat)
    requires WfDesc(d) && MsgFits(d, m) && j < |d.fields|
    ensures var f := d.fields[j];
            WfField(f, d.nslots) && f.slot < |m.slots| && SlotFits(f, At(m, f)) && m.slots[f.slot] == At(m, f)
    ensures d.fields[j].dflt.Some? ==> d.HasDefaults()
  {
  }

  lemma CleanField(d: MsgDesc, b: Msg, j: nat)
    requires Clean(d, b) && j < |d.fields|
    ensures d.fields[j].slot < |b.slots| && CleanSlot(d.fields[j], At(b, d.fields[j]))
  {
  }

  /** Fresh memory is all default where a struct of the type can show nothing. */
  lemma {:induction false} CleanDefault(d: MsgDesc, m: Msg, b: Msg)
    requires WfDesc(d) && MsgFits(d, m) && Clean(d, b) && !Shows(d, m)
    ensures AllDefault(d, b)
    decreases d, 1
  {
    hide WfDesc, MsgFits, Clean, Shows;
    forall j | 0 <= j < |d.fields|
      ensures d.fields[j].slot < |b.slots| && IsDefault(d, d.fields[j], b.slots[d.fields[j].slot])
    {
      var f := d.fields[j];
      FieldOf(d, m, j);
      CleanField(d, b, j);
      ShowsNot(d, m, j);
      CleanSlotDefault(d, f, At(m, f), At(b, f));
    }
  }

  lemma ShowsNot(d: MsgDesc, m: Msg, j: nat)
    requires !Shows(d, m) && j < |d.fields|
    ensures !Lasts(d, d.fields[j], At(m, d.fields[j]))
  {
  }

  lemma {:induction false} CleanSlotDefault(d: MsgDesc, f: Field, s: Slot, b: Slot)
    requires WfField(f, d.nslots) && SlotFits(f, s) && CleanSlot(f, b) && !Lasts(d, f, s)
    requires f.dflt.Some? ==> d.HasDefaults()
    ensures IsDefault(d, f, b)
    decreases f, 0
  {
    if f.Singular() {
      NoDefault(d, f, s);
      if f.ltype == Submessage { CleanDefault(f.sub, SlotValue(s).m, SlotValue(b).m); }
    }
  }

  lemma NoDefault(d: MsgDesc, f: Field, s: Slot)
    requires f.Singular() && !Lasts(d, f, s)
    ensures !d.HasDefaults() && !NonZero(f, SlotValue(s))
  {
  }

  /* ------------------------------------------- what a decoded struct shows */

  /** What field j of the decoded struct holds. */
  lemma DecodedSlot(d: MsgDesc, m: Msg, b: Msg, j: nat)
    requires WfDesc(d) && MsgFits(d, m) && Clean(d, b) && j < |d.fields|
    ensures var f := d.fields[j]; var s, t := At(m, f), At(Overlay(d, m, b), f);
            if Present(d, f, s) then t == OverlaySlot(f, s, At(b, f))
            else if f.htype == OneOf then
              t.Choice? && s.Choice? && t.which == if Selects(d, |d.fields|, f.slot, s.which) then s.which else 0
            else t == At(b, f)
  {
    if Present(d, d.fields[j], At(m, d.fields[j])) {
      OverlayPresent(d, m, b, |d.fields|, j);
    } else {
      OverlayAbsent(d, m, b, |d.fields|, j);
    }
  }

  /** A decoded struct is all default exactly when what was encoded shows nothing. */
  lemma {:induction false} DecodedDefaultIff(d: MsgDesc, m: Msg, b: Msg)
    requires WfDesc(d) && MsgFits(d, m) && Clean(d, b)
    ensures AllDefault(d, Overlay(d, m, b)) <==> !Shows(d, m)
    decreases d, 1
  {
    hide WfDesc, MsgFits, Clean, Overlay, IsDefault, Lasts, OverlaySlot, Present, CleanSlot, SlotFits;
    var r := Overlay(d, m, b);
    forall j | 0 <= j < |d.fields|
      ensures d.fields[j].slot < |r.slots| && r.slots[d.fields[j].slot] == At(r, d.fields[j])
      ensures Lasts(d, d.fields[j], At(m, d.fields[j])) ==> !IsDefault(d, d.fields[j], At(r, d.fields[j]))
      ensures !Shows(d, m) ==> IsDefault(d, d.fields[j], At(r, d.fields[j]))
    {
      FieldOf(d, m, j);
      CleanField(d, b, j);
      DecodedSlot(d, m, b, j);
      DecodedSlotDefault(d, m, b, j);
    }
  }

  lemma {:induction false} DecodedSlotDefault(d: MsgDesc, m: Msg, b: Msg, j: nat)
    requires WfDesc(d) && MsgFits(d, m) && Clean(d, b) && j < |d.fields|
    ensures var f := d.fields[j]; var s, t := At(m, f), At(Overlay(d, m, b), f);
            && (Lasts(d, f, s) ==> !IsDefault(d, f, t))
            && (!Shows(d, m) ==> IsDefault(d, f, t))
    decreases d, 0
  {
    hide WfDesc, MsgFits, Clean, Overlay, ValueFits, CleanValue, Shows;
    var f := d.fields[j];
    var s, c := At(m, f), At(b, f);
    FieldOf(d, m, j);
    CleanField(d, b, j);
    DecodedSlot(d, m, b, j);
    if !Shows(d, m) { ShowsNot(d, m, j); }
    if Lasts(d, f, s) { LastsPresent(d, f, d.nslots, s); }
    if Present(d, f, s) {
      if f.Singular() { SingularDecoded(f, d.nslots, s.v, c.v); }
    } else if !Shows(d, m) {
      if f.htype == OneOf { NothingSelected(d, m, f.slot, s.which); } else { CleanSlotDefault(d, f, s, c); }
    }
  }

  lemma NothingSelected(d: MsgDesc, m: Msg, slot: nat, which: nat)
    requires !Shows(d, m) && slot < |m.slots| && m.slots[slot].Choice? && m.slots[slot].which == which
    ensures !Selects(d, |d.fields|, slot, which)
  {
  }

  lemma {:induction false} SingularDecoded(f: Field, nslots: nat, v: Value, b: Value)
    requires WfField(f, nslots) && ValueFits(f, v) && CleanValue(f, b)
    ensures IsZero(f, OverlayValue(f, v, b)) <==> !NonZero(f, v)
    decreases f, 0
  {
    if f.ltype == Submessage { DecodedDefaultIff(f.sub, v.m, b.m); }
  }

  lemma {:induction false} LastsPresent(d: MsgDesc, f: Field, nslots: nat, s: Slot)
    requires WfField(f, nslots) && SlotFits(f, s) && Lasts(d, f, s)
    ensures Present(d, f, s) && !IsDefault(d, f, s)
    decreases f, 0
  {
    if f.Singular() && f.ltype == Submessage && !d.HasDefaults() { ShowsPresent(f.sub, s.v.m); }
  }

  lemma {:induction false} ShowsPresent(d: MsgDesc, m: Msg)
    requires WfDesc(d) && MsgFits(d, m) && Shows(d, m)
    ensures !AllDefault(d, m)
    decreases d, 1
  {
    var j :| 0 <= j < |d.fields| && Lasts(d, d.fields[j], At(m, d.fields[j]));
    FieldOf(d, m, j);
    LastsPresent(d, d.fields[j], d.nslots, At(m, d.fields[j]));
  }

  /* ---------------------------------------------------- the bytes once more */

  /** b is what a is encoded to again: the same bytes, or fewer. */
  ghost predicate Again(a: Option<Bytes>, b: Option<Bytes>, exact: bool)
  {
    a.Some? && b.Some? && if exact then b == a else |b.value| < |a.value|
  }

  lemma CatAgain(a1: Option<Bytes>, b1: Option<Bytes>, e1: bool, a2: Option<Bytes>, b2: Option<Bytes>, e2: bool)
    requires Again(a1, b1, e1) && Again(a2, b2, e2)
    ensures Again(Cat(a1, a2), Cat(b1, b2), e1 && e2)
  {
  }

  lemma PrefixAgain(a: Bytes, b: Bytes, exact: bool)
    requires Again(Some(a), Some(b), exact)
    ensures Again(Some(EncVarint(|a|) + a), Some(EncVarint(|b|) + b), exact)
  {
    hide EncVarint;
    VarintLengthMonotone(|b|, |a|);
  }

  lemma {:induction false} DataAgain(f: Field, nslots: nat, v: Value, base: Value)
    requires WfField(f, nslots) && ValueFits(f, v) && EncData(f, v).Some?
    requires f.ltype == Submessage ==> CleanValue(f, base)
    ensures Again(EncData(f, v), EncData(f, OverlayValue(f, v, base)), ExactValue(f, v))
    decreases f, 0
  {
    if f.ltype == Submessage {
      MessageAgain(f.sub, v.m, base.m);
      hide EncMsg, Overlay, EncVarint, Exact;
      PrefixAgain(EncMsg(f.sub, v.m).value, EncMsg(f.sub, Overlay(f.sub, v.m, base.m)).value, Exact(f.sub, v.m));
    }
  }

  lemma {:induction false} BasicAgain(f: Field, nslots: nat, v: Value, base: Value)
    requires WfField(f, nslots) && ValueFits(f, v) && EncBasic(f, v).Some?
    requires f.ltype == Submessage ==> CleanValue(f, base)
    ensures Again(EncBasic(f, v), EncBasic(f, OverlayValue(f, v, base)), ExactValue(f, v))
    decreases f, 1
  {
    hide EncData, OverlayValue, CleanValue, ExactValue, EncTag, WfField, ValueFits;
    DataAgain(f, nslots, v, base);
    var key := Some(EncTag(f.tag, WireTypeOf(f.ltype)));
    CatAgain(key, key, true, EncData(f, v), EncData(f, OverlayValue(f, v, base)), ExactValue(f, v));
  }

  lemma {:induction false} ItemsAgain(f: Field, nslots: nat, items: seq<Value>, bases: seq<Value>, k: nat)
    requires WfField(f, nslots) && k <= |items| && EncUnpacked(f, items[k..]).Some?
    requires forall j :: 0 <= j < |items| ==> ValueFits(f, items[j])
    requires forall j :: 0 <= j < |bases| ==> ValueFits(f, bases[j])
    ensures Again(EncUnpacked(f, items[k..]), EncUnpacked(f, OverlayItems(f, items, bases)[k..]),
                  forall j :: k <= j < |items| ==> ExactValue(f, items[j]))
    decreases f, 2, |items| - k
  {
    hide EncUnpacked, EncBasic, WfField, ValueFits, OverlayValue, ItemBase, ExactValue;
    var over := OverlayItems(f, items, bases);
    if k == |items| {
      NoItems(f, items, over);
    } else {
      UnpackedUnfold(f, items, k);
      UnpackedUnfold(f, over, k);
      ItemBaseClean(f, nslots, bases, k);
      BasicAgain(f, nslots, items[k], ItemBase(f, bases, k));
      ItemsAgain(f, nslots, items, bases, k + 1);
      CatAgain(EncBasic(f, items[k]), EncBasic(f, over[k]), ExactValue(f, items[k]),
        EncUnpacked(f, items[k + 1..]), EncUnpacked(f, over[k + 1..]),
        forall j :: k + 1 <= j < |items| ==> ExactValue(f, items[j]));
      assert (forall j :: k <= j < |items| ==> ExactValue(f, items[j])) <==>
             ExactValue(f, items[k]) && forall j :: k + 1 <= j < |items| ==> ExactValue(f, items[j]);
    }
  }

  lemma NoItems(f: Field, items: seq<Value>, over: seq<Value>)
    requires |items| == |over|
    ensures EncUnpacked(f, items[|items|..]) == Some([]) == EncUnpacked(f, over[|items|..])
  {
  }

  lemma ItemBaseClean(f: Field, nslots: nat, bases: seq<Value>, k: nat)
    requires WfField(f, nslots) && forall j :: 0 <= j < |bases| ==> ValueFits(f, bases[j])
    ensures f.ltype == Submessage ==> CleanValue(f, ItemBase(f, bases, k))
  {
    var prior := if k < |bases| then bases[k] else ZeroValue(f);
    ZeroValueFits(f, nslots);
    if f.ltype == Submessage { DefaultsAreClean(f.sub, prior.m); }
  }

  lemma {:induction false} ArrayAgain(f: Field, nslots: nat, items: seq<Value>, bases: seq<Value>)
    requires WfField(f, nslots) && EncArray(f, items).Some?
    requires forall j :: 0 <= j < |items| ==> ValueFits(f, items[j])
    requires forall j :: 0 <= j < |bases| ==> ValueFits(f, bases[j])
    ensures Again(EncArray(f, items), EncArray(f, OverlayItems(f, items, bases)),
                  forall j :: 0 <= j < |items| ==> ExactValue(f, items[j]))
    decreases f, 3
  {
    hide EncUnpacked, EncPackedItems, WfField, ValueFits, ItemBase, EncVarint, EncTag, Exact;
    var over := OverlayItems(f, items, bases);
    if f.Packable() {
      assert forall k :: 0 <= k < |items| ==> over[k] == items[k];
      assert over == items;
    } else if items == [] {
      assert over == [];
    } else {
      assert items[0..] == items && over[0..] == over;
      ItemsAgain(f, nslots, items, bases, 0);
    }
  }

  /** Field j: written again as its contents are, or not at all if it does not last. */
  lemma {:induction false} FieldAgain(d: MsgDesc, m: Msg, b: Msg, j: nat)
    requires WfDesc(d) && MsgFits(d, m) && Clean(d, b) && j < |d.fields|
    requires EncField(d, d.fields[j], At(m, d.fields[j])).Some?
    ensures var f := d.fields[j]; var s := At(m, f);
            Again(EncField(d, f, s), EncField(d, f, At(Overlay(d, m, b), f)),
                  Present(d, f, s) ==> Lasts(d, f, s) && ExactSlot(f, s))
    decreases d, 1
  {
    hide WfDesc, MsgFits, Clean, Overlay, ValueFits, CleanValue, Shows, EncBasic, EncArray, OverlayValue, OverlayItems;
    hide NonZero, IsZero, ExactValue;
    var f := d.fields[j];
    var s, c := At(m, f), At(b, f);
    FieldOf(d, m, j);
    CleanField(d, b, j);
    DecodedSlot(d, m, b, j);
    if !Present(d, f, s) {
      AbsentAgain(d, m, b, j);
    } else if f.htype == Repeated {
      ArrayAgain(f, d.nslots, s.items, Bases(f, c));
    } else if f.htype == OneOf {
      FreshSubIsCleanValue(f, d.nslots);
      BasicAgain(f, d.nslots, s.v, VMsg(FreshSub(f.sub)));
    } else {
      BasicAgain(f, d.nslots, SlotValue(s), SlotValue(c));
      if f.Singular() {
        SingularDecoded(f, d.nslots, s.v, c.v);
        BasicCosts(f, s.v);
      }
    }
  }

  lemma FreshSubIsCleanValue(f: Field, nslots: nat)
    requires WfField(f, nslots)
    ensures f.ltype == Submessage ==> CleanValue(f, VMsg(FreshSub(f.sub)))
  {
    if f.ltype == Submessage { FreshSubIsClean(f.sub); }
  }

  lemma BasicCosts(f: Field, v: Value)
    requires EncBasic(f, v).Some?
    ensures |EncBasic(f, v).value| > 0
  {
  }

  lemma AbsentAgain(d: MsgDesc, m: Msg, b: Msg, j: nat)
    requires WfDesc(d) && MsgFits(d, m) && Clean(d, b) && j < |d.fields|
    requires !Present(d, d.fields[j], At(m, d.fields[j]))
    ensures var f := d.fields[j]; var t := At(Overlay(d, m, b), f);
            !Present(d, f, t) && EncField(d, f, At(m, f)) == Some([]) == EncField(d, f, t)
  {
    hide WfDesc, MsgFits, Clean, Overlay, ValueFits, CleanValue, Shows, EncBasic, OverlayValue, OverlayItems;
    var f := d.fields[j];
    FieldOf(d, m, j);
    CleanField(d, b, j);
    DecodedSlot(d, m, b, j);
    if f.Singular() {
      if Lasts(d, f, At(m, f)) { LastsPresent(d, f, d.nslots, At(m, f)); }
      CleanSlotDefault(d, f, At(m, f), At(b, f));
    }
  }

  ghost predicate ExactFrom(d: MsgDesc, m: Msg, i: nat)
    requires i <= |d.fields|
  {
    forall j :: i <= j < |d.fields| && Present(d, d.fields[j], At(m, d.fields[j])) ==>
      Lasts(d, d.fields[j], At(m, d.fields[j])) && ExactSlot(d.fields[j], At(m, d.fields[j]))
  }

  lemma {:induction false} FromAgain(d: MsgDesc, m: Msg, b: Msg, i: nat)
    requires WfDesc(d) && MsgFits(d, m) && Clean(d, b) && i <= |d.fields| && EncFrom(d, m, i).Some?
    ensures Again(EncFrom(d, m, i), EncFrom(d, Overlay(d, m, b), i), ExactFrom(d, m, i))
    decreases d, 2, |d.fields| - i
  {
    hide WfDesc, MsgFits, Clean, Overlay, EncField, Present, Lasts, ExactSlot, SlotFits, CleanSlot;
    if i == |d.fields| {
    } else {
      var f, r := d.fields[i], Overlay(d, m, b);
      FieldOf(d, m, i);
      CleanField(d, b, i);
      FieldAgain(d, m, b, i);
      FromAgain(d, m, b, i + 1);
      var e := Present(d, f, At(m, f)) ==> Lasts(d, f, At(m, f)) && ExactSlot(f, At(m, f));
      CatAgain(EncField(d, f, At(m, f)), EncField(d, f, At(r, f)), e,
        EncFrom(d, m, i + 1), EncFrom(d, r, i + 1), ExactFrom(d, m, i + 1));
      assert ExactFrom(d, m, i) <==> e && ExactFrom(d, m, i + 1);
    }
  }

  lemma {:induction false} MessageAgain(d: MsgDesc, m: Msg, b: Msg)
    requires WfDesc(d) && MsgFits(d, m) && Clean(d, b) && EncMsg(d, m).Some?
    ensures Again(EncMsg(d, m), EncMsg(d, Overlay(d, m, b)), Exact(d, m))
    decreases d, 3
  {
    FromAgain(d, m, b, 0);
  }

  /**
   What has been encoded and decoded is encoded to the same bytes exactly when every present
   field lasts, at every depth; otherwise to fewer.
   */
  lemma ReencodeIff(d: MsgDesc, m: Msg, prior: Msg)
    requires WfDesc(d) && MsgFits(d, m) && MsgFits(d, prior)
    requires EncMsg(d, m).Some? && |EncMsg(d, m).value| < U32
    ensures var r := DecMsg(d, EncMsg(d, m).value, prior, true);
            && r.Some? && EncMsg(d, r.value).Some?
            && (EncMsg(d, r.value) == EncMsg(d, m) <==> Exact(d, m))
            && (!Exact(d, m) ==> |EncMsg(d, r.value).value| < |EncMsg(d, m).value|)
  {
    hide WfDesc, MsgFits, EncMsg, DecMsg, Overlay, Exact, SetDefaults;
    MessageRoundTrip(d, m, prior, true);
    DefaultsAreClean(d, prior);
    MessageAgain(d, m, SetDefaults(d, prior));
  }

  /* --------------------------------------------------------- named selectors */

  /** Every selector is zero or names a member of its oneof, in all that is present. */
  ghost predicate Named(d: MsgDesc, m: Msg)
    decreases d, 2
  {
    forall i :: 0 <= i < |d.fields| ==>
      && NamedChoice(d, d.fields[i], At(m, d.fields[i]))
      && (Present(d, d.fields[i], At(m, d.fields[i])) ==> NamedSlot(d.fields[i], At(m, d.fields[i])))
  }

  ghost predicate NamedChoice(d: MsgDesc, f: Field, s: Slot)
  {
    f.htype == OneOf && s.Choice? ==> s.which == 0 || Selects(d, |d.fields|, f.slot, s.which)
  }

  ghost predicate NamedSlot(f: Field, s: Slot)
    decreases f, 1
  {
    match s
    case Many(items, _) => forall k :: 0 <= k < |items| ==> NamedValue(f, items[k])
    case _ => NamedValue(f, SlotValue(s))
  }

  ghost predicate NamedValue(f: Field, v: Value)
    decreases f, 0
  {
    f.ltype == Submessage && v.VMsg? ==> Named(f.sub, v.m)
  }

  lemma {:induction false} NamedShows(d: MsgDesc, m: Msg)
    requires WfDesc(d) && MsgFits(d, m) && Named(d, m) && !AllDefault(d, m)
    ensures Shows(d, m)
    decreases d, 1
  {
    forall j | 0 <= j < |d.fields|
      ensures d.fields[j].slot < |m.slots| && m.slots[d.fields[j].slot] == At(m, d.fields[j])
    {
      FieldOf(d, m, j);
    }
    var j :| 0 <= j < |d.fields| && !IsDefault(d, d.fields[j], At(m, d.fields[j]));
    FieldOf(d, m, j);
    var f := d.fields[j];
    var s := At(m, f);
    if f.htype == OneOf {
      var k :| 0 <= k < |d.fields| && d.fields[k].htype == OneOf && d.fields[k].slot == f.slot
               && d.fields[k].tag == s.which;
      assert Lasts(d, d.fields[k], At(m, d.fields[k]));
    } else {
      NamedLasts(d, f, s);
    }
  }

  lemma {:induction false} NamedLasts(d: MsgDesc, f: Field, s: Slot)
    requires WfField(f, d.nslots) && SlotFits(f, s) && Present(d, f, s) && NamedSlot(f, s)
    ensures Lasts(d, f, s)
    decreases f, 0
  {
    if f.Singular() && f.ltype == Submessage && !d.HasDefaults() {
      assert !IsZero(f, s.v) && NamedValue(f, s.v);
      NamedShows(f.sub, s.v.m);
    }
  }

  /** Whoever sets selectors only to tags of their oneof gets the same bytes back. */
  lemma {:induction false} NamedExact(d: MsgDesc, m: Msg)
    requires WfDesc(d) && MsgFits(d, m) && Named(d, m)
    ensures Exact(d, m)
    decreases d
  {
    forall j | 0 <= j < |d.fields| && Present(d, d.fields[j], At(m, d.fields[j]))
      ensures Lasts(d, d.fields[j], At(m, d.fields[j])) && ExactSlot(d.fields[j], At(m, d.fields[j]))
    {
      var f := d.fields[j];
      var s := At(m, f);
      FieldOf(d, m, j);
      assert NamedSlot(f, s);
      NamedLasts(d, f, s);
      if f.htype == Repeated {
        forall k | 0 <= k < |s.items| ensures ExactValue(f, s.items[k]) {
          assert NamedValue(f, s.items[k]);
          if f.ltype == Submessage { NamedExact(f.sub, s.items[k].m); }
        }
      } else if f.ltype == Submessage {
        assert NamedValue(f, SlotValue(s));
        NamedExact(f.sub, SlotValue(s).m);
      }
    }
  }

  lemma {:induction false} DecodedNamed(d: MsgDesc, m: Msg, b: Msg)
    requires WfDesc(d) && MsgFits(d, m) && Clean(d, b)
    ensures Named(d, Overlay(d, m, b))
    decreases d, 2
  {
    hide WfDesc, MsgFits, Clean, Overlay, Present, NamedSlot, NamedChoice, SlotFits, CleanSlot;
    var r := Overlay(d, m, b);
    forall j | 0 <= j < |d.fields|
      ensures NamedChoice(d, d.fields[j], At(r, d.fields[j]))
      ensures Present(d, d.fields[j], At(r, d.fields[j])) ==> NamedSlot(d.fields[j], At(r, d.fields[j]))
    {
      DecodedFieldNamed(d, m, b, j);
    }
  }

  lemma {:induction false} DecodedFieldNamed(d: MsgDesc, m: Msg, b: Msg, j: nat)
    requires WfDesc(d) && MsgFits(d, m) && Clean(d, b) && j < |d.fields|
    ensures var f := d.fields[j]; var t := At(Overlay(d, m, b), f);
            NamedChoice(d, f, t) && (Present(d, f, t) ==> NamedSlot(f, t))
    decreases d, 1
  {
    hide WfDesc, MsgFits, Clean, Overlay, ValueFits, CleanValue, EncBasic, EncArray, OverlayValue, ItemBase, NamedValue;
    var f := d.fields[j];
    var s, c := At(m, f), At(b, f);
    FieldOf(d, m, j);
    CleanField(d, b, j);
    DecodedSlot(d, m, b, j);
    if f.htype == OneOf && Present(d, f, s) { assert Selects(d, |d.fields|, f.slot, f.tag); }
    if !Present(d, f, s) {
      AbsentAgain(d, m, b, j);
    } else if f.htype == Repeated {
      forall k | 0 <= k < |s.items| ensures NamedValue(f, OverlayValue(f, s.items[k], ItemBase(f, Bases(f, c), k))) {
        ItemBaseClean(f, d.nslots, Bases(f, c), k);
        DecodedValueNamed(f, d.nslots, s.items[k], ItemBase(f, Bases(f, c), k));
      }
    } else {
      var base := if f.htype == OneOf then VMsg(FreshSub(f.sub)) else SlotValue(c);
      FreshSubIsCleanValue(f, d.nslots);
      DecodedValueNamed(f, d.nslots, SlotValue(s), base);
    }
  }

  lemma {:induction false} DecodedValueNamed(f: Field, nslots: nat, v: Value, base: Value)
    requires WfField(f, nslots) && ValueFits(f, v) && (f.ltype == Submessage ==> CleanValue(f, base))
    ensures NamedValue(f, OverlayValue(f, v, base))
    decreases f, 0
  {
    if f.ltype == Submessage { DecodedNamed(f.sub, v.m, base.m); }
  }

  /** From the second time on nothing changes: what has been decoded is encoded and decoded to the same bytes. */
  lemma ReencodeStable(d: MsgDesc, m: Msg, prior: Msg, prior2: Msg)
    requires WfDesc(d) && MsgFits(d, m) && MsgFits(d, prior) && MsgFits(d, prior2)
    requires EncMsg(d, m).Some? && |EncMsg(d, m).value| < U32
    ensures var r := DecMsg(d, EncMsg(d, m).value, prior, true);
            && r.Some? && EncMsg(d, r.value).Some?
            && var r2 := DecMsg(d, EncMsg(d, r.value).value, prior2, true);
               r2.Some? && EncMsg(d, r2.value) == EncMsg(d, r.value)
  {
    hide WfDesc, MsgFits, EncMsg, DecMsg, Overlay, Exact, Named, SetDefaults;
    ReencodeIff(d, m, prior);
    MessageRoundTrip(d, m, prior, true);
    DefaultsAreClean(d, prior);
    var r := DecMsg(d, EncMsg(d, m).value, prior, true).value;
    DecodedNamed(d, m, SetDefaults(d, prior));
    Typing.MessageFits(d, EncMsg(d, m).value, prior, true);
    NamedExact(d, r);
    ReencodeIff(d, r, prior2);
  }

  /* ------------------------------------------------------- an input that shows it */

  /** A oneof of one bool, with tag 1. */
  function Flag(): MsgDesc
  {
    MsgDesc([Field(1, OneOf, Bool, 1, 1, 1, 0, 1, None, MsgDesc([], 0))], 1)
  }

  /** A proto3 submessage of that type, with tag 1. */
  function Flags(): MsgDesc
  {
    MsgDesc([Field(1, Optional, Submessage, 0, 8, 1, 0, 1, None, Flag())], 1)
  }

  /** The selector of the oneof is 9, which is not a tag of it. */
  function Stray(): Msg
  {
    Msg([Choice(9, VInt(0))])
  }

  lemma FlagFacts()
    ensures WfDesc(Flag()) && MsgFits(Flag(), Stray())
    ensures EncMsg(Flag(), Stray()) == Some([]) && !AllDefault(Flag(), Stray()) && !Shows(Flag(), Stray())
  {
    var d, m := Flag(), Stray();
    var f := d.fields[0];
    assert WfField(f, 1) && SlotFits(f, m.slots[0]);
    assert EncField(d, f, m.slots[0]) == Some([]) == EncFrom(d, m, 1);
    var none: Bytes := [];
    assert none + none == none;
    assert EncFrom(d, m, 0) == Some(none + none);
    assert !IsDefault(d, f, m.slots[0]);
  }

  function StrayFlags(): Msg
  {
    Msg([Plain(VMsg(Stray()))])
  }

  lemma FlagsAreWf()
    ensures WfDesc(Flags())
  {
    hide Flag, Stray, MsgFits, EncMsg, AllDefault, Shows;
    FlagFacts();
    assert WfField(Flags().fields[0], 1);
  }

  lemma FlagsFit()
    ensures MsgFits(Flags(), StrayFlags())
  {
    hide Flag, Stray, MsgFits, WfDesc, EncMsg, AllDefault, Shows;
    FlagFacts();
    assert ValueFits(Flags().fields[0], VMsg(Stray()));
    OneFieldFits(Flags(), StrayFlags());
  }

  lemma FlagsInexact()
    ensures !Exact(Flags(), StrayFlags()) && Present(Flags(), Flags().fields[0], StrayFlags().slots[0])
  {
    hide Flag, Stray, AllDefault, Shows;
    FlagFacts();
    var d, m := Flags(), StrayFlags();
    var f, s := d.fields[0], m.slots[0];
    assert !d.HasDefaults() && !IsZero(f, s.v) && !NonZero(f, s.v);
    assert Present(d, f, s) && !Lasts(d, f, s);
  }

  lemma StrayRecord()
    ensures EncBasic(Flags().fields[0], VMsg(Stray())) == Some([0x0A, 0])
  {
    hide Flag, Stray, AllDefault, Shows, WfDesc, MsgFits;
    FlagFacts();
    var none: Bytes, key: Bytes, body: Bytes := [], [0x0A], [0];
    assert EncTag(1, WT_STRING) == key && EncVarint(0) == body;
    assert body + none == body && key + body == [0x0A, 0];
    assert EncData(Flags().fields[0], VMsg(Stray())) == Some(body + none);
  }

  lemma FlagsEncoded()
    ensures EncMsg(Flags(), StrayFlags()) == Some([0x0A, 0])
  {
    hide Flag, Stray, Exact, IsDefault, EncBasic;
    StrayRecord();
    FlagsInexact();
    var d, m := Flags(), StrayFlags();
    var none: Bytes, record: Bytes := [], [0x0A, 0];
    assert record + none == record;
    assert EncField(d, d.fields[0], m.slots[0]) == Some(record) && EncFrom(d, m, 1) == Some(none);
    assert EncFrom(d, m, 0) == Some(record + none);
  }

  /** Such a struct is encoded to a key and an empty body the first time, and to nothing the second. */
  lemma StraySelectorIsLost(prior: Msg)
    requires MsgFits(Flags(), prior)
    ensures var d, m := Flags(), StrayFlags();
            && WfDesc(d) && MsgFits(d, m) && EncMsg(d, m) == Some([0x0A, 0])
            && var r := DecMsg(d, [0x0A, 0], prior, true);
               r.Some? && EncMsg(d, r.value).Some? && |EncMsg(d, r.value).value| < 2
  {
    hide Flags, StrayFlags, WfDesc, MsgFits, EncMsg, DecMsg, Exact;
    FlagsAreWf();
    FlagsFit();
    FlagsInexact();
    FlagsEncoded();
    ReencodeIff(Flags(), StrayFlags(), prior);
  }
}
