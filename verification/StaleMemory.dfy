/**
 What pb_decode leaves of the memory it is given: an element added to an array of
 submessages starts from what lies behind the count, which nobody has cleared.
 */
module StaleMemory {
  import opened Wire
  import opened Schema
  import opened Encoding
  import opened Decoding
  import opened RoundTrip
  import opened Merging
  import opened Typing

  /** A struct to whose array field i a submessage can be added, which may be empty. */
  ghost predicate RoomForSub(d: MsgDesc, i: nat, st: State)
  {
    && WfDesc(d) && i < |d.fields| && TypedSlot(d.fields[i], st)
    && d.fields[i].htype == Repeated && d.fields[i].HasSize() && d.fields[i].ltype == Submessage
    && |st.m.slots[d.fields[i].slot].items| < d.fields[i].arraySize
    && d.fields[i].sub.RequiredBefore(|d.fields[i].sub.fields|) == 0
  }

  /** The memory of the next element. */
  ghost function NextMemory(f: Field, s: Slot): Value
    requires s.Many?
  {
    ElementMemory(f, s.items, s.spare, |s.items|)
  }

  lemma EmptyDecodes(d: MsgDesc, m: Msg)
    requires d.RequiredBefore(|d.fields|) == 0
    ensures DecMsg(d, [], m, true) == Some(SetDefaults(d, m))
  {
  }

  /**
   An empty record adds an element that holds the memory there was, its defaults set: it is
   within its bounds exactly when what initialisation leaves alone was.
   */
  lemma EmptyElementIff(d: MsgDesc, i: nat, st: State, tail: Bytes)
    requires RoomForSub(d, i, st)
    ensures var f := d.fields[i]; var s := st.m.slots[f.slot]; var memory := NextMemory(f, s);
            && memory.VMsg?
            && var added := VMsg(SetDefaults(f.sub, memory.m));
               && DecLoop(d, LenRecord(f, []) + tail, st) == DecLoop(d, tail, Receives(d, i, Grown(s, [added]), st))
               && ValueFits(f, added)
               && (BoundedValue(f, added) <==> KeptInBounds(f.sub, memory.m))
  {
    hide DecLoop, DecField, DecMsg, MsgFits, SetDefaults, KeptInBounds, Bounded, Receives, Grown, ElementMemory, EncTag,
      DecDelimited;
    var f := d.fields[i];
    var s := st.m.slots[f.slot];
    var memory := NextMemory(f, s);
    assert WfField(f, d.nslots);
    FirstSpare(f, d.nslots, s);
    DefaultsAreClean(f.sub, memory.m);
    DefaultsBoundedIff(f.sub, memory.m);
    EmptyDecodes(f.sub, memory.m);
    var added, body: Bytes := VMsg(SetDefaults(f.sub, memory.m)), [];
    var payload := EncVarint(0) + body;
    DelimitedRoundTrip(body, tail);
    assert DecBasic(f, WT_STRING, payload + tail, memory, true) == Ok(added, |payload|);
    ElementReceives(d, i, st, added, payload, tail);
    KeyStep(d, i, WT_STRING, payload, tail, st, Receives(d, i, Grown(s, [added]), st));
  }

  /* ------------------------------------------------------- an input that shows it */

  /** One fixed-count array of one byte string of at most two bytes, with tag 1. */
  function Strings(): MsgDesc
  {
    MsgDesc([Field(1, Repeated, BytesArray, 0, 4, 1, 0, 1, None, MsgDesc([], 0))], 1)
  }

  /** An array of at most three of them, with tag 1. */
  function Outer(): MsgDesc
  {
    MsgDesc([Field(1, Repeated, Submessage, 1, 8, 3, 0, 2, None, Strings())], 1)
  }

  /** A struct of Strings whose size member was never set. */
  function Stale(): Msg
  {
    Msg([Many([VBytes([1, 2, 3])], [])])
  }

  /** A struct of Outer with the given elements, and such memory behind them. */
  function Uninitialised(items: seq<Value>): Msg
  {
    Msg([Many(items, [VMsg(Stale())])])
  }

  lemma StringsIsWf()
    ensures WfDesc(Strings()) && MsgFits(Strings(), Stale())
    ensures SetDefaults(Strings(), Stale()) == Stale()
    ensures EncMsg(Strings(), Stale()).None?
  {
    var d, m := Strings(), Stale();
    assert WfField(d.fields[0], 1) && SlotFits(d.fields[0], m.slots[0]);
    assert DefaultsFrom(d, m, 0) == m && m.slots[0 := m.slots[0]] == m.slots;
    assert EncData(d.fields[0], m.slots[0].items[0]).None?;
  }

  lemma StaleIsOutside()
    ensures !KeptInBounds(Strings(), Stale())
  {
    var f, s := Strings().fields[0], Stale().slots[0];
    assert !BoundedValue(f, s.items[0]);
    assert !KeptSlotInBounds(f, s);
  }

  lemma OuterIsWf()
    ensures WfDesc(Outer())
  {
    hide Strings, Stale, MsgFits, EncMsg, SetDefaults;
    StringsIsWf();
    assert WfField(Outer().fields[0], 1);
  }

  lemma StaleElementFits()
    ensures ValueFits(Outer().fields[0], VMsg(Stale()))
  {
    hide Strings, Stale, WfDesc, MsgFits, EncMsg, SetDefaults;
    StringsIsWf();
  }

  lemma OuterFits()
    ensures MsgFits(Outer(), Uninitialised([]))
  {
    hide Strings, Stale, ValueFits;
    StaleElementFits();
    OneFieldFits(Outer(), Uninitialised([]));
  }

  lemma OuterIsOutside()
    ensures !KeptInBounds(Outer(), Uninitialised([]))
  {
    hide Strings, Stale, KeptInBounds;
    StaleIsOutside();
    var f, s := Outer().fields[0], Uninitialised([]).slots[0];
    assert Elements(s)[0] == VMsg(Stale());
    assert !KeptElements(f, Elements(s), f.arraySize);
    assert !KeptSlotInBounds(f, s);
    OuterNotKept();
  }

  lemma OuterNotKept()
    requires !KeptSlotInBounds(Outer().fields[0], Uninitialised([]).slots[0])
    ensures !KeptInBounds(Outer(), Uninitialised([]))
  {
    hide KeptSlotInBounds, Strings, Stale;
    assert Outer().fields[0].slot == 0;
  }

  lemma OuterDefaults()
    ensures SetDefaults(Outer(), Uninitialised([])) == Uninitialised([])
  {
    hide Strings, Stale;
    var d, m := Outer(), Uninitialised([]);
    assert DefaultSlot(d.fields[0], m.slots[0]) == m.slots[0];
    assert DefaultsFrom(d, m, 0) == m && m.slots[0 := m.slots[0]] == m.slots;
  }

  lemma OuterRecord()
    ensures LenRecord(Outer().fields[0], []) + [] == [0x0A, 0]
  {
    hide Strings;
    var s: Bytes := [0x0A, 0];
    assert EncTag(1, WT_STRING) == [0x0A] && EncVarint(0) == [0];
    assert LenRecord(Outer().fields[0], []) + [] == s;
  }

  lemma OuterRefused(v: Value)
    requires EncData(Outer().fields[0], v).None?
    ensures EncMsg(Outer(), Msg([Many([v], [])])).None?
  {
    hide EncData, Strings;
    var f := Outer().fields[0];
    assert EncUnpacked(f, [v]).None?;
    assert EncField(Outer(), f, Many([v], [])).None?;
  }

  /** The bytes 0A 00 are accepted, and pb_encode refuses what they leave. */
  lemma StaleElementSurvives()
    ensures var d, dest, r := Outer(), Uninitialised([]), Msg([Many([VMsg(Stale())], [])]);
            && WfDesc(d) && MsgFits(d, dest) && !KeptInBounds(d, dest)
            && DecMsg(d, [0x0A, 0], dest, true) == Some(r)
            && EncMsg(d, r).None?
  {
    hide WfDesc, MsgFits, KeptInBounds, BoundedValue, Strings, Stale, SetDefaults, LenRecord, DecStep, EncMsg;
    StringsIsWf();
    OuterIsWf();
    OuterFits();
    OuterIsOutside();
    OuterDefaults();
    OuterRecord();
    var d, dest, v := Outer(), Uninitialised([]), VMsg(Stale());
    var st, r := Start(d, dest, true), Msg([Many([v], [])]);
    OuterHasRoom(st);
    EmptyElementIff(d, 0, st, []);
    OuterReceives(st, v);
    LoopEnd(d, State(r, NoField, {}));
    assert DecLoop(d, [0x0A, 0], st) == Some(State(r, NoField, {}));
    assert d.RequiredBefore(1) == 0;
    OuterRefused(v);
  }

  lemma OuterReceives(st: State, v: Value)
    requires st == State(Uninitialised([]), NoField, {})
    ensures Receives(Outer(), 0, Grown(st.m.slots[0], [v]), st) == State(Msg([Many([v], [])]), NoField, {})
  {
    hide Strings, Stale;
    assert Grown(st.m.slots[0], [v]) == Many([v], []);
    assert st.m.slots[0 := Many([v], [])] == [Many([v], [])];
  }

  lemma OuterHasRoom(st: State)
    requires WfDesc(Outer()) && MsgFits(Outer(), Uninitialised([])) && st.m == Uninitialised([])
    ensures RoomForSub(Outer(), 0, st)
  {
    assert Outer().fields[0].slot < |st.m.slots| && SlotFits(Outer().fields[0], st.m.slots[0]);
    assert Strings().RequiredBefore(1) == 0;
  }
}
