/**
 What pb_decode turns away, what it passes over, and what pb_encode leaves out: laws that
 tie the required-field check, skipping and presence to what the wire holds.
 */
module Acceptance {
  import opened Wire
  import opened Schema
  import opened Encoding
  import opened Decoding
  import opened Merge

  /* --------------------------------------------------------- required fields */

  /** A record of field i stands at some boundary of s. */
  ghost predicate Occurs(d: MsgDesc, s: Bytes, st: State, i: nat)
    decreases |s|
  {
    s != [] &&
      match DecStep(d, s, st)
      case Err => false
      case Ok(st1, n) => FindTag(d, DecTag(s).value.tag, 0) == Some(i) || Occurs(d, s[n..], st1, i)
  }

  lemma StepNotes(d: MsgDesc, s: Bytes, st: State)
    requires DecStep(d, s, st).Ok?
    ensures DecTag(s).Ok?
    ensures var found := FindTag(d, DecTag(s).value.tag, 0);
            DecStep(d, s, st).value.seen ==
              if found.Some? && d.fields[found.value].htype == Required
                  && d.RequiredBefore(found.value) < MAX_REQUIRED_FIELDS
              then st.seen + {d.RequiredBefore(found.value)} else st.seen
  {
    hide DecStatic, DecTag, SkipField, FindTag;
  }

  lemma {:induction false} RequiredRises(d: MsgDesc, i: nat, j: nat)
    requires i < j <= |d.fields|
    ensures d.RequiredBefore(i) + (if d.fields[i].htype == Required then 1 else 0) <= d.RequiredBefore(j)
    decreases j
  {
    if i == j - 1 {
    } else {
      RequiredRises(d, i, j - 1);
    }
  }

  /** Different required fields have different numbers. */
  lemma RequiredNumbers(d: MsgDesc, i: nat, j: nat)
    requires i < |d.fields| && j < |d.fields| && d.fields[i].htype == Required && d.fields[j].htype == Required
    requires d.RequiredBefore(i) == d.RequiredBefore(j)
    ensures i == j
  {
    if i < j { RequiredRises(d, i, j); }
    if j < i { RequiredRises(d, j, i); }
  }

  /** A required field among the first 64 is noted exactly when it occurs. */
  lemma {:induction false} NotedIffOccurs(d: MsgDesc, s: Bytes, st: State, i: nat)
    requires i < |d.fields| && d.fields[i].htype == Required && d.RequiredBefore(i) < MAX_REQUIRED_FIELDS
    requires DecLoop(d, s, st).Some?
    ensures d.RequiredBefore(i) in DecLoop(d, s, st).value.seen <==>
            d.RequiredBefore(i) in st.seen || Occurs(d, s, st, i)
    decreases |s|
  {
    hide DecStep, FindTag, DecTag;
    if s == [] {
    } else {
      StepNotes(d, s, st);
      var Ok(st1, n) := DecStep(d, s, st);
      NotedIffOccurs(d, s[n..], st1, i);
      var found := FindTag(d, DecTag(s).value.tag, 0);
      if found.Some? && d.fields[found.value].htype == Required
          && d.RequiredBefore(found.value) == d.RequiredBefore(i) {
        RequiredNumbers(d, found.value, i);
      }
    }
  }

  lemma {:induction false} NumberTaken(d: MsgDesc, k: nat, n: nat) returns (i: nat)
    requires n <= |d.fields| && k < d.RequiredBefore(n)
    ensures i < n && d.fields[i].htype == Required && d.RequiredBefore(i) == k
  {
    if k < d.RequiredBefore(n - 1) { i := NumberTaken(d, k, n - 1); } else { i := n - 1; }
  }

  /** Field i is one of the first 64 required fields. */
  ghost predicate Checked(d: MsgDesc, i: nat)
  {
    i < |d.fields| && d.fields[i].htype == Required && d.RequiredBefore(i) < 64
  }

  /**
   Once its records are readable, a message is accepted exactly when the fixed-count array decoded
   last has all its elements and every required field among the first 64 occurs.
   */
  lemma AcceptedIff(d: MsgDesc, s: Bytes, m: Msg, init: bool)
    requires DecLoop(d, s, Start(d, m, init)).Some?
    ensures var fc := DecLoop(d, s, Start(d, m, init)).value.fc;
            DecMsg(d, s, m, init).Some? <==>
              && (fc.Counting? ==> fc.size == fc.total)
              && forall i: nat :: Checked(d, i) ==> Occurs(d, s, Start(d, m, init), i)
  {
    hide DecLoop, Occurs;
    var st0 := Start(d, m, init);
    var r := DecLoop(d, s, st0).value;
    forall i: nat | Checked(d, i)
      ensures d.RequiredBefore(i) in r.seen <==> Occurs(d, s, st0, i)
      ensures d.RequiredBefore(i) < RequiredChecked(d)
    {
      NotedIffOccurs(d, s, st0, i);
      RequiredRises(d, i, |d.fields|);
    }
    if forall i: nat :: Checked(d, i) ==> Occurs(d, s, st0, i) {
      forall k: nat | k < RequiredChecked(d) ensures k in r.seen {
        var i := NumberTaken(d, k, |d.fields|);
        assert Checked(d, i);
      }
    }
  }

  /* --------------------------------------------------------------- zero keys */

  /** A zero key at a boundary makes the whole message unreadable. */
  lemma ZeroTagRejected(d: MsgDesc, a: Bytes, b: Bytes, m: Msg, init: bool)
    requires DecLoop(d, a, Start(d, m, init)).Some?
    ensures DecMsg(d, a + ([0] + b), m, init).None?
  {
    LoopConcat(d, a, [0] + b, Start(d, m, init));
    assert DecVarint32([0] + b) == Ok(0, 1);
  }

  /** What stands at a boundary cannot be read: no key, tag 0, or a payload that is refused. */
  ghost predicate Unreadable(d: MsgDesc, s: Bytes, st: State)
  {
    s != [] &&
      var key := DecTag(s);
      key.Ok? && key.value.tag != 0 ==>
        var found := FindTag(d, key.value.tag, 0);
        if found.None? then SkipField(s[key.used..], key.value.wireType).Err?
        else DecField(d, found.value, key.value.wireType, s[key.used..], st).Err?
  }

  /** Then the whole message is rejected, known field or not. */
  lemma UnreadableRejected(d: MsgDesc, a: Bytes, s: Bytes, m: Msg, init: bool)
    requires DecLoop(d, a, Start(d, m, init)).Some?
    requires Unreadable(d, s, DecLoop(d, a, Start(d, m, init)).value)
    ensures DecMsg(d, a + s, m, init).None?
  {
    hide DecTag, FindTag, SkipField, DecField, Start;
    LoopConcat(d, a, s, Start(d, m, init));
  }

  /* ---------------------------------------------------------------- skipping */

  lemma {:induction false} SkipsVarint(v: nat, tail: Bytes)
    ensures SkipVarint(EncVarint(v) + tail) == Ok((), |EncVarint(v)|)
  {
    if v < 128 {
    } else {
      assert (EncVarint(v) + tail)[1..] == EncVarint(v / 128) + tail;
      SkipsVarint(v / 128, tail);
    }
  }

  /** Skipping by wire type passes over exactly what the encoder writes after a key. */
  lemma SkipInvertsEncode(f: Field, v: Value, tail: Bytes)
    requires EncData(f, v).Some? && |EncData(f, v).value| < U32
    requires f.ltype in {Fixed32, Fixed64} ==> f.dataSize == if f.ltype == Fixed32 then 4 else 8
    ensures SkipField(EncData(f, v).value + tail, WireTypeOf(f.ltype)) == Ok((), |EncData(f, v).value|)
  {
    hide EncMsg, SkipVarint, EncVarint, DecDelimited, EncFixed;
    match f.ltype
    case Bool => SkipsVarint(if v.n != 0 then 1 else 0, tail);
    case Varint => SkipsVarint(v.n % U64, tail);
    case UVarint => SkipsVarint(v.n % U64, tail);
    case SVarint => SkipsVarint(ZigZag(v.n), tail);
    case Fixed32 => WordSkipped(f, v.n);
    case Fixed64 => WordSkipped(f, v.n);
    case BytesArray => DelimitedRoundTrip(v.b, tail);
    case String => DelimitedRoundTrip(CStr(v.b), tail);
    case FixedBytes => DelimitedRoundTrip(v.b, tail);
    case Submessage => DelimitedRoundTrip(EncMsg(f.sub, v.m).value, tail);
  }

  lemma WordSkipped(f: Field, n: int)
    requires EncWord(f, n).Some?
    ensures |EncWord(f, n).value| == f.dataSize
  {
  }

  /** A record of any other schema is passed over where its tag is not known. */
  lemma ForeignFieldIgnored(d: MsgDesc, f: Field, v: Value, a: Bytes, b: Bytes, m: Msg, init: bool)
    requires 1 <= f.tag < 0x1_0000 && FindTag(d, f.tag, 0).None?
    requires f.ltype in {Fixed32, Fixed64} ==> f.dataSize == if f.ltype == Fixed32 then 4 else 8
    requires EncBasic(f, v).Some? && |EncBasic(f, v).value| < U32
    requires DecLoop(d, a, Start(d, m, init)).Some?
    ensures DecMsg(d, a + EncBasic(f, v).value + b, m, init) == DecMsg(d, a + b, m, init)
  {
    hide DecLoop, DecMsg, EncVarint, EncData, SkipField, FindTag, DecTag, EncTag;
    var key, data := EncTag(f.tag, WireTypeOf(f.ltype)), EncData(f, v).value;
    TagRoundTrip(f.tag, WireTypeOf(f.ltype), data);
    SkipInvertsEncode(f, v, []);
    assert data + [] == data;
    assert (key + data)[|key|..] == data;
    UnknownFieldIgnored(d, a, key + data, b, m, init);
  }

  /* ---------------------------------------------------------------- presence */

  lemma {:induction false} NothingFrom(d: MsgDesc, m: Msg, i: nat)
    requires WfDesc(d) && MsgFits(d, m) && i <= |d.fields|
    ensures EncFrom(d, m, i) == Some([]) <==>
            forall j :: i <= j < |d.fields| ==> !Present(d, d.fields[j], m.slots[d.fields[j].slot])
    decreases |d.fields| - i
  {
    hide EncField, Present, WfField, SlotFits;
    if i == |d.fields| {
    } else {
      var f := d.fields[i];
      NothingFrom(d, m, i + 1);
      NothingForField(d, f, m.slots[f.slot]);
      CatNothing(EncField(d, f, m.slots[f.slot]), EncFrom(d, m, i + 1));
    }
  }

  lemma CatNothing(a: Option<Bytes>, b: Option<Bytes>)
    ensures Cat(a, b) == Some([]) <==> a == Some([]) && b == Some([])
  {
    if a.Some? && b.Some? { assert |a.value + b.value| == |a.value| + |b.value|; }
  }

  lemma KeyCosts(f: Field, v: Value)
    ensures EncBasic(f, v) != Some([])
  {
    hide EncData;
    assert |EncTag(f.tag, WireTypeOf(f.ltype))| >= 1;
  }

  lemma ArrayCosts(f: Field, items: seq<Value>)
    requires items != []
    ensures EncArray(f, items) != Some([])
  {
    hide EncBasic, EncPackedItems;
    KeyCosts(f, items[0]);
  }

  lemma NothingForField(d: MsgDesc, f: Field, s: Slot)
    requires SlotFits(f, s)
    ensures EncField(d, f, s) == Some([]) <==> !Present(d, f, s)
  {
    hide EncBasic, EncArray, ValueFits, IsDefault;
    match s
    case Many(items, _) =>
      if items == [] { NoElements(f); } else { ArrayCosts(f, items); }
    case Plain(v) => KeyCosts(f, v);
    case Opt(_, v) => KeyCosts(f, v);
    case Choice(_, v) => KeyCosts(f, v);
  }

  lemma NoElements(f: Field)
    ensures EncArray(f, []) == Some([])
  {
  }

  /** A message costs no bytes exactly when none of its fields is present; one at its proto3 defaults is such. */
  lemma EmptyEncodingIff(d: MsgDesc, m: Msg)
    requires WfDesc(d) && MsgFits(d, m)
    ensures EncMsg(d, m) == Some([]) <==>
            forall j :: 0 <= j < |d.fields| ==> !Present(d, d.fields[j], m.slots[d.fields[j].slot])
    ensures AllDefault(d, m) ==> EncMsg(d, m) == Some([])
  {
    NothingFrom(d, m, 0);
    if AllDefault(d, m) {
      forall j | 0 <= j < |d.fields| ensures !Present(d, d.fields[j], m.slots[d.fields[j].slot]) {
        assert WfField(d.fields[j], d.nslots);
        assert IsDefault(d, d.fields[j], m.slots[d.fields[j].slot]);
      }
    }
  }

  /**
   A singular field is left out exactly when no field of the message has a default of its own and
   the number is 0, the byte string or string empty, fixed-length bytes none at all, or all of
   the submessage default.
   */
  lemma SingularAbsentIff(d: MsgDesc, f: Field, v: Value)
    requires f.Singular() && ValueFits(f, v)
    ensures !Present(d, f, Plain(v)) <==>
            && (forall i :: 0 <= i < |d.fields| ==> d.fields[i].dflt.None?)
            && match f.ltype
               case BytesArray => |v.b| == 0
               case String => |v.b| == 0 || v.b[0] == 0
               case FixedBytes => f.dataSize == 0
               case Submessage => AllDefault(f.sub, v.m)
               case _ => v.n == 0
  {
    assert IsDefault(d, f, Plain(v)) == (!d.HasDefaults() && IsZero(f, v));
  }
}
