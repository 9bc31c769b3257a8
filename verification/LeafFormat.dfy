/**
 Which bytes stand for a member, and which members a number on the wire is for: the encoder
 writes every value in its one form, and the decoder takes exactly what the member can hold.
 */
module LeafFormat {
  import opened Wire
  import opened WireFormat
  import opened Schema
  import opened Encoding
  import opened Decoding

  /* ---------------------------------------------------------------- numbers */

  /** The values of an integer member of that many bytes, or of a bool. */
  predicate InMember(l: LType, bytes: nat, n: int)
  {
    match l
    case Bool => 0 <= n <= 1
    case UVarint => 0 <= n < Power(256, bytes)
    case _ => -(Power(256, bytes) / 2) <= n < Power(256, bytes) / 2
  }

  predicate IsNumber(l: LType)
  {
    l in {Bool, Varint, UVarint, SVarint}
  }

  lemma Powers()
    ensures Power(256, 1) == 0x100 && Power(256, 2) == 0x1_0000 && Power(256, 4) == U32 && Power(256, 8) == U64
  {
    PowerNext(256, 1);
    PowerNext(256, 2);
    PowerNext(256, 3);
    PowerNext(256, 4);
    PowerNext(256, 5);
    PowerNext(256, 6);
    PowerNext(256, 7);
    PowerNext(256, 8);
  }

  lemma FitsIff(f: Field, nslots: nat, n: int)
    requires WfField(f, nslots) && IsNumber(f.ltype)
    ensures ValueFits(f, VInt(n)) <==> InMember(f.ltype, f.dataSize, n)
  {
    hide Power;
    Powers();
  }

  /** The number that stands for n on the wire: signed types are sign-extended to 64 bits, sint types zigzagged. */
  function WireNumber(l: LType, n: int): int
  {
    match l
    case Varint => if n < 0 then n + U64 else n
    case SVarint => if n < 0 then -2 * n - 1 else 2 * n
    case _ => n
  }

  lemma WireRange(f: Field, nslots: nat, n: int)
    requires WfField(f, nslots) && IsNumber(f.ltype) && ValueFits(f, VInt(n))
    ensures 0 <= WireNumber(f.ltype, n) < U64
    ensures f.ltype == Varint && n < 0 ==> WireNumber(f.ltype, n) >= U64 / 2
    ensures f.ltype == SVarint ==> -U64 / 2 <= n < U64 / 2 && ZigZag(n) == WireNumber(f.ltype, n)
    ensures f.ltype in {Varint, UVarint} ==> n % U64 == WireNumber(f.ltype, n)
  {
    assert Signed(f.dataSize) <= U64 / 2;
    if f.ltype == Varint && n < 0 { DivModUnique(n, -1, U64, n + U64); }
    if f.ltype in {Varint, UVarint} && n >= 0 { DivModUnique(n, 0, U64, n); }
  }

  /** What pb_enc_varint writes, alone or in a packed array. */
  lemma IntBytes(f: Field, nslots: nat, n: int)
    requires WfField(f, nslots) && IsNumber(f.ltype) && ValueFits(f, VInt(n))
    ensures WireNumber(f.ltype, n) >= 0
    ensures EncInt(f, n) == Some(EncVarint(WireNumber(f.ltype, n))) == EncData(f, VInt(n))
  {
    hide EncVarint;
    WireRange(f, nslots, n);
    if f.ltype == Bool { DivModUnique(n, 0, U64, n); }
  }

  lemma Read(v: nat, tail: Bytes)
    requires v < U64
    ensures DecVarint(EncVarint(v) + tail) == Ok(v, |EncVarint(v)|)
  {
    VarintRoundTrip(v, tail);
  }

  /**
   A number is written as the shortest varint of what stands for it; a negative one of a type that
   is not zigzagged takes ten bytes at every width.
   */
  lemma NumberWritten(f: Field, nslots: nat, n: int, tail: Bytes)
    requires WfField(f, nslots) && IsNumber(f.ltype) && ValueFits(f, VInt(n))
    ensures EncData(f, VInt(n)).Some?
    ensures var b, w := EncData(f, VInt(n)).value, WireNumber(f.ltype, n);
            && IsVarint(b) && Number(b, 128) == w && (|b| > 1 ==> b[|b| - 1] != 0)
            && w >= 0 && DecVarint(b + tail) == Ok(w, |b|)
            && (f.ltype == Varint && n < 0 ==> |b| == 10)
  {
    hide EncVarint, Number, EncData;
    WireRange(f, nslots, n);
    IntBytes(f, nslots, n);
    var w := WireNumber(f.ltype, n);
    VarintMeans(w);
    Read(w, tail);
    if f.ltype == Varint && n < 0 { TenBytes(w); }
  }

  lemma TenBytes(w: nat)
    requires U64 / 2 <= w < U64
    ensures |EncVarint(w)| == 10
  {
    VarintAtMostTen(w);
    var half: nat := U64 / 2;
    VarintLengthMonotone(half, w);
    hide EncVarint;
    NineMore(half);
  }

  lemma NineMore(half: nat)
    requires half == U64 / 2
    ensures |EncVarint(half)| == 10
  {
    assert |EncVarint(1)| == 1;
    assert |EncVarint(0x80)| == 2;
    assert |EncVarint(0x4000)| == 3;
    assert |EncVarint(0x20_0000)| == 4;
    assert |EncVarint(0x1000_0000)| == 5;
    assert |EncVarint(0x8_0000_0000)| == 6;
    assert |EncVarint(0x400_0000_0000)| == 7;
    assert |EncVarint(0x2_0000_0000_0000)| == 8;
    assert |EncVarint(0x100_0000_0000_0000)| == 9;
  }

  /** Varints one after the other. */
  function ReadNumbers(s: Bytes): (r: Option<seq<int>>)
    decreases |s|
  {
    if s == [] then Some([])
    else
      var x := DecVarint(s);
      if x.Err? then None
      else
        var rest := ReadNumbers(s[x.used..]);
        if rest.None? then None else Some([x.value] + rest.value)
  }

  /** Words of the given size one after the other. */
  function ReadWords(s: Bytes, size: nat): (r: Option<seq<int>>)
    requires size > 0
    decreases |s|
  {
    if s == [] then Some([])
    else if |s| < size then None
    else
      var rest := ReadWords(s[size..], size);
      if rest.None? then None else Some([Number(s[..size], 256)] + rest.value)
  }

  function WireNumbers(l: LType, items: seq<Value>): (r: seq<int>)
    requires forall k :: 0 <= k < |items| ==> items[k].VInt?
    ensures |r| == |items| && forall k :: 0 <= k < |items| ==> r[k] == WireNumber(l, items[k].n)
  {
    seq(|items|, k requires 0 <= k < |items| => WireNumber(l, items[k].n))
  }

  lemma ReadNext(w: nat, s: Bytes)
    requires w < U64
    ensures ReadNumbers(EncVarint(w) + s) == var rest := ReadNumbers(s);
                                             if rest.None? then None else Some([w] + rest.value)
  {
    hide EncVarint, DecVarint;
    Read(w, s);
    var head := EncVarint(w);
    assert (head + s)[|head|..] == s;
  }

  /** A packed array of numbers holds one after the other what stands for its elements. */
  lemma {:induction false} PackedNumbersWritten(f: Field, nslots: nat, items: seq<Value>)
    requires WfField(f, nslots) && IsNumber(f.ltype) && forall k :: 0 <= k < |items| ==> ValueFits(f, items[k])
    ensures EncPackedItems(f, items).Some?
    ensures (forall k :: 0 <= k < |items| ==> items[k].VInt?)
            && ReadNumbers(EncPackedItems(f, items).value) == Some(WireNumbers(f.ltype, items))
    decreases |items|
  {
    if items == [] {
    } else {
      hide EncVarint, EncInt, EncData, ReadNumbers;
      assert forall k :: 0 <= k < |items| ==> items[k].VInt?;
      PackedNumbersWritten(f, nslots, items[1..]);
      assert ValueFits(f, items[0]);
      WireRange(f, nslots, items[0].n);
      IntBytes(f, nslots, items[0].n);
      var w, rest := WireNumber(f.ltype, items[0].n), EncPackedItems(f, items[1..]).value;
      ReadNext(w, rest);
      assert EncPackedItems(f, items).value == EncVarint(w) + rest;
      assert WireNumbers(f.ltype, items) == [w] + WireNumbers(f.ltype, items[1..]);
    }
  }

  /** A word is written in full, least significant byte first. */
  lemma WordWritten(f: Field, nslots: nat, n: int)
    requires WfField(f, nslots) && f.ltype in {Fixed32, Fixed64} && ValueFits(f, VInt(n))
    ensures EncData(f, VInt(n)).Some? && EncData(f, VInt(n)) == EncWord(f, n)
    ensures var b := EncData(f, VInt(n)).value;
            |b| == (if f.ltype == Fixed32 then 4 else 8) && Number(b, 256) == n
  {
    hide EncFixed, Number, Power;
    Powers();
    FixedMeans(n, f.dataSize);
  }

  lemma {:induction false} PackedWordsWritten(f: Field, nslots: nat, items: seq<Value>)
    requires WfField(f, nslots) && f.ltype in {Fixed32, Fixed64}
    requires forall k :: 0 <= k < |items| ==> ValueFits(f, items[k])
    ensures EncPackedItems(f, items).Some?
    ensures (forall k :: 0 <= k < |items| ==> items[k].VInt?)
            && ReadWords(EncPackedItems(f, items).value, if f.ltype == Fixed32 then 4 else 8)
               == Some(WireNumbers(f.ltype, items))
    decreases |items|
  {
    if items == [] {
    } else {
      hide EncWord, EncData, Number;
      assert forall k :: 0 <= k < |items| ==> items[k].VInt?;
      PackedWordsWritten(f, nslots, items[1..]);
      assert ValueFits(f, items[0]);
      WordWritten(f, nslots, items[0].n);
      var head, rest := EncWord(f, items[0].n).value, EncPackedItems(f, items[1..]).value;
      assert EncPackedItems(f, items).value == head + rest;
      assert (head + rest)[|head|..] == rest && (head + rest)[..|head|] == head;
      assert WireNumbers(f.ltype, items) == [items[0].n] + WireNumbers(f.ltype, items[1..]);
    }
  }

  /* ---------------------------------------------------- what the decoder takes */

  lemma NoNumber(f: Field, wireType: nat, s: Bytes)
    requires f.ltype in {Varint, UVarint, SVarint} && DecVarint(s).Err?
    ensures DecLeaf(f, wireType, s).Err?
  {
    hide DecVarint;
  }

  /** An unsigned member takes the numbers it can hold, and no others. */
  lemma UnsignedTaken(f: Field, nslots: nat, wireType: nat, s: Bytes, v: nat, n: nat)
    requires WfField(f, nslots) && f.ltype == UVarint && wireType in {0, 255} && DecVarint(s) == Ok(v, n)
    ensures DecLeaf(f, wireType, s) == if v < Power(256, f.dataSize) then Ok(VInt(v), n) else Err
  {
    hide DecVarint, Power;
    Powers();
    if v < Power(256, f.dataSize) { DivModUnique(v, 0, Power(256, f.dataSize), v); }
  }

  /**
   A sint member takes the numbers whose zigzag value it can hold: even ones count up from 0, odd
   ones down from -1.
   */
  lemma ZigZagTaken(f: Field, nslots: nat, wireType: nat, s: Bytes, v: nat, n: nat)
    requires WfField(f, nslots) && f.ltype == SVarint && wireType in {0, 255} && DecVarint(s) == Ok(v, n)
    ensures var z := if v % 2 == 0 then v / 2 else -(v / 2) - 1;
            DecLeaf(f, wireType, s) == if InMember(f.ltype, f.dataSize, z) then Ok(VInt(z), n) else Err
  {
    hide DecVarint, Power;
    Powers();
    ZigZagValue(v);
    SurvivesIff(UnZigZag(v), f.dataSize);
  }

  lemma ZigZagValue(v: nat)
    requires v < U64
    ensures UnZigZag(v) == if v % 2 == 0 then v / 2 else -(v / 2) - 1
  {
  }

  /** A value survives the cast to a narrower signed type exactly when that can hold it. */
  lemma SurvivesIff(n: int, bytes: nat)
    requires bytes in {1, 2, 4, 8}
    ensures ToSigned(n, 2 * Signed(bytes)) == n <==> -Signed(bytes) <= n < Signed(bytes)
  {
    var m := 2 * Signed(bytes);
    if -Signed(bytes) <= n < 0 { DivModUnique(n, -1, m, n + m); }
    if 0 <= n < Signed(bytes) { DivModUnique(n, 0, m, n); }
  }

  /** The low bits of v, read as two's complement. */
  function TwosComplement(v: nat, modulus: nat): int
    requires modulus > 0
  {
    if v % modulus < modulus / 2 then v % modulus else v % modulus - modulus
  }

  /**
   A signed member of 8 bytes takes every number as two's complement; a narrower one takes the
   low 32 bits, sign-extended or not, if it can hold what they say.
   */
  lemma SignedTaken(f: Field, nslots: nat, wireType: nat, s: Bytes, v: nat, n: nat)
    requires WfField(f, nslots) && f.ltype == Varint && wireType in {0, 255} && DecVarint(s) == Ok(v, n)
    ensures var z := TwosComplement(v, if f.dataSize == 8 then U64 else U32);
            DecLeaf(f, wireType, s) == if InMember(f.ltype, f.dataSize, z) then Ok(VInt(z), n) else Err
  {
    hide DecVarint, Power;
    Powers();
    SurvivesIff(ToSigned(v, if f.dataSize == 8 then U64 else U32), f.dataSize);
  }

  /** A bool member takes every 32-bit number; all but zero are true. */
  lemma BoolTakenIff(f: Field, wireType: nat, s: Bytes, x: Value, n: nat)
    requires f.ltype == Bool && wireType in {0, 255}
    ensures DecLeaf(f, wireType, s) == Ok(x, n) <==>
            exists w: nat :: Word32(s, w, n) && x == VInt(if w == 0 then 0 else 1)
  {
    hide DecVarint32, Word32;
    var r := DecVarint32(s);
    if r.Ok? { TheWord(s, r.value, r.used); }
    if w: nat :| Word32(s, w, n) && x == VInt(if w == 0 then 0 else 1) { TheWord(s, w, n); }
  }

  lemma TheWord(s: Bytes, w: nat, n: nat)
    ensures DecVarint32(s) == Ok(w, n) <==> Word32(s, w, n)
  {
    hide Number, Fits32, IsVarint;
    Varint32Iff(s, w, n);
  }

  lemma WordTakenIff(f: Field, nslots: nat, wireType: nat, s: Bytes, x: Value, n: nat)
    requires WfField(f, nslots) && f.ltype in {Fixed32, Fixed64}
    requires wireType in {if f.ltype == Fixed32 then 5 else 1, 255}
    ensures DecLeaf(f, wireType, s) == Ok(x, n) <==> n == f.dataSize <= |s| && x == VInt(Number(s[..n], 256))
  {
    hide Number, DecLittle;
    if f.dataSize <= |s| { FixedIff(s, f.dataSize, Number(s[..f.dataSize], 256), f.dataSize); }
  }

  /** The content that a member of byte strings, strings or fixed-length bytes gets from a delimited record. */
  function Content(f: Field, b: Bytes): Option<Bytes>
  {
    if f.ltype == BytesArray then if |b| + 2 <= f.dataSize then Some(b) else None
    else if f.ltype == String then if |b| + 1 <= f.dataSize then Some(b) else None
    else if |b| == f.dataSize then Some(b) else if b == [] then Some(seq(f.dataSize, _ => 0)) else None
  }

  lemma BlobAt(f: Field, s: Bytes, k: nat, n: nat)
    requires f.ltype in {BytesArray, String, FixedBytes} && f.dataSize < 0x1_0000
    requires k <= n <= |s| && DecVarint32(s) == Ok(n - k, k)
    ensures var b := Content(f, s[k..n]); DecBlob(f, s) == if b.Some? then Ok(VBytes(b.value), n) else Err
  {
    hide DecVarint32;
    var b := s[k..n];
    assert |b| == n - k && s[k..k + (n - k)] == b;
    if f.ltype == FixedBytes && f.dataSize == 0 == n - k { assert seq(f.dataSize, _ => 0) == b; }
  }

  lemma BlobMissing(f: Field, s: Bytes)
    requires DecVarint32(s).Err? || DecVarint32(s).value > |s| - DecVarint32(s).used
    ensures DecBlob(f, s).Err?
  {
    hide DecVarint32;
  }

  /**
   Byte strings are taken if they fit behind their count, strings if they leave room for the
   terminator, fixed-length bytes if they have that length, or none for zeros.
   */
  lemma BlobTakenIff(f: Field, nslots: nat, s: Bytes, x: Value, n: nat)
    requires WfField(f, nslots) && f.ltype in {BytesArray, String, FixedBytes}
    ensures DecLeaf(f, 2, s) == Ok(x, n) <==>
            exists k: nat :: Delimits(s, k, n) && Content(f, s[k..n]).Some? && x == VBytes(Content(f, s[k..n]).value)
  {
    hide DecVarint32, Word32, Content, DecBlob;
    var r := DecVarint32(s);
    if r.Err? || r.value > |s| - r.used {
      BlobMissing(f, s);
    } else {
      TheWord(s, r.value, r.used);
      BlobAt(f, s, r.used, r.used + r.value);
      assert Delimits(s, r.used, r.used + r.value);
    }
    if k: nat :| Delimits(s, k, n) && Content(f, s[k..n]).Some? && x == VBytes(Content(f, s[k..n]).value) {
      TheWord(s, n - k, k);
    }
  }

  /** The wire types of the encoding guide. */
  function Code(l: LType): nat
  {
    match l
    case Bool => 0
    case Varint => 0
    case UVarint => 0
    case SVarint => 0
    case Fixed64 => 1
    case Fixed32 => 5
    case _ => 2
  }

  /** A record of another wire type is refused; numbers and words also come packed. */
  lemma WireTypeChecked(f: Field, wireType: nat, s: Bytes, prior: Value, init: bool)
    requires DecBasic(f, wireType, s, prior, init).Ok?
    ensures wireType == Code(f.ltype) || (wireType == 255 && Code(f.ltype) != 2)
  {
    hide DecMsg;
  }

  /** A record begins with the key of its tag and wire type. */
  lemma RecordKey(f: Field, v: Value, tail: Bytes)
    requires f.tag < 0x1_0000 && EncBasic(f, v).Some?
    ensures var b := EncBasic(f, v).value;
            && DecTag(b + tail).Ok? && DecTag(b + tail).value == Key(f.tag, Code(f.ltype))
            && DecTag(b + tail).used <= |b|
            && b[DecTag(b + tail).used..] == EncData(f, v).value
  {
    hide EncData, EncTag, DecTag;
    var key, data := EncTag(f.tag, WireTypeOf(f.ltype)), EncData(f, v).value;
    assert key + data + tail == key + (data + tail);
    TagRoundTrip(f.tag, WireTypeOf(f.ltype), data + tail);
  }

  /** What is delimited by its length: bytes, a string up to its terminator, the encoding of a submessage. */
  function Body(f: Field, v: Value): Option<Bytes>
    requires f.ltype in {BytesArray, String, FixedBytes} ==> v.VBytes?
    requires f.ltype == Submessage ==> v.VMsg?
  {
    match f.ltype
    case BytesArray => if |v.b| + 2 <= f.dataSize then Some(v.b) else None
    case String => if |CStr(v.b)| + 1 <= f.dataSize then Some(CStr(v.b)) else None
    case FixedBytes => Some(v.b)
    case Submessage => EncMsg(f.sub, v.m)
    case _ => None
  }

  /** It is written with its length, or the encoder fails. */
  lemma BodyWritten(f: Field, nslots: nat, v: Value, tail: Bytes)
    requires WfField(f, nslots) && ValueFits(f, v) && f.ltype in {BytesArray, String, FixedBytes, Submessage}
    ensures EncData(f, v).Some? <==> Body(f, v).Some?
    ensures Body(f, v).Some? && |Body(f, v).value| < U32 ==> IsRecordOf(EncData(f, v).value, Body(f, v).value, tail)
  {
    hide EncVarint, EncMsg, DecDelimited, IsRecordOf;
    var body := Body(f, v);
    if body.Some? && |body.value| < U32 { Prefixed(body.value, tail); }
  }

  /** b is the length of the body and the body. */
  ghost predicate IsRecordOf(b: Bytes, body: Bytes, tail: Bytes)
  {
    DecDelimited(b + tail) == Ok(body, |b|) && exists k: nat :: LengthAt(b, body, k)
  }

  /** k bytes of length before the body. */
  ghost predicate LengthAt(b: Bytes, body: Bytes, k: nat)
  {
    k <= |b| && IsVarint(b[..k]) && Number(b[..k], 128) == |body| && b[k..] == body
  }

  lemma Prefixed(body: Bytes, tail: Bytes)
    requires |body| < U32
    ensures IsRecordOf(EncVarint(|body|) + body, body, tail)
  {
    hide EncVarint, Number, IsVarint, DecDelimited, LengthAt;
    VarintMeans(|body|);
    DelimitedRoundTrip(body, tail);
    Joined(EncVarint(|body|), body);
  }

  lemma Joined(p: Bytes, body: Bytes)
    requires IsVarint(p) && Number(p, 128) == |body|
    ensures LengthAt(p + body, body, |p|)
  {
    hide Number, IsVarint;
    assert (p + body)[..|p|] == p && (p + body)[|p|..] == body;
  }
}
