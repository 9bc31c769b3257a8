/**
 That the sizes the generator computes are the least there are: which number a size is, when
 there is none, and values that use it up.
 */
module SizeExact {
  import opened Wire
  import opened Schema
  import opened Encoding
  import opened SizeBound

  /* ---------------------------------------------------------------- varints */

  /** A number from 0 on takes n bytes when n groups of seven bits are the fewest that hold it, at most ten. */
  lemma VarintSizeIs(v: nat, n: nat)
    requires n >= 1
    ensures VarintSize(v) == Some(n) <==> n <= 10 && v < Pow128(n) && (n == 1 || v >= Pow128(n - 1))
    ensures VarintSize(v).None? <==> v >= Pow128(10)
  {
    hide EncVarint, Pow128;
    VarintLength(v, n);
    VarintLength(v, 10);
    if n > 1 { VarintLength(v, n - 1); }
  }

  /** A negative number takes ten, or is refused if it is below 2^64 - 2^70. */
  lemma NegativeSizeIs(v: int)
    requires v < 0
    ensures VarintSize(v) == if v > U64 - 0x40_0000_0000_0000_0000 then Some(10) else None
  {
    hide EncVarint, Pow128;
    BigPowers();
    VarintLength(U64 - v, 9);
    VarintLength(U64 - v, 10);
  }

  lemma BigPowers()
    ensures Pow128(9) == 0x8000_0000_0000_0000 && Pow128(10) == 0x40_0000_0000_0000_0000
  {
    PowFacts();
    assert Pow128(6) == 128 * Pow128(5);
    assert Pow128(7) == 128 * Pow128(6);
    assert Pow128(8) == 128 * Pow128(7);
    assert Pow128(9) == 128 * Pow128(8);
    assert Pow128(10) == 128 * Pow128(9);
  }

  /* ------------------------------------------------------------- the largest */

  /** The size of a oneof is the largest of its members' sizes, and there is none exactly when a member has none. */
  lemma {:induction false} UnionIsLargest(fields: seq<GenField>)
    ensures UnionSize(fields).None? <==> exists k :: 0 <= k < |fields| && FieldSize(fields[k]).None?
    ensures UnionSize(fields).Some? ==>
              forall k :: 0 <= k < |fields| ==> FieldSize(fields[k]).value <= UnionSize(fields).value
    ensures UnionSize(fields).Some? ==>
              if fields == [] then UnionSize(fields).value == 0
              else exists k :: 0 <= k < |fields| && FieldSize(fields[k]) == UnionSize(fields)
  {
    hide FieldSize;
    if fields == [] {
    } else {
      var n := |fields| - 1;
      UnionIsLargest(fields[..n]);
      assert forall k :: 0 <= k < n ==> fields[..n][k] == fields[k];
      if UnionSize(fields).Some? {
        if FieldSize(fields[n]).value > UnionSize(fields[..n]).value || n == 0 {
          assert FieldSize(fields[n]) == UnionSize(fields);
        } else {
          var k :| 0 <= k < n && FieldSize(fields[..n][k]) == UnionSize(fields[..n]);
          assert FieldSize(fields[k]) == UnionSize(fields);
        }
      }
    }
  }

  /** The size of an enum is the largest of its values' sizes. */
  lemma {:induction false} EnumIsLargest(values: seq<int>)
    requires values != []
    ensures EnumSize(values).None? <==> exists k :: 0 <= k < |values| && VarintSize(values[k]).None?
    ensures EnumSize(values).Some? ==>
              && (forall k :: 0 <= k < |values| ==> VarintSize(values[k]).value <= EnumSize(values).value)
              && exists k :: 0 <= k < |values| && VarintSize(values[k]) == EnumSize(values)
  {
    hide VarintSize;
    if |values| == 1 {
    } else {
      var rest := values[1..];
      EnumIsLargest(rest);
      assert forall k :: 1 <= k < |values| ==> values[k] == rest[k - 1];
      if VarintSize(values[0]).None? {
        assert EnumSize(values).None?;
      } else if EnumSize(rest).None? {
        var k :| 0 <= k < |rest| && VarintSize(rest[k]).None?;
        assert VarintSize(values[k + 1]).None?;
      } else if VarintSize(values[0]).value < EnumSize(rest).value {
        var k :| 0 <= k < |rest| && VarintSize(rest[k]) == EnumSize(rest);
        assert VarintSize(values[k + 1]) == EnumSize(values);
      }
    }
  }

  /* ----------------------------------------------------------------- the sum */

  /** The size of a message adds up: of members put together it is the sum, of one member that member's. */
  lemma {:induction false} MembersAddUp(a: seq<Member>, b: seq<Member>)
    ensures MembersSize([]) == Some(0)
    ensures MembersSize(a + b) == Plus(MembersSize(a), MembersSize(b))
    decreases |b|
  {
    hide MemberSize;
    if b == [] {
      assert a + b == a;
    } else {
      var n := |b| - 1;
      MembersAddUp(a, b[..n]);
      assert (a + b)[..|a + b| - 1] == a + b[..n];
    }
  }

  lemma OneMember(m: Member)
    ensures MembersSize([m]) == (match m case One(f) => FieldSize(f) case Union(fields) => UnionSize(fields))
  {
    hide FieldSize, UnionSize;
    assert [m][..0] == [];
  }

  /** There is no size exactly when a member has none. */
  lemma {:induction false} NoSizeIff(fields: seq<Member>)
    ensures MessageSize(GenMessage(fields)).None? <==>
            exists k :: 0 <= k < |fields| && MembersSize([fields[k]]).None?
  {
    hide MemberSize;
    if fields == [] {
    } else {
      var n := |fields| - 1;
      NoSizeIff(fields[..n]);
      assert forall k :: 0 <= k < n ==> fields[..n][k] == fields[k];
      MembersAddUp(fields[..n], [fields[n]]);
      assert fields[..n] + [fields[n]] == fields;
    }
  }

  /* --------------------------------------------------------------- used up */

  /** The value of an integer, bool or float that takes the most bytes. */
  function Longest(f: Field): int
  {
    match f.ltype
    case Bool => 1
    case Varint => -1
    case UVarint => 2 * Signed(f.dataSize) - 1
    case SVarint => -Signed(f.dataSize)
    case _ => 0
  }

  lemma LongLengths()
    ensures |EncVarint(1)| == 1 && |EncVarint(0xFF)| == 2 && |EncVarint(0xFFFF)| == 3
    ensures |EncVarint(U32 - 1)| == 5 && |EncVarint(U64 - 1)| == 10
  {
    hide EncVarint, Pow128;
    PowFacts();
    BigPowers();
    VarintLength(1, 1);
    VarintLength(0xFF, 1);
    VarintLength(0xFF, 2);
    VarintLength(0xFFFF, 2);
    VarintLength(0xFFFF, 3);
    VarintLength(U32 - 1, 4);
    VarintLength(U32 - 1, 5);
    VarintLength(U64 - 1, 9);
    VarintLength(U64 - 1, 10);
  }

  /** Every entry of the datatypes table is used up by some value. */
  lemma TableIsTight(f: Field, g: GenField, nslots: nat)
    requires WfField(f, nslots) && Describes(f, g)
    requires f.ltype !in {BytesArray, String, FixedBytes, Submessage} && !g.pbtype.ENUM?
    ensures ValueFits(f, VInt(Longest(f))) && EncData(f, VInt(Longest(f))).Some?
    ensures Len(EncData(f, VInt(Longest(f)))) == TableSize(g.pbtype, g.intSize)
  {
    hide EncVarint;
    LongLengths();
    var n := Longest(f);
    if f.ltype == Varint {
      DivModUnique(-1, -1, U64, U64 - 1);
    } else if f.ltype == SVarint {
      assert ZigZag(n) == 2 * Signed(f.dataSize) - 1;
    } else if f.ltype == UVarint {
      DivModUnique(n, 0, U64, n);
    }
  }

  /** An enum whose values are not known is taken to use ten bytes, which a negative value does. */
  lemma UnknownEnumIsTight(f: Field, g: GenField, nslots: nat)
    requires WfField(f, nslots) && Describes(f, g) && f.ltype == Varint && g.pbtype == ENUM(None)
    ensures ValueFits(f, VInt(-1)) && Some(Len(EncData(f, VInt(-1)))) == ItemSize(g)
  {
    hide EncVarint;
    LongLengths();
    DivModUnique(-1, -1, U64, U64 - 1);
  }

  /** The sizes in the declaration are 16-bit numbers. */
  predicate Declared(g: GenField)
  {
    && g.tag < 0x1_0000
    && (g.pbtype.STRING? || g.pbtype.BYTES? || g.pbtype.FIXED_LENGTH_BYTES? ==> g.pbtype.maxSize < 0x1_0000)
  }

  /**
   A field has no size exactly when it is not static, or is a submessage that is unknown or has no
   size below 2^70, or an enum without values or with one too large.
   */
  lemma FieldNoSizeIff(g: GenField)
    requires Declared(g)
    ensures FieldSize(g).None? <==>
            || g.allocation != STATIC
            || (g.pbtype.MESSAGE? && (g.pbtype.sub.None? || MessageSize(g.pbtype.sub.value).None?
                                     || MessageSize(g.pbtype.sub.value).value >= Pow128(10)))
            || (g.pbtype.ENUM? && g.pbtype.values.Some? && EnumSize(g.pbtype.values.value).None?)
  {
    hide EncVarint, EnumSize, MessageSize, Pow128;
    WordLength(g.tag * 8);
    match g.pbtype
    case STRING(maxSize) => WordLength(maxSize);
    case BYTES(maxSize) => WordLength(maxSize);
    case FIXED_LENGTH_BYTES(maxSize) => WordLength(maxSize);
    case MESSAGE(sub) =>
      if sub.Some? && MessageSize(sub.value).Some? { VarintSizeIs(MessageSize(sub.value).value, 1); }
    case _ =>
  }

  /** So is the size of byte strings and fixed-length bytes. */
  lemma BytesAreTight(f: Field, g: GenField, nslots: nat, b: Bytes)
    requires WfField(f, nslots) && Describes(f, g) && f.ltype in {BytesArray, FixedBytes} && |b| == g.pbtype.maxSize
    ensures EncData(f, VBytes(b)).Some? && Some(Len(EncData(f, VBytes(b)))) == ItemSize(g)
  {
    hide EncVarint;
    WordLength(|b|);
  }

  /** A string of the greatest length is smaller by what the prefix of max_size takes more than its own. */
  lemma StringIsTight(f: Field, g: GenField, nslots: nat, b: Bytes)
    requires WfField(f, nslots) && Describes(f, g) && f.ltype == String && 0 !in b && |b| == g.pbtype.maxSize - 1
    ensures EncData(f, VBytes(b)).Some? && ItemSize(g).Some?
    ensures Len(EncData(f, VBytes(b))) + |EncVarint(|b| + 1)| == ItemSize(g).value + |EncVarint(|b|)|
  {
    hide EncVarint;
    WordLength(|b| + 1);
  }

  /** A submessage of the size computed for its type uses up the size of the item. */
  lemma SubmessageIsTight(f: Field, g: GenField, v: Value)
    requires Describes(f, g) && f.ltype == Submessage && v.VMsg? && ItemSize(g).Some?
    requires EncMsg(f.sub, v.m).Some? && MessageSize(g.pbtype.sub.value) == Some(Len(EncMsg(f.sub, v.m)))
    ensures Len(EncData(f, v)) == ItemSize(g).value
  {
    hide EncVarint, EncMsg, MessageSize;
  }

  /** The item takes all the bytes computed for it. */
  ghost predicate UsesUp(f: Field, g: GenField, v: Value)
  {
    EncData(f, v).Some? && Some(Len(EncData(f, v))) == ItemSize(g)
  }

  /** A record whose item uses up its size uses up the size of the field. */
  lemma RecordIsTight(f: Field, g: GenField, v: Value)
    requires Describes(f, g) && FieldSize(g).Some? && g.rules !in {REPEATED, FIXARRAY}
    requires UsesUp(f, g, v)
    ensures Some(Len(EncBasic(f, v))) == FieldSize(g)
  {
    hide EncVarint, EncData, ItemSize;
    TagLength(f.tag, WireTypeOf(f.ltype));
  }

  lemma {:induction false} ItemsAreTight(f: Field, g: GenField, items: seq<Value>)
    requires Describes(f, g) && ItemSize(g).Some?
    requires forall k :: 0 <= k < |items| ==> UsesUp(f, g, items[k])
    ensures EncUnpacked(f, items).Some?
    ensures Len(EncUnpacked(f, items)) == |items| * (ItemSize(g).value + |EncVarint(g.tag * 8)|)
    decreases |items|
  {
    hide EncVarint, EncData, ItemSize;
    if items == [] {
    } else {
      ItemsAreTight(f, g, items[1..]);
      TagLength(f.tag, WireTypeOf(f.ltype));
      var one := ItemSize(g).value + |EncVarint(g.tag * 8)|;
      assert |items| * one == (|items| - 1) * one + one;
    }
  }

  /**
   A full array sent unpacked, as a decoder must take it, uses up the size of the field, but for
   the byte allowed for a packed array of one.
   */
  lemma ArrayIsTight(f: Field, g: GenField, items: seq<Value>)
    requires Describes(f, g) && FieldSize(g).Some? && g.rules in {REPEATED, FIXARRAY} && |items| == g.maxCount
    requires forall k :: 0 <= k < |items| ==> UsesUp(f, g, items[k])
    ensures EncUnpacked(f, items).Some?
    ensures Len(EncUnpacked(f, items)) + (if g.maxCount == 1 then 1 else 0) == FieldSize(g).value
    ensures items != [] && !f.Packable() ==> EncArray(f, items) == EncUnpacked(f, items)
  {
    hide EncVarint, EncData, ItemSize, EncUnpacked;
    ItemsAreTight(f, g, items);
    var one := ItemSize(g).value + |EncVarint(g.tag * 8)|;
    assert one * g.maxCount == g.maxCount * one;
  }
}
