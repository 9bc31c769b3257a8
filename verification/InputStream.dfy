/**
 pb_istream_t over a memory buffer (pb_decode.c). Every reader is proved against the
 parser of the same name on the bytes that are left; none looks past the limit.
 */
module InputStream {
  import opened Wire

  lemma Pow2Seven(n: nat)
    ensures Pow2(n + 7) == 128 * Pow2(n)
  {
    assert Pow2(n + 2) == 4 * Pow2(n);
    assert Pow2(n + 4) == 4 * Pow2(n + 2);
    assert Pow2(n + 6) == 4 * Pow2(n + 4);
  }

  lemma Distribute(p: nat, a: nat, v: nat)
    ensures p * (a + 128 * v) == a * p + 128 * p * v
  {
  }

  lemma SliceOfSlice(all: Bytes, from: nat, to: nat, k: nat, size: nat)
    requires from <= to <= |all| && k + size <= to - from
    ensures all[from..to][k..k + size] == all[from + k..from + k + size]
  {
    var part := all[from..to];
    assert forall i :: k <= i < k + size ==> part[i] == all[from + i];
  }

  class IStream {
    const buf: array<Byte>
    var state: nat
    var bytesLeft: nat

    ghost predicate Valid()
      reads this
    {
      state + bytesLeft <= buf.Length
    }

    /** The bytes up to the limit. */
    ghost function Rest(): (s: Bytes)
      reads this, buf
      requires Valid()
      ensures |s| == bytesLeft
    {
      buf[state..state + bytesLeft]
    }

    /** Exactly n bytes have been taken; position plus bytes_left is what it was. */
    twostate predicate Consumed(n: nat)
      reads this
    {
      n <= old(bytesLeft) && state == old(state) + n && bytesLeft == old(bytesLeft) - n
    }

    /** pb_istream_from_buffer, on the part of the buffer beginning at `at`. */
    constructor (b: array<Byte>, at: nat, size: nat)
      requires at + size <= b.Length
      ensures Valid() && buf == b && state == at && bytesLeft == size
    {
      buf, state, bytesLeft := b, at, size;
    }

    /** pb_read; on failure nothing is consumed. */
    method Read(count: nat) returns (ok: bool, data: Bytes)
      requires Valid()
      modifies this
      ensures Valid()
      ensures ok <==> count <= old(bytesLeft)
      ensures ok ==> data == old(Rest())[..count] && Consumed(count)
      ensures !ok ==> Consumed(0)
    {
      if count == 0 {
        return true, [];
      }
      if bytesLeft < count {
        return false, [];
      }
      data := buf[state..state + count];
      state := state + count;
      bytesLeft := bytesLeft - count;
      return true, data;
    }

    /** pb_readbyte */
    method ReadByte() returns (ok: bool, b: Byte)
      requires Valid()
      modifies this
      ensures Valid()
      ensures ok <==> old(bytesLeft) > 0
      ensures ok ==> b == old(Rest())[0] && Consumed(1) && Rest() == old(Rest())[1..]
      ensures !ok ==> Consumed(0)
    {
      if bytesLeft == 0 {
        return false, 0;
      }
      b := buf[state];
      state := state + 1;
      bytesLeft := bytesLeft - 1;
      return true, b;
    }

    /** pb_decode_varint */
    method DecodeVarint() returns (ok: bool, dest: nat)
      requires Valid()
      modifies this
      ensures Valid() && state + bytesLeft == old(state + bytesLeft)
      ensures ok <==> DecVarint(old(Rest())).Ok?
      ensures ok ==> dest == DecVarint(old(Rest())).value && Consumed(DecVarint(old(Rest())).used)
    {
      hide Pow2, DecVarintFrom, Lift, DecVarint, Next64;
      var bitpos, result: nat := 0, 0;
      ghost var whole := DecVarint(Rest());
      LiftStart(Rest());
      ghost var k := 0;
      while true
        invariant Valid() && Consumed(k) && 0 <= bitpos
        invariant whole == Lift(result, Pow2(bitpos), k, DecVarintFrom(Rest(), bitpos))
        decreases bytesLeft
      {
        ghost var here := Rest();
        LiftErr(here, bitpos);
        var got, byte := ReadByte();
        if !got {
          return false, 0;
        }
        if bitpos >= 63 && byte >= 2 {
          return false, 0;
        }
        LiftStep(result, k, here, bitpos);
        result := Next64(result, byte, bitpos);
        bitpos := bitpos + 7;
        k := k + 1;
        if byte < 128 {
          break;
        }
      }
      return true, result;
    }

    /** pb_decode_varint32_eof; `eof` reports that there was nothing to read at all. */
    method DecodeVarint32Eof() returns (ok: bool, dest: nat, eof: bool)
      requires Valid()
      modifies this
      ensures Valid() && state + bytesLeft == old(state + bytesLeft)
      ensures ok <==> DecVarint32(old(Rest())).Ok?
      ensures ok ==> dest == DecVarint32(old(Rest())).value && Consumed(DecVarint32(old(Rest())).used)
      ensures eof <==> old(bytesLeft) == 0
    {
      ghost var s := Rest();
      Lift32Start(s);
      hide DecVarint32From, Lift32, Pow2, Top, Next32, Accepts32;
      var got, byte := ReadByte();
      if !got {
        return false, 0, bytesLeft == 0;
      }
      if byte < 128 {
        return true, byte, false;
      }
      ok, dest := DecodeVarint32Rest(byte % 128);
      return ok, dest, false;
    }

    /** The multibyte case, after the first group has been read. */
    method DecodeVarint32Rest(first: nat) returns (ok: bool, dest: nat)
      requires Valid() && first < 128
      modifies this
      ensures Valid() && state + bytesLeft == old(state + bytesLeft)
      ensures var r := Lift32(first, 1, 7, DecVarint32From(old(Rest()), 7, Top(first, 7)));
              && (ok <==> r.Ok?)
              && (ok ==> dest == r.value && r.used >= 1 && Consumed(r.used - 1))
    {
      hide DecVarint32From, Lift32, Pow2, Top;
      Pow2Small();
      var bitpos, result := 7, first;
      ghost var whole := Lift32(first, 1, 7, DecVarint32From(Rest(), 7, Top(first, 7)));
      ghost var k := 1;
      while true
        invariant Valid() && k >= 1 && Consumed(k - 1)
        invariant bitpos == 7 * k && 0 <= result < U32 && (bitpos <= 28 ==> result < Pow2(bitpos))
        invariant whole == Lift32(result, k, bitpos, DecVarint32From(Rest(), bitpos, Top(result, bitpos)))
        decreases bytesLeft
      {
        ghost var here := Rest();
        Lift32Err(result, k, here, bitpos);
        var got, byte := ReadByte();
        if !got {
          return false, 0;
        }
        var accept, next := AddGroup32(result, byte, bitpos, k, here);
        if !accept {
          return false, 0;
        }
        result := next;
        bitpos := bitpos + 7;
        k := k + 1;
        if byte < 128 {
          break;
        }
      }
      return true, result;
    }

    /** pb_decode_varint32 */
    method DecodeVarint32() returns (ok: bool, dest: nat)
      requires Valid()
      modifies this
      ensures Valid() && state + bytesLeft == old(state + bytesLeft)
      ensures ok <==> DecVarint32(old(Rest())).Ok?
      ensures ok ==> dest == DecVarint32(old(Rest())).value && Consumed(DecVarint32(old(Rest())).used)
    {
      var eof;
      ok, dest, eof := DecodeVarint32Eof();
    }

    /** pb_decode_tag */
    method DecodeTag() returns (ok: bool, wireType: nat, tag: nat, eof: bool)
      requires Valid()
      modifies this
      ensures Valid() && state + bytesLeft == old(state + bytesLeft)
      ensures ok <==> DecTag(old(Rest())).Ok?
      ensures ok ==> var r := DecTag(old(Rest()));
                     Key(tag, wireType) == r.value && Consumed(r.used) && Rest() == old(Rest())[r.used..]
      ensures eof <==> old(bytesLeft) == 0
    {
      var temp;
      ok, temp, eof := DecodeVarint32Eof();
      wireType, tag := 0, 0;
      if ok {
        tag, wireType := temp / 8, temp % 8;
      }
    }

    /** pb_decode_fixed32 and pb_decode_fixed64 */
    method DecodeFixed(n: nat) returns (ok: bool, dest: nat)
      requires Valid()
      modifies this
      ensures Valid() && state + bytesLeft == old(state + bytesLeft)
      ensures ok <==> DecFixed(old(Rest()), n).Ok?
      ensures ok ==> dest == DecFixed(old(Rest()), n).value && Consumed(n)
    {
      var bytes;
      ok, bytes := Read(n);
      dest := if ok then DecLittle(bytes) else 0;
    }

    /** pb_skip_varint */
    method SkipVarintField() returns (ok: bool)
      requires Valid()
      modifies this
      ensures Valid() && state + bytesLeft == old(state + bytesLeft)
      ensures ok <==> SkipVarint(old(Rest())).Ok?
      ensures ok ==> Consumed(SkipVarint(old(Rest())).used)
    {
      ghost var s := Rest();
      ghost var k := 0;
      while true
        invariant Valid() && k <= |s| && Consumed(k) && Rest() == s[k..]
        invariant SkipVarint(s).Ok? <==> SkipVarint(s[k..]).Ok?
        invariant SkipVarint(s).Ok? ==> SkipVarint(s).used == k + SkipVarint(s[k..]).used
        decreases bytesLeft
      {
        var bytes;
        ok, bytes := Read(1);
        if !ok {
          return false;
        }
        assert s[k..][1..] == s[k + 1..];
        k := k + 1;
        if bytes[0] < 128 {
          break;
        }
      }
      return true;
    }

    /** pb_skip_field */
    method SkipOneField(wireType: nat) returns (ok: bool)
      requires Valid()
      modifies this
      ensures Valid() && state + bytesLeft == old(state + bytesLeft)
      ensures ok <==> SkipField(old(Rest()), wireType).Ok?
      ensures ok ==> Consumed(SkipField(old(Rest()), wireType).used)
    {
      var bytes;
      if wireType == WT_VARINT {
        ok := SkipVarintField();
      } else if wireType == WT_64BIT {
        ok, bytes := Read(8);
      } else if wireType == WT_STRING {
        var length;
        ok, length := DecodeVarint32();
        if ok {
          ok, bytes := Read(length);
        }
      } else if wireType == WT_32BIT {
        ok, bytes := Read(4);
      } else {
        return false;
      }
    }

    /**
     pb_make_string_substream: a stream over the delimited bytes. Until it is closed the
     parent's position still points at them although its count excludes them.
     */
    method MakeStringSubstream() returns (ok: bool, sub: IStream)
      requires Valid()
      modifies this
      ensures Valid() && state + bytesLeft <= old(state + bytesLeft)
      ensures ok <==> DecDelimited(old(Rest())).Ok?
      ensures fresh(sub)
      ensures ok ==>
                var body := DecDelimited(old(Rest())).value; var used := DecDelimited(old(Rest())).used;
                && sub.Valid() && sub.buf == buf && sub.Rest() == body
                && sub.state == state == old(state) + used - |body|
                && bytesLeft == old(bytesLeft) - used
    {
      ghost var s, all := Rest(), buf[..];
      ghost var from, to := state, state + bytesLeft;
      var size;
      ok, size := DecodeVarint32();
      if !ok || bytesLeft < size {
        sub := new IStream(buf, 0, 0);
        return false, sub;
      }
      sub := new IStream(buf, state, size);
      bytesLeft := bytesLeft - size;
      SliceOfSlice(all, from, to, DecVarint32(s).used, size);
    }

    /** pb_close_string_substream: the parent ends up exactly behind the delimited region. */
    method CloseStringSubstream(sub: IStream) returns (ok: bool)
      requires sub != this && sub.Valid() && sub.buf == buf
      requires sub.state + sub.bytesLeft + bytesLeft <= buf.Length
      modifies this, sub
      ensures ok && Valid() && bytesLeft == old(bytesLeft)
      ensures state == old(sub.state + sub.bytesLeft)
    {
      if sub.bytesLeft != 0 {
        var got, _ := sub.Read(sub.bytesLeft);
        if !got {
          return false;
        }
      }
      state := sub.state;
      return true;
    }
  }

  /**
   The three branches of the loop body of pb_decode_varint32_eof, on the k-th group of a varint of
   which s is left. A refusal means the whole varint is bad; otherwise what has been accumulated
   fits 32 bits and the varint's value is that of the accumulated part and the rest.
   */
  method AddGroup32(result: nat, byte: Byte, bitpos: nat, ghost k: nat, ghost s: Bytes)
    returns (accept: bool, next: nat)
    requires s != [] && byte == s[0]
    requires bitpos == 7 * k && result < U32 && (bitpos <= 28 ==> result < Pow2(bitpos))
    ensures !accept ==> DecVarint32From(s, bitpos, Top(result, bitpos)) == Err
    ensures accept ==> next < U32 && (bitpos + 7 <= 28 ==> next < Pow2(bitpos + 7))
    ensures accept ==>
              Lift32(result, k, bitpos, DecVarint32From(s, bitpos, Top(result, bitpos))) ==
              if byte < 128 then Ok(next, k + 1)
              else Lift32(next, k + 1, bitpos + 7, DecVarint32From(s[1..], bitpos + 7, Top(next, bitpos + 7)))
  {
    hide DecVarint32From, Lift32, Pow2, Top;
    Lift32Step(result, k, s, bitpos);
    if bitpos >= 32 {
      var signExtension := if bitpos < 63 then 0xFF else 0x01;
      var validExtension := byte % 128 == 0 || (result >= U32 / 2 && byte == signExtension);
      if bitpos >= 64 || !validExtension {
        return false, 0;
      }
      return true, result;
    } else if bitpos == 28 {
      if byte % 128 / 16 != 0 && byte % 128 / 8 != 15 {
        return false, 0;
      }
      return true, result + byte % 16 * 0x1000_0000;
    } else {
      return true, result + byte % 128 * Pow2(bitpos);
    }
  }

  /** Outcome of the whole varint, given what has been accumulated and the outcome of the rest. */
  ghost function Lift(result: nat, scale: nat, k: nat, r: Parsed<nat>): Parsed<nat>
  {
    match r case Err => Err case Ok(v, n) => Ok(result + scale * v, k + n)
  }

  /** result |= (byte & 0x7F) << bitpos */
  function Next64(result: nat, b: Byte, bitpos: nat): nat
  {
    result + b % 128 * Pow2(bitpos)
  }

  lemma LiftStart(s: Bytes)
    ensures Lift(0, Pow2(0), 0, DecVarintFrom(s, 0)) == DecVarint(s)
  {
  }

  /** The two ways the loop fails: no byte, or bits beyond the 64th. */
  lemma LiftErr(s: Bytes, bitpos: nat)
    ensures s == [] || (bitpos >= 63 && s[0] >= 2) ==>
              forall result, scale, k :: Lift(result, scale, k, DecVarintFrom(s, bitpos)) == Err
  {
  }

  lemma VarintUnfold(s: Bytes, bitpos: nat)
    requires s != [] && (bitpos >= 63 ==> s[0] < 2)
    ensures DecVarintFrom(s, bitpos) ==
            if s[0] < 128 then Ok(s[0], 1)
            else
              match DecVarintFrom(s[1..], bitpos + 7)
              case Err => Err
              case Ok(v, n) => Ok(s[0] - 128 + 128 * v, n + 1)
  {
  }

  lemma LiftStep(result: nat, k: nat, s: Bytes, bitpos: nat)
    requires s != [] && (bitpos >= 63 ==> s[0] < 2)
    ensures var next := Next64(result, s[0], bitpos);
            Lift(result, Pow2(bitpos), k, DecVarintFrom(s, bitpos)) ==
            if s[0] < 128 then Ok(next, k + 1)
            else Lift(next, Pow2(bitpos + 7), k + 1, DecVarintFrom(s[1..], bitpos + 7))
  {
    hide Pow2, DecVarintFrom;
    VarintUnfold(s, bitpos);
    Pow2Seven(bitpos);
    var p, r := Pow2(bitpos), DecVarintFrom(s[1..], bitpos + 7);
    if s[0] < 128 {
      assert p * s[0] == s[0] % 128 * p;
    } else if r.Ok? {
      assert s[0] % 128 == s[0] - 128;
      Distribute(p, s[0] - 128, r.value);
    }
  }

  /** Bit 31 of what has been accumulated, once it can be set. */
  ghost predicate Top(result: nat, bitpos: nat)
  {
    bitpos >= 32 && result >= U32 / 2
  }

  /** The same for 32 bits: from position 32 on nothing is added. */
  ghost function Lift32(result: nat, k: nat, bitpos: nat, r: Parsed<nat>): Parsed<nat>
  {
    match r case Err => Err case Ok(v, n) => Ok(if bitpos <= 28 then result + Pow2(bitpos) * v else result, k + n)
  }

  /** The conditions under which the loop of pb_decode_varint32_eof goes on. */
  ghost predicate Accepts32(result: nat, b: Byte, bitpos: nat)
  {
    if bitpos >= 32 then
      bitpos < 64 && (b % 128 == 0 || (result >= U32 / 2 && b == if bitpos < 63 then 0xFF else 0x01))
    else bitpos == 28 ==> b % 128 / 16 == 0 || b % 128 / 8 == 15
  }

  ghost function Next32(result: nat, b: Byte, bitpos: nat): nat
  {
    if bitpos >= 32 then result
    else if bitpos == 28 then result + b % 16 * 0x1000_0000
    else result + b % 128 * Pow2(bitpos)
  }

  lemma Lift32Start(s: Bytes)
    ensures s == [] ==> DecVarint32From(s, 0, false) == Err
    ensures s != [] && s[0] < 128 ==> DecVarint32From(s, 0, false) == Ok(s[0], 1)
    ensures s != [] && s[0] >= 128 ==> s[0] % 128 < Pow2(7)
    ensures s != [] && s[0] >= 128 ==>
              DecVarint32From(s, 0, false) == Lift32(s[0] % 128, 1, 7, DecVarint32From(s[1..], 7, Top(s[0] % 128, 7)))
  {
    Pow2Small();
    if s != [] && s[0] >= 128 { LowStep32(0, 0, s, 0); }
  }

  lemma Lift32Err(result: nat, k: nat, s: Bytes, bitpos: nat)
    ensures s == [] ==> Lift32(result, k, bitpos, DecVarint32From(s, bitpos, Top(result, bitpos))) == Err
    ensures Lift32(result, k, bitpos, Err) == Err
  {
  }

  lemma NextIs(result: nat, b: Byte, bitpos: nat)
    ensures bitpos >= 32 ==> Next32(result, b, bitpos) == result
    ensures bitpos == 28 ==> Next32(result, b, bitpos) == result + b % 16 * 0x1000_0000
    ensures bitpos < 28 ==> Next32(result, b, bitpos) == result + b % 128 * Pow2(bitpos)
  {
  }

  lemma Lift32Step(result: nat, k: nat, s: Bytes, bitpos: nat)
    requires s != [] && bitpos == 7 * k && result < U32 && (bitpos <= 28 ==> result < Pow2(bitpos))
    ensures !Accepts32(result, s[0], bitpos) ==> DecVarint32From(s, bitpos, Top(result, bitpos)) == Err
    ensures Accepts32(result, s[0], bitpos) ==>
              var next := Next32(result, s[0], bitpos);
              && next < U32 && (bitpos + 7 <= 28 ==> next < Pow2(bitpos + 7))
              && Lift32(result, k, bitpos, DecVarint32From(s, bitpos, Top(result, bitpos))) ==
                 if s[0] < 128 then Ok(next, k + 1)
                 else Lift32(next, k + 1, bitpos + 7, DecVarint32From(s[1..], bitpos + 7, Top(next, bitpos + 7)))
  {
    if bitpos < 28 {
      assert k in {0, 1, 2, 3};
      LowStep32(result, k, s, bitpos);
    } else if bitpos == 28 {
      Step28(result, k, s);
    }
  }

  lemma Pow2Small()
    ensures Pow2(0) == 1 && Pow2(7) == 0x80 && Pow2(14) == 0x4000 && Pow2(21) == 0x20_0000 && Pow2(28) == 0x1000_0000
  {
    Pow2Seven(0);
    Pow2Seven(7);
    Pow2Seven(14);
    Pow2Seven(21);
  }

  lemma LowBound(result: nat, g: nat, bitpos: nat)
    requires result < Pow2(bitpos) && g < 128 && bitpos in {0, 7, 14, 21}
    ensures result + g * Pow2(bitpos) < Pow2(bitpos + 7) < U32
  {
    Pow2Small();
    Pow2Seven(bitpos);
    if g < 127 { MulAtLeast(127 - g, Pow2(bitpos)); }
  }

  lemma LowLift(result: nat, g: nat, k: nat, bitpos: nat, r: Parsed<nat>)
    requires bitpos <= 21
    ensures Lift32(result, k, bitpos, match r case Err => Err case Ok(v, n) => Ok(g + 128 * v, n + 1))
         == Lift32(result + g * Pow2(bitpos), k + 1, bitpos + 7, r)
  {
    Pow2Seven(bitpos);
    if r.Ok? { Distribute(Pow2(bitpos), g, r.value); }
  }

  lemma LastLift(result: nat, g: nat, k: nat, bitpos: nat)
    requires bitpos <= 28
    ensures Lift32(result, k, bitpos, Ok(g, 1)) == Ok(result + g * Pow2(bitpos), k + 1)
  {
    hide Pow2;
    assert Pow2(bitpos) * g == g * Pow2(bitpos);
  }

  lemma LowStep32(result: nat, k: nat, s: Bytes, bitpos: nat)
    requires s != [] && bitpos in {0, 7, 14, 21} && result < Pow2(bitpos)
    ensures var next := Next32(result, s[0], bitpos);
            && next < Pow2(bitpos + 7) && next < U32
            && Lift32(result, k, bitpos, DecVarint32From(s, bitpos, false)) ==
               if s[0] < 128 then Ok(next, k + 1)
               else Lift32(next, k + 1, bitpos + 7, DecVarint32From(s[1..], bitpos + 7, false))
  {
    hide Pow2, Lift32, DecVarint32From, DecVarintFrom, Next32;
    var g: nat := s[0] % 128;
    NextIs(result, s[0], bitpos);
    LowBound(result, g, bitpos);
    if s[0] >= 128 {
      assert g == s[0] - 128;
      LowStep(s, bitpos);
      LowLift(result, g, k, bitpos, DecVarint32From(s[1..], bitpos + 7, false));
    } else {
      assert g == s[0];
      LowEnd(s, bitpos);
      LastLift(result, g, k, bitpos);
    }
  }

  lemma Step28(result: nat, k: nat, s: Bytes)
    requires s != [] && result < Pow2(28)
    ensures Accepts32(result, s[0], 28) ==>
              var next := Next32(result, s[0], 28);
              && next < U32
              && Lift32(result, k, 28, DecVarint32From(s, 28, false)) ==
                 if s[0] < 128 then Ok(next, k + 1)
                 else Lift32(next, k + 1, 35, DecVarint32From(s[1..], 35, Top(next, 35)))
    ensures !Accepts32(result, s[0], 28) ==> DecVarint32From(s, 28, false) == Err
  {
    Pow2Small();
    NibbleBits(s[0]);
    var low: nat := s[0] % 16;
    var next: nat := result + low * 0x1000_0000;
    assert Top(next, 35) <==> s[0] % 16 >= 8;
  }

  lemma NibbleBits(b: Byte)
    ensures b % 128 % 16 == b % 16 && (b % 128 / 8 % 2 == 1 <==> b % 16 >= 8)
  {
    var q, r := b / 16, b % 16;
    assert b == 16 * q + r;
    DivModUnique(b % 128, q % 8, 16, r);
    assert b % 128 == 16 * (q % 8) + r;
    assert b % 128 / 8 == 2 * (q % 8) + r / 8;
  }
}
