/**
 Wire-level encodings shared by the encoder and the decoder: base-128 varints,
 zigzag, little-endian words, field keys and wire types. Bytes are integers in
 [0, 256); masks and shifts of the C code are written as `%`, `/` and `*` by
 powers of two, and `|=` of non-overlapping bits as `+`.
 */
module Wire {

  type Byte = x: int | 0 <= x < 256
  type Bytes = seq<Byte>

  datatype Option<+T> = None | Some(value: T)

  /** Outcome of a parser: the value and the number of bytes it consumed. */
  datatype Parsed<+T> = Err | Ok(value: T, used: nat)

  const U32: int := 0x1_0000_0000
  const U64: int := 0x1_0000_0000_0000_0000

  /* ------------------------------------------------------------- arithmetic */

  lemma MulAtLeast(x: int, m: int)
    requires x >= 1 && m > 0
    ensures x * m >= m
  {
    assert x * m == (x - 1) * m + m;
  }

  lemma DivModUnique(a: int, q: int, m: int, r: int)
    requires m > 0 && 0 <= r < m && a == q * m + r
    ensures a / m == q && a % m == r
  {
    var q', r' := a / m, a % m;
    assert a == q' * m + r';
    assert (q - q') * m == r' - r by { assert (q - q') * m == q * m - q' * m; }
    if q > q' { MulAtLeast(q - q', m); }
    if q < q' { MulAtLeast(q' - q, m); }
  }

  function Pow2(n: nat): (p: nat)
    ensures p >= 1
  {
    if n == 0 then 1 else 2 * Pow2(n - 1)
  }

  /* ---------------------------------------------------------------- varints */

  /** The shortest base-128 form of v, least significant group first. */
  function EncVarint(v: nat): (b: Bytes)
    ensures |b| >= 1
  {
    if v < 128 then [v] else [v % 128 + 128] + EncVarint(v / 128)
  }

  /** One more than the largest value a varint can still add at bit position `bitpos`. */
  ghost function Cap(bitpos: nat): (c: nat)
    ensures c >= 2
    decreases 63 - bitpos
  {
    if bitpos >= 63 then 2 else 128 * Cap(bitpos + 7)
  }

  lemma CapFull()
    ensures Cap(63) == 2 && Cap(56) == 0x100 && Cap(49) == 0x8000 && Cap(42) == 0x40_0000
    ensures Cap(35) == 0x2000_0000 && Cap(28) == 0x10_0000_0000 && Cap(21) == 0x800_0000_0000
    ensures Cap(14) == 0x4_0000_0000_0000 && Cap(7) == 0x200_0000_0000_0000 && Cap(0) == U64
  {
    assert Cap(63) == 2;
    assert Cap(56) == 0x100;
    assert Cap(49) == 0x8000;
    assert Cap(42) == 0x40_0000;
    assert Cap(35) == 0x2000_0000;
    assert Cap(28) == 0x10_0000_0000;
    assert Cap(21) == 0x800_0000_0000;
    assert Cap(14) == 0x4_0000_0000_0000;
    assert Cap(7) == 0x200_0000_0000_0000;
  }

  /** pb_decode_varint from bit position `bitpos` on; the value is relative to that position. */
  function DecVarintFrom(s: Bytes, bitpos: nat): (r: Parsed<nat>)
    ensures r.Ok? ==> 1 <= r.used <= |s|
    ensures r.Ok? ==> r.value < Cap(bitpos)
  {
    if s == [] then Err
    else if bitpos >= 63 && s[0] >= 2 then Err
    else if s[0] < 128 then assert bitpos < 63 ==> Cap(bitpos) >= 256; Ok(s[0], 1)
    else
      match DecVarintFrom(s[1..], bitpos + 7)
      case Err => Err
      case Ok(v, n) => Ok(s[0] - 128 + 128 * v, n + 1)
  }

  function DecVarint(s: Bytes): (r: Parsed<nat>)
    ensures r.Ok? ==> 1 <= r.used <= |s| && r.value < U64
  {
    CapFull();
    DecVarintFrom(s, 0)
  }

  /** The first group of an encoded varint and what follows it. */
  lemma VarintHead(v: nat, tail: Bytes)
    ensures var s := EncVarint(v) + tail;
            if v < 128 then s[0] == v && |EncVarint(v)| == 1
            else s[0] == v % 128 + 128 && s[1..] == EncVarint(v / 128) + tail
                 && |EncVarint(v)| == |EncVarint(v / 128)| + 1
  {
    VarintUnfold(v);
    hide EncVarint;
    if v < 128 {
    } else {
      var first, rest := [v % 128 + 128], EncVarint(v / 128);
      assert first + rest + tail == first + (rest + tail);
    }
  }

  lemma VarintUnfold(v: nat)
    ensures EncVarint(v) == if v < 128 then [v] else [v % 128 + 128] + EncVarint(v / 128)
  {
  }

  lemma {:induction false} VarintRoundTripFrom(v: nat, bitpos: nat, tail: Bytes)
    requires v < Cap(bitpos)
    ensures DecVarintFrom(EncVarint(v) + tail, bitpos) == Ok(v, |EncVarint(v)|)
  {
    hide EncVarint;
    VarintHead(v, tail);
    if v < 128 {
    } else {
      assert bitpos < 63;
      VarintRoundTripFrom(v / 128, bitpos + 7, tail);
    }
  }

  /** Every 64-bit value survives the round trip, whatever follows it, and is consumed exactly. */
  lemma VarintRoundTrip(v: nat, tail: Bytes)
    requires v < U64
    ensures DecVarint(EncVarint(v) + tail) == Ok(v, |EncVarint(v)|)
  {
    CapFull();
    VarintRoundTripFrom(v, 0, tail);
  }

  /** No accepted byte string with the same value is shorter than the one the encoder emits. */
  lemma {:induction false} VarintShortest(s: Bytes, bitpos: nat)
    requires DecVarintFrom(s, bitpos).Ok?
    ensures |EncVarint(DecVarintFrom(s, bitpos).value)| <= DecVarintFrom(s, bitpos).used
  {
    if s[0] < 128 {
    } else {
      VarintShortest(s[1..], bitpos + 7);
      var v := DecVarintFrom(s[1..], bitpos + 7).value;
      assert (s[0] - 128 + 128 * v) / 128 == v;
    }
  }

  lemma {:induction false} VarintLengthMonotone(a: nat, b: nat)
    requires a <= b
    ensures |EncVarint(a)| <= |EncVarint(b)|
  {
    if a < 128 {
    } else {
      VarintLengthMonotone(a / 128, b / 128);
    }
  }

  lemma {:induction false} VarintLengthFrom(v: nat, bitpos: nat, n: nat)
    requires v < Cap(bitpos) && bitpos <= 63 && bitpos + 7 * n == 63
    ensures |EncVarint(v)| <= n + 1
  {
    if v < 128 {
    } else {
      VarintLengthFrom(v / 128, bitpos + 7, n - 1);
    }
  }

  lemma VarintAtMostTen(v: nat)
    requires v < U64
    ensures |EncVarint(v)| <= 10
  {
    CapFull();
    VarintLengthFrom(v, 0, 9);
  }

  lemma {:induction false} VarintDecodeExtends(s: Bytes, t: Bytes, bitpos: nat)
    requires DecVarintFrom(s, bitpos).Ok?
    ensures DecVarintFrom(s + t, bitpos) == DecVarintFrom(s, bitpos)
  {
    if s[0] < 128 {
    } else {
      assert (s + t)[1..] == s[1..] + t;
      VarintDecodeExtends(s[1..], t, bitpos + 7);
    }
  }

  /* -------------------------------------------------- 32-bit varint decoder */

  /**
   pb_decode_varint32_eof from bit position `bitpos` on. Groups at positions 0 to 21
   contribute seven bits, the group at 28 its low four, later groups none; `top`
   is bit 31 of the result once position 28 has been passed.
   */
  function DecVarint32From(s: Bytes, bitpos: nat, top: bool): (r: Parsed<nat>)
    ensures r.Ok? ==> 1 <= r.used <= |s|
  {
    if s == [] then Err
    else
      var g := s[0] % 128;
      var more := s[0] >= 128;
      if bitpos >= 32 then
        var signExtension := if bitpos < 63 then 0xFF else 0x01;
        if bitpos >= 64 || !(g == 0 || (top && s[0] == signExtension)) then Err
        else if !more then Ok(0, 1)
        else
          match DecVarint32From(s[1..], bitpos + 7, top)
          case Err => Err
          case Ok(v, n) => Ok(0, n + 1)
      else if bitpos == 28 then
        if g / 16 != 0 && g / 8 != 15 then Err
        else if !more then Ok(g % 16, 1)
        else
          match DecVarint32From(s[1..], bitpos + 7, g / 8 % 2 == 1)
          case Err => Err
          case Ok(v, n) => Ok(g % 16, n + 1)
      else if !more then Ok(g, 1)
      else
        match DecVarint32From(s[1..], bitpos + 7, top)
        case Err => Err
        case Ok(v, n) => Ok(g + 128 * v, n + 1)
  }

  function DecVarint32(s: Bytes): (r: Parsed<nat>)
    ensures r.Ok? ==> 1 <= r.used <= |s| && r.value < U32
  {
    Varint32Range(s);
    DecVarint32From(s, 0, false)
  }

  lemma Varint32Range(s: Bytes)
    ensures DecVarint32From(s, 0, false).Ok? ==> DecVarint32From(s, 0, false).value < U32
  {
    Varint32RangeFrom(s, 0);
  }

  ghost function Span32(bitpos: nat): nat
    requires bitpos in {0, 7, 14, 21, 28}
  {
    if bitpos == 0 then U32 else if bitpos == 7 then 0x200_0000
    else if bitpos == 14 then 0x4_0000 else if bitpos == 21 then 0x800 else 16
  }

  lemma {:induction false} Varint32RangeFrom(s: Bytes, bitpos: nat)
    requires bitpos in {0, 7, 14, 21, 28}
    ensures var r := DecVarint32From(s, bitpos, false); r.Ok? ==> r.value < Span32(bitpos)
    decreases 28 - bitpos
  {
    if bitpos >= 28 || s == [] || s[0] < 128 {
    } else {
      Varint32RangeFrom(s[1..], bitpos + 7);
    }
  }

  /** Past position 28 the 32-bit decoder accepts only what the 64-bit one accepts. */
  lemma {:induction false} Varint32TailRefines(s: Bytes, bitpos: nat, top: bool)
    requires bitpos in {35, 42, 49, 56, 63}
    requires DecVarint32From(s, bitpos, top).Ok?
    ensures DecVarintFrom(s, bitpos).Ok?
    ensures DecVarintFrom(s, bitpos).used == DecVarint32From(s, bitpos, top).used
    decreases 63 - bitpos
  {
    if bitpos >= 63 || s[0] < 128 {
    } else {
      Varint32TailRefines(s[1..], bitpos + 7, top);
    }
  }

  lemma Varint32RefinesAt28(s: Bytes)
    requires DecVarint32From(s, 28, false).Ok?
    ensures DecVarintFrom(s, 28).Ok?
    ensures DecVarintFrom(s, 28).used == DecVarint32From(s, 28, false).used
    ensures DecVarintFrom(s, 28).value % 16 == DecVarint32From(s, 28, false).value
  {
    var x := s[0];
    if x >= 128 {
      var top := x % 128 / 8 % 2 == 1;
      assert DecVarint32From(s[1..], 35, top).Ok?;
      Varint32TailRefines(s[1..], 35, top);
      var v := DecVarintFrom(s[1..], 35).value;
      assert DecVarintFrom(s, 28).value == x - 128 + 128 * v;
      assert DecVarint32From(s, 28, false).value == x % 128 % 16;
      LowBits(x, v);
    }
  }

  lemma LowBits(x: nat, v: nat)
    requires 128 <= x < 256
    ensures (x - 128 + 128 * v) % 16 == x % 128 % 16
  {
    DivModUnique(x - 128 + 128 * v, (x - 128) / 16 + 8 * v, 16, (x - 128) % 16);
    assert x % 128 == x - 128;
  }

  /** One unfolding of both decoders at a low position with the continuation bit set. */
  lemma LowStep(s: Bytes, bitpos: nat)
    requires s != [] && s[0] >= 128 && bitpos in {0, 7, 14, 21}
    ensures DecVarint32From(s, bitpos, false) ==
            match DecVarint32From(s[1..], bitpos + 7, false)
            case Err => Err
            case Ok(v, n) => Ok(s[0] - 128 + 128 * v, n + 1)
    ensures DecVarintFrom(s, bitpos) ==
            match DecVarintFrom(s[1..], bitpos + 7)
            case Err => Err
            case Ok(v, n) => Ok(s[0] - 128 + 128 * v, n + 1)
  {
    assert s[0] % 128 == s[0] - 128;
  }

  lemma SpanStep(bitpos: nat)
    requires bitpos in {0, 7, 14, 21}
    ensures bitpos + 7 in {7, 14, 21, 28}
    ensures Span32(bitpos) == 128 * Span32(bitpos + 7) && Span32(bitpos + 7) >= 16 && Span32(bitpos + 7) % 2 == 0
    ensures Cap(bitpos) == 128 * Cap(bitpos + 7) && Cap(bitpos + 7) > 2 * Span32(bitpos + 7)
  {
    CapFull();
  }

  lemma {:induction false} Varint32RefinesFrom(s: Bytes, bitpos: nat)
    requires bitpos in {0, 7, 14, 21, 28}
    requires DecVarint32From(s, bitpos, false).Ok?
    ensures DecVarintFrom(s, bitpos).Ok?
    ensures DecVarintFrom(s, bitpos).used == DecVarint32From(s, bitpos, false).used
    ensures DecVarintFrom(s, bitpos).value % Span32(bitpos) == DecVarint32From(s, bitpos, false).value
    decreases 28 - bitpos
  {
    if bitpos == 28 {
      Varint32RefinesAt28(s);
    } else {
      SpanStep(bitpos);
      LowEnd(s, bitpos);
      if s[0] >= 128 { LowStep(s, bitpos); }
      hide DecVarint32From, DecVarintFrom, Span32, Cap;
      if s[0] >= 128 {
        Varint32RefinesFrom(s[1..], bitpos + 7);
        ModStep(s[0] - 128, DecVarintFrom(s[1..], bitpos + 7).value, Span32(bitpos + 7));
      } else {
        DivModUnique(s[0], 0, Span32(bitpos), s[0]);
      }
    }
  }

  /** A last byte at a low position. */
  lemma LowEnd(s: Bytes, bitpos: nat)
    requires s != [] && bitpos in {0, 7, 14, 21}
    ensures s[0] < 128 ==> DecVarint32From(s, bitpos, false) == Ok(s[0], 1) && DecVarintFrom(s, bitpos) == Ok(s[0], 1)
  {
  }

  lemma ModStep(low: nat, v: nat, m: nat)
    requires low < 128 && m > 0
    ensures (low + 128 * v) % (128 * m) == low + 128 * (v % m)
  {
    var q, r := v / m, v % m;
    assert v == q * m + r;
    assert q * (128 * m) == 128 * (q * m);
    DivModUnique(low + 128 * v, q, 128 * m, low + 128 * r);
  }

  /** The 32-bit decoder is a restriction of the 64-bit one, modulo 2^32. */
  lemma Varint32Refines(s: Bytes)
    requires DecVarint32(s).Ok?
    ensures DecVarint(s).Ok?
    ensures DecVarint(s).used == DecVarint32(s).used
    ensures DecVarint(s).value % U32 == DecVarint32(s).value
  {
    Varint32RefinesFrom(s, 0);
  }

  lemma {:induction false} Varint32AcceptsFrom(v: nat, bitpos: nat, tail: Bytes)
    requires bitpos in {0, 7, 14, 21, 28} && v < Span32(bitpos)
    ensures DecVarint32From(EncVarint(v) + tail, bitpos, false) == Ok(v, |EncVarint(v)|)
    decreases 28 - bitpos
  {
    hide EncVarint;
    VarintHead(v, tail);
    if v < 128 {
    } else {
      Varint32AcceptsFrom(v / 128, bitpos + 7, tail);
    }
  }

  lemma Varint32Accepts(v: nat, tail: Bytes)
    requires v < U32
    ensures DecVarint32(EncVarint(v) + tail) == Ok(v, |EncVarint(v)|)
  {
    Varint32AcceptsFrom(v, 0, tail);
  }

  /** All-ones groups up to bit 63, as a sign-extended negative number ends. */
  ghost function Ones(bitpos: nat): nat
  {
    Cap(bitpos) - 1
  }

  lemma {:induction false} Varint32AcceptsOnes(bitpos: nat, tail: Bytes)
    requires bitpos in {35, 42, 49, 56, 63}
    ensures DecVarint32From(EncVarint(Ones(bitpos)) + tail, bitpos, true)
         == Ok(0, |EncVarint(Ones(bitpos))|)
    decreases 63 - bitpos
  {
    if bitpos == 63 {
    } else {
      assert Ones(bitpos) / 128 == Ones(bitpos + 7) && Ones(bitpos) % 128 == 127;
      assert (EncVarint(Ones(bitpos)) + tail)[1..] == EncVarint(Ones(bitpos + 7)) + tail;
      Varint32AcceptsOnes(bitpos + 7, tail);
    }
  }

  lemma Varint32AcceptsNegativeAt28(v: nat, tail: Bytes)
    requires Cap(28) - 8 <= v < Cap(28)
    ensures DecVarint32From(EncVarint(v) + tail, 28, false) == Ok(v - (Cap(28) - 16), |EncVarint(v)|)
  {
    CapFull();
    assert v / 128 == Ones(35);
    assert (EncVarint(v) + tail)[1..] == EncVarint(Ones(35)) + tail;
    Varint32AcceptsOnes(35, tail);
  }

  lemma NegativeQuotient(v: nat, c: nat, m: nat)
    requires m >= 16 && m % 2 == 0 && c > 2 * m
    requires 128 * c - 128 * m / 2 <= v < 128 * c
    ensures v >= 128 && c - m / 2 <= v / 128 < c
    ensures v % 128 + 128 * (v / 128 - (c - m)) == v - (128 * c - 128 * m)
  {
    assert 128 * m / 2 == 64 * m && m == 2 * (m / 2);
  }

  lemma {:induction false} Varint32AcceptsNegativeFrom(v: nat, bitpos: nat, tail: Bytes)
    requires bitpos in {0, 7, 14, 21, 28}
    requires Cap(bitpos) - Span32(bitpos) / 2 <= v < Cap(bitpos)
    ensures DecVarint32From(EncVarint(v) + tail, bitpos, false)
         == Ok(v - (Cap(bitpos) - Span32(bitpos)), |EncVarint(v)|)
    decreases 28 - bitpos
  {
    if bitpos == 28 {
      Varint32AcceptsNegativeAt28(v, tail);
    } else {
      SpanStep(bitpos);
      NegativeQuotient(v, Cap(bitpos + 7), Span32(bitpos + 7));
      Varint32AcceptsNegativeFrom(v / 128, bitpos + 7, tail);
      NegativeStep(v, bitpos, tail);
    }
  }

  lemma NegativeStep(v: nat, bitpos: nat, tail: Bytes)
    requires bitpos in {0, 7, 14, 21} && v >= 128
    requires DecVarint32From(EncVarint(v / 128) + tail, bitpos + 7, false).Ok?
    requires DecVarint32From(EncVarint(v / 128) + tail, bitpos + 7, false).used == |EncVarint(v / 128)|
    ensures DecVarint32From(EncVarint(v) + tail, bitpos, false) ==
            Ok(v % 128 + 128 * DecVarint32From(EncVarint(v / 128) + tail, bitpos + 7, false).value, |EncVarint(v)|)
  {
    var s := EncVarint(v) + tail;
    assert s[0] == v % 128 + 128 && s[1..] == EncVarint(v / 128) + tail;
    LowStep(s, bitpos);
  }

  /** It also accepts every negative int32 as the encoder writes it, sign-extended to 64 bits. */
  lemma Varint32AcceptsNegative(n: int, tail: Bytes)
    requires -0x8000_0000 <= n < 0
    ensures DecVarint32(EncVarint(n + U64) + tail) == Ok(n + U32, |EncVarint(n + U64)|)
  {
    CapFull();
    Varint32AcceptsNegativeFrom(n + U64, 0, tail);
  }

  lemma {:induction false} Varint32Extends(s: Bytes, t: Bytes, bitpos: nat, top: bool)
    requires DecVarint32From(s, bitpos, top).Ok?
    ensures DecVarint32From(s + t, bitpos, top) == DecVarint32From(s, bitpos, top)
  {
    if s[0] < 128 {
    } else {
      assert (s + t)[1..] == s[1..] + t;
      Varint32Extends(s[1..], t, bitpos + 7, if bitpos == 28 then s[0] % 128 / 8 % 2 == 1 else top);
    }
  }

  /* ----------------------------------------------------------------- zigzag */

  /** pb_encode_svarint: the 64-bit pattern is masked, shifted and complemented as in C. */
  function ZigZag(n: int): (z: nat)
    requires -U64 / 2 <= n < U64 / 2
    ensures z < U64
    ensures z == if n < 0 then -2 * n - 1 else 2 * n
  {
    var mask := U64 / 2;
    if n < 0 then U64 - 1 - 2 * ((n + U64) % mask) else 2 * n
  }

  /** pb_decode_svarint: an odd code complements the shifted value, read as a signed word. */
  function UnZigZag(z: nat): (n: int)
    requires z < U64
    ensures -U64 / 2 <= n < U64 / 2
  {
    if z % 2 == 1 then ToSigned(U64 - 1 - z / 2, U64) else ToSigned(z / 2, U64)
  }

  /** Reads an unsigned word of modulus m as two's complement. */
  function ToSigned(v: int, m: int): (n: int)
    requires m > 0 && m % 2 == 0
    ensures -m / 2 <= n < m / 2 && (n == v % m || n == v % m - m)
  {
    var u := v % m;
    if u < m / 2 then u else u - m
  }

  lemma ZigZagRoundTrip(n: int)
    requires -U64 / 2 <= n < U64 / 2
    ensures UnZigZag(ZigZag(n)) == n
  {
  }

  lemma ZigZagOnto(z: nat)
    requires z < U64
    ensures ZigZag(UnZigZag(z)) == z
  {
  }

  /* ------------------------------------------------------------ fixed words */

  /** The n low bytes of v, least significant first. */
  function EncFixed(v: nat, n: nat): (b: Bytes)
    ensures |b| == n
  {
    if n == 0 then [] else [v % 256] + EncFixed(v / 256, n - 1)
  }

  function DecLittle(b: Bytes): nat
  {
    if b == [] then 0 else b[0] + 256 * DecLittle(b[1..])
  }

  function DecFixed(s: Bytes, n: nat): (r: Parsed<nat>)
    ensures r.Ok? ==> r.used == n <= |s|
  {
    if |s| < n then Err else Ok(DecLittle(s[..n]), n)
  }

  ghost function Pow256(n: nat): (p: nat)
    ensures p >= 1
  {
    if n == 0 then 1 else 256 * Pow256(n - 1)
  }

  lemma {:induction false} LittleBound(b: Bytes)
    ensures DecLittle(b) < Pow256(|b|)
  {
    if b == [] {
    } else {
      LittleBound(b[1..]);
    }
  }

  lemma FixedBound()
    ensures Pow256(4) == U32 && Pow256(8) == U64
  {
    assert Pow256(2) == 0x1_0000;
    assert Pow256(4) == 0x1_0000 * Pow256(2);
    assert Pow256(6) == 0x1_0000 * Pow256(4);
  }

  lemma {:induction false} LittleRoundTrip(v: nat, n: nat)
    requires v < Pow256(n)
    ensures DecLittle(EncFixed(v, n)) == v
  {
    if n == 0 {
    } else {
      assert EncFixed(v, n)[1..] == EncFixed(v / 256, n - 1);
      LittleRoundTrip(v / 256, n - 1);
    }
  }

  lemma FixedRoundTrip(v: nat, n: nat, tail: Bytes)
    requires (n == 4 && v < U32) || (n == 8 && v < U64)
    ensures DecFixed(EncFixed(v, n) + tail, n) == Ok(v, n)
  {
    assert Pow256(1) == 256 && Pow256(2) == 0x1_0000 && Pow256(3) == 0x100_0000 && Pow256(4) == U32;
    assert Pow256(5) == 256 * U32 && Pow256(6) == 0x1_0000 * U32 && Pow256(7) == 0x100_0000 * U32;
    assert Pow256(8) == U64;
    assert (EncFixed(v, n) + tail)[..n] == EncFixed(v, n);
    LittleRoundTrip(v, n);
  }

  /* ----------------------------------------------------------- field keys */

  const WT_VARINT: nat := 0
  const WT_64BIT: nat := 1
  const WT_STRING: nat := 2
  const WT_32BIT: nat := 5
  const WT_PACKED: nat := 255

  function EncTag(tag: nat, wireType: nat): Bytes
  {
    EncVarint(tag * 8 + wireType)
  }

  datatype Key = Key(tag: nat, wireType: nat)

  /** pb_decode_tag. */
  function DecTag(s: Bytes): (r: Parsed<Key>)
    ensures r.Ok? ==> 1 <= r.used <= |s| && r.value.wireType < 8 && r.value.tag < U32 / 8
  {
    match DecVarint32(s)
    case Err => Err
    case Ok(v, n) => Ok(Key(v / 8, v % 8), n)
  }

  lemma TagRoundTrip(tag: nat, wireType: nat, tail: Bytes)
    requires tag < 0x1_0000 && wireType < 8
    ensures DecTag(EncTag(tag, wireType) + tail) == Ok(Key(tag, wireType), |EncTag(tag, wireType)|)
  {
    Varint32Accepts(tag * 8 + wireType, tail);
  }

  /* -------------------------------------------------------------- skipping */

  function SkipVarint(s: Bytes): (r: Parsed<()>)
    ensures r.Ok? ==> 1 <= r.used <= |s|
  {
    if s == [] then Err
    else if s[0] < 128 then Ok((), 1)
    else
      match SkipVarint(s[1..])
      case Err => Err
      case Ok(_, n) => Ok((), n + 1)
  }

  /** A length prefix and that many bytes; the value is the content. */
  function DecDelimited(s: Bytes): (r: Parsed<Bytes>)
    ensures r.Ok? ==> 1 <= r.used <= |s| && |r.value| < r.used
  {
    match DecVarint32(s)
    case Err => Err
    case Ok(size, k) => if |s| - k < size then Err else Ok(s[k..k + size], k + size)
  }

  /** pb_skip_field. */
  function SkipField(s: Bytes, wireType: nat): (r: Parsed<()>)
    ensures r.Ok? ==> r.used <= |s|
  {
    if wireType == WT_VARINT then SkipVarint(s)
    else if wireType == WT_64BIT then (if |s| < 8 then Err else Ok((), 8))
    else if wireType == WT_STRING then
      (match DecDelimited(s) case Err => Err case Ok(_, n) => Ok((), n))
    else if wireType == WT_32BIT then (if |s| < 4 then Err else Ok((), 4))
    else Err
  }

  lemma TagExtends(s: Bytes, t: Bytes)
    requires DecTag(s).Ok?
    ensures DecTag(s + t) == DecTag(s)
  {
    Varint32Extends(s, t, 0, false);
  }

  lemma DelimitedExtends(s: Bytes, t: Bytes)
    requires DecDelimited(s).Ok?
    ensures DecDelimited(s + t) == DecDelimited(s)
  {
    Varint32Extends(s, t, 0, false);
    var Ok(size, k) := DecVarint32(s);
    assert (s + t)[k..k + size] == s[k..k + size];
  }

  lemma {:induction false} SkipVarintExtends(s: Bytes, t: Bytes)
    requires SkipVarint(s).Ok?
    ensures SkipVarint(s + t) == SkipVarint(s)
  {
    if s[0] < 128 {
    } else {
      assert (s + t)[1..] == s[1..] + t;
      SkipVarintExtends(s[1..], t);
    }
  }

  lemma SkipExtends(s: Bytes, t: Bytes, wireType: nat)
    requires SkipField(s, wireType).Ok?
    ensures SkipField(s + t, wireType) == SkipField(s, wireType)
  {
    if wireType == WT_VARINT { SkipVarintExtends(s, t); }
    if wireType == WT_STRING { DelimitedExtends(s, t); }
  }

  lemma DelimitedRoundTrip(body: Bytes, tail: Bytes)
    requires |body| < U32
    ensures DecDelimited(EncVarint(|body|) + body + tail) == Ok(body, |EncVarint(|body|)| + |body|)
  {
    var p := EncVarint(|body|);
    assert p + body + tail == p + (body + tail);
    Varint32Accepts(|body|, body + tail);
    assert (p + body + tail)[|p|..|p| + |body|] == body;
  }
}
