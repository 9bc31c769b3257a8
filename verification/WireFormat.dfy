/**
 What bytes mean on the wire, said without the code: base-128 groups and little-endian
 words as sums, keys, lengths. The parsers of `Wire` accept exactly the bytes that have a
 meaning, and the encoders write bytes that mean what they were given.
 */
module WireFormat {
  import opened Wire

  function Power(base: nat, k: nat): (p: nat)
    requires base >= 1
    ensures p >= 1
  {
    if k == 0 then 1 else base * Power(base, k - 1)
  }

  /** The digits of b, least significant first, in the given base; of each byte only the low digit counts. */
  function Number(b: Bytes, base: nat): (v: nat)
    requires base >= 1
  {
    if b == [] then 0 else Number(b[..|b| - 1], base) + b[|b| - 1] % base * Power(base, |b| - 1)
  }

  /** One group after another with the top bit set, and a last one without. */
  predicate IsVarint(b: Bytes)
  {
    && b != [] && b[|b| - 1] < 128
    && forall k :: 0 <= k < |b| - 1 ==> b[k] >= 128
  }

  lemma NumberLast(b: Bytes, base: nat)
    requires b != [] && base >= 1
    ensures Number(b, base) == Number(b[..|b| - 1], base) + b[|b| - 1] % base * Power(base, |b| - 1)
  {
  }

  lemma PowerNext(base: nat, k: nat)
    requires base >= 1 && k >= 1
    ensures Power(base, k) == base * Power(base, k - 1)
  {
  }

  lemma Distribute(base: int, y: int, x: int, p: int)
    ensures base * (y + x * p) == base * y + x * (base * p)
  {
    assert base * (y + x * p) == base * y + base * (x * p);
    assert base * (x * p) == x * (base * p);
  }

  /** Number, from the other end. */
  lemma {:induction false} NumberHead(b: Bytes, base: nat)
    requires b != [] && base >= 1
    ensures Number(b, base) == b[0] % base + base * Number(b[1..], base)
    decreases |b|
  {
    var n := |b| - 1;
    if n == 0 {
      assert b[..0] == [] && b[1..] == [];
    } else {
      hide Number, Power;
      NumberHead(b[..n], base);
      NumberLast(b, base);
      NumberLast(b[1..], base);
      PowerNext(base, n);
      assert b[..n][1..] == b[1..][..n - 1];
      Distribute(base, Number(b[1..][..n - 1], base), b[n] % base, Power(base, n - 1));
    }
  }

  lemma TailIsVarint(b: Bytes)
    requires |b| >= 2
    ensures IsVarint(b) <==> b[0] >= 128 && IsVarint(b[1..])
  {
    if b[0] >= 128 && IsVarint(b[1..]) {
      assert forall k :: 1 <= k < |b| - 1 ==> b[k] == b[1..][k - 1];
    }
  }

  lemma OneIsVarint(b: Bytes)
    requires |b| == 1
    ensures (IsVarint(b) <==> b[0] < 128) && (b[0] < 128 ==> Number(b, 128) == b[0])
  {
    assert b[..0] == [] && Power(128, 0) == 1;
  }

  /* ---------------------------------------------------------------- varints */

  /** The bytes before s are j groups. */
  ghost predicate VarintAt(s: Bytes, j: nat, v: nat, n: nat)
  {
    1 <= n <= |s| && j + n <= 10 && IsVarint(s[..n]) && v == Number(s[..n], 128) && v < Cap(7 * j)
  }

  lemma {:induction false} VarintAtIff(s: Bytes, j: nat, v: nat, n: nat)
    requires j <= 9
    ensures DecVarintFrom(s, 7 * j) == Ok(v, n) <==> VarintAt(s, j, v, n)
    decreases |s|
  {
    if s == [] {
    } else if s[0] < 128 {
      ShortVarint(s, j, v, n);
    } else if j == 9 {
      LongVarint(s, v, n);
    } else if n >= 2 {
      if n <= |s| { VarintAtNext(s, j, v, n); }
      VarintAtIff(s[1..], j + 1, v / 128, n - 1);
      if v >= s[0] - 128 && n <= |s| { DigitOff(s[0] - 128, v); }
      var r := DecVarintFrom(s[1..], 7 * (j + 1));
      if r.Ok? { DivModUnique(s[0] - 128 + 128 * r.value, r.value, 128, s[0] - 128); }
    } else {
      if n == 1 { OneIsVarint(s[..1]); }
    }
  }

  lemma DigitOff(x: nat, v: nat)
    requires x < 128
    ensures v % 128 == x ==> v == x + 128 * (v / 128)
  {
  }

  lemma ShortVarint(s: Bytes, j: nat, v: nat, n: nat)
    requires j <= 9 && s != [] && s[0] < 128
    ensures DecVarintFrom(s, 7 * j) == Ok(v, n) <==> VarintAt(s, j, v, n)
  {
    OneIsVarint(s[..1]);
    if 2 <= n <= |s| { TailIsVarint(s[..n]); }
    if j == 9 { assert Cap(63) == 2; } else { assert Cap(7 * j) == 128 * Cap(7 * j + 7); }
  }

  lemma LongVarint(s: Bytes, v: nat, n: nat)
    requires s != [] && s[0] >= 128
    ensures DecVarintFrom(s, 63).Err? && !VarintAt(s, 9, v, n)
  {
    OneIsVarint(s[..1]);
  }

  lemma VarintAtNext(s: Bytes, j: nat, v: nat, n: nat)
    requires j < 9 && s != [] && s[0] >= 128 && 2 <= n <= |s|
    ensures VarintAt(s, j, v, n) <==> v % 128 == s[0] - 128 && VarintAt(s[1..], j + 1, v / 128, n - 1)
  {
    hide Number;
    var b := s[..n];
    assert b[1..] == s[1..][..n - 1];
    TailIsVarint(b);
    NumberHead(b, 128);
    var x, y := s[0] - 128, Number(b[1..], 128);
    DivModUnique(x + 128 * y, y, 128, x);
    DigitOff(x, v);
    assert Cap(7 * j) == 128 * Cap(7 * j + 7);
  }

  /** pb_decode_varint accepts exactly the varints of at most ten bytes below 2^64, and returns their number. */
  lemma VarintIff(s: Bytes, v: nat, n: nat)
    ensures DecVarint(s) == Ok(v, n) <==>
            1 <= n <= |s| && n <= 10 && IsVarint(s[..n]) && v == Number(s[..n], 128) && v < U64
  {
    CapFull();
    VarintAtIff(s, 0, v, n);
  }

  /** pb_encode_varint writes the number, and no group more than it takes. */
  lemma {:induction false} VarintMeans(v: nat)
    ensures var b := EncVarint(v); IsVarint(b) && Number(b, 128) == v && (|b| > 1 ==> b[|b| - 1] != 0)
  {
    var b := EncVarint(v);
    if v < 128 {
      OneIsVarint(b);
    } else {
      VarintMeans(v / 128);
      var rest := EncVarint(v / 128);
      assert b[1..] == rest;
      TailIsVarint(b);
      NumberHead(b, 128);
      if |rest| == 1 { OneIsVarint(rest); }
    }
  }

  /* ------------------------------------------------------------- fixed words */

  /** A word is read in full, least significant byte first. */
  lemma FixedIff(s: Bytes, size: nat, v: nat, n: nat)
    ensures DecFixed(s, size) == Ok(v, n) <==> n == size <= |s| && v == Number(s[..size], 256)
  {
    if size <= |s| { LittleIsNumber(s[..size]); }
  }

  lemma {:induction false} LittleIsNumber(b: Bytes)
    ensures DecLittle(b) == Number(b, 256)
    decreases |b|
  {
    if b == [] {
    } else {
      NumberHead(b, 256);
      LittleIsNumber(b[1..]);
    }
  }

  lemma {:induction false} FixedMeans(v: nat, n: nat)
    requires v < Power(256, n)
    ensures Number(EncFixed(v, n), 256) == v
    decreases n
  {
    if n == 0 {
    } else {
      var b := EncFixed(v, n);
      assert b[1..] == EncFixed(v / 256, n - 1);
      FixedMeans(v / 256, n - 1);
      NumberHead(b, 256);
    }
  }

  /* ----------------------------------------------------------- 32-bit varints */

  /**
   What the 32-bit decoder lets pass as group k: beyond bit 31 the bits are all clear, or all set,
   as in a sign extension; from group 5 on a set group has to agree with bit 31.
   */
  predicate GroupFits(b: Byte, k: nat, bit31: bool)
  {
    if k < 4 then true
    else if k == 4 then b % 128 < 0x10 || b % 128 >= 0x78
    else b % 128 == 0 || (bit31 && b == (if k < 9 then 0xFF else 0x01))
  }

  predicate Fits32(b: Bytes)
  {
    forall k :: 0 <= k < |b| ==> GroupFits(b[k], k, |b| > 4 && b[4] / 8 % 2 == 1)
  }

  /** Bit 31 of a varint of which n bytes stand in s, behind j others. */
  predicate Bit31(s: Bytes, j: nat, top: bool, n: nat)
    requires n <= |s|
  {
    if j <= 4 < j + n then s[4 - j] / 8 % 2 == 1 else top
  }

  function Span(j: nat): (m: nat)
    ensures m >= 1
  {
    if j == 0 then U32 else if j == 1 then 0x200_0000 else if j == 2 then 0x4_0000
    else if j == 3 then 0x800 else if j == 4 then 0x10 else 1
  }

  ghost predicate Varint32At(s: Bytes, j: nat, top: bool, w: nat, n: nat)
  {
    && 1 <= n <= |s| && j + n <= 10 && IsVarint(s[..n]) && w == Number(s[..n], 128) % Span(j)
    && GroupsFit(s, j, top, n)
  }

  predicate GroupsFit(s: Bytes, j: nat, top: bool, n: nat)
    requires n <= |s|
  {
    forall k :: 0 <= k < n ==> GroupFits(s[k], j + k, Bit31(s, j, top, n))
  }

  lemma Short32(s: Bytes, j: nat, top: bool, w: nat, n: nat)
    requires j <= 9 && s != [] && s[0] < 128
    ensures DecVarint32From(s, 7 * j, top) == Ok(w, n) <==> Varint32At(s, j, top, w, n)
  {
    hide Number;
    OneIsVarint(s[..1]);
    if 2 <= n <= |s| { TailIsVarint(s[..n]); }
    if j < 4 { DivModUnique(s[0], 0, Span(j), s[0]); }
  }

  /** Bit 31 as the groups behind s[0] see it. */
  predicate TopAfter(s: Bytes, j: nat, top: bool)
    requires s != []
  {
    if j == 4 then s[0] / 8 % 2 == 1 else top
  }

  /** What group j adds to the value w1 of those behind it. */
  function Adds(x: nat, w1: nat, j: nat): nat
  {
    if j < 4 then x + 128 * w1 else if j == 4 then x % 16 else 0
  }

  /** The next group, and what it adds. */
  lemma Next32(s: Bytes, j: nat, top: bool, w: nat, n: nat)
    requires j <= 9 && s != [] && s[0] >= 128 && 2 <= n <= |s|
    ensures var top1, w1 := TopAfter(s, j, top), Number(s[1..][..n - 1], 128) % Span(j + 1);
            Varint32At(s, j, top, w, n) <==>
              && j < 9 && GroupFits(s[0], j, top1) && Varint32At(s[1..], j + 1, top1, w1, n - 1)
              && w == Adds(s[0] - 128, w1, j)
  {
    hide Number, GroupFits, GroupsFit, Span, Adds, TopAfter;
    var b := s[..n];
    assert b[1..] == s[1..][..n - 1];
    TailIsVarint(b);
    NumberHead(b, 128);
    SpanStep32(s[0] - 128, Number(b[1..], 128), j);
    GroupsSplit(s, j, top, n);
  }

  lemma GroupsSplit(s: Bytes, j: nat, top: bool, n: nat)
    requires j <= 9 && 2 <= n <= |s|
    ensures GroupsFit(s, j, top, n) <==>
            GroupFits(s[0], j, TopAfter(s, j, top)) && GroupsFit(s[1..], j + 1, TopAfter(s, j, top), n - 1)
  {
    var top1 := TopAfter(s, j, top);
    var all, rest := Bit31(s, j, top, n), Bit31(s[1..], j + 1, top1, n - 1);
    if GroupsFit(s, j, top, n) {
      forall k | 0 <= k < n - 1 ensures GroupFits(s[1..][k], j + 1 + k, rest) {
        assert GroupFits(s[k + 1], j + (k + 1), all);
      }
      assert GroupFits(s[0], j + 0, all);
    }
    if GroupFits(s[0], j, top1) && GroupsFit(s[1..], j + 1, top1, n - 1) {
      forall k | 0 <= k < n ensures GroupFits(s[k], j + k, all) {
        if k > 0 { assert GroupFits(s[1..][k - 1], j + 1 + (k - 1), rest); }
      }
    }
  }

  lemma SpanStep32(x: nat, y: nat, j: nat)
    requires x < 128
    ensures (x + 128 * y) % Span(j) == Adds(x, y % Span(j + 1), j)
  {
    if j < 4 {
      var m, q := Span(j + 1), y / Span(j + 1);
      assert y == q * m + y % m;
      assert x + 128 * y == q * Span(j) + (x + 128 * (y % m));
      DivModUnique(x + 128 * y, q, Span(j), x + 128 * (y % m));
    } else if j == 4 {
      DivModUnique(x + 128 * y, x / 16 + 8 * y, 16, x % 16);
    }
  }

  /** One step of the 32-bit decoder. */
  lemma Unfold32(s: Bytes, j: nat, top: bool)
    requires j <= 9 && s != [] && s[0] >= 128
    ensures var top1 := TopAfter(s, j, top);
            var r := DecVarint32From(s[1..], 7 * (j + 1), top1);
            DecVarint32From(s, 7 * j, top) ==
              if j == 9 || !GroupFits(s[0], j, top1) || r.Err? then Err
              else Ok(Adds(s[0] - 128, r.value, j), r.used + 1)
  {
    if j < 4 {
    } else if j == 4 {
      assert s[0] % 128 / 8 % 2 == s[0] / 8 % 2;
    } else {
      assert 7 * j >= 32 && (7 * j < 63 <==> j < 9);
    }
  }

  lemma {:induction false} Varint32AtIff(s: Bytes, j: nat, top: bool, w: nat, n: nat)
    requires j <= 9
    ensures DecVarint32From(s, 7 * j, top) == Ok(w, n) <==> Varint32At(s, j, top, w, n)
    decreases |s|
  {
    if s == [] {
    } else if s[0] < 128 {
      Short32(s, j, top, w, n);
    } else {
      hide Number, Varint32At, GroupFits, Adds, TopAfter, DecVarint32From, Span;
      var top1 := TopAfter(s, j, top);
      Unfold32(s, j, top);
      if !(2 <= n <= |s|) {
        NotOneByte(s, j, top, w, n);
      } else {
        Next32(s, j, top, w, n);
        if j < 9 {
          var r := DecVarint32From(s[1..], 7 * (j + 1), top1);
          Varint32AtIff(s[1..], j + 1, top1, Number(s[1..][..n - 1], 128) % Span(j + 1), n - 1);
          if r.Ok? { Varint32AtIff(s[1..], j + 1, top1, r.value, n - 1); }
          Value32(s[1..], j + 1, top1, n - 1);
        }
      }
    }
  }

  lemma NotOneByte(s: Bytes, j: nat, top: bool, w: nat, n: nat)
    requires s != [] && s[0] >= 128 && !(2 <= n <= |s|)
    ensures !Varint32At(s, j, top, w, n)
  {
    hide Number;
    OneIsVarint(s[..1]);
  }

  lemma Value32(s: Bytes, j: nat, top: bool, n: nat)
    ensures forall w :: Varint32At(s, j, top, w, n) ==> w == Number(s[..n], 128) % Span(j)
  {
    hide Number;
  }

  /**
   pb_decode_varint32 accepts exactly the varints of at most ten bytes that fit in 32 bits or are
   a sign extension to more, and returns the low 32 bits.
   */
  lemma Varint32Iff(s: Bytes, w: nat, n: nat)
    ensures DecVarint32(s) == Ok(w, n) <==>
            1 <= n <= |s| && n <= 10 && IsVarint(s[..n]) && Fits32(s[..n]) && w == Number(s[..n], 128) % U32
  {
    hide Number;
    Varint32AtIff(s, 0, false, w, n);
  }

  /* ------------------------------------------------- keys, lengths, skipping */

  /** The first n bytes of s are a varint that the 32-bit decoder takes, standing for w. */
  predicate Word32(s: Bytes, w: nat, n: nat)
  {
    1 <= n <= |s| && n <= 10 && IsVarint(s[..n]) && Fits32(s[..n]) && w == Number(s[..n], 128) % U32
  }

  /** A key is a varint of eight times the tag and the wire type. */
  lemma KeyIff(s: Bytes, tag: nat, wireType: nat, n: nat)
    ensures DecTag(s) == Ok(Key(tag, wireType), n) <==> wireType < 8 && Word32(s, 8 * tag + wireType, n)
  {
    hide Number, Fits32, IsVarint;
    var r := DecVarint32(s);
    Varint32Iff(s, 8 * tag + wireType, n);
    if r.Ok? { Varint32Iff(s, r.value, r.used); }
  }

  lemma KeyMeans(tag: nat, wireType: nat)
    ensures var b := EncTag(tag, wireType); IsVarint(b) && Number(b, 128) == 8 * tag + wireType
  {
    hide Number;
    VarintMeans(tag * 8 + wireType);
  }

  /** k bytes of length, and then as many bytes as it says. */
  predicate Delimits(s: Bytes, k: nat, n: nat)
  {
    1 <= k <= n <= |s| && Word32(s, n - k, k)
  }

  lemma DelimitedIff(s: Bytes, body: Bytes, n: nat)
    ensures DecDelimited(s) == Ok(body, n) <==> exists k: nat :: Delimits(s, k, n) && body == s[k..n]
  {
    hide Number, Fits32, IsVarint;
    var r := DecVarint32(s);
    if r.Ok? { Varint32Iff(s, r.value, r.used); }
    if DecDelimited(s) == Ok(body, n) {
      assert Delimits(s, r.used, n);
    }
    if k: nat :| Delimits(s, k, n) && body == s[k..n] {
      Varint32Iff(s, n - k, k);
    }
  }

  lemma {:induction false} SkipVarintIff(s: Bytes, n: nat)
    ensures SkipVarint(s) == Ok((), n) <==> 1 <= n <= |s| && IsVarint(s[..n])
    decreases |s|
  {
    if s == [] {
    } else {
      OneIsVarint(s[..1]);
      if 2 <= n <= |s| {
        assert s[..n][1..] == s[1..][..n - 1];
        TailIsVarint(s[..n]);
      }
      if n >= 1 { SkipVarintIff(s[1..], n - 1); }
    }
  }

  /** pb_skip_field passes over a varint, eight bytes, a delimited string or four bytes, and over nothing else. */
  lemma SkipIff(s: Bytes, wireType: nat, n: nat)
    ensures SkipField(s, wireType) == Ok((), n) <==>
            || (wireType == 0 && 1 <= n <= |s| && IsVarint(s[..n]))
            || (wireType == 1 && n == 8 <= |s|)
            || (wireType == 2 && exists k: nat :: Delimits(s, k, n))
            || (wireType == 5 && n == 4 <= |s|)
  {
    hide Number, Fits32, IsVarint, SkipVarint, DecDelimited, Delimits;
    SkipVarintIff(s, n);
    var r := DecDelimited(s);
    if r.Ok? { DelimitedIff(s, r.value, r.used); }
    if k: nat :| Delimits(s, k, n) {
      assert k <= n <= |s| by { DelimitsWithin(s, k, n); }
      DelimitedIff(s, s[k..n], n);
    }
  }

  lemma DelimitsWithin(s: Bytes, k: nat, n: nat)
    requires Delimits(s, k, n)
    ensures 1 <= k <= n <= |s|
  {
  }
}
