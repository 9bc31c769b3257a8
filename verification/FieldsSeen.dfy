/** The bitfield in which pb_decode_inner notes the required fields it has met (pb_decode.c). */
module FieldsSeen {
  import opened Decoding

  predicate Bit(w: nat, k: nat)
  {
    if k == 0 then w % 2 == 1 else Bit(w / 2, k - 1)
  }

  /** w | (1 << k) */
  function OrBit(w: nat, k: nat): nat
  {
    if k == 0 then w / 2 * 2 + 1 else w % 2 + 2 * OrBit(w / 2, k - 1)
  }

  /** The n low bits set: allbits >> (32 - n) */
  function Ones(n: nat): nat
  {
    if n == 0 then 0 else 1 + 2 * Ones(n - 1)
  }

  lemma {:induction false} OrBitSets(w: nat, k: nat, j: nat)
    ensures Bit(OrBit(w, k), j) <==> Bit(w, j) || j == k
  {
    var r := OrBit(w, k);
    if k == 0 {
      assert r % 2 == 1 && r / 2 == w / 2;
    } else {
      assert r % 2 == w % 2 && r / 2 == OrBit(w / 2, k - 1);
      if j > 0 { OrBitSets(w / 2, k - 1, j - 1); }
    }
  }

  lemma {:induction false} ZeroHasNoBits(j: nat)
    ensures !Bit(0, j)
  {
    if j == 0 {
    } else {
      ZeroHasNoBits(j - 1);
    }
  }

  lemma {:induction false} OnesBits(n: nat, j: nat)
    ensures Bit(Ones(n), j) <==> j < n
  {
    if n == 0 {
      ZeroHasNoBits(j);
    } else {
      assert Ones(n) / 2 == Ones(n - 1) && Ones(n) % 2 == 1;
      if j > 0 { OnesBits(n - 1, j - 1); }
    }
  }

  lemma {:induction false} SameBits(w: nat, v: nat)
    requires forall j: nat :: Bit(w, j) <==> Bit(v, j)
    ensures w == v
    decreases w + v
  {
    if w + v == 0 {
    } else {
      assert Bit(w, 0) <==> Bit(v, 0);
      forall j: nat ensures Bit(w / 2, j) <==> Bit(v / 2, j) {
        assert Bit(w, j + 1) <==> Bit(v, j + 1);
      }
      SameBits(w / 2, v / 2);
    }
  }

  ghost predicate LowOnes(w: nat, n: nat)
  {
    forall j: nat :: Bit(w, j) <==> j < n
  }

  /** A word equals the mask exactly when its set bits are the low n ones. */
  lemma OnesIff(w: nat, n: nat)
    ensures w == Ones(n) <==> LowOnes(w, n)
  {
    hide Bit, Ones;
    forall j: nat ensures Bit(Ones(n), j) <==> j < n { OnesBits(n, j); }
    if LowOnes(w, n) {
      forall j: nat ensures Bit(w, j) <==> Bit(Ones(n), j) { assert Bit(w, j) <==> j < n; }
      SameBits(w, Ones(n));
    }
  }

  /** Bit j of the word stands for required field base + j. */
  ghost predicate WordSeen(w: nat, base: nat, seen: set<nat>)
  {
    forall j: nat :: Bit(w, j) <==> j < 32 && base + j in seen
  }

  /** pb_fields_seen_t */
  ghost predicate Represents(bitfield: seq<nat>, seen: set<nat>)
  {
    && |bitfield| == 2
    && (forall k :: k in seen ==> k < MAX_REQUIRED_FIELDS)
    && WordSeen(bitfield[0], 0, seen) && WordSeen(bitfield[1], 32, seen)
  }

  lemma NothingSeen()
    ensures Represents([0, 0], {})
  {
    forall j: nat ensures !Bit(0, j) { ZeroHasNoBits(j); }
  }

  method MarkSeen(bitfield0: seq<nat>, k: nat, ghost seen: set<nat>) returns (bitfield: seq<nat>)
    requires Represents(bitfield0, seen) && k < MAX_REQUIRED_FIELDS
    ensures Represents(bitfield, seen + {k})
  {
    bitfield := bitfield0[k / 32 := OrBit(bitfield0[k / 32], k % 32)];
    forall j: nat
      ensures Bit(bitfield[0], j) <==> j < 32 && j in seen + {k}
      ensures Bit(bitfield[1], j) <==> j < 32 && 32 + j in seen + {k}
    {
      OrBitSets(bitfield0[k / 32], k % 32, j);
    }
  }

  /** A word compared with the mask of n bits. */
  lemma WordCheck(w: nat, base: nat, seen: set<nat>, n: nat)
    requires WordSeen(w, base, seen) && n <= 32
    requires n < 32 ==> forall k :: k in seen ==> k < base + n
    ensures w == Ones(n) <==> forall k :: base <= k < base + n ==> k in seen
  {
    hide Bit, Ones;
    OnesIff(w, n);
    if LowOnes(w, n) {
      forall k | base <= k < base + n ensures k in seen {
        var j: nat := k - base;
        assert Bit(w, j);
        assert base + j in seen;
      }
    }
    if forall k :: base <= k < base + n ==> k in seen {
      forall j: nat ensures Bit(w, j) <==> j < n {
        assert Bit(w, j) <==> j < 32 && base + j in seen;
      }
      assert LowOnes(w, n);
    }
  }

  /** The check of whole words and of the remaining bits at the end of pb_decode_inner. */
  method AllRequiredSeen(count0: nat, bitfield: seq<nat>, ghost seen: set<nat>) returns (ok: bool)
    requires Represents(bitfield, seen)
    requires forall k :: k in seen ==> k < count0
    ensures ok <==> forall k :: 0 <= k < count0 && k < MAX_REQUIRED_FIELDS ==> k in seen
  {
    hide Bit, Ones, WordSeen;
    var count := count0;
    if count == 0 {
      return true;
    }
    if count > MAX_REQUIRED_FIELDS {
      count := MAX_REQUIRED_FIELDS;
    }
    var i := 0;
    while i < count / 32
      invariant 0 <= i <= count / 32 <= 2
      invariant forall k :: 0 <= k < 32 * i ==> k in seen
    {
      assert WordSeen(bitfield[i], 32 * i, seen);
      WordCheck(bitfield[i], 32 * i, seen, 32);
      if bitfield[i] != Ones(32) {
        return false;
      }
      i := i + 1;
    }
    if count % 32 != 0 {
      assert WordSeen(bitfield[count / 32], 32 * i, seen);
      WordCheck(bitfield[count / 32], 32 * i, seen, count % 32);
      if bitfield[count / 32] != Ones(count % 32) {
        return false;
      }
    }
    return true;
  }
}
