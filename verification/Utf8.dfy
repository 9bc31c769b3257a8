/**
 pb_validate_utf8 (pb_common.c, PB_VALIDATE_UTF8 builds) against the definition of UTF-8
 in RFC 3629: the grammar of section 4 and the encoding table of section 3.
 */
module Utf8 {
  import opened Wire

  /* -------------------------------------------------- section 4: the grammar */

  predicate Tail(b: Byte) { 0x80 <= b <= 0xBF }

  predicate Utf8_2(s: Bytes)
  {
    |s| >= 2 && 0xC2 <= s[0] <= 0xDF && Tail(s[1])
  }

  predicate Utf8_3(s: Bytes)
  {
    && |s| >= 3 && Tail(s[2])
    && (|| (s[0] == 0xE0 && 0xA0 <= s[1] <= 0xBF)
        || (0xE1 <= s[0] <= 0xEC && Tail(s[1]))
        || (s[0] == 0xED && 0x80 <= s[1] <= 0x9F)
        || (0xEE <= s[0] <= 0xEF && Tail(s[1])))
  }

  predicate Utf8_4(s: Bytes)
  {
    && |s| >= 4 && Tail(s[2]) && Tail(s[3])
    && (|| (s[0] == 0xF0 && 0x90 <= s[1] <= 0xBF)
        || (0xF1 <= s[0] <= 0xF3 && Tail(s[1]))
        || (s[0] == 0xF4 && 0x80 <= s[1] <= 0x8F))
  }

  /** The length of the UTF8-char that s begins with, or 0. */
  function CharLength(s: Bytes): (n: nat)
    ensures n <= |s|
  {
    if s == [] then 0
    else if s[0] <= 0x7F then 1
    else if Utf8_2(s) then 2 else if Utf8_3(s) then 3 else if Utf8_4(s) then 4 else 0
  }

  /** U+FFFE or U+FFFF comes first. */
  predicate Nonchar(s: Bytes)
  {
    |s| >= 3 && s[0] == 0xEF && s[1] == 0xBF && s[2] in {0xBE, 0xBF}
  }

  /** UTF8-octets without U+FFFE and U+FFFF. */
  predicate Text(s: Bytes)
    decreases |s|
  {
    s == [] || (CharLength(s) > 0 && !Nonchar(s) && Text(s[CharLength(s)..]))
  }

  /* ------------------------------------------- section 3: the encoding table */

  /** A code point other than a surrogate, U+FFFE and U+FFFF. */
  predicate Character(c: nat)
  {
    c <= 0x10FFFF && !(0xD800 <= c <= 0xDFFF) && c !in {0xFFFE, 0xFFFF}
  }

  function EncodeChar(c: nat): (b: Bytes)
    requires Character(c)
    ensures 1 <= |b| <= 4
  {
    if c <= 0x7F then [c]
    else if c <= 0x7FF then [0xC0 + c / 0x40, 0x80 + c % 0x40]
    else if c <= 0xFFFF then [0xE0 + c / 0x1000, 0x80 + c / 0x40 % 0x40, 0x80 + c % 0x40]
    else [0xF0 + c / 0x4_0000, 0x80 + c / 0x1000 % 0x40, 0x80 + c / 0x40 % 0x40, 0x80 + c % 0x40]
  }

  function Encode(cs: seq<nat>): Bytes
    requires forall i :: 0 <= i < |cs| ==> Character(cs[i])
  {
    if cs == [] then [] else EncodeChar(cs[0]) + Encode(cs[1..])
  }

  /** The code point of the UTF8-char that s begins with. */
  function FirstChar(s: Bytes): nat
    requires CharLength(s) > 0
  {
    if s[0] <= 0x7F then s[0]
    else if Utf8_2(s) then Join(s[0] - 0xC0, s[1])
    else if Utf8_3(s) then Join(Join(s[0] - 0xE0, s[1]), s[2])
    else Join(Join(Join(s[0] - 0xF0, s[1]), s[2]), s[3])
  }

  /** Six more bits. */
  function Join(high: nat, tail: Byte): (c: nat)
    requires Tail(tail)
    ensures c / 0x40 == high && 0x80 + c % 0x40 == tail
  {
    var low: nat := tail - 0x80;
    DivModUnique(high * 0x40 + low, high, 0x40, low);
    high * 0x40 + low
  }

  lemma FirstCharEncodes(s: Bytes)
    requires CharLength(s) > 0 && !Nonchar(s)
    ensures Character(FirstChar(s)) && EncodeChar(FirstChar(s)) == s[..CharLength(s)]
  {
    hide Join;
    var c := FirstChar(s);
    HighBits(c);
  }

  lemma HighBits(c: nat)
    ensures c / 0x1000 == c / 0x40 / 0x40 && c / 0x4_0000 == c / 0x40 / 0x40 / 0x40
  {
  }

  lemma EncodedIsChar(c: nat, rest: Bytes)
    requires Character(c)
    ensures var s := EncodeChar(c) + rest; CharLength(s) == |EncodeChar(c)| && !Nonchar(s)
  {
    var s := EncodeChar(c) + rest;
    if c > 0xFFFF {
      assert c / 0x1000 % 0x40 == c / 0x1000 - c / 0x4_0000 * 0x40;
    } else if c > 0x7FF {
      assert c / 0x40 % 0x40 == c / 0x40 - c / 0x1000 * 0x40;
    }
  }

  lemma {:induction false} EncodedIsText(cs: seq<nat>)
    requires forall i :: 0 <= i < |cs| ==> Character(cs[i])
    ensures Text(Encode(cs))
  {
    if cs == [] {
    } else {
      var rest := Encode(cs[1..]);
      EncodedIsText(cs[1..]);
      EncodedIsChar(cs[0], rest);
      assert (EncodeChar(cs[0]) + rest)[|EncodeChar(cs[0])|..] == rest;
    }
  }

  lemma {:induction false} TextIsEncoded(s: Bytes) returns (cs: seq<nat>)
    requires Text(s)
    ensures (forall i :: 0 <= i < |cs| ==> Character(cs[i])) && Encode(cs) == s
    decreases |s|
  {
    hide CharLength, FirstChar, EncodeChar, Character, Nonchar;
    cs := [];
    if s == [] {
    } else {
      var n := CharLength(s);
      FirstCharEncodes(s);
      var rest := TextIsEncoded(s[n..]);
      cs := [FirstChar(s)] + rest;
      assert cs[1..] == rest;
      assert s == s[..n] + s[n..];
    }
  }

  /** The grammar generates exactly the encodings of sequences of characters. */
  lemma TextIff(s: Bytes)
    ensures Text(s) <==> exists cs: seq<nat> :: (forall i :: 0 <= i < |cs| ==> Character(cs[i])) && Encode(cs) == s
  {
    if Text(s) {
      var cs := TextIsEncoded(s);
    }
    if cs: seq<nat> :| (forall i :: 0 <= i < |cs| ==> Character(cs[i])) && Encode(cs) == s {
      EncodedIsText(cs);
    }
  }

  /* ------------------------------------------------------------ the checker */

  /** (b & 0xc0) == 0x80, and the other masks of the code: a byte's high bits as a quotient. */
  predicate Continues(b: Byte) { b / 0x40 == 2 }

  /** What the loop does with the character at the head: the length to skip, or 0 to reject. */
  lemma HeadDecided(s: Bytes)
    requires s != []
    ensures s[0] >= 0x80 && s[0] / 0x20 == 6 ==>
              (CharLength(s) == (if |s| >= 2 && Continues(s[1]) && s[0] / 2 != 0x60 then 2 else 0) && !Nonchar(s))
    ensures s[0] / 0x10 == 0xE ==>
              var ok := |s| >= 3 && Continues(s[1]) && Continues(s[2])
                        && !(s[0] == 0xE0 && s[1] / 0x20 == 4) && !(s[0] == 0xED && s[1] / 0x20 == 5);
              && CharLength(s) == (if ok then 3 else 0)
              && (ok ==> (Nonchar(s) <==> s[0] == 0xEF && s[1] == 0xBF && s[2] / 2 == 0x5F))
    ensures s[0] / 8 == 0x1E ==>
              (CharLength(s) == (if |s| >= 4 && Continues(s[1]) && Continues(s[2]) && Continues(s[3])
                                    && !(s[0] == 0xF0 && s[1] / 0x10 == 8) && !(s[0] == 0xF4 && s[1] > 0x8F)
                                        && s[0] <= 0xF4
                                 then 4 else 0) && !Nonchar(s))
    ensures s[0] >= 0x80 && s[0] / 0x20 != 6 && s[0] / 0x10 != 0xE && s[0] / 8 != 0x1E ==> CharLength(s) == 0
  {
  }

  lemma TextHead(s: Bytes)
    requires s != []
    ensures Text(s) <==> CharLength(s) > 0 && !Nonchar(s) && Text(s[CharLength(s)..])
    ensures s[0] < 0x80 ==> CharLength(s) == 1 && !Nonchar(s)
  {
    hide Utf8_2, Utf8_3, Utf8_4;
  }

  lemma TextEnd(s: Bytes)
    requires s == []
    ensures Text(s)
  {
  }

  /**
   pb_validate_utf8 on a NUL-terminated string. The array ends at the terminator, so no
   read goes past it.
   */
  method ValidateUtf8(str: array<Byte>) returns (ok: bool)
    requires str.Length > 0 && str[str.Length - 1] == 0 && 0 !in str[..str.Length - 1]
    ensures ok <==> Text(str[..str.Length - 1])
  {
    hide Text, CharLength, Nonchar;
    ghost var len := str.Length - 1;
    var s := 0;
    assert str[0..len] == str[..len];
    while str[s] != 0
      invariant 0 <= s <= len
      invariant Text(str[..len]) <==> Text(str[s..len])
      decreases len - s
    {
      assert s < len;
      ghost var rest := str[s..len];
      HeadDecided(rest);
      TextHead(rest);
      assert forall k :: 0 <= k < |rest| ==> rest[k] == str[s + k];
      var n := 1;
      if str[s] >= 0x80 {
        if str[s] / 0x20 == 6 {
          if !Continues(str[s + 1]) || str[s] / 2 == 0x60 {
            return false;
          }
          n := 2;
        } else if str[s] / 0x10 == 0xE {
          if !Continues(str[s + 1]) || !Continues(str[s + 2])
             || (str[s] == 0xE0 && str[s + 1] / 0x20 == 4)
             || (str[s] == 0xED && str[s + 1] / 0x20 == 5)
             || (str[s] == 0xEF && str[s + 1] == 0xBF && str[s + 2] / 2 == 0x5F) {
            return false;
          }
          n := 3;
        } else if str[s] / 8 == 0x1E {
          if !Continues(str[s + 1]) || !Continues(str[s + 2]) || !Continues(str[s + 3])
             || (str[s] == 0xF0 && str[s + 1] / 0x10 == 8)
             || (str[s] == 0xF4 && str[s + 1] > 0x8F) || str[s] > 0xF4 {
            return false;
          }
          n := 4;
        } else {
          return false;
        }
      }
      assert CharLength(rest) == n && !Nonchar(rest) && rest[n..] == str[s + n..len];
      s := s + n;
    }
    TextEnd(str[s..len]);
    return true;
  }
}
