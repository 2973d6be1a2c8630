/** The portable bit counters. */
module Bits {

  /** The last step of the leading-zero counters: the table of a four-bit value. */
  function NibbleLeadingZeros(n: bv64): bv64 {
    if n == 0 then 4 else if n == 1 then 3 else if n <= 3 then 2 else if n <= 7 then 1 else 0
  }

  /** The steps with which both counters end. */
  method CountLeadingZeros16(x: bv64) returns (r: bv64)
    requires x >> 16 == 0
    ensures r <= 16 && (r == 16 <==> x == 0)
    ensures var ones: bv64 := 0xFFFF >> r; x <= ones && (x != 0 ==> ones >> 1 < x)
  {
    var n := x;
    var zeroes: bv64 := 12;
    if n >> 8 != 0 { zeroes, n := zeroes - 8, n >> 8; }
    if n >> 4 != 0 { zeroes, n := zeroes - 4, n >> 4; }
    r := NibbleLeadingZeros(n) + zeroes;
  }

  /** What a count `r` of leading zeros means for 32 bits. */
  predicate Leads32(x: bv64, r: bv64) {
    r <= 32 && (r == 32 <==> x == 0) && var ones: bv64 := 0xFFFF_FFFF >> r; x <= ones && (x != 0 ==> ones >> 1 < x)
  }

  /** The 32-bit counter takes its argument in a 64-bit variable. */
  method CountLeadingZeros32(x: bv64) returns (r: bv64)
    requires x >> 32 == 0
    ensures Leads32(x, r)
  {
    var n := x;
    var zeroes: bv64 := 28;
    if n >> 16 != 0 {
      zeroes, n := zeroes - 16, n >> 16;
      var t := CountLeadingZeros16(n);
      r := t + (zeroes - 12);
      HighHalf(x, t);
    } else {
      var t := CountLeadingZeros16(n);
      r := t + (zeroes - 12);
      LowHalf(x, t);
    }
  }

  lemma {:induction false} HighHalf(x: bv64, t: bv64)
    requires x >> 32 == 0 && t < 16 && x >> 16 <= 0xFFFF >> t && (0xFFFF >> t) >> 1 < x >> 16
    ensures Leads32(x, t)
  {
    var ones: bv64 := 0xFFFF_FFFF >> t;
    assert ones >> 16 == 0xFFFF >> t && ones & 0xFFFF == 0xFFFF;
  }

  lemma {:induction false} LowHalf(x: bv64, t: bv64)
    requires t <= 16 && (t == 16 <==> x == 0) && x <= 0xFFFF >> t && (x != 0 ==> (0xFFFF >> t) >> 1 < x)
    ensures Leads32(x, t + 16)
  {
    assert (0xFFFF_FFFF as bv64) >> (t + 16) == (0xFFFF as bv64) >> t;
  }

  /** After its first step the 64-bit counter takes the steps of the 32-bit one. */
  method CountLeadingZeros64(x: bv64) returns (r: bv64)
    ensures r <= 64 && (r == 64 <==> x == 0)
    ensures var ones: bv64 := 0xFFFF_FFFF_FFFF_FFFF >> r; x <= ones && (x != 0 ==> ones >> 1 < x)
  {
    var n := x;
    var zeroes: bv64 := 60;
    if n >> 32 != 0 { zeroes, n := zeroes - 32, n >> 32; }
    var t := CountLeadingZeros32(n);
    r := t + (zeroes - 28);
    OnesShifted(t);
  }

  lemma {:induction false} OnesShifted(t: bv64)
    requires t <= 32
    ensures var ones: bv64 := 0xFFFF_FFFF_FFFF_FFFF >> t;
            ones >> 32 == 0xFFFF_FFFF >> t && ones & 0xFFFF_FFFF == 0xFFFF_FFFF
    ensures 0xFFFF_FFFF_FFFF_FFFF >> (t + 32) == (0xFFFF_FFFF as bv64) >> t
  {
  }

  method CountTrailingZerosNonZero64(x: bv64) returns (c: bv64)
    requires x != 0
    ensures c < 64 && x << (63 - c) == 0x8000_0000_0000_0000
  {
    var n := x & (!x + 1);
    c := 63;
    if n & 0x0000_0000_FFFF_FFFF != 0 { c := c - 32; }
    if n & 0x0000_FFFF_0000_FFFF != 0 { c := c - 16; }
    if n & 0x00FF_00FF_00FF_00FF != 0 { c := c - 8; }
    if n & 0x0F0F_0F0F_0F0F_0F0F != 0 { c := c - 4; }
    if n & 0x3333_3333_3333_3333 != 0 { c := c - 2; }
    if n & 0x5555_5555_5555_5555 != 0 { c := c - 1; }
  }

  method CountTrailingZerosNonZero32(x: bv32) returns (c: bv32)
    requires x != 0
    ensures c < 32 && x << (31 - c) == 0x8000_0000
  {
    var n := x & (!x + 1);
    c := 31;
    if n & 0x0000_FFFF != 0 { c := c - 16; }
    if n & 0x00FF_00FF != 0 { c := c - 8; }
    if n & 0x0F0F_0F0F != 0 { c := c - 4; }
    if n & 0x3333_3333 != 0 { c := c - 2; }
    if n & 0x5555_5555 != 0 { c := c - 1; }
  }

  /** A non-empty run of ones from bit 0: `IsValidCapacity` on machine words. */
  predicate IsMask(c: bv64) {
    c != 0 && (c + 1) & c == 0
  }

  /** `NormalizeCapacity` on machine words: the least mask of ones that is at least `n`. */
  method NormalizeCapacity64(n: bv64) returns (r: bv64)
    ensures IsMask(r) && n <= r
    ensures forall c: bv64 :: IsMask(c) && n <= c ==> r <= c
  {
    if n == 0 {
      r := 1;
    } else {
      var z := CountLeadingZeros64(n);
      r := 0xFFFF_FFFF_FFFF_FFFF >> z;
    }
  }
}
