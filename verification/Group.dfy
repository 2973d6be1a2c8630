/** Control bytes and groups of them.

    The portable group packs eight control bytes into a 64-bit word; its operations are word
    arithmetic. The SSE2 group compares sixteen bytes lane by lane. Both are offered to the
    table through methods whose contracts speak of control bytes only. */
module Group {
  import opened Probing
  import opened Bits

  /** `ctrl_t`: a full byte carries seven bits of the hash. */
  datatype Ctrl = Empty | Deleted | Sentinel | Full(h2: bv7) {
    predicate EmptyOrDeleted() {
      Empty? || Deleted?
    }
  }

  function Encode(c: Ctrl): bv8 {
    match c
    case Empty => 0x80
    case Deleted => 0xFE
    case Sentinel => 0xFF
    case Full(h) => h as bv8
  }

  /** As signed bytes the special marks are -128, -2 and -1; the others are not negative. */
  lemma {:induction false} CtrlNumbers(h: bv7)
    ensures 0 - Encode(Empty) == 128 && 0 - Encode(Deleted) == 2 && 0 - Encode(Sentinel) == 1
    ensures Encode(Full(h)) & 0x80 == 0
  {
  }

  /** The control byte that is stored as `b`. */
  function Decode(b: bv8): Ctrl {
    if b & 0x80 == 0 then Full((b & 0x7F) as bv7)
    else if b == 0x80 then Empty else if b == 0xFE then Deleted else Sentinel
  }

  lemma {:induction false} DecodeEncode(c: Ctrl)
    ensures Decode(Encode(c)) == c
  {
  }

  /** `little_endian::Load64` of eight bytes. */
  function Pack(b0: bv8, b1: bv8, b2: bv8, b3: bv8, b4: bv8, b5: bv8, b6: bv8, b7: bv8): bv64 {
    (b0 as bv64) | (b1 as bv64 << 8) | (b2 as bv64 << 16) | (b3 as bv64 << 24)
    | (b4 as bv64 << 32) | (b5 as bv64 << 40) | (b6 as bv64 << 48) | (b7 as bv64 << 56)
  }

  function Load64(g: seq<Ctrl>): bv64
    requires |g| == 8
  {
    Pack(Encode(g[0]), Encode(g[1]), Encode(g[2]), Encode(g[3]), Encode(g[4]), Encode(g[5]), Encode(g[6]), Encode(g[7]))
  }

  /** `little_endian::Store64` */
  function Store64(w: bv64): (bytes: seq<bv8>)
    ensures |bytes| == 8
  {
    [(w & 0xFF) as bv8, ((w >> 8) & 0xFF) as bv8, ((w >> 16) & 0xFF) as bv8, ((w >> 24) & 0xFF) as bv8,
     ((w >> 32) & 0xFF) as bv8, ((w >> 40) & 0xFF) as bv8, ((w >> 48) & 0xFF) as bv8, ((w >> 56) & 0xFF) as bv8]
  }

  lemma {:induction false} StorePack(b0: bv8, b1: bv8, b2: bv8, b3: bv8, b4: bv8, b5: bv8, b6: bv8, b7: bv8)
    ensures Store64(Pack(b0, b1, b2, b3, b4, b5, b6, b7)) == [b0, b1, b2, b3, b4, b5, b6, b7]
  {
  }

  const MSBS: bv64 := 0x8080_8080_8080_8080
  const LSBS: bv64 := 0x0101_0101_0101_0101
  const GAPS: bv64 := 0x00FE_FEFE_FEFE_FEFE

  function MatchEmptyWord(ctrl: bv64): bv64 {
    (ctrl & (!ctrl << 6)) & MSBS
  }

  function MatchEmptyOrDeletedWord(ctrl: bv64): bv64 {
    (ctrl & (!ctrl << 7)) & MSBS
  }

  function ConvertWord(ctrl: bv64): bv64 {
    var x := ctrl & MSBS;
    (!x + (x >> 7)) & !LSBS
  }

  /** Lane `i` of a mask: the top bit of byte `i`. */
  function Lane(m: bv64, i: nat): bool
    requires i < 8
  {
    if i == 0 then m & 0x80 != 0
    else if i == 1 then m & 0x8000 != 0
    else if i == 2 then m & 0x80_0000 != 0
    else if i == 3 then m & 0x8000_0000 != 0
    else if i == 4 then m & 0x80_0000_0000 != 0
    else if i == 5 then m & 0x8000_0000_0000 != 0
    else if i == 6 then m & 0x80_0000_0000_0000 != 0
    else m & 0x8000_0000_0000_0000 != 0
  }

  // ----- the word operations mean what they say on every byte -----

  lemma {:induction false} MatchEmptyExact(g: seq<Ctrl>)
    requires |g| == 8
    ensures forall i :: 0 <= i < 8 ==> (Lane(MatchEmptyWord(Load64(g)), i) <==> g[i].Empty?)
  {
  }

  lemma {:induction false} MatchEmptyOrDeletedExact(g: seq<Ctrl>)
    requires |g| == 8
    ensures forall i :: 0 <= i < 8 ==> (Lane(MatchEmptyOrDeletedWord(Load64(g)), i) <==> g[i].EmptyOrDeleted())
  {
  }

  /** The byte `h` in all eight places. */
  method Splat(h: bv7) returns (s: bv64)
    ensures var b := h as bv8; s == Pack(b, b, b, b, b, b, b, b)
  {
    s := LSBS * (h as bv64);
  }

  /** `Match` sees every byte equal to `h` and never a byte with its top bit set. */
  method MatchBytes(b0: bv8, b1: bv8, b2: bv8, b3: bv8, b4: bv8, b5: bv8, b6: bv8, b7: bv8, h: bv7) returns (m: bv64)
    ensures m & !MSBS == 0
    ensures (b0 == h as bv8 ==> Lane(m, 0)) && (Lane(m, 0) ==> b0 & 0x80 == 0)
    ensures (b1 == h as bv8 ==> Lane(m, 1)) && (Lane(m, 1) ==> b1 & 0x80 == 0)
    ensures (b2 == h as bv8 ==> Lane(m, 2)) && (Lane(m, 2) ==> b2 & 0x80 == 0)
    ensures (b3 == h as bv8 ==> Lane(m, 3)) && (Lane(m, 3) ==> b3 & 0x80 == 0)
    ensures (b4 == h as bv8 ==> Lane(m, 4)) && (Lane(m, 4) ==> b4 & 0x80 == 0)
    ensures (b5 == h as bv8 ==> Lane(m, 5)) && (Lane(m, 5) ==> b5 & 0x80 == 0)
    ensures (b6 == h as bv8 ==> Lane(m, 6)) && (Lane(m, 6) ==> b6 & 0x80 == 0)
    ensures (b7 == h as bv8 ==> Lane(m, 7)) && (Lane(m, 7) ==> b7 & 0x80 == 0)
    ensures m != 0 ==> h as bv8 in {b0, b1, b2, b3, b4, b5, b6, b7}
  {
    var x := XorBytes(b0, b1, b2, b3, b4, b5, b6, b7, h);
    m := ZeroBytes(x);
  }

  method XorBytes(b0: bv8, b1: bv8, b2: bv8, b3: bv8, b4: bv8, b5: bv8, b6: bv8, b7: bv8, h: bv7) returns (x: bv64)
    ensures (b0 == h as bv8 <==> x & 0xFF == 0) && (x & 0x80 == 0 ==> b0 & 0x80 == 0)
    ensures (b1 == h as bv8 <==> x & 0xFF00 == 0) && (x & 0x8000 == 0 ==> b1 & 0x80 == 0)
    ensures (b2 == h as bv8 <==> x & 0xFF0000 == 0) && (x & 0x800000 == 0 ==> b2 & 0x80 == 0)
    ensures (b3 == h as bv8 <==> x & 0xFF000000 == 0) && (x & 0x80000000 == 0 ==> b3 & 0x80 == 0)
    ensures (b4 == h as bv8 <==> x & 0xFF00000000 == 0) && (x & 0x8000000000 == 0 ==> b4 & 0x80 == 0)
    ensures (b5 == h as bv8 <==> x & 0xFF0000000000 == 0) && (x & 0x800000000000 == 0 ==> b5 & 0x80 == 0)
    ensures (b6 == h as bv8 <==> x & 0xFF000000000000 == 0) && (x & 0x80000000000000 == 0 ==> b6 & 0x80 == 0)
    ensures (b7 == h as bv8 <==> x & 0xFF00000000000000 == 0) && (x & 0x8000000000000000 == 0 ==> b7 & 0x80 == 0)
  {
    var s := Splat(h);
    x := Pack(b0, b1, b2, b3, b4, b5, b6, b7) ^ s;
  }

  /** The zero-byte test: it sees every zero byte and never a byte with its top bit set. */
  method ZeroBytes(x: bv64) returns (m: bv64)
    ensures m & !MSBS == 0
    ensures (x & 0xFF == 0 ==> m & 0x80 != 0) && (m & 0x80 != 0 ==> x & 0x80 == 0)
    ensures (x & 0xFF00 == 0 ==> m & 0x8000 != 0) && (m & 0x8000 != 0 ==> x & 0x8000 == 0)
    ensures (x & 0xFF0000 == 0 ==> m & 0x800000 != 0) && (m & 0x800000 != 0 ==> x & 0x800000 == 0)
    ensures (x & 0xFF000000 == 0 ==> m & 0x80000000 != 0) && (m & 0x80000000 != 0 ==> x & 0x80000000 == 0)
    ensures (x & 0xFF00000000 == 0 ==> m & 0x8000000000 != 0) && (m & 0x8000000000 != 0 ==> x & 0x8000000000 == 0)
    ensures (x & 0xFF0000000000 == 0 ==> m & 0x800000000000 != 0)
    ensures (m & 0x800000000000 != 0 ==> x & 0x800000000000 == 0)
    ensures (x & 0xFF000000000000 == 0 ==> m & 0x80000000000000 != 0)
    ensures (m & 0x80000000000000 != 0 ==> x & 0x80000000000000 == 0)
    ensures (x & 0xFF00000000000000 == 0 ==> m & 0x8000000000000000 != 0)
    ensures (m & 0x8000000000000000 != 0 ==> x & 0x8000000000000000 == 0)
    ensures m != 0 ==>
      || x & 0xFF == 0 || x & 0xFF00 == 0 || x & 0xFF0000 == 0 || x & 0xFF000000 == 0 || x & 0xFF00000000 == 0
      || x & 0xFF0000000000 == 0 || x & 0xFF000000000000 == 0 || x & 0xFF00000000000000 == 0
  {
    m := (x - LSBS) & !x & MSBS;
  }

  /** The conversion maps special bytes to empty and full bytes to deleted. */
  function ConvertedByte(b: bv8): bv8 {
    if b & 0x80 == 0 then 0xFE else 0x80
  }

  lemma {:induction false} ConvertBytes(b0: bv8, b1: bv8, b2: bv8, b3: bv8, b4: bv8, b5: bv8, b6: bv8, b7: bv8)
    ensures ConvertWord(Pack(b0, b1, b2, b3, b4, b5, b6, b7))
            == Pack(ConvertedByte(b0), ConvertedByte(b1), ConvertedByte(b2), ConvertedByte(b3),
                    ConvertedByte(b4), ConvertedByte(b5), ConvertedByte(b6), ConvertedByte(b7))
  {
  }

  function Converted(c: Ctrl): Ctrl {
    if c.Full? then Deleted else Empty
  }

  lemma {:induction false} ConvertedEncode(c: Ctrl)
    ensures ConvertedByte(Encode(c)) == Encode(Converted(c))
  {
  }

  /** The length of the leading run of bytes that are empty or deleted (top bit set, low bit clear). */
  method CountLeadingBytes(b0: bv8, b1: bv8, b2: bv8, b3: bv8, b4: bv8, b5: bv8, b6: bv8, b7: bv8) returns (r: bv64)
    ensures r <= 8
    ensures (r > 0 ==> b0 & 0x81 == 0x80) && (r == 0 ==> b0 & 0x81 != 0x80)
    ensures (r > 1 ==> b1 & 0x81 == 0x80) && (r == 1 ==> b1 & 0x81 != 0x80)
    ensures (r > 2 ==> b2 & 0x81 == 0x80) && (r == 2 ==> b2 & 0x81 != 0x80)
    ensures (r > 3 ==> b3 & 0x81 == 0x80) && (r == 3 ==> b3 & 0x81 != 0x80)
    ensures (r > 4 ==> b4 & 0x81 == 0x80) && (r == 4 ==> b4 & 0x81 != 0x80)
    ensures (r > 5 ==> b5 & 0x81 == 0x80) && (r == 5 ==> b5 & 0x81 != 0x80)
    ensures (r > 6 ==> b6 & 0x81 == 0x80) && (r == 6 ==> b6 & 0x81 != 0x80)
    ensures (r > 7 ==> b7 & 0x81 == 0x80) && (r == 7 ==> b7 & 0x81 != 0x80)
  {
    var ctrl := Pack(b0, b1, b2, b3, b4, b5, b6, b7);
    var c := CountTrailingZerosNonZero64(((!ctrl & (ctrl >> 7)) | GAPS) + 1);
    r := (c + 7) >> 3;
  }

  // ----- masks of lanes -----

  function SmallNat(b: bv64): nat {
    if b == 0 then 0 else if b == 1 then 1 else if b == 2 then 2 else if b == 3 then 3
    else if b == 4 then 4 else if b == 5 then 5 else if b == 6 then 6 else if b == 7 then 7 else 8
  }

  /** `BitMask::LowestBitSet` */
  method LowestBitSet(m: bv64) returns (i: nat)
    requires m & !MSBS == 0 && m != 0
    ensures i < 8 && Lane(m, i) && forall j :: 0 <= j < i ==> !Lane(m, j)
  {
    var c := CountTrailingZerosNonZero64(m);
    i := SmallNat(c >> 3);
  }

  /** `BitMask::LeadingZeros`: the lanes above the highest set one. */
  method LeadingZeros(m: bv64) returns (n: nat)
    requires m & !MSBS == 0
    ensures n <= 8 && (n < 8 ==> Lane(m, 7 - n)) && forall j :: 8 - n <= j < 8 ==> !Lane(m, j)
  {
    var c := CountLeadingZeros64(m);
    n := SmallNat(c >> 3);
  }

  /** `BitMask::operator++` clears the lowest set lane. */
  lemma {:induction false} ClearLowest(m: bv64, i: nat)
    requires m & !MSBS == 0 && i < 8 && Lane(m, i) && forall j :: 0 <= j < i ==> !Lane(m, j)
    ensures (m & (m - 1)) & !MSBS == 0
    ensures forall j :: 0 <= j < 8 ==> (Lane(m & (m - 1), j) <==> Lane(m, j) && j != i)
  {
    assert (0 < i ==> !Lane(m, 0)) && (1 < i ==> !Lane(m, 1)) && (2 < i ==> !Lane(m, 2)) && (3 < i ==> !Lane(m, 3));
    assert (4 < i ==> !Lane(m, 4)) && (5 < i ==> !Lane(m, 5)) && (6 < i ==> !Lane(m, 6));
  }

  // ----- the group operations the table uses, for both widths -----

  /** `Match`: the lanes to compare with the key, in increasing order. The portable group may
      report further full lanes, but only if there is a true match; none is missed. */
  method Match(g: seq<Ctrl>, h: bv7) returns (lanes: seq<nat>)
    requires IsWidth(|g|)
    ensures forall k :: 0 <= k < |lanes| ==> lanes[k] < |g| && g[lanes[k]].Full?
    ensures forall i :: 0 <= i < |g| && g[i] == Full(h) ==> i in lanes
    ensures lanes != [] ==> Full(h) in g
  {
    if |g| == 8 {
      var m := MatchMask(g, h);
      lanes := SetLanes(m);
      if m == 0 { NoLanes(); }
      assert lanes != [] ==> Lane(m, lanes[0]);
    } else {
      lanes := [];
      for i := 0 to 16
        invariant forall k :: 0 <= k < |lanes| ==> lanes[k] < i && g[lanes[k]] == Full(h)
        invariant forall j :: 0 <= j < i && g[j] == Full(h) ==> j in lanes
      {
        if g[i] == Full(h) {
          lanes := lanes + [i];
        }
      }
      assert lanes != [] ==> g[lanes[0]] == Full(h);
    }
  }

  method MatchMask(g: seq<Ctrl>, h: bv7) returns (m: bv64)
    requires |g| == 8
    ensures m & !MSBS == 0
    ensures forall i :: 0 <= i < 8 ==> (g[i] == Full(h) ==> Lane(m, i)) && (Lane(m, i) ==> g[i].Full?)
    ensures m != 0 ==> Full(h) in g
  {
    m := MatchEncoded(g, h);
    LaneBits(g, h);
    if m != 0 {
      SomeFull(g, h);
    }
  }

  method MatchEncoded(g: seq<Ctrl>, h: bv7) returns (m: bv64)
    requires |g| == 8
    ensures m & !MSBS == 0
    ensures forall i :: 0 <= i < 8 ==>
      (Encode(g[i]) == h as bv8 ==> Lane(m, i)) && (Lane(m, i) ==> Encode(g[i]) & 0x80 == 0)
    ensures m != 0 ==> exists i :: 0 <= i < 8 && Encode(g[i]) == h as bv8
  {
    var b0, b1, b2, b3 := Encode(g[0]), Encode(g[1]), Encode(g[2]), Encode(g[3]);
    var b4, b5, b6, b7 := Encode(g[4]), Encode(g[5]), Encode(g[6]), Encode(g[7]);
    m := MatchBytes(b0, b1, b2, b3, b4, b5, b6, b7, h);
  }

  lemma {:induction false} LaneBits(g: seq<Ctrl>, h: bv7)
    requires |g| == 8
    ensures forall i :: 0 <= i < 8 ==>
      (g[i] == Full(h) ==> Encode(g[i]) == h as bv8) && (Encode(g[i]) & 0x80 == 0 ==> g[i].Full?)
  {
    forall i | 0 <= i < 8
      ensures (g[i] == Full(h) ==> Encode(g[i]) == h as bv8) && (Encode(g[i]) & 0x80 == 0 ==> g[i].Full?)
    {
      FullBits(g[i], h);
    }
  }

  lemma {:induction false} SomeFull(g: seq<Ctrl>, h: bv7)
    requires |g| == 8
    requires exists i :: 0 <= i < 8 && Encode(g[i]) == h as bv8
    ensures Full(h) in g
  {
    var i :| 0 <= i < 8 && Encode(g[i]) == h as bv8;
    FullBits(g[i], h);
  }

  lemma {:induction false} FullBits(c: Ctrl, h: bv7)
    ensures (c == Full(h) <==> Encode(c) == h as bv8) && (Encode(c) & 0x80 == 0 ==> c.Full?)
  {
  }

  /** Iterating over a mask: take the lowest lane, clear it, repeat. */
  method SetLanes(mask: bv64) returns (lanes: seq<nat>)
    requires mask & !MSBS == 0
    ensures forall k :: 0 <= k < |lanes| ==> lanes[k] < 8 && Lane(mask, lanes[k])
    ensures forall i :: 0 <= i < 8 && Lane(mask, i) ==> i in lanes
  {
    lanes := [];
    var m := mask;
    ghost var next := 0;
    while m != 0
      invariant m & !MSBS == 0 && next <= 8
      invariant forall i :: 0 <= i < 8 ==> (Lane(m, i) <==> next <= i && Lane(mask, i))
      invariant forall i :: 0 <= i < next && Lane(mask, i) ==> i in lanes
      invariant forall k :: 0 <= k < |lanes| ==> lanes[k] < next && Lane(mask, lanes[k])
      decreases 8 - next
    {
      var i := LowestBitSet(m);
      lanes := lanes + [i];
      ClearLowest(m, i);
      m := m & (m - 1);
      next := i + 1;
    }
    NoLanes();
  }

  lemma {:induction false} NoLanes()
    ensures forall i :: 0 <= i < 8 ==> !Lane(0, i)
  {
  }

  /** `MatchEmpty().TrailingZeros()`: the non-empty bytes before the first empty one. */
  method NonEmptyPrefix(g: seq<Ctrl>) returns (n: nat)
    requires IsWidth(|g|)
    ensures n <= |g| && (n < |g| ==> g[n].Empty?) && forall i :: 0 <= i < n ==> !g[i].Empty?
  {
    if |g| == 8 {
      var m := MatchEmptyMask(g);
      if m == 0 {
        NoLanes();
        n := 8;
      } else {
        n := LowestBitSet(m);
      }
    } else {
      n := 0;
      while n < 16 && !g[n].Empty?
        invariant n <= 16 && forall i :: 0 <= i < n ==> !g[i].Empty?
      {
        n := n + 1;
      }
    }
  }

  method MatchEmptyMask(g: seq<Ctrl>) returns (m: bv64)
    requires |g| == 8
    ensures m & !MSBS == 0 && forall i :: 0 <= i < 8 ==> (Lane(m, i) <==> g[i].Empty?)
  {
    m := MatchEmptyWord(Load64(g));
    MatchEmptyExact(g);
  }

  /** `MatchEmpty().LeadingZeros()`: the non-empty bytes after the last empty one. */
  method NonEmptySuffix(g: seq<Ctrl>) returns (n: nat)
    requires IsWidth(|g|)
    ensures n <= |g| && (n < |g| ==> g[|g| - 1 - n].Empty?) && forall i :: |g| - n <= i < |g| ==> !g[i].Empty?
  {
    if |g| == 8 {
      var m := MatchEmptyMask(g);
      n := LeadingZeros(m);
    } else {
      n := 0;
      while n < 16 && !g[15 - n].Empty?
        invariant n <= 16 && forall i :: 16 - n <= i < 16 ==> !g[i].Empty?
      {
        n := n + 1;
      }
    }
  }

  /** `MatchEmptyOrDeleted().LowestBitSet()`; the width of the group when no lane matches. */
  method FirstEmptyOrDeleted(g: seq<Ctrl>) returns (n: nat)
    requires IsWidth(|g|)
    ensures n <= |g| && (n < |g| ==> g[n].EmptyOrDeleted()) && forall i :: 0 <= i < n ==> !g[i].EmptyOrDeleted()
  {
    if |g| == 8 {
      var m := MatchEmptyOrDeletedMask(g);
      if m == 0 {
        NoLanes();
        n := 8;
      } else {
        n := LowestBitSet(m);
      }
    } else {
      n := 0;
      while n < 16 && !g[n].EmptyOrDeleted()
        invariant n <= 16 && forall i :: 0 <= i < n ==> !g[i].EmptyOrDeleted()
      {
        n := n + 1;
      }
    }
  }

  method MatchEmptyOrDeletedMask(g: seq<Ctrl>) returns (m: bv64)
    requires |g| == 8
    ensures m & !MSBS == 0 && forall i :: 0 <= i < 8 ==> (Lane(m, i) <==> g[i].EmptyOrDeleted())
  {
    m := MatchEmptyOrDeletedWord(Load64(g));
    MatchEmptyOrDeletedExact(g);
  }

  /** `CountLeadingEmptyOrDeleted` */
  method CountLeadingEmptyOrDeleted(g: seq<Ctrl>) returns (n: nat)
    requires IsWidth(|g|)
    ensures n <= |g| && (n < |g| ==> !g[n].EmptyOrDeleted()) && forall i :: 0 <= i < n ==> g[i].EmptyOrDeleted()
  {
    if |g| == 8 {
      forall i | 0 <= i < 8
        ensures Encode(g[i]) & 0x81 == 0x80 <==> g[i].EmptyOrDeleted()
      {
        EmptyOrDeletedBits(g[i]);
      }
      var r := CountLeadingBytes(Encode(g[0]), Encode(g[1]), Encode(g[2]), Encode(g[3]),
                                 Encode(g[4]), Encode(g[5]), Encode(g[6]), Encode(g[7]));
      n := SmallNat(r);
    } else {
      n := 0;
      while n < 16 && g[n].EmptyOrDeleted()
        invariant n <= 16 && forall i :: 0 <= i < n ==> g[i].EmptyOrDeleted()
      {
        n := n + 1;
      }
    }
  }

  lemma {:induction false} EmptyOrDeletedBits(c: Ctrl)
    ensures Encode(c) & 0x81 == 0x80 <==> c.EmptyOrDeleted()
  {
  }

  lemma {:induction false} ConvertStore(b0: bv8, b1: bv8, b2: bv8, b3: bv8, b4: bv8, b5: bv8, b6: bv8, b7: bv8)
    ensures Store64(ConvertWord(Pack(b0, b1, b2, b3, b4, b5, b6, b7)))
         == [ConvertedByte(b0), ConvertedByte(b1), ConvertedByte(b2), ConvertedByte(b3),
             ConvertedByte(b4), ConvertedByte(b5), ConvertedByte(b6), ConvertedByte(b7)]
  {
    ConvertBytes(b0, b1, b2, b3, b4, b5, b6, b7);
    StorePack(ConvertedByte(b0), ConvertedByte(b1), ConvertedByte(b2), ConvertedByte(b3),
              ConvertedByte(b4), ConvertedByte(b5), ConvertedByte(b6), ConvertedByte(b7));
  }

  /** What the portable group stores, byte by byte. */
  lemma {:induction false} ConvertStored(g: seq<Ctrl>)
    requires |g| == 8
    ensures forall i :: 0 <= i < 8 ==> Store64(ConvertWord(Load64(g)))[i] == ConvertedByte(Encode(g[i]))
  {
    ConvertStore(Encode(g[0]), Encode(g[1]), Encode(g[2]), Encode(g[3]),
                 Encode(g[4]), Encode(g[5]), Encode(g[6]), Encode(g[7]));
  }

  lemma {:induction false} ConvertedDecode(c: Ctrl)
    ensures Decode(ConvertedByte(Encode(c))) == Converted(c)
  {
    ConvertedEncode(c);
    DecodeEncode(Converted(c));
  }

  /** `ConvertSpecialToEmptyAndFullToDeleted`: the portable group converts the word and stores it; the SSE2
      group sets the top bit of every byte and the low ones where it was not set. */
  method ConvertSpecialToEmptyAndFullToDeleted(g: seq<Ctrl>) returns (r: seq<Ctrl>)
    requires IsWidth(|g|)
    ensures |r| == |g| && forall i :: 0 <= i < |g| ==> r[i] == Converted(g[i])
  {
    var bytes;
    if |g| == 8 {
      bytes := Store64(ConvertWord(Load64(g)));
      ConvertStored(g);
    } else {
      bytes := seq(16, i requires 0 <= i < 16 => 0x80 | (if Encode(g[i]) & 0x80 == 0 then 0x7E else 0));
    }
    r := [];
    for i := 0 to |g|
      invariant |r| == i && forall j :: 0 <= j < i ==> r[j] == Converted(g[j])
    {
      ConvertedDecode(g[i]);
      r := r + [Decode(bytes[i])];
    }
  }
}
