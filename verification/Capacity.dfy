/** Capacities and the load limit. */
module Capacity {
  import opened Bits
  import opened Probing

  /** `IsValidCapacity`: one less than a power of two, and not zero. */
  predicate IsValidCapacity(n: nat) {
    n > 0 && IsPow2(n + 1)
  }

  /** `NormalizeCapacity`: rounds up to a valid capacity. */
  function NormalizeCapacity(n: nat): (r: nat)
    ensures IsValidCapacity(r) && n <= r
  {
    if n <= 1 then 1 else 2 * NormalizeCapacity(n / 2) + 1
  }

  lemma {:induction false} NormalizeCapacityLeast(n: nat, c: nat)
    requires IsValidCapacity(c) && n <= c
    ensures NormalizeCapacity(n) <= c
    decreases n
  {
    if n <= 1 {
    } else {
      assert (c + 1) / 2 == c / 2 + 1;
      NormalizeCapacityLeast(n / 2, c / 2);
    }
  }

  /** The number a machine word stands for. */
  function Number(b: bv64): nat
    decreases b
  {
    if b == 0 then 0 else 2 * Number(b >> 1) + if b & 1 == 1 then 1 else 0
  }

  lemma {:induction false} NumberPositive(b: bv64)
    requires b != 0
    ensures Number(b) > 0
    decreases b
  {
    if b == 1 {
    } else {
      NumberPositive(b >> 1);
    }
  }

  /** A mask of ones without its lowest bit. */
  lemma {:induction false} Halved(n: bv64, r: bv64)
    requires IsMask(r) && r != 1 && r >> 1 < n <= r
    ensures IsMask(r >> 1) && r & 1 == 1 && n >> 1 != 0 && n >> 1 <= r >> 1 && (r >> 1 == 1 || (r >> 1) >> 1 < n >> 1)
  {
  }

  lemma {:induction false} NumberHalved(b: bv64)
    ensures Number(b) / 2 == Number(b >> 1) && Number(b) % 2 == if b & 1 == 1 then 1 else 0
  {
  }

  lemma {:induction false} LeastNumbers(n: bv64)
    requires n <= 1
    ensures Number(1) == 1 == NormalizeCapacity(Number(n))
  {
    assert (1 as bv64) >> 1 == 0;
    assert n == 0 || n == 1;
  }

  lemma {:induction false} MaskNumber(n: bv64, r: bv64)
    requires IsMask(r) && n <= r && (r == 1 || r >> 1 < n)
    ensures Number(r) == NormalizeCapacity(Number(n))
    decreases r
  {
    if r == 1 {
      LeastNumbers(n);
    } else {
      Halved(n, r);
      MaskNumber(n >> 1, r >> 1);
      NumberPositive(n >> 1);
      NumberHalved(n);
      NumberHalved(r);
    }
  }

  /** `NormalizeCapacity` on machine words is the same on numbers. */
  method NormalizeCapacityWord(n: bv64) returns (r: bv64)
    ensures Number(r) == NormalizeCapacity(Number(n))
  {
    r := NormalizeCapacity64(n);
    if r != 1 {
      LessMask(r);
    }
    MaskNumber(n, r);
  }

  lemma {:induction false} LessMask(r: bv64)
    requires IsMask(r) && r != 1
    ensures IsMask(r >> 1) && r >> 1 < r
  {
  }

  /** `CapacityToGrowth`: how many slots may stop being empty before the table must rehash. */
  function CapacityToGrowth(w: nat, capacity: nat): (g: nat)
    ensures g <= capacity
  {
    if w == 8 && capacity == 7 then 6 else capacity - capacity / 8
  }

  /** `GrowthToLowerboundCapacity`; the division truncates, so zero stays zero. */
  function GrowthToLowerboundCapacity(w: nat, growth: nat): nat {
    if w == 8 && growth == 7 then 8
    else if growth == 0 then 0
    else growth + (growth - 1) / 7
  }

  /** A table is small when its capacity is below the group width less one. */
  predicate IsSmall(w: nat, capacity: nat) {
    capacity < w - 1
  }

  /** A large table keeps at least one slot empty; a small one may use every slot. */
  lemma {:induction false} GrowthLeavesRoom(w: nat, capacity: nat)
    requires IsWidth(w) && IsValidCapacity(capacity)
    ensures CapacityToGrowth(w, capacity) > 0
    ensures IsSmall(w, capacity) <==> CapacityToGrowth(w, capacity) == capacity
  {
    SmallCapacities(capacity);
  }

  /** The load limit in numbers: one position in eight stays free, the sentinel's among them. Smaller tables are
      filled up, but for seven slots in groups of eight. */
  lemma {:induction false} LoadLimit(w: nat, c: nat)
    requires IsWidth(w) && IsValidCapacity(c)
    ensures c >= 15 ==> 8 * (c + 1 - CapacityToGrowth(w, c)) == c + 1
    ensures c == 7 ==> CapacityToGrowth(w, c) == if w == 8 then 6 else 7
    ensures c < 7 ==> CapacityToGrowth(w, c) == c
  {
    SmallCapacities(c);
    if c >= 15 {
      var k := (c + 1) / 16;
      assert c == 16 * k - 1;
      assert c / 8 == 2 * k - 1;
    }
  }

  /** Growing when more than half of the load limit is in use leaves at most 32 slots to seven elements, the new one
      counted. */
  lemma {:induction false} GrowBound(w: nat, c: nat, size: nat)
    requires IsWidth(w) && (c == 0 || (IsValidCapacity(c) && 2 * size > CapacityToGrowth(w, c)))
    ensures 7 * (2 * c + 1) <= 32 * (size + 1)
  {
    if c > 0 {
      LoadLimit(w, c);
      SmallCapacities(c);
    }
  }

  lemma {:induction false} NormalizeBound(n: nat)
    requires n > 0
    ensures NormalizeCapacity(n) <= 2 * n - 1
  {
    if n == 1 {
    } else {
      NormalizeBound(n / 2);
    }
  }

  lemma {:induction false} ReserveBound(w: nat, n: nat, size: nat)
    requires IsWidth(w) && (n > 0 || size > 0)
    ensures 7 * NormalizeCapacity(if GrowthToLowerboundCapacity(w, n) < size then size
                                  else GrowthToLowerboundCapacity(w, n))
         <= 32 * if size < n then n else size
  {
    var m := if GrowthToLowerboundCapacity(w, n) < size then size else GrowthToLowerboundCapacity(w, n);
    assert 7 * GrowthToLowerboundCapacity(w, n) <= 8 * n;
    NormalizeBound(m);
  }

  lemma {:induction false} SmallCapacities(c: nat)
    requires IsValidCapacity(c)
    ensures c == 1 || c == 3 || c == 7 || (c >= 15 && (c + 1) % 16 == 0)
  {
    if c > 1 {
      assert IsPow2((c + 1) / 2);
      if c > 3 {
        assert IsPow2((c + 1) / 2 / 2);
        if c > 7 {
          assert IsPow2((c + 1) / 2 / 2 / 2);
          if c > 15 {
            assert IsPow2((c + 1) / 2 / 2 / 2 / 2);
          }
        }
      }
    }
  }

  lemma {:induction false} GrowthFits(w: nat, growth: nat, c: nat)
    requires IsWidth(w) && IsValidCapacity(c)
    ensures GrowthToLowerboundCapacity(w, growth) <= c <==> growth <= CapacityToGrowth(w, c)
  {
    SmallCapacities(c);
  }

  /** The capacity `reserve` computes is the smallest valid one that takes `growth` insertions. */
  lemma {:induction false} ReserveCapacityLeast(w: nat, growth: nat, c: nat)
    requires IsWidth(w) && IsValidCapacity(c)
    ensures var m := NormalizeCapacity(GrowthToLowerboundCapacity(w, growth));
            && growth <= CapacityToGrowth(w, m)
            && (growth <= CapacityToGrowth(w, c) <==> m <= c)
  {
    var m := NormalizeCapacity(GrowthToLowerboundCapacity(w, growth));
    GrowthFits(w, growth, m);
    GrowthFits(w, growth, c);
    if growth <= CapacityToGrowth(w, c) {
      NormalizeCapacityLeast(GrowthToLowerboundCapacity(w, growth), c);
    }
  }

  lemma {:induction false} GrowthMonotone(w: nat, m: nat, c: nat)
    requires IsWidth(w) && IsValidCapacity(m) && IsValidCapacity(c) && m <= c
    ensures CapacityToGrowth(w, m) <= CapacityToGrowth(w, c)
  {
    SmallCapacities(m);
    SmallCapacities(c);
  }

  /** Doubling makes room for at least one more element. */
  lemma {:induction false} GrowthOfNext(w: nat, c: nat)
    requires IsWidth(w) && (c == 0 || IsValidCapacity(c))
    ensures IsValidCapacity(2 * c + 1) && CapacityToGrowth(w, c) < CapacityToGrowth(w, 2 * c + 1)
  {
    if c > 0 {
      SmallCapacities(c);
    }
  }
}
