/** The value slots of a node: the moves by which values shift within a node and cross to a neighbour. */
module BtreeSlots {

  /** The first `i` values of `s` from `from` on have come to `d` from `at` on. */
  ghost predicate Moved<V>(d: seq<V>, was: seq<V>, s: seq<V>, from: nat, at: nat, i: nat) {
    && |d| == |was| && from + i <= |s| && at + i <= |d|
    && forall k {:trigger d[k]} :: 0 <= k < |d| ==> d[k] == if at <= k < at + i then s[k - at + from] else was[k]
  }

  /** Forward move of `src[from..to]` to `dst[at..]`; within one array towards the front or clear of itself. */
  method MoveForward<V>(src: array<V>, from: nat, to: nat, dst: array<V>, at: nat)
    requires from <= to <= src.Length && at + (to - from) <= dst.Length && (src == dst ==> at <= from || to <= at)
    modifies dst
    ensures Moved(dst[..], old(dst[..]), old(src[..]), from, at, to - from)
  {
    ghost var was, s := dst[..], src[..];
    var i := 0;
    while i < to - from
      invariant i <= to - from && Moved(dst[..], was, s, from, at, i)
      invariant src != dst ==> src[..] == s
    {
      assert src[from + i] == s[from + i] by {
        assert src == dst ==> dst[..][from + i] == was[from + i];
        assert src != dst ==> src[..][from + i] == s[from + i];
      }
      dst[at + i] := src[from + i];
      i := i + 1;
    }
  }

  /** The values of `s` from `from + i` to `to` have come to `d`. */
  ghost predicate MovedBack<V>(d: seq<V>, was: seq<V>, from: nat, to: nat, at: nat, i: nat) {
    && |d| == |was| && from <= to <= |was| && at + (to - from) <= |d| && i <= to - from
    && forall k {:trigger d[k]} :: 0 <= k < |d| ==>
         d[k] == if at + i <= k < at + (to - from) then was[k - at + from] else was[k]
  }

  /** Backward move of `a[from..to]` to `a[at..]`, away from the front. */
  method MoveBackward<V>(a: array<V>, from: nat, to: nat, at: nat)
    requires from <= to <= a.Length && from <= at && at + (to - from) <= a.Length
    modifies a
    ensures Moved(a[..], old(a[..]), old(a[..]), from, at, to - from)
  {
    ghost var was := a[..];
    var i := to - from;
    while i > 0
      invariant 0 <= i <= to - from && MovedBack(a[..], was, from, to, at, i)
    {
      i := i - 1;
      assert a[..][from + i] == was[from + i];
      a[at + i] := a[from + i];
    }
  }

  // ----- what the moves make of the values, as `Btree.BTree` writes them -----

  /** `n` values cross to the left, the delimiter between the nodes among them. */
  function GiveLeft<V>(l: seq<V>, d: V, r: seq<V>, n: nat): (seq<V>, V, seq<V>)
    requires 0 < n <= |r|
  {
    (l + [d] + r[..n - 1], r[n - 1], r[n..])
  }

  function GiveRight<V>(l: seq<V>, d: V, r: seq<V>, n: nat): (seq<V>, V, seq<V>)
    requires 0 < n <= |l|
  {
    (l[..|l| - n], l[|l| - n], l[|l| - n + 1..] + [d] + r)
  }

  function Halves<V>(s: seq<V>, k: nat): (seq<V>, V, seq<V>)
    requires k < |s|
  {
    (s[..k], s[k], s[k + 1..])
  }

  /** None changes the values or their order. */
  lemma {:induction false} GiveLeftKeeps<V>(l: seq<V>, d: V, r: seq<V>, n: nat)
    requires 0 < n <= |r|
    ensures var m := GiveLeft(l, d, r, n); m.0 + [m.1] + m.2 == l + [d] + r
  {
    assert r == r[..n - 1] + [r[n - 1]] + r[n..];
  }

  lemma {:induction false} GiveRightKeeps<V>(l: seq<V>, d: V, r: seq<V>, n: nat)
    requires 0 < n <= |l|
    ensures var m := GiveRight(l, d, r, n); m.0 + [m.1] + m.2 == l + [d] + r
  {
    assert l == l[..|l| - n] + [l[|l| - n]] + l[|l| - n + 1..];
  }

  class Slots<V> {
    const slot: array<V>
    var count: nat

    constructor (slot: array<V>)
      ensures this.slot == slot && count == 0
    {
      this.slot, count := slot, 0;
    }

    ghost predicate Valid()
      reads this
    {
      count <= slot.Length
    }

    /** The values the node holds. */
    ghost function Vals(): seq<V>
      requires Valid()
      reads this, slot
    {
      slot[..][..count]
    }

    /** `emplace_value` */
    method EmplaceValue(i: nat, v: V)
      requires Valid() && i <= count < slot.Length
      modifies this`count, slot
      ensures Valid() && Vals() == old(Vals())[..i] + [v] + old(Vals())[i..]
    {
      ghost var s := slot[..];
      if i < count {
        MoveBackward(slot, i, count, i + 1);
      }
      ghost var s1 := slot[..];
      slot[i] := v;
      assert slot[..] == s1[i := v];
      Emplaced(s, s1, slot[..], i, count, v);
      count := count + 1;
    }

    /** `remove_value` */
    method RemoveValue(i: nat)
      requires Valid() && i < count
      modifies this`count, slot
      ensures Valid() && Vals() == old(Vals())[..i] + old(Vals())[i + 1..]
    {
      ghost var s := slot[..];
      MoveForward(slot, i + 1, count, slot, i);
      Withdrawn(s, slot[..], i, count);
      count := count - 1;
    }

    /** Puts the delimiter and the first `n` values of a neighbour behind the values of this node. */
    method Append(src: array<V>, n: nat, delimiter: V)
      requires Valid() && src != slot && n <= src.Length && count + 1 + n <= slot.Length
      modifies slot
      ensures slot[..][..1 + count + n] == old(Vals()) + [delimiter] + src[..][..n]
    {
      ghost var l, s := slot[..], src[..];
      slot[count] := delimiter;
      ghost var l1 := slot[..];
      assert l1 == l[count := delimiter] && src[..] == s;
      MoveForward(src, 0, n, slot, count + 1);
      Joined(l, s, count, n, delimiter, l1, slot[..]);
    }

    /** Drops the first `n` values. */
    method DropFirst(n: nat)
      requires Valid() && n <= count
      modifies this`count, slot
      ensures Valid() && Vals() == old(Vals())[n..]
    {
      ghost var s := slot[..];
      MoveForward(slot, n, count, slot, 0);
      Dropped(s, slot[..], n, count);
      count := count - n;
    }

    /** `rebalance_right_to_left` */
    method RebalanceRightToLeft(toMove: nat, right: Slots<V>, delimiter: V) returns (d: V)
      requires Valid() && right.Valid() && this != right && slot != right.slot
      requires 1 <= toMove <= right.count && count + toMove <= slot.Length
      modifies this`count, right`count, slot, right.slot
      ensures Valid() && right.Valid()
      ensures (Vals(), d, right.Vals()) == GiveLeft(old(Vals()), delimiter, old(right.Vals()), toMove)
      ensures Vals() + [d] + right.Vals() == old(Vals()) + [delimiter] + old(right.Vals())
    {
      ghost var l, s := Vals(), right.Vals();
      Append(right.slot, toMove - 1, delimiter);
      d := right.slot[toMove - 1];
      count := count + toMove;
      ghost var now := Vals();
      assert now == l + [delimiter] + s[..toMove - 1] && d == s[toMove - 1];
      right.DropFirst(toMove);
      assert Vals() == now;
      GiveLeftKeeps(l, delimiter, s, toMove);
    }

    /** The right node has enough initialised slots for what comes. */
    method PourWithin(toMove: nat, right: Slots<V>, delimiter: V)
      requires Valid() && right.Valid() && slot != right.slot
      requires 1 <= toMove <= count && toMove <= right.count && right.count + toMove <= right.slot.Length
      modifies right.slot
      ensures Filled(right.slot[..], old(right.slot[..]), slot[..], right.count, count, toMove, delimiter)
    {
      ghost var s, l := right.slot[..], slot[..];
      MoveForward(right.slot, right.count - toMove, right.count, right.slot, right.count);
      ghost var s1 := right.slot[..];
      assert slot[..] == l;
      MoveBackward(right.slot, 0, right.count - toMove, toMove);
      ghost var s2 := right.slot[..];
      assert slot[..] == l;
      right.slot[toMove - 1] := delimiter;
      ghost var s3 := right.slot[..];
      assert s3 == s2[toMove - 1 := delimiter];
      assert slot[..] == l;
      MoveForward(slot, count - (toMove - 1), count, right.slot, 0);
      PouredWithin(s, l, right.count, count, toMove, delimiter, s1, s2, s3, right.slot[..]);
    }

    /** Part of what comes goes to slots beyond the initialised ones. */
    method PourBeyond(toMove: nat, right: Slots<V>, delimiter: V)
      requires Valid() && right.Valid() && slot != right.slot
      requires toMove <= count && right.count < toMove && right.count + toMove <= right.slot.Length
      modifies right.slot
      ensures Filled(right.slot[..], old(right.slot[..]), slot[..], right.count, count, toMove, delimiter)
    {
      ghost var s, l := right.slot[..], slot[..];
      MoveForward(right.slot, 0, right.count, right.slot, toMove);
      ghost var s1 := right.slot[..];
      right.slot[toMove - 1] := delimiter;
      ghost var s2 := right.slot[..];
      assert s2 == s1[toMove - 1 := delimiter] && slot[..] == l;
      var uninitialized := toMove - right.count - 1;
      MoveForward(slot, count - uninitialized, count, right.slot, right.count);
      ghost var s3 := right.slot[..];
      MoveForward(slot, count - (toMove - 1), count - uninitialized, right.slot, 0);
      PouredBeyond(s, l, right.count, count, toMove, delimiter, s1, s2, s3, right.slot[..]);
    }

    /** `rebalance_left_to_right` */
    method RebalanceLeftToRight(toMove: nat, right: Slots<V>, delimiter: V) returns (d: V)
      requires Valid() && right.Valid() && this != right && slot != right.slot
      requires 1 <= toMove <= count && right.count + toMove <= right.slot.Length
      modifies this`count, right`count, right.slot
      ensures Valid() && right.Valid()
      ensures (Vals(), d, right.Vals()) == GiveRight(old(Vals()), delimiter, old(right.Vals()), toMove)
      ensures Vals() + [d] + right.Vals() == old(Vals()) + [delimiter] + old(right.Vals())
    {
      ghost var s, l, left, all := right.slot[..], slot[..], count, right.count;
      if right.count >= toMove {
        PourWithin(toMove, right, delimiter);
      } else {
        PourBeyond(toMove, right, delimiter);
      }
      ghost var now := right.slot[..];
      assert slot[..] == l;
      d := slot[count - toMove];
      count := count - toMove;
      right.count := right.count + toMove;
      assert Vals() == l[..left - toMove] && right.Vals() == now[..toMove + all];
      FilledGives(now, s, l, all, left, toMove, delimiter);
      GiveRightKeeps(l[..left], delimiter, s[..all], toMove);
    }

    /** `split`: this node keeps `k` values, `dest` gets those after the next one, which is returned. */
    method Split(k: nat, dest: Slots<V>) returns (d: V)
      requires Valid() && dest.Valid() && this != dest && slot != dest.slot && dest.count == 0
      requires k < count && count - k - 1 <= dest.slot.Length
      modifies this`count, dest`count, dest.slot
      ensures Valid() && dest.Valid() && (Vals(), d, dest.Vals()) == Halves(old(Vals()), k)
      ensures Vals() + [d] + dest.Vals() == old(Vals())
    {
      ghost var s, t := slot[..], dest.slot[..];
      MoveForward(slot, k + 1, count, dest.slot, 0);
      assert slot[..] == s;
      d := slot[k];
      Cut(s, t, dest.slot[..], k, count);
      dest.count := count - (k + 1);
      count := k;
    }

    /** `merge` */
    method Merge(src: Slots<V>, delimiter: V)
      requires Valid() && src.Valid() && this != src && slot != src.slot && count + 1 + src.count <= slot.Length
      modifies this`count, src`count, slot
      ensures Valid() && src.count == 0 && Vals() == old(Vals()) + [delimiter] + old(src.Vals())
    {
      Append(src.slot, src.count, delimiter);
      count := 1 + count + src.count;
      src.count := 0;
    }
  }

  /** The right node's slots after the move: the end of the left node, the delimiter, and its own values. */
  ghost predicate Filled<V>(now: seq<V>, s: seq<V>, l: seq<V>, count: nat, leftCount: nat, n: nat, delimiter: V) {
    && |now| == |s| && count + n <= |s| && 0 < n <= leftCount <= |l|
    && forall k {:trigger now[k]} :: 0 <= k < n + count ==>
         now[k] == if k < n - 1 then l[leftCount - (n - 1) + k] else if k == n - 1 then delimiter else s[k - n]
  }

  lemma {:induction false} FilledGives<V>(now: seq<V>, s: seq<V>, l: seq<V>, count: nat, leftCount: nat, n: nat,
                                          delimiter: V)
    requires Filled(now, s, l, count, leftCount, n, delimiter)
    ensures (l[..leftCount - n], l[leftCount - n], now[..n + count])
         == GiveRight(l[..leftCount], delimiter, s[..count], n)
  {
    assert l[..leftCount][leftCount - n + 1..] == l[leftCount - (n - 1)..leftCount];
    assert now[..n + count] == l[leftCount - (n - 1)..leftCount] + [delimiter] + s[..count];
    assert l[..leftCount][..leftCount - n] == l[..leftCount - n];
  }

  /** Room made in the right node by shifting its last values clear of the rest first, then the rest. */
  lemma {:induction false} PouredWithin<V>(s: seq<V>, l: seq<V>, count: nat, leftCount: nat, n: nat, delimiter: V,
                                           s1: seq<V>, s2: seq<V>, s3: seq<V>, s4: seq<V>)
    requires 0 < n <= count && count + n <= |s| && n <= leftCount <= |l|
    requires Moved(s1, s, s, count - n, count, n) && Moved(s2, s1, s1, 0, n, count - n)
    requires s3 == s2[n - 1 := delimiter] && Moved(s4, s3, l, leftCount - (n - 1), 0, n - 1)
    ensures Filled(s4, s, l, count, leftCount, n, delimiter)
  {
    forall k | n <= k < n + count ensures s4[k] == s[k - n] {
      assert s4[k] == s3[k] == s2[k];
      if k < count {
        assert s2[k] == s1[k - n];
      } else {
        assert s2[k] == s1[k];
      }
    }
  }

  /** Room made by shifting all its values clear at once, with the rest of the room beyond them. */
  lemma {:induction false} PouredBeyond<V>(s: seq<V>, l: seq<V>, count: nat, leftCount: nat, n: nat, delimiter: V,
                                           s1: seq<V>, s2: seq<V>, s3: seq<V>, s4: seq<V>)
    requires count < n && count + n <= |s| && n <= leftCount <= |l|
    requires Moved(s1, s, s, 0, n, count) && s2 == s1[n - 1 := delimiter]
    requires Moved(s3, s2, l, leftCount - (n - count - 1), count, n - count - 1)
    requires Moved(s4, s3, l, leftCount - (n - 1), 0, count)
    ensures Filled(s4, s, l, count, leftCount, n, delimiter)
  {
    forall k | n - 1 <= k < n + count ensures s4[k] == if k == n - 1 then delimiter else s[k - n] {
      assert s4[k] == s3[k] == s2[k];
      assert k >= n ==> s2[k] == s1[k];
    }
    forall k | 0 <= k < n - 1 ensures s4[k] == l[leftCount - (n - 1) + k] {
      assert k >= count ==> s4[k] == s3[k];
    }
  }

  lemma {:induction false} Emplaced<V>(s: seq<V>, s1: seq<V>, s2: seq<V>, i: nat, count: nat, v: V)
    requires i <= count < |s| && Moved(s1, s, s, i, i + 1, count - i) && s2 == s1[i := v]
    ensures s2[..count + 1] == s[..count][..i] + [v] + s[..count][i..]
  {
    forall k | 0 <= k < count + 1 ensures s2[k] == (s[..count][..i] + [v] + s[..count][i..])[k] {
      assert k != i ==> s2[k] == s1[k];
    }
  }

  lemma {:induction false} Withdrawn<V>(s: seq<V>, s1: seq<V>, i: nat, count: nat)
    requires i < count <= |s| && Moved(s1, s, s, i + 1, i, count - (i + 1))
    ensures s1[..count - 1] == s[..count][..i] + s[..count][i + 1..]
  {
    forall k | 0 <= k < count - 1 ensures s1[k] == (s[..count][..i] + s[..count][i + 1..])[k] {
    }
  }

  lemma {:induction false} Dropped<V>(s: seq<V>, s1: seq<V>, n: nat, count: nat)
    requires n <= count <= |s| && Moved(s1, s, s, n, 0, count - n)
    ensures s1[..count - n] == s[..count][n..]
  {
    forall k | 0 <= k < count - n ensures s1[k] == s[..count][n..][k] {
    }
  }

  lemma {:induction false} Cut<V>(s: seq<V>, t: seq<V>, t1: seq<V>, k: nat, count: nat)
    requires k < count <= |s| && Moved(t1, t, s, k + 1, 0, count - (k + 1))
    ensures (s[..k], s[k], t1[..count - (k + 1)]) == Halves(s[..count], k)
    ensures s[..k] + [s[k]] + t1[..count - (k + 1)] == s[..count]
  {
    assert t1[..count - (k + 1)] == s[k + 1..count];
    assert s[..count][k + 1..] == s[k + 1..count] && s[..count][..k] == s[..k];
  }

  lemma {:induction false} Joined<V>(l: seq<V>, s: seq<V>, count: nat, rightCount: nat, delimiter: V, l1: seq<V>,
                                     l2: seq<V>)
    requires count + 1 + rightCount <= |l| && rightCount <= |s| && l1 == l[count := delimiter]
    requires Moved(l2, l1, s, 0, count + 1, rightCount)
    ensures l2[..1 + count + rightCount] == l[..count] + [delimiter] + s[..rightCount]
  {
    forall k | 0 <= k < 1 + count + rightCount ensures l2[k] == (l[..count] + [delimiter] + s[..rightCount])[k] {
      assert k <= count ==> l2[k] == l1[k];
    }
  }
}
