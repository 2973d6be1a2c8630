/** Searching a tree, and the positions iterators stand at. */
module BtreeSearch {
  import opened BtreeModel
  import opened BtreeShape
  import opened BtreeChange
  import opened BtreePlace

  /** `btree_iterator` */
  datatype Iter = Iter(node: Id, position: int)

  /** An iterator, or one whose node is null. */
  datatype Place = Nowhere | At(iter: Iter)

  /** The identity of the static empty node, the root of every empty tree. */
  const EMPTY: Id := 0

  // ----- order -----

  ghost predicate StrictOrder<V(!new)>(less: (V, V) -> bool) {
    && (forall a :: !less(a, a))
    && (forall a, b, c :: less(a, b) && less(b, c) ==> less(a, c))
    && (forall a, b, c :: less(a, c) ==> less(a, b) || less(b, c))
  }

  ghost predicate Sorted<V>(less: (V, V) -> bool, s: seq<V>) {
    forall i, j :: 0 <= i < j < |s| ==> less(s[i], s[j])
  }

  /** The elements before `r` are the ones that satisfy `before`. */
  ghost predicate Cuts<V>(before: V -> bool, s: seq<V>, r: nat) {
    r <= |s| && forall i :: 0 <= i < |s| ==> (before(s[i]) <==> i < r)
  }

  ghost predicate Monotone<V>(before: V -> bool, s: seq<V>) {
    forall i, j :: 0 <= i < j < |s| && before(s[j]) ==> before(s[i])
  }

  // ----- searching a node -----

  /** `linear_search_impl` */
  method LinearSearch<V>(vals: seq<V>, before: V -> bool) returns (s: nat)
    requires Monotone(before, vals)
    ensures Cuts(before, vals, s)
  {
    s := 0;
    while s < |vals|
      invariant s <= |vals| && forall i :: 0 <= i < s ==> before(vals[i])
    {
      if !before(vals[s]) {
        break;
      }
      s := s + 1;
    }
  }

  /** `binary_search_impl` */
  method BinarySearch<V>(vals: seq<V>, before: V -> bool) returns (s: nat)
    requires Monotone(before, vals)
    ensures Cuts(before, vals, s)
  {
    s := 0;
    var e := |vals|;
    while s != e
      invariant s <= e <= |vals|
      invariant forall i :: 0 <= i < s ==> before(vals[i])
      invariant forall i :: e <= i < |vals| ==> !before(vals[i])
      decreases e - s
    {
      var mid := (s + e) / 2;
      if before(vals[mid]) {
        s := mid + 1;
      } else {
        e := mid;
      }
    }
  }

  /** A cut of the whole sequence between the ends of a subtree. */
  ghost predicate CutsWithin<V>(before: V -> bool, s: seq<V>, lo: nat, hi: nat) {
    lo <= hi <= |s| && (forall i :: 0 <= i < lo ==> before(s[i])) && (forall i :: hi <= i < |s| ==> !before(s[i]))
  }

  lemma {:induction false} NodeMonotone<V>(t: Tree<V>, id: Id, before: V -> bool)
    requires WellFormed(t) && id in t.nodes && Monotone(before, Values(t))
    ensures Monotone(before, t.nodes[id].vals)
  {
    var vals := t.nodes[id].vals;
    forall i, j | 0 <= i < j < |vals| && before(vals[j]) ensures before(vals[i]) {
      ValueAt(t, id, i);
      ValueAt(t, id, j);
      RankOrder(t, id, i, j);
    }
  }

  lemma {:induction false} RankOrder<V>(t: Tree<V>, id: Id, i: nat, j: nat)
    requires WellFormed(t) && id in t.nodes && i < j < |t.nodes[id].vals|
    ensures Rank(t, id, i) < Rank(t, id, j)
    decreases j - i
  {
    if !t.nodes[id].leaf {
      RankBetween(t, id, i);
      RankBetween(t, id, i + 1);
    }
    if i + 1 == j {
    } else {
      RankOrder(t, id, i + 1, j);
    }
  }

  /** Going down to the child at the cut of the node keeps the cut of the whole within its ends. */
  lemma {:induction false} CutDescends<V>(t: Tree<V>, id: Id, before: V -> bool, pos: nat)
    requires WellFormed(t) && id in t.nodes && !t.nodes[id].leaf && Monotone(before, Values(t))
    requires Cuts(before, t.nodes[id].vals, pos)
    requires CutsWithin(before, Values(t), StartOf(t, id), StartOf(t, id) + |Sub(t, id)|)
    ensures pos < |t.nodes[id].kids| && t.nodes[id].kids[pos] in t.nodes
    ensures t.level[t.nodes[id].kids[pos]] + 1 == t.level[id]
    ensures var kid := t.nodes[id].kids[pos];
      CutsWithin(before, Values(t), StartOf(t, kid), StartOf(t, kid) + |Sub(t, kid)|)
  {
    OuterKids(t, id);
    assert Down(t, id, pos);
    var kid, vals := t.nodes[id].kids[pos], t.nodes[id].vals;
    InPlace(t, kid);
    if pos > 0 {
      RankBetween(t, id, pos - 1);
      ValueAt(t, id, pos - 1);
    }
    if pos < |vals| {
      RankBetween(t, id, pos);
      ValueAt(t, id, pos);
    }
  }

  lemma {:induction false} CutLands<V>(t: Tree<V>, id: Id, before: V -> bool, pos: nat)
    requires WellFormed(t) && id in t.nodes && t.nodes[id].leaf && Cuts(before, t.nodes[id].vals, pos)
    requires CutsWithin(before, Values(t), StartOf(t, id), StartOf(t, id) + |Sub(t, id)|)
    ensures Cuts(before, Values(t), StartOf(t, id) + pos)
  {
    SubOfLeaf(t, id);
    InPlace(t, id);
    var s, at, vals := Values(t), StartOf(t, id), t.nodes[id].vals;
    forall i | 0 <= i < |s| ensures before(s[i]) <==> i < at + pos {
      if at <= i < at + |vals| {
        HoldsAt(s, at, vals, i - at);
      }
    }
  }

  // ----- positions of iterators -----

  /** The index an iterator stands at; behind the last value of a node, the index behind its subtree. */
  ghost function Mark<V>(t: Tree<V>, it: Iter): nat
    requires it.node in t.nodes && 0 <= it.position
  {
    if it.position >= |t.nodes[it.node].vals| then StartOf(t, it.node) + |Sub(t, it.node)|
    else Rank(t, it.node, it.position)
  }

  ghost predicate OnValue<V>(t: Tree<V>, it: Iter) {
    it.node in t.nodes && 0 <= it.position < |t.nodes[it.node].vals|
  }

  /** On a value, or behind the last value of a leaf. */
  ghost predicate Standing<V>(t: Tree<V>, it: Iter) {
    it.node in t.nodes && 0 <= it.position <= |t.nodes[it.node].vals|
    && (t.nodes[it.node].leaf || it.position < |t.nodes[it.node].vals|)
  }

  lemma {:induction false} MarkInLeaf<V>(t: Tree<V>, it: Iter)
    requires WellFormed(t) && it.node in t.nodes && t.nodes[it.node].leaf && 0 <= it.position <= |t.nodes[it.node].vals|
    ensures Mark(t, it) == StartOf(t, it.node) + it.position
  {
    SubOfLeaf(t, it.node);
  }

  /** From behind a subtree to the value after it. */
  lemma {:induction false} MarkClimbs<V>(t: Tree<V>, id: Id)
    requires WellFormed(t) && id in t.nodes && id != t.root
    ensures t.nodes[id].parent in t.nodes && !t.nodes[t.nodes[id].parent].leaf
    ensures t.nodes[id].position <= |t.nodes[t.nodes[id].parent].vals|
    ensures Depth(t, t.nodes[id].parent) < Depth(t, id)
    ensures Mark(t, Iter(t.nodes[id].parent, t.nodes[id].position)) == StartOf(t, id) + |Sub(t, id)|
  {
    ParentLinks(t, id);
    OuterKids(t, t.nodes[id].parent);
    RankAfter(t, id);
  }

  /** From before a subtree to the value before it, or to before the parent. */
  lemma {:induction false} LeftStep<V>(t: Tree<V>, id: Id)
    requires WellFormed(t) && id in t.nodes && id != t.root
    ensures t.nodes[id].parent in t.nodes && Depth(t, t.nodes[id].parent) < Depth(t, id)
    ensures t.nodes[id].position == 0 ==> StartOf(t, t.nodes[id].parent) == StartOf(t, id)
    ensures t.nodes[id].position > 0 ==>
        var it := Iter(t.nodes[id].parent, t.nodes[id].position - 1);
        OnValue(t, it) && Mark(t, it) + 1 == StartOf(t, id)
  {
    ParentLinks(t, id);
    var p := t.nodes[id].parent;
    OuterKids(t, p);
    if t.nodes[id].position > 0 {
      RankBetween(t, p, t.nodes[id].position - 1);
    }
  }

  /** Only the root's parent is a leaf. */
  lemma {:induction false} RootTest<V>(cap: nat, t: Tree<V>, rightmost: Id, spare: set<Id>, id: Id)
    requires Sound(cap, t, rightmost, spare) && id in t.nodes
    ensures t.nodes[id].parent in t.nodes && (t.nodes[t.nodes[id].parent].leaf <==> id == t.root)
  {
    if id != t.root {
      ParentLinks(t, id);
    }
  }

  lemma {:induction false} RightUnique<V>(t: Tree<V>, a: Id, b: Id)
    requires WellFormed(t) && a in t.nodes && b in t.nodes && t.level[a] == t.level[b] && OnRight(t, a) && OnRight(t, b)
    ensures a == b
    decreases Depth(t, a)
  {
    assert Shape(t, a) && Shape(t, b);
    if a == t.root {
    } else {
      ParentLinks(t, a);
      ParentLinks(t, b);
      RightUnique(t, t.nodes[a].parent, t.nodes[b].parent);
    }
  }

  /** There is one leaf at the right end. */
  lemma {:induction false} RightEndUnique<V>(t: Tree<V>, a: Id, b: Id)
    requires WellFormed(t) && AtRightEnd(t, a) && AtRightEnd(t, b)
    ensures a == b
  {
    RightEnd(t, a);
    RightEnd(t, b);
    assert Shape(t, a) && Shape(t, b);
    RightUnique(t, a, b);
  }

  /** An iterator on a value stands at the index of that value; different values, different indices. */
  lemma {:induction false} MarkValue<V>(t: Tree<V>, it: Iter)
    requires WellFormed(t) && OnValue(t, it)
    ensures Mark(t, it) < |Values(t)| && Values(t)[Mark(t, it)] == t.nodes[it.node].vals[it.position]
  {
    ValueAt(t, it.node, it.position);
  }

  ghost predicate Same<V>(less: (V, V) -> bool, a: V, b: V) {
    !less(a, b) && !less(b, a)
  }

  lemma {:induction false} LowerMonotone<V(!new)>(less: (V, V) -> bool, s: seq<V>, key: V)
    requires StrictOrder(less) && Sorted(less, s)
    ensures Monotone(v => less(v, key), s)
  {
    assert forall a, b, c :: less(a, b) && less(b, c) ==> less(a, c);
  }

  lemma {:induction false} UpperMonotone<V(!new)>(less: (V, V) -> bool, s: seq<V>, key: V)
    requires StrictOrder(less) && Sorted(less, s)
    ensures Monotone(v => !less(key, v), s)
  {
  }

  /** Only the value at the cut can be the key. */
  lemma {:induction false} CutSame<V(!new)>(less: (V, V) -> bool, s: seq<V>, key: V, r: nat)
    requires StrictOrder(less) && Sorted(less, s) && Cuts(v => less(v, key), s, r)
    ensures (forall i :: 0 <= i < |s| ==> !Same(less, s[i], key)) <==> (r == |s| || less(key, s[r]))
  {
    if r < |s| && less(key, s[r]) {
      forall i | 0 <= i < |s| ensures !Same(less, s[i], key) {
        if i > r {
          assert less(s[r], s[i]);
        }
      }
    }
  }

  ghost predicate Member<V>(less: (V, V) -> bool, s: seq<V>, v: V) {
    exists i :: 0 <= i < |s| && Same(less, s[i], v)
  }

  /** A value put at its cut keeps the sequence sorted. */
  lemma {:induction false} InsertedAt<V>(s: seq<V>, r: nat, v: V, i: nat)
    requires r <= |s| && i <= |s|
    ensures (Take(s, r) + [v] + Drop(s, r))[i] == if i < r then s[i] else if i == r then v else s[i - 1]
  {
  }

  lemma {:induction false} InsertedOrder<V(!new)>(less: (V, V) -> bool, s: seq<V>, r: nat, v: V, i: nat, j: nat)
    requires StrictOrder(less) && Sorted(less, s) && Cuts(x => less(x, v), s, r) && (r == |s| || less(v, s[r]))
    requires i < j <= |s|
    ensures var u := Take(s, r) + [v] + Drop(s, r); |u| == |s| + 1 && less(u[i], u[j])
  {
    InsertedAt(s, r, v, i);
    InsertedAt(s, r, v, j);
    if i == r {
      assert less(v, s[r]) && (j - 1 == r || less(s[r], s[j - 1]));
    } else if j == r {
      assert less(s[i], v);
    } else {
      assert less(s[if i < r then i else i - 1], s[if j < r then j else j - 1]);
    }
  }

  lemma {:induction false} SortedInserted<V(!new)>(less: (V, V) -> bool, s: seq<V>, r: nat, v: V)
    requires StrictOrder(less) && Sorted(less, s) && Cuts(x => less(x, v), s, r) && (r == |s| || less(v, s[r]))
    ensures Sorted(less, Take(s, r) + [v] + Drop(s, r))
  {
    var u := Take(s, r) + [v] + Drop(s, r);
    forall i, j | 0 <= i < j < |u| ensures less(u[i], u[j]) {
      InsertedOrder(less, s, r, v, i, j);
    }
  }

  lemma {:induction false} NonEmptySub<V>(t: Tree<V>, id: Id)
    requires WellFormed(t) && id in t.nodes && t.nodes[id].vals != []
    ensures |Sub(t, id)| > 0
  {
    if t.nodes[id].leaf {
      SubOfLeaf(t, id);
    } else {
      SubOfInternal(t, id);
      WeaveAt(Subs(t, t.nodes[id].kids), t.nodes[id].vals, 0);
    }
  }

  // ----- the sequence an insertion comes to -----

  /** The sorted sequence with `v` in it, as a linear scan finds the place; unchanged if it is there. */
  ghost function With<V>(less: (V, V) -> bool, s: seq<V>, v: V): seq<V> {
    if s == [] then [v]
    else if less(s[0], v) then [s[0]] + With(less, s[1..], v)
    else if less(v, s[0]) then [v] + s
    else s
  }

  lemma {:induction false} WithCut<V(!new)>(less: (V, V) -> bool, s: seq<V>, v: V, r: nat)
    requires Cuts(x => less(x, v), s, r)
    ensures With(less, s, v) == if r < |s| && !less(v, s[r]) then s else Take(s, r) + [v] + Drop(s, r)
    decreases |s|
  {
    if s != [] && r > 0 {
      assert less(s[0], v);
      forall i | 0 <= i < |s[1..]| ensures less(s[1..][i], v) <==> i < r - 1 {
        assert s[1..][i] == s[i + 1];
      }
      WithCut(less, s[1..], v, r - 1);
      assert s == [s[0]] + s[1..] && Take(s, r) == [s[0]] + Take(s[1..], r - 1) && Drop(s, r) == Drop(s[1..], r - 1);
    } else if s != [] {
      assert !less(s[0], v);
    }
  }

  /** Between its neighbours is where a value belongs. */
  lemma {:induction false} CutsBetween<V(!new)>(less: (V, V) -> bool, s: seq<V>, v: V, r: nat)
    requires StrictOrder(less) && Sorted(less, s) && r <= |s| && (r > 0 ==> less(s[r - 1], v))
    requires (r < |s| ==> less(v, s[r]))
    ensures Cuts(x => less(x, v), s, r)
  {
    forall i | 0 <= i < |s| ensures less(s[i], v) <==> i < r {
      if i < r - 1 {
        assert less(s[i], s[r - 1]);
      } else if i > r {
        assert less(s[r], s[i]);
      }
    }
  }

  lemma {:induction false} LeftUnique<V>(t: Tree<V>, a: Id, b: Id)
    requires WellFormed(t) && a in t.nodes && b in t.nodes && t.level[a] == t.level[b] && OnLeft(t, a) && OnLeft(t, b)
    ensures a == b
    decreases Depth(t, a)
  {
    assert Shape(t, a) && Shape(t, b);
    if a == t.root {
    } else {
      ParentLinks(t, a);
      ParentLinks(t, b);
      LeftUnique(t, t.nodes[a].parent, t.nodes[b].parent);
    }
  }

  lemma {:induction false} LeftEndUnique<V>(t: Tree<V>, a: Id, b: Id)
    requires WellFormed(t) && AtLeftEnd(t, a) && AtLeftEnd(t, b)
    ensures a == b
  {
    LeftEnd(t, a);
    LeftEnd(t, b);
    assert Shape(t, a) && Shape(t, b);
    LeftUnique(t, a, b);
  }

  /** Only `begin()` is on the value at index zero. */
  lemma {:induction false} MarkZero<V>(cap: nat, t: Tree<V>, rightmost: Id, it: Iter)
    requires Sound(cap, t, rightmost, {}) && OnValue(t, it) && Mark(t, it) == 0
    ensures it == Iter(t.nodes[t.root].parent, 0)
  {
    if t.nodes[it.node].leaf {
      MarkInLeaf(t, it);
      LeftEndUnique(t, it.node, t.nodes[t.root].parent);
    } else {
      RankBetween(t, it.node, it.position);
      var kid := t.nodes[it.node].kids[it.position];
      assert Filled(t, {}, kid);
      NonEmptySub(t, kid);
    }
  }

  /** A value that is there already changes nothing. */
  lemma {:induction false} WithMember<V(!new)>(less: (V, V) -> bool, s: seq<V>, v: V, r: nat)
    requires StrictOrder(less) && Sorted(less, s) && r < |s| && Same(less, s[r], v)
    ensures Member(less, s, v) && With(less, s, v) == s
  {
    forall i | 0 <= i < |s| ensures less(s[i], v) <==> i < r {
      if i < r {
        assert less(s[i], s[r]);
      } else if i > r {
        assert less(s[r], s[i]);
      }
    }
    WithCut(less, s, v, r);
  }

  /** Between its neighbours a value is new, and goes there. */
  lemma {:induction false} WithBetween<V(!new)>(less: (V, V) -> bool, s: seq<V>, v: V, r: nat)
    requires StrictOrder(less) && Sorted(less, s) && r <= |s| && (r > 0 ==> less(s[r - 1], v))
    requires (r < |s| ==> less(v, s[r]))
    ensures !Member(less, s, v) && With(less, s, v) == Take(s, r) + [v] + Drop(s, r)
    ensures Sorted(less, With(less, s, v))
  {
    CutsBetween(less, s, v, r);
    CutSame(less, s, v, r);
    WithCut(less, s, v, r);
    SortedInserted(less, s, r, v);
  }

  /** Taking a value out of a sorted sequence leaves it sorted. */
  lemma {:induction false} SortedWithout<V>(less: (V, V) -> bool, s: seq<V>, r: nat)
    requires Sorted(less, s) && r < |s|
    ensures Sorted(less, Without(s, r)) && |Without(s, r)| + 1 == |s|
  {
    var u := Without(s, r);
    forall i, j | 0 <= i < j < |u| ensures less(u[i], u[j]) {
      var a, b := if i < r then i else i + 1, if j < r then j else j + 1;
      assert u[i] == s[a] && u[j] == s[b] && less(s[a], s[b]);
    }
  }

  /** Moving the value before into the place and then taking it out where it was takes out the one there. */
  lemma {:induction false} WithoutMoved<V>(s: seq<V>, r: nat)
    requires 0 < r < |s|
    ensures Without(s[r := s[r - 1]], r - 1) == Without(s, r)
  {
  }

  /** The sequence without the value that is the key, as a linear scan finds it. */
  ghost function Minus<V>(less: (V, V) -> bool, s: seq<V>, key: V): seq<V> {
    if s == [] then [] else if Same(less, s[0], key) then s[1..] else [s[0]] + Minus(less, s[1..], key)
  }

  lemma {:induction false} MinusNone<V>(less: (V, V) -> bool, s: seq<V>, key: V)
    requires !Member(less, s, key)
    ensures Minus(less, s, key) == s
    decreases |s|
  {
    if s == [] {
    } else {
      assert !Same(less, s[0], key);
      assert !Member(less, s[1..], key) by {
        forall i | 0 <= i < |s[1..]| ensures !Same(less, s[1..][i], key) {
          assert s[1..][i] == s[i + 1];
        }
      }
      MinusNone(less, s[1..], key);
    }
  }

  lemma {:induction false} MinusAt<V(!new)>(less: (V, V) -> bool, s: seq<V>, key: V, r: nat)
    requires StrictOrder(less) && Sorted(less, s) && r < |s| && Same(less, s[r], key)
    ensures Member(less, s, key) && Minus(less, s, key) == Without(s, r)
    decreases |s|
  {
    if r == 0 {
      assert Without(s, 0) == s[1..];
    } else {
      BeforeOrAfter(less, s[0], key, s[r]);
      SortedTail(less, s);
      MinusAt(less, s[1..], key, r - 1);
      WithoutCons(s, r);
    }
  }

  lemma {:induction false} SortedTail<V>(less: (V, V) -> bool, s: seq<V>)
    requires Sorted(less, s) && s != []
    ensures Sorted(less, s[1..])
  {
    forall i, j | 0 <= i < j < |s[1..]| ensures less(s[1..][i], s[1..][j]) {
      assert less(s[i + 1], s[j + 1]);
    }
  }

  lemma {:induction false} WithoutCons<V>(s: seq<V>, r: nat)
    requires 0 < r < |s|
    ensures Without(s, r) == [s[0]] + Without(s[1..], r - 1)
  {
  }

  lemma {:induction false} BeforeOrAfter<V(!new)>(less: (V, V) -> bool, a: V, b: V, c: V)
    requires StrictOrder(less) && less(a, c)
    ensures less(a, b) || less(b, c)
  {
  }

  // ----- what the tree's own check looks at -----

  /** The value before a subtree, if any, as `internal_verify` passes it down. */
  ghost predicate IsBelow<V>(t: Tree<V>, id: Id, lo: Bound<V>) {
    if StartOf(t, id) == 0 then lo == Unbounded
    else StartOf(t, id) <= |Values(t)| && lo == Bounded(Values(t)[StartOf(t, id) - 1])
  }

  /** The value behind it, if any. */
  ghost predicate IsAbove<V>(t: Tree<V>, id: Id, hi: Bound<V>) {
    var end := StartOf(t, id) + |Sub(t, id)|;
    if end >= |Values(t)| then hi == Unbounded else hi == Bounded(Values(t)[end])
  }

  datatype Bound<V> = Unbounded | Bounded(v: V)

  lemma {:induction false} KidBounds<V>(t: Tree<V>, id: Id, i: nat, lo: Bound<V>, hi: Bound<V>)
    requires WellFormed(t) && id in t.nodes && !t.nodes[id].leaf && i <= |t.nodes[id].vals| && IsBelow(t, id, lo)
    requires IsAbove(t, id, hi)
    ensures i < |t.nodes[id].kids| && t.nodes[id].kids[i] in t.nodes
    ensures IsBelow(t, t.nodes[id].kids[i], if i == 0 then lo else Bounded(t.nodes[id].vals[i - 1]))
    ensures IsAbove(t, t.nodes[id].kids[i], if i == |t.nodes[id].vals| then hi else Bounded(t.nodes[id].vals[i]))
  {
    OuterKids(t, id);
    assert Down(t, id, i);
    if i > 0 {
      RankBetween(t, id, i - 1);
      ValueAt(t, id, i - 1);
    }
    if i < |t.nodes[id].vals| {
      RankBetween(t, id, i);
      ValueAt(t, id, i);
    }
  }

  /** In a sorted tree the comparisons of `internal_verify` hold in every node. */
  lemma {:induction false} OrderChecks<V(!new)>(less: (V, V) -> bool, t: Tree<V>, id: Id, lo: Bound<V>, hi: Bound<V>)
    requires WellFormed(t) && StrictOrder(less) && Sorted(less, Values(t)) && id in t.nodes && t.nodes[id].vals != []
    requires IsBelow(t, id, lo) && IsAbove(t, id, hi)
    ensures lo.Bounded? ==> !less(t.nodes[id].vals[0], lo.v)
    ensures hi.Bounded? ==> !less(hi.v, t.nodes[id].vals[|t.nodes[id].vals| - 1])
    ensures forall i :: 0 < i < |t.nodes[id].vals| ==> !less(t.nodes[id].vals[i], t.nodes[id].vals[i - 1])
  {
    var vals, s := t.nodes[id].vals, Values(t);
    ValueInside(t, id, 0);
    ValueInside(t, id, |vals| - 1);
    forall i | 0 < i < |vals| ensures !less(vals[i], vals[i - 1]) {
      ValueAt(t, id, i - 1);
      ValueAt(t, id, i);
      RankOrder(t, id, i - 1, i);
    }
  }

  lemma {:induction false} ValueInside<V>(t: Tree<V>, id: Id, pos: nat)
    requires WellFormed(t) && id in t.nodes && pos < |t.nodes[id].vals|
    ensures StartOf(t, id) <= Rank(t, id, pos) < StartOf(t, id) + |Sub(t, id)| <= |Values(t)|
    ensures Values(t)[Rank(t, id, pos)] == t.nodes[id].vals[pos]
  {
    ValueAt(t, id, pos);
    InPlace(t, id);
    if t.nodes[id].leaf {
      SubOfLeaf(t, id);
    } else {
      SubOfInternal(t, id);
      WeaveAt(Subs(t, t.nodes[id].kids), t.nodes[id].vals, pos);
    }
  }
}
