/** Positions in the tree as indices of the in-order sequence, and what every operation keeps. */
module BtreePlace {
  import opened BtreeModel
  import opened BtreeShape
  import opened BtreeChange
  import opened BtreeLinks

  // ----- positions -----

  /** The index of the value at `pos` of node `id`; for a leaf also of the place behind its last value. */
  ghost function Rank<V>(t: Tree<V>, id: Id, pos: nat): nat
    requires id in t.nodes
  {
    if t.nodes[id].leaf || pos >= |t.nodes[id].kids| then StartOf(t, id) + pos
    else StartOf(t, id) + Off(Subs(t, t.nodes[id].kids), pos) + |Sub(t, t.nodes[id].kids[pos])|
  }

  lemma {:induction false} HoldsAt<V>(s: seq<V>, at: nat, f: seq<V>, i: nat)
    requires Holds(s, at, f) && i < |f|
    ensures at + i < |s| && s[at + i] == f[i]
  {
    assert s[at..at + |f|][i] == f[i];
  }

  /** The value at a position is the element of the sequence at its rank. */
  lemma {:induction false} ValueAt<V>(t: Tree<V>, id: Id, pos: nat)
    requires WellFormed(t) && id in t.nodes && pos < |t.nodes[id].vals|
    ensures Rank(t, id, pos) < |Values(t)| && Values(t)[Rank(t, id, pos)] == t.nodes[id].vals[pos]
  {
    InPlace(t, id);
    if t.nodes[id].leaf {
      SubOfLeaf(t, id);
      HoldsAt(Values(t), StartOf(t, id), Sub(t, id), pos);
    } else {
      SubOfInternal(t, id);
      var fs := Subs(t, t.nodes[id].kids);
      WeaveAt(fs, t.nodes[id].vals, pos);
      HoldsAt(Values(t), StartOf(t, id), Sub(t, id), Off(fs, pos) + |fs[pos]|);
    }
  }

  /** The place behind a subtree is that of the value after it in its parent. */
  lemma {:induction false} RankAfter<V>(t: Tree<V>, id: Id)
    requires WellFormed(t) && id in t.nodes && id != t.root
    ensures t.nodes[id].parent in t.nodes
    ensures Rank(t, t.nodes[id].parent, t.nodes[id].position) == StartOf(t, id) + |Sub(t, id)|
  {
    ParentLinks(t, id);
    StartOfKid(t, id);
  }

  /** The subtree after a value begins right behind it; the one before it ends at it. */
  lemma {:induction false} RankBetween<V>(t: Tree<V>, id: Id, pos: nat)
    requires WellFormed(t) && id in t.nodes && pos < |t.nodes[id].vals| && !t.nodes[id].leaf
    ensures pos + 1 < |t.nodes[id].kids| && t.nodes[id].kids[pos] in t.nodes && t.nodes[id].kids[pos + 1] in t.nodes
    ensures StartOf(t, t.nodes[id].kids[pos + 1]) == Rank(t, id, pos) + 1
    ensures StartOf(t, t.nodes[id].kids[pos]) + |Sub(t, t.nodes[id].kids[pos])| == Rank(t, id, pos)
  {
    SubOfInternal(t, id);
    assert Down(t, id, pos) && Down(t, id, pos + 1);
    var fs := Subs(t, t.nodes[id].kids);
    StartOfChild(t, id, pos, t.nodes[id].kids[pos]);
    StartOfChild(t, id, pos + 1, t.nodes[id].kids[pos + 1]);
    OffNext(fs, pos);
  }

  /** The first child begins where its parent does, and the last one ends where it does. */
  lemma {:induction false} OuterKids<V>(t: Tree<V>, id: Id)
    requires WellFormed(t) && id in t.nodes && !t.nodes[id].leaf
    ensures |t.nodes[id].kids| == |t.nodes[id].vals| + 1
    ensures t.nodes[id].kids[0] in t.nodes && t.level[t.nodes[id].kids[0]] + 1 == t.level[id]
    ensures t.nodes[id].kids[|t.nodes[id].vals|] in t.nodes
    ensures t.level[t.nodes[id].kids[|t.nodes[id].vals|]] + 1 == t.level[id]
    ensures StartOf(t, t.nodes[id].kids[0]) == StartOf(t, id)
    ensures StartOf(t, t.nodes[id].kids[|t.nodes[id].vals|]) + |Sub(t, t.nodes[id].kids[|t.nodes[id].vals|])|
         == StartOf(t, id) + |Sub(t, id)|
  {
    SubOfInternal(t, id);
    var kids, last := t.nodes[id].kids, |t.nodes[id].vals|;
    assert Down(t, id, 0) && Down(t, id, last);
    StartOfChild(t, id, 0, kids[0]);
    StartOfChild(t, id, last, kids[last]);
    WeaveAt(Subs(t, kids), t.nodes[id].vals, last);
  }

  // ----- the leaves at the ends -----

  ghost predicate AtLeftEnd<V>(t: Tree<V>, id: Id) {
    id in t.nodes && t.nodes[id].leaf && StartOf(t, id) == 0
  }

  ghost predicate AtRightEnd<V>(t: Tree<V>, id: Id) {
    id in t.nodes && t.nodes[id].leaf && StartOf(t, id) + |Sub(t, id)| == |Values(t)|
  }

  /** The same by the links alone. */
  ghost predicate OnLeft<V>(t: Tree<V>, id: Id)
    requires WellFormed(t) && id in t.nodes
    decreases Depth(t, id)
  {
    id == t.root || (ParentLinks(t, id); t.nodes[id].position == 0 && OnLeft(t, t.nodes[id].parent))
  }

  ghost predicate OnRight<V>(t: Tree<V>, id: Id)
    requires WellFormed(t) && id in t.nodes
    decreases Depth(t, id)
  {
    id == t.root || (ParentLinks(t, id);
                     t.nodes[id].position + 1 == |t.nodes[t.nodes[id].parent].kids| && OnRight(t, t.nodes[id].parent))
  }

  lemma {:induction false} LeftEnd<V>(t: Tree<V>, id: Id)
    requires WellFormed(t) && id in t.nodes
    ensures OnLeft(t, id) <==> StartOf(t, id) == 0
    decreases Depth(t, id)
  {
    if id == t.root {
      StartOfRoot(t);
    } else {
      ParentLinks(t, id);
      LeftEnd(t, t.nodes[id].parent);
      StartOfKid(t, id);
    }
  }

  lemma {:induction false} RightEnd<V>(t: Tree<V>, id: Id)
    requires WellFormed(t) && id in t.nodes
    ensures OnRight(t, id) <==> StartOf(t, id) + |Sub(t, id)| == |Values(t)|
    decreases Depth(t, id)
  {
    if id == t.root {
      StartOfRoot(t);
    } else {
      ParentLinks(t, id);
      var p, i := t.nodes[id].parent, t.nodes[id].position;
      RightEnd(t, p);
      InPlace(t, p);
      StartOfChild(t, p, i, id);
      SubOfInternal(t, p);
      WeaveAt(Subs(t, t.nodes[p].kids), t.nodes[p].vals, i);
    }
  }

  lemma {:induction false} SetOnEnds<V>(t: Tree<V>, x: Id, vs: seq<V>, id: Id)
    requires CanSet(t, x, vs) && id in t.nodes
    ensures WellFormed(SetVals(t, x, vs))
    ensures OnLeft(SetVals(t, x, vs), id) == OnLeft(t, id) && OnRight(SetVals(t, x, vs), id) == OnRight(t, id)
    decreases Depth(t, id)
  {
    SetWellFormed(t, x, vs);
    if id == t.root {
    } else {
      ParentLinks(t, id);
      SetOnEnds(t, x, vs, t.nodes[id].parent);
    }
  }

  /** New values in a node leave the ends where they are. */
  lemma {:induction false} SetEnds<V>(t: Tree<V>, x: Id, vs: seq<V>, id: Id)
    requires CanSet(t, x, vs) && id in t.nodes
    ensures AtLeftEnd(SetVals(t, x, vs), id) == AtLeftEnd(t, id)
    ensures AtRightEnd(SetVals(t, x, vs), id) == AtRightEnd(t, id)
  {
    SetOnEnds(t, x, vs, id);
    LeftEnd(t, id);
    LeftEnd(SetVals(t, x, vs), id);
    RightEnd(t, id);
    RightEnd(SetVals(t, x, vs), id);
  }

  // ----- what every operation keeps -----

  /** The number of values a node may hold: `cap`, but in a leaf that is the root perhaps fewer. */
  ghost predicate Fits<V>(cap: nat, t: Tree<V>, id: Id) {
    id in t.nodes ==>
      |t.nodes[id].vals| <= t.nodes[id].maxCount <= cap
      && (id != t.root || !t.nodes[id].leaf ==> t.nodes[id].maxCount == cap)
  }

  ghost predicate Filled<V>(t: Tree<V>, spare: set<Id>, id: Id) {
    id in t.nodes && id !in spare ==> t.nodes[id].vals != []
  }

  /** `spare` are the nodes that may be empty at the moment. */
  ghost predicate Sound<V>(cap: nat, t: Tree<V>, rightmost: Id, spare: set<Id>) {
    && WellFormed(t) && t.nodes[t.root].position == 0
    && AtLeftEnd(t, t.nodes[t.root].parent) && AtRightEnd(t, rightmost)
    && (forall id :: Fits(cap, t, id))
    && (forall id :: Filled(t, spare, id))
  }

  lemma {:induction false} SplitEnds<V>(m: Tree<V>, x: Id, k: nat, n: Id, id: Id)
    requires CanSplit(m, x, k, n) && id in m.nodes
    ensures AtLeftEnd(m, id) ==> AtLeftEnd(SplitAt(m, x, k, n), id)
    ensures AtRightEnd(m, id) ==> AtRightEnd(SplitAt(m, x, k, n), if id == x then n else id)
    ensures Values(SplitAt(m, x, k, n)) == Values(m)
  {
    SplitFacts(m, x, k, n);
    SplitStart(m, x, k, n, id);
    SplitNewStart(m, x, k, n);
    SplitSub(m, x, k, n, id);
    SplitSub(m, x, k, n, x);
    SplitSub(m, x, k, n, m.root);
  }

  lemma {:induction false} SplitSound<V>(cap: nat, m: Tree<V>, rightmost: Id, spare: set<Id>, x: Id, k: nat, n: Id,
                                         left: set<Id>)
    requires CanSplit(m, x, k, n) && Sound(cap, m, rightmost, spare) && spare <= {m.nodes[x].parent}
    requires |m.nodes[m.nodes[x].parent].vals| < cap && (k == 0 ==> x in left)
    requires (k + 1 == |m.nodes[x].vals| ==> n in left)
    ensures Sound(cap, SplitAt(m, x, k, n), if rightmost == x then n else rightmost, left)
  {
    var t, p := SplitAt(m, x, k, n), m.nodes[x].parent;
    SplitFacts(m, x, k, n);
    SplitWellFormed(m, x, k, n);
    SplitEnds(m, x, k, n, rightmost);
    SplitEnds(m, x, k, n, m.nodes[m.root].parent);
    assert t.nodes[m.root].parent == m.nodes[m.root].parent && t.nodes[m.root].position == 0;
    forall id ensures Fits(cap, t, id) {
      assert Fits(cap, m, id) && Fits(cap, m, x) && Fits(cap, m, p);
    }
    forall id ensures Filled(t, left, id) {
      assert Filled(m, spare, id);
    }
  }

  lemma {:induction false} MergeEnds<V>(t: Tree<V>, x: Id, y: Id, id: Id)
    requires CanMerge(t, x, y) && t.nodes[x].maxCount == t.nodes[y].maxCount && id in t.nodes
    ensures AtLeftEnd(t, id) ==> AtLeftEnd(MergeAt(t, x, y), id)
    ensures AtRightEnd(t, id) ==> AtRightEnd(MergeAt(t, x, y), if id == y then x else id)
    ensures Values(MergeAt(t, x, y)) == Values(t)
  {
    MergeFacts(t, x, y);
    MergeWellFormed(t, x, y);
    var z := if id == y then x else id;
    MergeKeeps(t, x, y, z);
    MergeKeeps(t, x, y, x);
    MergeKeeps(t, x, y, t.root);
    InPlace(t, y);
  }

  lemma {:induction false} MergeSound<V>(cap: nat, t: Tree<V>, rightmost: Id, spare: set<Id>, x: Id, y: Id)
    requires CanMerge(t, x, y) && Sound(cap, t, rightmost, spare) && |t.nodes[x].vals| + 1 + |t.nodes[y].vals| <= cap
    requires spare <= {x, y}
    ensures Sound(cap, MergeAt(t, x, y), if rightmost == y then x else rightmost, {t.nodes[x].parent})
  {
    var m, p := MergeAt(t, x, y), t.nodes[x].parent;
    assert Fits(cap, t, x) && Fits(cap, t, y);
    MergeFacts(t, x, y);
    MergeWellFormed(t, x, y);
    MergeEnds(t, x, y, rightmost);
    MergeEnds(t, x, y, t.nodes[t.root].parent);
    assert m.nodes[t.root].parent == t.nodes[t.root].parent && m.nodes[t.root].position == 0;
    forall id ensures Fits(cap, m, id) {
      assert Fits(cap, t, id);
    }
    forall id ensures Filled(m, {p}, id) {
      assert Filled(t, spare, id);
    }
  }

  lemma {:induction false} NotRightmost<V>(t: Tree<V>, x: Id, y: Id)
    requires CanMerge(t, x, y) && t.nodes[x].maxCount == t.nodes[y].maxCount
    ensures !AtRightEnd(t, x)
  {
    MergeFacts(t, x, y);
    MergeKeeps(t, x, y, x);
    InPlace(t, y);
  }

  lemma {:induction false} ShareEnds<V>(t: Tree<V>, x: Id, y: Id, k: nat, id: Id)
    requires CanShare(t, x, y, k) && id in t.nodes
    ensures AtLeftEnd(t, id) ==> AtLeftEnd(Share(t, x, y, k), id)
    ensures AtRightEnd(t, id) ==> AtRightEnd(Share(t, x, y, k), id)
    ensures Values(Share(t, x, y, k)) == Values(t)
  {
    MergeFacts(t, x, y);
    MergeWellFormed(t, x, y);
    var m := MergeAt(t, x, y);
    NotRightmost(t, x, y);
    MergeEnds(t, x, y, id);
    MergeKeeps(t, x, y, x);
    SplitEnds(m, x, k, y, if id == y then x else id);
  }

  lemma {:induction false} ShareFits<V>(cap: nat, t: Tree<V>, rightmost: Id, spare: set<Id>, x: Id, y: Id, k: nat,
                                        id: Id)
    requires CanShare(t, x, y, k) && Sound(cap, t, rightmost, spare) && spare <= {x, y}
    requires 0 < k <= cap && k < |t.nodes[x].vals| + |t.nodes[y].vals| <= k + cap
    ensures Fits(cap, Share(t, x, y, k), id)
  {
    MergeFacts(t, x, y);
    ShareRecords(t, x, y, k);
    assert Fits(cap, t, id);
    if id in t.nodes && id != x && id != y && id != t.nodes[x].parent {
      ShareRecord(t, x, y, k, id);
    }
  }

  lemma {:induction false} ShareFills<V>(cap: nat, t: Tree<V>, rightmost: Id, spare: set<Id>, x: Id, y: Id, k: nat,
                                         id: Id)
    requires CanShare(t, x, y, k) && Sound(cap, t, rightmost, spare) && spare <= {x, y}
    requires 0 < k <= cap && k < |t.nodes[x].vals| + |t.nodes[y].vals| <= k + cap
    ensures Filled(Share(t, x, y, k), {}, id)
  {
    MergeFacts(t, x, y);
    ShareRecords(t, x, y, k);
    assert Filled(t, spare, id);
    if id in t.nodes && id != x && id != y && id != t.nodes[x].parent {
      ShareRecord(t, x, y, k, id);
    }
  }

  lemma {:induction false} ShareSound<V>(cap: nat, t: Tree<V>, rightmost: Id, spare: set<Id>, x: Id, y: Id, k: nat)
    requires CanShare(t, x, y, k) && Sound(cap, t, rightmost, spare) && spare <= {x, y}
    requires 0 < k <= cap && k < |t.nodes[x].vals| + |t.nodes[y].vals| <= k + cap
    ensures Sound(cap, Share(t, x, y, k), rightmost, {})
  {
    var s, p := Share(t, x, y, k), t.nodes[x].parent;
    MergeFacts(t, x, y);
    ShareKeeps(t, x, y, k, x);
    ShareRecords(t, x, y, k);
    ShareEnds(t, x, y, k, rightmost);
    ShareEnds(t, x, y, k, t.nodes[t.root].parent);
    assert s.root == t.root;
    forall id ensures Fits(cap, s, id) && Filled(s, {}, id) {
      ShareFits(cap, t, rightmost, spare, x, y, k, id);
      ShareFills(cap, t, rightmost, spare, x, y, k, id);
    }
    if t.root != p {
      ShareRecord(t, x, y, k, t.root);
    }
  }

  lemma {:induction false} GrowSound<V>(cap: nat, m: Tree<V>, rightmost: Id, spare: set<Id>, r: Id)
    requires Sound(cap, m, rightmost, spare) && r !in m.nodes && m.nodes[m.root].maxCount == cap
    ensures CanGrow(m, r) && Sound(cap, Grow(m, r, cap), rightmost, spare + {r})
    ensures Values(Grow(m, r, cap)) == Values(m)
  {
    var t := Grow(m, r, cap);
    GrowWellFormed(m, r, cap);
    GrowValues(m, r, cap);
    GrowKeeps(m, r, cap, rightmost);
    GrowKeeps(m, r, cap, m.nodes[m.root].parent);
    forall id ensures Fits(cap, t, id) {
      assert Fits(cap, m, id);
    }
    forall id ensures Filled(t, spare + {r}, id) {
      assert Filled(m, spare, id);
    }
  }

  lemma {:induction false} ShrinkSound<V>(cap: nat, t: Tree<V>, rightmost: Id, spare: set<Id>)
    requires Sound(cap, t, rightmost, spare) && CanShrink(t) && spare <= {t.root}
    ensures Sound(cap, Shrink(t), rightmost, {})
    ensures Values(Shrink(t)) == Values(t)
  {
    var m := Shrink(t);
    ShrinkWellFormed(t);
    ShrinkKeeps(t, rightmost);
    ShrinkKeeps(t, t.nodes[t.root].parent);
    assert Shape(t, t.root) && Down(t, t.root, 0);
    forall id ensures Fits(cap, m, id) {
      assert Fits(cap, t, id);
    }
    forall id ensures Filled(m, {}, id) {
      assert Filled(t, spare, id);
    }
  }

  /** New values in a leaf. */
  lemma {:induction false} SetSound<V>(cap: nat, t: Tree<V>, rightmost: Id, spare: set<Id>, x: Id, vs: seq<V>,
                                       left: set<Id>)
    requires Sound(cap, t, rightmost, spare) && CanSet(t, x, vs) && |vs| <= t.nodes[x].maxCount
    requires spare <= left + {x} && (vs == [] ==> x in left)
    ensures Sound(cap, SetVals(t, x, vs), rightmost, left)
  {
    var u := SetVals(t, x, vs);
    SetWellFormed(t, x, vs);
    SetEnds(t, x, vs, rightmost);
    SetEnds(t, x, vs, t.nodes[t.root].parent);
    forall id ensures Fits(cap, u, id) {
      assert Fits(cap, t, id);
    }
    forall id ensures Filled(u, left, id) {
      assert Filled(t, spare, id);
    }
  }
}
