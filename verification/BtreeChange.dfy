/** Changing the values of one node, and growing and shrinking the tree at its root. */
module BtreeChange {
  import opened BtreeModel
  import opened BtreeShape

  // ----- replacing a stretch of a sequence -----

  ghost function Splice<V>(s: seq<V>, at: nat, len: nat, f: seq<V>): seq<V> {
    Take(s, at) + f + Drop(s, at + len)
  }

  lemma {:induction false} WeaveUpdateFirst<V>(fs: seq<seq<V>>, vs: seq<V>, f: seq<V>)
    requires |fs| == |vs| + 1
    ensures Weave(fs[0 := f], vs) == Splice(Weave(fs, vs), 0, |fs[0]|, f)
  {
    assert fs[0 := f][1..] == fs[1..];
    if vs != [] {
      SpliceFront(fs[0], [vs[0]] + Weave(fs[1..], vs[1..]), f);
    } else {
      assert fs[0] + [] == fs[0] && f + [] == f;
      SpliceFront(fs[0], [], f);
    }
  }

  lemma {:induction false} WeaveUpdate<V>(fs: seq<seq<V>>, vs: seq<V>, i: nat, f: seq<V>)
    requires |fs| == |vs| + 1 && i < |fs|
    ensures Weave(fs[i := f], vs) == Splice(Weave(fs, vs), Off(fs, i), |fs[i]|, f)
    decreases |fs|
  {
    if i == 0 {
      WeaveUpdateFirst(fs, vs, f);
    } else {
      var gs := fs[i := f];
      assert gs[1..] == fs[1..][i - 1 := f] && gs[0] == fs[0];
      WeaveUpdate(fs[1..], vs[1..], i - 1, f);
      WeaveAt(fs[1..], vs[1..], i - 1);
      SpliceCons(fs[0], vs[0], Weave(fs[1..], vs[1..]), Off(fs[1..], i - 1), |fs[i]|, f);
    }
  }

  lemma {:induction false} SpliceCons<V>(a: seq<V>, v: V, s: seq<V>, at: nat, len: nat, f: seq<V>)
    requires at + len <= |s|
    ensures Splice(a + ([v] + s), |a| + 1 + at, len, f) == a + ([v] + Splice(s, at, len, f))
  {
    Associate(a, [v], s);
    Associate(a, [v], Splice(s, at, len, f));
    SpliceBehind(a + [v], s, at, len, f);
  }

  lemma {:induction false} Associate<V>(a: seq<V>, b: seq<V>, c: seq<V>)
    ensures a + (b + c) == (a + b) + c
  {
  }

  lemma {:induction false} SpliceFront<V>(a: seq<V>, b: seq<V>, f: seq<V>)
    ensures Splice(a + b, 0, |a|, f) == f + b
  {
  }

  lemma {:induction false} SpliceBehind<V>(a: seq<V>, s: seq<V>, at: nat, len: nat, f: seq<V>)
    requires at + len <= |s|
    ensures Splice(a + s, |a| + at, len, f) == a + Splice(s, at, len, f)
  {
    assert (a + s)[..|a| + at] == a + s[..at];
    assert (a + s)[|a| + at + len..] == s[at + len..];
  }

  /** The same, index by index. */
  ghost predicate IsSplice<V>(r: seq<V>, s: seq<V>, at: nat, len: nat, f: seq<V>) {
    && at + len <= |s| && |r| == |s| - len + |f|
    && forall p {:trigger r[p]} :: 0 <= p < |r| ==>
         r[p] == if p < at then s[p] else if p < at + |f| then f[p - at] else s[p - |f| + len]
  }

  lemma {:induction false} SpliceIndices<V>(s: seq<V>, at: nat, len: nat, f: seq<V>)
    requires at + len <= |s|
    ensures IsSplice(Splice(s, at, len, f), s, at, len, f)
  {
  }

  lemma {:induction false} NestedSplices<V>(s: seq<V>, at: nat, g: seq<V>, i: nat, j: nat, len: nat, f: seq<V>,
                                            inner: seq<V>, outer: seq<V>, direct: seq<V>)
    requires at + |g| <= |s| && j == at + i && forall q {:trigger g[q]} :: 0 <= q < |g| ==> s[at + q] == g[q]
    requires IsSplice(inner, g, i, len, f) && IsSplice(outer, s, at, |g|, inner) && IsSplice(direct, s, j, len, f)
    ensures outer == direct
  {
    forall p | 0 <= p < |outer| ensures outer[p] == direct[p] {
      if at <= p < at + |inner| {
        assert outer[p] == inner[p - at];
      }
    }
  }

  /** A splice within a splice. */
  lemma {:induction false} SpliceTwice<V>(s: seq<V>, at: nat, g: seq<V>, i: nat, j: nat, len: nat, f: seq<V>)
    requires Holds(s, at, g) && i + len <= |g| && j == at + i
    ensures Splice(s, at, |g|, Splice(g, i, len, f)) == Splice(s, j, len, f)
  {
    forall q | 0 <= q < |g| ensures s[at + q] == g[q] {
      assert s[at..at + |g|][q] == g[q];
    }
    SpliceIndices(g, i, len, f);
    SpliceIndices(s, at, |g|, Splice(g, i, len, f));
    SpliceIndices(s, j, len, f);
    NestedSplices(s, at, g, i, j, len, f, Splice(g, i, len, f), Splice(s, at, |g|, Splice(g, i, len, f)),
                  Splice(s, j, len, f));
  }

  // ----- new values in one node -----

  ghost predicate CanSet<V>(t: Tree<V>, x: Id, vs: seq<V>) {
    WellFormed(t) && x in t.nodes && (t.nodes[x].leaf || |vs| == |t.nodes[x].vals|)
  }

  ghost function SetVals<V>(t: Tree<V>, x: Id, vs: seq<V>): Tree<V>
    requires x in t.nodes
  {
    t.(nodes := t.nodes[x := t.nodes[x].(vals := vs)])
  }

  lemma {:induction false} SetWellFormed<V>(t: Tree<V>, x: Id, vs: seq<V>)
    requires CanSet(t, x, vs)
    ensures WellFormed(SetVals(t, x, vs))
  {
    var u := SetVals(t, x, vs);
    assert u.level.Keys == u.nodes.Keys;
    forall id ensures Shape(u, id) {
      assert Shape(t, id);
    }
    forall id ensures Up(u, id) {
      assert Up(t, id);
    }
    forall id, i ensures Down(u, id, i) {
      assert Down(t, id, i);
    }
  }

  /** The ancestor of `x` that is `n` levels up. */
  ghost function Ancestor<V>(t: Tree<V>, x: Id, n: nat): Id {
    if n == 0 then x else if Ancestor(t, x, n - 1) in t.nodes then t.nodes[Ancestor(t, x, n - 1)].parent else 0
  }

  lemma {:induction false} AncestorLevel<V>(t: Tree<V>, x: Id, n: nat)
    requires WellFormed(t) && x in t.nodes && n <= Depth(t, x)
    ensures Ancestor(t, x, n) in t.nodes && t.level[Ancestor(t, x, n)] == t.level[x] + n
    ensures n == Depth(t, x) <==> Ancestor(t, x, n) == t.root
    decreases n
  {
    assert Shape(t, x);
    if n == 0 {
    } else {
      AncestorLevel(t, x, n - 1);
      ParentLinks(t, Ancestor(t, x, n - 1));
    }
    assert Shape(t, Ancestor(t, x, n));
  }

  /** `id` is neither `x` nor above it. */
  ghost predicate Apart<V>(t: Tree<V>, x: Id, id: Id)
    requires x in t.level && id in t.level
  {
    t.level[id] < t.level[x] || id != Ancestor(t, x, t.level[id] - t.level[x])
  }

  lemma {:induction false} SetApart<V>(t: Tree<V>, x: Id, vs: seq<V>, id: Id)
    requires CanSet(t, x, vs) && id in t.nodes && Apart(t, x, id)
    ensures Sub(SetVals(t, x, vs), id) == Sub(t, id)
    decreases t.level[id]
  {
    var u := SetVals(t, x, vs);
    SetWellFormed(t, x, vs);
    assert id != x;
    if t.nodes[id].leaf {
      SubOfLeaf(t, id);
      SubOfLeaf(u, id);
    } else {
      var kids := t.nodes[id].kids;
      forall i | 0 <= i < |kids| ensures Sub(u, kids[i]) == Sub(t, kids[i]) {
        assert Down(t, id, i);
        SetApart(t, x, vs, kids[i]);
      }
      SubsSame(t, u, kids);
      SubOfInternal(t, id);
      SubOfInternal(u, id);
    }
  }

  /** One level up, the sequence changes only where the changed child's does. */
  lemma {:induction false} SetClimbs<V>(t: Tree<V>, x: Id, vs: seq<V>, n: nat)
    requires CanSet(t, x, vs) && n < Depth(t, x)
    ensures var u, a := SetVals(t, x, vs), Ancestor(t, x, n);
      && a in t.nodes && a != t.root && t.nodes[a].parent in t.nodes
      && var fs := Subs(t, t.nodes[t.nodes[a].parent].kids); var i := t.nodes[a].position;
      && i < |fs| && fs[i] == Sub(t, a) && Subs(u, t.nodes[t.nodes[a].parent].kids) == fs[i := Sub(u, a)]
      && Sub(u, t.nodes[a].parent) == Splice(Sub(t, t.nodes[a].parent), Off(fs, i), |Sub(t, a)|, Sub(u, a))
  {
    var u, a := SetVals(t, x, vs), Ancestor(t, x, n);
    SetWellFormed(t, x, vs);
    AncestorLevel(t, x, n);
    ParentLinks(t, a);
    var p, i := t.nodes[a].parent, t.nodes[a].position;
    var kids := t.nodes[p].kids;
    assert t.level[p] != t.level[x];
    forall k | 0 <= k < |kids| ensures Sub(u, kids[k]) == Subs(t, kids)[i := Sub(u, a)][k] {
      assert Down(t, p, k);
      if k != i {
        SetApart(t, x, vs, kids[k]);
      }
    }
    assert Subs(u, kids) == Subs(t, kids)[i := Sub(u, a)];
    SubOfInternal(t, p);
    SubOfInternal(u, p);
    WeaveUpdate(Subs(t, kids), t.nodes[p].vals, i, Sub(u, a));
  }

  lemma {:induction false} SpliceAll<V>(s: seq<V>, f: seq<V>)
    ensures Splice(s, 0, |s|, f) == f
  {
  }

  /** The sequence at `a` changes exactly where that at `x` does. */
  ghost predicate SplicedAt<V>(t: Tree<V>, u: Tree<V>, x: Id, a: Id) {
    && StartOf(t, a) <= StartOf(t, x) && StartOf(t, x) + |Sub(t, x)| <= StartOf(t, a) + |Sub(t, a)|
    && Sub(u, a) == Splice(Sub(t, a), StartOf(t, x) - StartOf(t, a), |Sub(t, x)|, Sub(u, x))
  }

  lemma {:induction false} SplicedAbove<V>(t: Tree<V>, u: Tree<V>, x: Id, a: Id, p: Id, off: nat)
    requires SplicedAt(t, u, x, a) && StartOf(t, a) == StartOf(t, p) + off && Holds(Sub(t, p), off, Sub(t, a))
    requires Sub(u, p) == Splice(Sub(t, p), off, |Sub(t, a)|, Sub(u, a))
    ensures SplicedAt(t, u, x, p)
  {
    var i, j := StartOf(t, x) - StartOf(t, a), StartOf(t, x) - StartOf(t, p);
    SpliceTwice(Sub(t, p), off, Sub(t, a), i, j, |Sub(t, x)|, Sub(u, x));
  }

  /** So it is for every ancestor. */
  lemma {:induction false} SetAncestor<V>(t: Tree<V>, x: Id, vs: seq<V>, n: nat)
    requires CanSet(t, x, vs) && n <= Depth(t, x)
    ensures Ancestor(t, x, n) in t.nodes && SplicedAt(t, SetVals(t, x, vs), x, Ancestor(t, x, n))
    decreases n
  {
    if n == 0 {
      SpliceAll(Sub(t, x), Sub(SetVals(t, x, vs), x));
    } else {
      var u, a := SetVals(t, x, vs), Ancestor(t, x, n - 1);
      SetAncestor(t, x, vs, n - 1);
      SetClimbs(t, x, vs, n - 1);
      var p, i := t.nodes[a].parent, t.nodes[a].position;
      StartOfChild(t, p, i, a);
      KidInPlace(t, p, i);
      SplicedAbove(t, u, x, a, p, Off(Subs(t, t.nodes[p].kids), i));
    }
  }

  /** The whole sequence changes exactly where the node's own does. */
  lemma {:induction false} SetValues<V>(t: Tree<V>, x: Id, vs: seq<V>)
    requires CanSet(t, x, vs)
    ensures Values(SetVals(t, x, vs)) == Splice(Values(t), StartOf(t, x), |Sub(t, x)|, Sub(SetVals(t, x, vs), x))
  {
    AncestorLevel(t, x, Depth(t, x));
    SetAncestor(t, x, vs, Depth(t, x));
    StartOfRoot(t);
  }

  lemma {:induction false} OffUpdate<V>(fs: seq<seq<V>>, i: nat, f: seq<V>)
    requires i < |fs|
    ensures Off(fs[i := f], i) == Off(fs, i)
  {
    assert fs == fs[..i] + fs[i..] && fs[i := f] == fs[..i] + fs[i := f][i..];
    OffPrefix(fs[..i], fs[i..], i);
    OffPrefix(fs[..i], fs[i := f][i..], i);
  }

  /** The node and its ancestors begin where they did. */
  lemma {:induction false} SetStart<V>(t: Tree<V>, x: Id, vs: seq<V>, n: nat)
    requires CanSet(t, x, vs) && n <= Depth(t, x)
    ensures StartOf(SetVals(t, x, vs), Ancestor(t, x, n)) == StartOf(t, Ancestor(t, x, n))
    decreases Depth(t, x) - n
  {
    var u, a := SetVals(t, x, vs), Ancestor(t, x, n);
    SetWellFormed(t, x, vs);
    AncestorLevel(t, x, n);
    if n == Depth(t, x) {
      StartOfRoot(t);
      StartOfRoot(u);
    } else {
      SetStart(t, x, vs, n + 1);
      SetClimbs(t, x, vs, n);
      var p, i := t.nodes[a].parent, t.nodes[a].position;
      StartOfChild(t, p, i, a);
      StartOfChild(u, p, i, a);
      OffUpdate(Subs(t, t.nodes[p].kids), i, Sub(u, a));
    }
  }

  lemma {:induction false} OffLengths<V>(fs: seq<seq<V>>, gs: seq<seq<V>>, i: nat)
    requires |fs| == |gs| && i <= |fs| && forall k :: 0 <= k < |fs| ==> |fs[k]| == |gs[k]|
    ensures Off(fs, i) == Off(gs, i)
    decreases i
  {
    if i == 0 {
    } else {
      OffLengths(fs[1..], gs[1..], i - 1);
    }
  }

  /** As many values as before: every sequence is as long as it was. */
  lemma {:induction false} SetSameLength<V>(t: Tree<V>, x: Id, vs: seq<V>, id: Id)
    requires CanSet(t, x, vs) && |vs| == |t.nodes[x].vals| && id in t.nodes
    ensures |Sub(SetVals(t, x, vs), id)| == |Sub(t, id)|
  {
    var u := SetVals(t, x, vs);
    assert Shape(t, id) && Shape(t, x);
    if Apart(t, x, id) {
      SetApart(t, x, vs, id);
    } else {
      SetOwnLength(t, x, vs);
      var n := t.level[id] - t.level[x];
      SetAncestor(t, x, vs, n);
    }
  }

  lemma {:induction false} SetOwn<V>(t: Tree<V>, x: Id, vs: seq<V>)
    requires CanSet(t, x, vs) && !t.nodes[x].leaf
    ensures |t.nodes[x].kids| == |vs| + 1 && Sub(SetVals(t, x, vs), x) == Weave(Subs(t, t.nodes[x].kids), vs)
  {
    var u, kids := SetVals(t, x, vs), t.nodes[x].kids;
    SetWellFormed(t, x, vs);
    SubOfInternal(t, x);
    SubOfInternal(u, x);
    forall i | 0 <= i < |kids| ensures Sub(u, kids[i]) == Sub(t, kids[i]) {
      assert Down(t, x, i);
      SetApart(t, x, vs, kids[i]);
    }
    SubsSame(t, u, kids);
  }

  lemma {:induction false} SetOwnLength<V>(t: Tree<V>, x: Id, vs: seq<V>)
    requires CanSet(t, x, vs) && |vs| == |t.nodes[x].vals|
    ensures |Sub(SetVals(t, x, vs), x)| == |Sub(t, x)|
  {
    SetWellFormed(t, x, vs);
    if t.nodes[x].leaf {
      SubOfLeaf(t, x);
      SubOfLeaf(SetVals(t, x, vs), x);
    } else {
      SetOwn(t, x, vs);
      SubOfInternal(t, x);
      WeaveLength(Subs(t, t.nodes[x].kids), vs);
      WeaveLength(Subs(t, t.nodes[x].kids), t.nodes[x].vals);
    }
  }

  /** ... and begins where it did. */
  lemma {:induction false} SetSameStart<V>(t: Tree<V>, x: Id, vs: seq<V>, id: Id)
    requires CanSet(t, x, vs) && |vs| == |t.nodes[x].vals| && id in t.nodes
    ensures StartOf(SetVals(t, x, vs), id) == StartOf(t, id)
    decreases Depth(t, id)
  {
    var u := SetVals(t, x, vs);
    SetWellFormed(t, x, vs);
    if id == t.root {
      StartOfRoot(t);
      StartOfRoot(u);
    } else {
      ParentLinks(t, id);
      var p, i := t.nodes[id].parent, t.nodes[id].position;
      SetSameStart(t, x, vs, p);
      StartOfChild(t, p, i, id);
      StartOfChild(u, p, i, id);
      var kids := t.nodes[p].kids;
      forall k | 0 <= k < |kids| ensures |Sub(u, kids[k])| == |Sub(t, kids[k])| {
        assert Down(t, p, k);
        SetSameLength(t, x, vs, kids[k]);
      }
      OffLengths(Subs(t, kids), Subs(u, kids), i);
    }
  }

  // ----- a new root above the old one -----

  ghost predicate CanGrow<V>(m: Tree<V>, r: Id) {
    WellFormed(m) && r !in m.nodes && m.nodes[m.root].position == 0
  }

  /** The new root `r` has no value, and the old root as its only child. */
  ghost function Grow<V>(m: Tree<V>, r: Id, maxCount: nat): Tree<V>
    requires CanGrow(m, r)
  {
    Tree(m.nodes[m.root := m.nodes[m.root].(parent := r)]
                [r := Node(false, maxCount, m.nodes[m.root].parent, 0, [], [m.root])],
         m.level[r := m.level[m.root] + 1], r)
  }

  lemma {:induction false} GrowWellFormed<V>(m: Tree<V>, r: Id, maxCount: nat)
    requires CanGrow(m, r)
    ensures WellFormed(Grow(m, r, maxCount))
  {
    var t := Grow(m, r, maxCount);
    assert t.level.Keys == t.nodes.Keys;
    forall id ensures Shape(t, id) {
      assert Shape(m, id);
    }
    forall id ensures Up(t, id) {
      assert Up(m, id) && Shape(m, id);
    }
    forall id, i ensures Down(t, id, i) {
      assert Down(m, id, i) && Shape(m, id);
    }
  }

  lemma {:induction false} GrowSub<V>(m: Tree<V>, r: Id, maxCount: nat, id: Id)
    requires CanGrow(m, r) && id in m.nodes
    ensures Sub(Grow(m, r, maxCount), id) == Sub(m, id)
    decreases m.level[id]
  {
    var t := Grow(m, r, maxCount);
    GrowWellFormed(m, r, maxCount);
    assert Shape(m, id);
    if m.nodes[id].leaf {
      SubOfLeaf(m, id);
      SubOfLeaf(t, id);
    } else {
      var kids := m.nodes[id].kids;
      forall i | 0 <= i < |kids| ensures Sub(t, kids[i]) == Sub(m, kids[i]) {
        assert Down(m, id, i);
        GrowSub(m, r, maxCount, kids[i]);
      }
      SubsSame(m, t, kids);
      SubOfInternal(m, id);
      SubOfInternal(t, id);
    }
  }

  /** The whole sequence and every start stay. */
  lemma {:induction false} GrowKeeps<V>(m: Tree<V>, r: Id, maxCount: nat, id: Id)
    requires CanGrow(m, r) && id in m.nodes
    ensures Sub(Grow(m, r, maxCount), id) == Sub(m, id) && StartOf(Grow(m, r, maxCount), id) == StartOf(m, id)
    decreases Depth(m, id)
  {
    var t := Grow(m, r, maxCount);
    GrowWellFormed(m, r, maxCount);
    GrowSub(m, r, maxCount, id);
    if id == m.root {
      StartOfRoot(m);
      StartOfRoot(t);
      StartOfChild(t, r, 0, id);
    } else {
      ParentLinks(m, id);
      var p, i := m.nodes[id].parent, m.nodes[id].position;
      GrowKeeps(m, r, maxCount, p);
      StartOfChild(m, p, i, id);
      StartOfChild(t, p, i, id);
      var kids := m.nodes[p].kids;
      forall k | 0 <= k < |kids| ensures Sub(t, kids[k]) == Sub(m, kids[k]) {
        assert Down(m, p, k);
        GrowSub(m, r, maxCount, kids[k]);
      }
      SubsSame(m, t, kids);
    }
  }

  lemma {:induction false} GrowValues<V>(m: Tree<V>, r: Id, maxCount: nat)
    requires CanGrow(m, r)
    ensures Values(Grow(m, r, maxCount)) == Values(m)
  {
    var t := Grow(m, r, maxCount);
    GrowWellFormed(m, r, maxCount);
    GrowSub(m, r, maxCount, m.root);
    SubOfInternal(t, r);
    assert Subs(t, [m.root])[0] == Sub(m, m.root);
  }

  // ----- the only child of the root in its place -----

  ghost predicate CanShrink<V>(t: Tree<V>) {
    WellFormed(t) && !t.nodes[t.root].leaf && t.nodes[t.root].vals == [] && t.nodes[t.root].position == 0
  }

  ghost function Shrink<V>(t: Tree<V>): Tree<V>
    requires CanShrink(t)
  {
    assert Shape(t, t.root) && Down(t, t.root, 0);
    var c := t.nodes[t.root].kids[0];
    Tree((t.nodes - {t.root})[c := t.nodes[c].(parent := t.nodes[t.root].parent)], t.level - {t.root}, c)
  }

  lemma {:induction false} ShrinkOnlyChild<V>(t: Tree<V>, id: Id)
    requires CanShrink(t) && id in t.nodes && id != t.root
    ensures |t.nodes[t.root].kids| == 1 && t.nodes[t.root].kids[0] in t.level
    ensures t.level[t.nodes[t.root].kids[0]] + 1 == t.level[t.root]
    ensures t.level[id] < t.level[t.root]
    ensures t.level[id] + 1 == t.level[t.root] || t.nodes[id].parent == t.root ==> id == t.nodes[t.root].kids[0]
  {
    assert Shape(t, t.root) && Down(t, t.root, 0) && Shape(t, id);
    ParentLinks(t, id);
    assert Shape(t, t.nodes[id].parent);
  }

  lemma {:induction false} ShrinkWellFormed<V>(t: Tree<V>)
    requires CanShrink(t)
    ensures WellFormed(Shrink(t))
  {
    var m := Shrink(t);
    assert Shape(t, t.root) && Down(t, t.root, 0);
    assert m.level.Keys == m.nodes.Keys;
    forall id ensures Shape(m, id) {
      assert Shape(t, id);
      if id in m.nodes { ShrinkOnlyChild(t, id); }
    }
    forall id ensures Up(m, id) {
      assert Up(t, id);
      if id in m.nodes { ShrinkOnlyChild(t, id); }
    }
    forall id, i ensures Down(m, id, i) {
      assert Down(t, id, i);
      if id in m.nodes { ShrinkOnlyChild(t, id); }
    }
  }

  /** Growing undoes shrinking. */
  lemma {:induction false} ShrinkInverse<V>(t: Tree<V>)
    requires CanShrink(t)
    ensures CanGrow(Shrink(t), t.root) && Grow(Shrink(t), t.root, t.nodes[t.root].maxCount) == t
  {
    ShrinkWellFormed(t);
    assert Shape(t, t.root) && Down(t, t.root, 0);
    var m, c := Shrink(t), t.nodes[t.root].kids[0];
    assert t.nodes[t.root].kids == [c];
    assert Grow(m, t.root, t.nodes[t.root].maxCount).nodes == t.nodes;
    assert Grow(m, t.root, t.nodes[t.root].maxCount).level == t.level;
  }

  lemma {:induction false} ShrinkKeeps<V>(t: Tree<V>, id: Id)
    requires CanShrink(t) && id in t.nodes && id != t.root
    ensures Values(Shrink(t)) == Values(t)
    ensures Sub(Shrink(t), id) == Sub(t, id) && StartOf(Shrink(t), id) == StartOf(t, id)
  {
    ShrinkInverse(t);
    GrowKeeps(Shrink(t), t.root, t.nodes[t.root].maxCount, id);
    GrowValues(Shrink(t), t.root, t.nodes[t.root].maxCount);
  }
}
