/** What a B-tree holds: the in-order sequence of its values and the place of every subtree in it.

    Nodes live in a map from identities to records, and refer to one another by identity: to their children,
    and by `parent` and `position` back to the child slot they hang from. */
module BtreeModel {

  type Id = nat

  datatype Node<V> = Node(leaf: bool, maxCount: nat, parent: Id, position: nat, vals: seq<V>, kids: seq<Id>)

  /** `level` is the distance from the leaves; the source does not store it. */
  datatype Tree<V> = Tree(nodes: map<Id, Node<V>>, level: map<Id, nat>, root: Id)

  // ----- weaving the sequences of children with the values between them -----

  ghost function Weave<V>(fs: seq<seq<V>>, vs: seq<V>): seq<V>
    decreases |fs|
  {
    if fs == [] then [] else if vs == [] then fs[0] else fs[0] + ([vs[0]] + Weave(fs[1..], vs[1..]))
  }

  /** Where the `i`-th child begins in the weave. */
  ghost function Off<V>(fs: seq<seq<V>>, i: nat): nat
    decreases i
  {
    if fs == [] || i == 0 then 0 else |fs[0]| + 1 + Off(fs[1..], i - 1)
  }

  lemma {:induction false} WeaveLength<V>(fs: seq<seq<V>>, vs: seq<V>)
    requires |fs| == |vs| + 1
    ensures |Weave(fs, vs)| + 1 == Off(fs, |fs|)
    decreases |fs|
  {
    if vs != [] {
      WeaveLength(fs[1..], vs[1..]);
    } else {
      assert Off(fs[1..], 0) == 0;
    }
  }

  /** The `i`-th child's sequence is where `Off` says. */
  ghost predicate Holds<V>(s: seq<V>, at: nat, f: seq<V>) {
    at + |f| <= |s| && s[at..at + |f|] == f
  }

  lemma {:induction false} WeaveAt<V>(fs: seq<seq<V>>, vs: seq<V>, i: nat)
    requires |fs| == |vs| + 1 && i < |fs|
    ensures Holds(Weave(fs, vs), Off(fs, i), fs[i])
    ensures i < |vs| ==> Off(fs, i) + |fs[i]| < |Weave(fs, vs)| && Weave(fs, vs)[Off(fs, i) + |fs[i]|] == vs[i]
    ensures i == |vs| ==> Off(fs, i) + |fs[i]| == |Weave(fs, vs)|
    decreases |fs|
  {
    if i > 0 {
      WeaveAt(fs[1..], vs[1..], i - 1);
      var rest := Weave(fs[1..], vs[1..]);
      assert Weave(fs, vs) == (fs[0] + [vs[0]]) + rest;
      HoldsShift(fs[0] + [vs[0]], rest, Off(fs[1..], i - 1), fs[i]);
    } else if vs != [] {
      assert Weave(fs, vs)[..|fs[0]|] == fs[0];
    }
  }

  lemma {:induction false} HoldsWhole<V>(s: seq<V>)
    ensures Holds(s, 0, s)
  {
    assert s[0..|s|] == s;
  }

  lemma {:induction false} HoldsShift<V>(a: seq<V>, s: seq<V>, at: nat, f: seq<V>)
    requires Holds(s, at, f)
    ensures Holds(a + s, |a| + at, f)
  {
    assert (a + s)[|a| + at..|a| + at + |f|] == s[at..at + |f|];
  }

  lemma {:induction false} HoldsWithin<V>(s: seq<V>, at: nat, f: seq<V>, i: nat, g: seq<V>)
    requires Holds(s, at, f) && Holds(f, i, g)
    ensures Holds(s, at + i, g)
  {
    forall k | 0 <= k < |g| ensures s[at + i + k] == g[k] {
      assert s[at..at + |f|][i + k] == f[i + k] && f[i..i + |g|][k] == g[k];
    }
  }

  lemma {:induction false} OffNext<V>(fs: seq<seq<V>>, i: nat)
    requires i < |fs|
    ensures Off(fs, i + 1) == Off(fs, i) + |fs[i]| + 1
    decreases i
  {
    if i > 0 {
      OffNext(fs[1..], i - 1);
    } else {
      assert Off(fs[1..], 0) == 0;
    }
  }

  lemma {:induction false} OffPrefix<V>(f1: seq<seq<V>>, f2: seq<seq<V>>, i: nat)
    requires i <= |f1|
    ensures Off(f1 + f2, i) == Off(f1, i)
    decreases i
  {
    if i == 0 {
    } else {
      assert (f1 + f2)[1..] == f1[1..] + f2;
      OffPrefix(f1[1..], f2, i - 1);
    }
  }

  lemma {:induction false} OffSum<V>(f1: seq<seq<V>>, f2: seq<seq<V>>, i: nat)
    requires i <= |f2|
    ensures Off(f1 + f2, |f1| + i) == Off(f1, |f1|) + Off(f2, i)
    decreases |f1|
  {
    if f1 != [] {
      assert (f1 + f2)[1..] == f1[1..] + f2;
      OffSum(f1[1..], f2, i);
    } else {
      assert f1 + f2 == f2;
    }
  }

  /** A weave cut at one of its separating values. */
  lemma {:induction false} WeaveSplit<V>(f1: seq<seq<V>>, v1: seq<V>, d: V, f2: seq<seq<V>>, v2: seq<V>)
    requires |f1| == |v1| + 1 && |f2| == |v2| + 1
    ensures Weave(f1 + f2, v1 + ([d] + v2)) == Weave(f1, v1) + ([d] + Weave(f2, v2))
    decreases |f1|
  {
    if v1 == [] {
      assert f1 == [f1[0]] && (f1 + f2)[1..] == f2;
      assert v1 + ([d] + v2) == [d] + v2 && ([d] + v2)[1..] == v2;
    } else {
      WeaveSplit(f1[1..], v1[1..], d, f2, v2);
      assert (f1 + f2)[1..] == f1[1..] + f2;
      assert (v1 + ([d] + v2))[1..] == v1[1..] + ([d] + v2);
      Regroup(f1[0], v1[0], Weave(f1[1..], v1[1..]), [d] + Weave(f2, v2));
    }
  }

  lemma {:induction false} Regroup<V>(a: seq<V>, b: V, c: seq<V>, d: seq<V>)
    ensures (a + ([b] + c)) + d == a + ([b] + (c + d))
  {
  }

  /** Two neighbouring children and the value between them weave like the one child they make. */
  lemma {:induction false} WeaveJoin<V>(fs: seq<seq<V>>, vs: seq<V>, i: nat, a: seq<V>, d: V, b: seq<V>)
    requires |fs| == |vs| + 1 && i < |fs| && fs[i] == a + ([d] + b)
    ensures Weave(fs[..i] + [a, b] + fs[i + 1..], vs[..i] + [d] + vs[i..]) == Weave(fs, vs)
    decreases i
  {
    var gs, us := fs[..i] + [a, b] + fs[i + 1..], vs[..i] + [d] + vs[i..];
    if i == 0 {
      assert gs[1..] == [b] + fs[1..] && us[1..] == vs;
      assert Weave(gs, us) == a + ([d] + Weave([b] + fs[1..], vs));
      if vs != [] {
        assert ([b] + fs[1..])[1..] == fs[1..];
        JoinRegroup(a, d, b, [vs[0]] + Weave(fs[1..], vs[1..]));
      }
    } else {
      assert gs[1..] == fs[1..][..i - 1] + [a, b] + fs[1..][i..];
      assert us[1..] == vs[1..][..i - 1] + [d] + vs[1..][i - 1..];
      WeaveJoin(fs[1..], vs[1..], i - 1, a, d, b);
    }
  }

  lemma {:induction false} JoinRegroup<V>(a: seq<V>, d: V, b: seq<V>, c: seq<V>)
    ensures a + ([d] + (b + c)) == (a + ([d] + b)) + c
  {
  }

  /** Where the children begin after one of them has been cut in two. */
  lemma {:induction false} OffJoin<V>(fs: seq<seq<V>>, j: nat, a: seq<V>, b: seq<V>, i: nat)
    requires j < |fs| && |fs[j]| == |a| + 1 + |b| && i <= |fs|
    ensures var gs := fs[..j] + [a, b] + fs[j + 1..];
      if i <= j then Off(gs, i) == Off(fs, i) else Off(gs, i + 1) == Off(fs, i)
    ensures Off(fs[..j] + [a, b] + fs[j + 1..], j + 1) == Off(fs, j) + |a| + 1
  {
    var gs := fs[..j] + [a, b] + fs[j + 1..];
    assert fs == fs[..j] + fs[j..] && gs == fs[..j] + ([a, b] + fs[j + 1..]);
    OffPrefix(fs[..j], fs[j..], if i <= j then i else j);
    OffPrefix(fs[..j], [a, b] + fs[j + 1..], if i <= j then i else j);
    OffPrefix(fs[..j], fs[j..], j);
    OffPrefix(fs[..j], [a, b] + fs[j + 1..], j);
    assert gs[j] == a;
    OffNext(gs, j);
    if i > j {
      var tail := fs[j + 1..];
      assert gs[j + 1] == b;
      OffNext(gs, j + 1);
      OffNext(fs, j);
      assert gs == (fs[..j] + [a, b]) + tail && fs == (fs[..j] + [fs[j]]) + tail;
      OffSum(fs[..j] + [a, b], tail, i - j - 1);
      OffSum(fs[..j] + [fs[j]], tail, i - j - 1);
      OffPrefix(fs[..j] + [a, b], tail, j + 2);
      OffPrefix(fs[..j] + [fs[j]], tail, j + 1);
    }
  }

  /** Where the children begin when the weave is cut at a separating value. */
  lemma {:induction false} OffHalves<V>(f1: seq<seq<V>>, f2: seq<seq<V>>, v1: seq<V>, i: nat)
    requires |f1| == |v1| + 1 && i < |f1| + |f2|
    ensures Off(f1 + f2, i) == if i < |f1| then Off(f1, i) else |Weave(f1, v1)| + 1 + Off(f2, i - |f1|)
  {
    if i < |f1| {
      OffPrefix(f1, f2, i);
    } else {
      OffSum(f1, f2, i - |f1|);
      WeaveLength(f1, v1);
    }
  }

  // ----- trees -----

  /** The in-order sequence of the subtree at `id`, which stands at level `lv`. */
  ghost function Flat<V>(t: Tree<V>, lv: nat, id: Id): seq<V>
    decreases lv, 0
  {
    if id !in t.nodes then [] else if lv == 0 then t.nodes[id].vals
    else Weave(Flats(t, lv - 1, t.nodes[id].kids), t.nodes[id].vals)
  }

  ghost function Flats<V>(t: Tree<V>, lv: nat, kids: seq<Id>): (fs: seq<seq<V>>)
    ensures |fs| == |kids| && forall i :: 0 <= i < |kids| ==> fs[i] == Flat(t, lv, kids[i])
    decreases lv, 1
  {
    seq(|kids|, i requires 0 <= i < |kids| => Flat(t, lv, kids[i]))
  }

  /** Where the subtree at `id` begins in the whole sequence, found by climbing `h` levels to the root. */
  ghost function Start<V>(t: Tree<V>, h: nat, lv: nat, id: Id): nat
    decreases h
  {
    if h == 0 || id !in t.nodes || t.nodes[id].parent !in t.nodes then 0
    else Start(t, h - 1, lv + 1, t.nodes[id].parent)
         + Off(Flats(t, lv, t.nodes[t.nodes[id].parent].kids), t.nodes[id].position)
  }

  /** The node hangs from the child slot its links name. */
  ghost predicate Up<V>(t: Tree<V>, id: Id) {
    id in t.nodes && id in t.level && id != t.root ==>
      var n := t.nodes[id];
      && n.parent in t.nodes && n.parent in t.level && t.level[n.parent] == t.level[id] + 1
      && n.position < |t.nodes[n.parent].kids| && t.nodes[n.parent].kids[n.position] == id
  }

  /** The `i`-th child hangs from this slot. */
  ghost predicate Down<V>(t: Tree<V>, id: Id, i: int) {
    id in t.nodes && id in t.level && 0 <= i < |t.nodes[id].kids| ==>
      var kid := t.nodes[id].kids[i];
      && kid in t.nodes && kid in t.level && kid != t.root && t.level[kid] + 1 == t.level[id]
      && t.nodes[kid].parent == id && t.nodes[kid].position == i
  }

  ghost predicate Shape<V>(t: Tree<V>, id: Id) {
    id in t.nodes && id in t.level ==>
      var n := t.nodes[id];
      && (n.leaf <==> t.level[id] == 0)
      && |n.kids| == (if n.leaf then 0 else |n.vals| + 1)
      && (id != t.root ==> t.root in t.level && t.level[id] < t.level[t.root])
  }

  /** Every node but the root hangs from exactly one child slot, one level higher. */
  ghost predicate WellFormed<V>(t: Tree<V>) {
    && t.root in t.nodes && t.level.Keys == t.nodes.Keys
    && (forall id :: Shape(t, id))
    && (forall id :: Up(t, id))
    && (forall id, i :: Down(t, id, i))
  }

  // ----- the same for a node of a well-formed tree -----

  /** The sequence of the subtree at `id`, at its own level. The recursion does nothing but keep the
      definition out of sight where it is not wanted; the lemmas below are the way in. Its depth has no meaning:
      `|t.nodes| + 5` is a number the verifier does not know, but knows to be greater than the few unfoldings it
      tries. */
  ghost function SealedSub<V>(n: nat, t: Tree<V>, id: Id): seq<V> {
    if n > 0 then SealedSub(n - 1, t, id) else if id in t.level then Flat(t, t.level[id], id) else []
  }

  ghost function Sub<V>(t: Tree<V>, id: Id): seq<V> {
    SealedSub(|t.nodes| + 5, t, id)
  }

  ghost function SealedStart<V>(n: nat, t: Tree<V>, id: Id): nat {
    if n > 0 then SealedStart(n - 1, t, id)
    else if id in t.level && t.root in t.level && t.level[id] <= t.level[t.root]
    then Start(t, t.level[t.root] - t.level[id], t.level[id], id) else 0
  }

  /** Where that sequence begins in the whole. */
  ghost function StartOf<V>(t: Tree<V>, id: Id): nat {
    SealedStart(|t.nodes| + 5, t, id)
  }

  /** The whole sequence. */
  ghost function Values<V>(t: Tree<V>): seq<V> {
    Sub(t, t.root)
  }

  lemma {:induction false} OpenSub<V>(n: nat, t: Tree<V>, id: Id)
    requires id in t.level
    ensures SealedSub(n, t, id) == Flat(t, t.level[id], id)
  {
    if n == 0 {
    } else {
      OpenSub(n - 1, t, id);
    }
  }

  lemma {:induction false} OpenStart<V>(n: nat, t: Tree<V>, id: Id)
    requires id in t.level && t.root in t.level && t.level[id] <= t.level[t.root]
    ensures SealedStart(n, t, id) == Start(t, t.level[t.root] - t.level[id], t.level[id], id)
  {
    if n == 0 {
    } else {
      OpenStart(n - 1, t, id);
    }
  }

  ghost function Depth<V>(t: Tree<V>, id: Id): nat
    requires WellFormed(t) && id in t.nodes
  {
    assert Shape(t, id);
    t.level[t.root] - t.level[id]
  }

  /** The sequences of some nodes. */
  ghost function Subs<V>(t: Tree<V>, ids: seq<Id>): (fs: seq<seq<V>>)
    ensures |fs| == |ids| && forall i :: 0 <= i < |ids| ==> fs[i] == Sub(t, ids[i])
  {
    seq(|ids|, i requires 0 <= i < |ids| => Sub(t, ids[i]))
  }

  lemma {:induction false} SubOfLeaf<V>(t: Tree<V>, id: Id)
    requires WellFormed(t) && id in t.nodes && t.nodes[id].leaf
    ensures Sub(t, id) == t.nodes[id].vals
  {
    assert Shape(t, id);
    OpenSub(|t.nodes| + 5, t, id);
  }

  lemma {:induction false} FlatsOf<V>(t: Tree<V>, id: Id)
    requires WellFormed(t) && id in t.nodes && !t.nodes[id].leaf
    ensures t.level[id] > 0 && Flats(t, t.level[id] - 1, t.nodes[id].kids) == Subs(t, t.nodes[id].kids)
  {
    assert Shape(t, id);
    var kids := t.nodes[id].kids;
    forall i | 0 <= i < |kids| ensures Flat(t, t.level[id] - 1, kids[i]) == Sub(t, kids[i]) {
      assert Down(t, id, i);
      OpenSub(|t.nodes| + 5, t, kids[i]);
    }
  }

  lemma {:induction false} SubOfInternal<V>(t: Tree<V>, id: Id)
    requires WellFormed(t) && id in t.nodes && !t.nodes[id].leaf
    ensures |t.nodes[id].kids| == |t.nodes[id].vals| + 1
    ensures Sub(t, id) == Weave(Subs(t, t.nodes[id].kids), t.nodes[id].vals)
  {
    assert Shape(t, id);
    OpenSub(|t.nodes| + 5, t, id);
    FlatsOf(t, id);
  }

  lemma {:induction false} StartOfRoot<V>(t: Tree<V>)
    requires WellFormed(t)
    ensures StartOf(t, t.root) == 0
  {
    OpenStart(|t.nodes| + 5, t, t.root);
  }

  lemma {:induction false} ParentLinks<V>(t: Tree<V>, id: Id)
    requires WellFormed(t) && id in t.nodes && id != t.root
    ensures t.nodes[id].parent in t.nodes && !t.nodes[t.nodes[id].parent].leaf
    ensures t.level[t.nodes[id].parent] == t.level[id] + 1
    ensures Depth(t, id) == Depth(t, t.nodes[id].parent) + 1
    ensures t.nodes[id].position < |t.nodes[t.nodes[id].parent].kids|
    ensures t.nodes[t.nodes[id].parent].kids[t.nodes[id].position] == id
  {
    assert Shape(t, id) && Up(t, id) && Shape(t, t.nodes[id].parent);
  }

  lemma {:induction false} StartUnfolds<V>(t: Tree<V>, h: nat, lv: nat, id: Id, fs: seq<seq<V>>)
    requires h > 0 && id in t.nodes && t.nodes[id].parent in t.nodes
    requires fs == Flats(t, lv, t.nodes[t.nodes[id].parent].kids)
    ensures Start(t, h, lv, id) == Start(t, h - 1, lv + 1, t.nodes[id].parent) + Off(fs, t.nodes[id].position)
  {
  }

  lemma {:induction false} StartOpened<V>(t: Tree<V>, id: Id)
    requires WellFormed(t) && id in t.nodes
    ensures StartOf(t, id) == Start(t, Depth(t, id), t.level[id], id)
  {
    assert Shape(t, id);
    OpenStart(|t.nodes| + 5, t, id);
  }

  lemma {:induction false} StartOfKid<V>(t: Tree<V>, id: Id)
    requires WellFormed(t) && id in t.nodes && id != t.root
    ensures t.nodes[id].parent in t.nodes
    ensures StartOf(t, id)
         == StartOf(t, t.nodes[id].parent) + Off(Subs(t, t.nodes[t.nodes[id].parent].kids), t.nodes[id].position)
  {
    ParentLinks(t, id);
    var p := t.nodes[id].parent;
    StartOpened(t, id);
    StartOpened(t, p);
    FlatsOf(t, p);
    StartUnfolds(t, Depth(t, id), t.level[id], id, Subs(t, t.nodes[p].kids));
  }

  lemma {:induction false} StartOfChild<V>(t: Tree<V>, q: Id, i: nat, id: Id)
    requires WellFormed(t) && id in t.nodes && id != t.root && t.nodes[id].parent == q && t.nodes[id].position == i
    ensures q in t.nodes && i < |t.nodes[q].kids|
    ensures StartOf(t, id) == StartOf(t, q) + Off(Subs(t, t.nodes[q].kids), i)
  {
    ParentLinks(t, id);
    StartOfKid(t, id);
  }

  lemma {:induction false} KidInPlace<V>(t: Tree<V>, p: Id, i: nat)
    requires WellFormed(t) && p in t.nodes && i < |t.nodes[p].kids|
    ensures Holds(Sub(t, p), Off(Subs(t, t.nodes[p].kids), i), Sub(t, t.nodes[p].kids[i]))
  {
    assert Shape(t, p);
    SubOfInternal(t, p);
    WeaveAt(Subs(t, t.nodes[p].kids), t.nodes[p].vals, i);
  }

  /** Every subtree's sequence is where its start says. */
  lemma {:induction false} InPlace<V>(t: Tree<V>, id: Id)
    requires WellFormed(t) && id in t.nodes
    ensures Holds(Values(t), StartOf(t, id), Sub(t, id))
    decreases Depth(t, id)
  {
    if id == t.root {
      StartOfRoot(t);
      HoldsWhole(Values(t));
    } else {
      ParentLinks(t, id);
      StartOfKid(t, id);
      var p, i := t.nodes[id].parent, t.nodes[id].position;
      InPlace(t, p);
      KidInPlace(t, p, i);
      HoldsWithin(Values(t), StartOf(t, p), Sub(t, p), Off(Subs(t, t.nodes[p].kids), i), Sub(t, id));
    }
  }
}
