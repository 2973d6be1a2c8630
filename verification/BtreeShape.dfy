/** The structural steps of the B-tree: splitting a node, merging two, and moving values between
    neighbours, which is a merge followed by a split elsewhere. None of them changes the in-order sequence
    or the place of any other subtree in it. */
module BtreeShape {
  import opened BtreeModel

  // ----- splitting -----

  /** Node `x` may give its values after the `k`-th to a new right neighbour `n`. */
  ghost predicate CanSplit<V>(m: Tree<V>, x: Id, k: nat, n: Id) {
    WellFormed(m) && x in m.nodes && x != m.root && k < |m.nodes[x].vals|
    && n !in m.nodes && m.nodes[x].parent in m.nodes
  }

  /** What becomes of the record of `id`. */
  ghost function SplitNode<V>(m: Tree<V>, x: Id, k: nat, n: Id, id: Id): Node<V>
    requires CanSplit(m, x, k, n) && (id in m.nodes || id == n)
  {
    var X := m.nodes[x];
    var p, j := X.parent, X.position;
    if id == n then Node(X.leaf, X.maxCount, p, j + 1, X.vals[k + 1..], if X.leaf then [] else Drop(X.kids, k + 1))
    else
      var r := m.nodes[id];
      if id == x then r.(vals := X.vals[..k], kids := if X.leaf then [] else Take(X.kids, k + 1))
      else if id == p then r.(vals := Take(r.vals, j) + [X.vals[k]] + Drop(r.vals, j),
                              kids := Take(r.kids, j + 1) + [n] + Drop(r.kids, j + 1))
      else if id != m.root && r.parent == p && r.position > j then r.(position := r.position + 1)
      else if id != m.root && r.parent == x && r.position > k then r.(parent := n, position := r.position - (k + 1))
      else r
  }

  ghost function Take<T>(s: seq<T>, i: nat): seq<T> {
    if i <= |s| then s[..i] else s
  }

  ghost function Drop<T>(s: seq<T>, i: nat): seq<T> {
    if i <= |s| then s[i..] else []
  }

  ghost function SplitAt<V>(m: Tree<V>, x: Id, k: nat, n: Id): Tree<V>
    requires CanSplit(m, x, k, n)
  {
    Tree(map id | id in m.nodes.Keys + {n} :: SplitNode(m, x, k, n, id),
         map id | id in m.level.Keys + {n} :: if id == n then (if x in m.level then m.level[x] else 0) else m.level[id],
         m.root)
  }

  /** The facts about a split that its lemmas start from. */
  lemma {:induction false} SplitFacts<V>(m: Tree<V>, x: Id, k: nat, n: Id)
    requires CanSplit(m, x, k, n)
    ensures var X := m.nodes[x]; var P := m.nodes[X.parent];
      && !P.leaf && X.position < |P.kids| && P.kids[X.position] == x && |P.kids| == |P.vals| + 1 && X.parent != x
      && |X.kids| == (if X.leaf then 0 else |X.vals| + 1)
      && m.level[X.parent] == m.level[x] + 1 && (X.leaf <==> m.level[x] == 0)
  {
    ParentLinks(m, x);
    assert Shape(m, x) && Shape(m, m.nodes[x].parent);
  }

  lemma {:induction false} SplitShape<V>(m: Tree<V>, x: Id, k: nat, n: Id, id: Id)
    requires CanSplit(m, x, k, n)
    ensures Shape(SplitAt(m, x, k, n), id)
  {
    SplitFacts(m, x, k, n);
    assert Shape(m, id) && Shape(m, x);
  }

  /** The children of the parent after the split. */
  lemma {:induction false} SplitKids<V>(m: Tree<V>, x: Id, k: nat, n: Id)
    requires CanSplit(m, x, k, n)
    ensures var X := m.nodes[x]; var was, now := m.nodes[X.parent].kids, SplitAt(m, x, k, n).nodes[X.parent].kids;
      && X.position < |was| && |now| == |was| + 1 && now[X.position + 1] == n
      && (forall i :: 0 <= i <= X.position ==> now[i] == was[i])
      && (forall i :: X.position < i < |was| ==> now[i + 1] == was[i])
  {
    SplitFacts(m, x, k, n);
  }

  lemma {:induction false} SplitUpSibling<V>(m: Tree<V>, x: Id, k: nat, n: Id, id: Id)
    requires CanSplit(m, x, k, n) && id in m.nodes && id != m.root && id != n && m.nodes[id].parent == m.nodes[x].parent
    ensures Up(SplitAt(m, x, k, n), id)
  {
    SplitFacts(m, x, k, n);
    SplitKids(m, x, k, n);
    assert Up(m, id);
    assert SplitAt(m, x, k, n).nodes[id].parent == m.nodes[x].parent;
  }

  lemma {:induction false} SplitUpKid<V>(m: Tree<V>, x: Id, k: nat, n: Id, id: Id)
    requires CanSplit(m, x, k, n) && id in m.nodes && id != m.root && id != n && m.nodes[id].parent == x
    ensures Up(SplitAt(m, x, k, n), id)
  {
    SplitFacts(m, x, k, n);
    assert Up(m, id);
    assert SplitAt(m, x, k, n).nodes[id].parent == if m.nodes[id].position > k then n else x;
  }

  lemma {:induction false} SplitUpOther<V>(m: Tree<V>, x: Id, k: nat, n: Id, id: Id)
    requires CanSplit(m, x, k, n) && id in m.nodes && id != m.root && id != n
    requires m.nodes[id].parent != x && m.nodes[id].parent != m.nodes[x].parent
    ensures Up(SplitAt(m, x, k, n), id)
  {
    SplitFacts(m, x, k, n);
    assert Up(m, id);
    var t, q := SplitAt(m, x, k, n), m.nodes[id].parent;
    assert t.nodes[id].parent == q && t.nodes[q].kids == m.nodes[q].kids;
  }

  lemma {:induction false} SplitUpNew<V>(m: Tree<V>, x: Id, k: nat, n: Id)
    requires CanSplit(m, x, k, n)
    ensures Up(SplitAt(m, x, k, n), n)
  {
    SplitFacts(m, x, k, n);
    SplitKids(m, x, k, n);
    assert SplitAt(m, x, k, n).nodes[n].parent == m.nodes[x].parent;
  }

  lemma {:induction false} SplitUp<V>(m: Tree<V>, x: Id, k: nat, n: Id, id: Id)
    requires CanSplit(m, x, k, n)
    ensures Up(SplitAt(m, x, k, n), id)
  {
    if id == n {
      SplitUpNew(m, x, k, n);
    } else if id in m.nodes && id != m.root {
      if m.nodes[id].parent == m.nodes[x].parent {
        SplitUpSibling(m, x, k, n, id);
      } else if m.nodes[id].parent == x {
        SplitUpKid(m, x, k, n, id);
      } else {
        SplitUpOther(m, x, k, n, id);
      }
    }
  }

  lemma {:induction false} DownFromNew<V>(m: Tree<V>, x: Id, k: nat, n: Id, i: int)
    requires CanSplit(m, x, k, n)
    ensures Down(SplitAt(m, x, k, n), n, i)
  {
    SplitFacts(m, x, k, n);
    var X := m.nodes[x];
    if 0 <= i < |X.kids| - (k + 1) {
      var kid := X.kids[i + k + 1];
      assert Down(m, x, i + k + 1);
      assert SplitNode(m, x, k, n, kid) == m.nodes[kid].(parent := n, position := i);
    }
  }

  lemma {:induction false} DownFromParent<V>(m: Tree<V>, x: Id, k: nat, n: Id, i: int)
    requires CanSplit(m, x, k, n)
    ensures Down(SplitAt(m, x, k, n), m.nodes[x].parent, i)
  {
    SplitFacts(m, x, k, n);
    SplitKids(m, x, k, n);
    var X := m.nodes[x];
    var was := m.nodes[X.parent].kids;
    if 0 <= i <= X.position {
      assert Down(m, X.parent, i);
      assert SplitNode(m, x, k, n, was[i]).parent == X.parent && SplitNode(m, x, k, n, was[i]).position == i;
    } else if X.position + 1 < i <= |was| {
      assert Down(m, X.parent, i - 1);
      assert SplitNode(m, x, k, n, was[i - 1]).parent == X.parent && SplitNode(m, x, k, n, was[i - 1]).position == i;
    }
  }

  lemma {:induction false} DownFromOther<V>(m: Tree<V>, x: Id, k: nat, n: Id, id: Id, i: int)
    requires CanSplit(m, x, k, n) && id != n && id != m.nodes[x].parent
    ensures Down(SplitAt(m, x, k, n), id, i)
  {
    SplitFacts(m, x, k, n);
    assert Down(m, id, i);
    if id in m.nodes && 0 <= i < |m.nodes[id].kids| && (id == x ==> i <= k) {
      var kid := m.nodes[id].kids[i];
      assert SplitNode(m, x, k, n, kid).parent == id && SplitNode(m, x, k, n, kid).position == i;
    }
  }

  lemma {:induction false} SplitWellFormed<V>(m: Tree<V>, x: Id, k: nat, n: Id)
    requires CanSplit(m, x, k, n)
    ensures WellFormed(SplitAt(m, x, k, n))
  {
    var t := SplitAt(m, x, k, n);
    assert t.level.Keys == t.nodes.Keys;
    forall id ensures Shape(t, id) {
      SplitShape(m, x, k, n, id);
    }
    forall id ensures Up(t, id) {
      SplitUp(m, x, k, n, id);
    }
    forall id, i ensures Down(t, id, i) {
      if id == n {
        DownFromNew(m, x, k, n, i);
      } else if id == m.nodes[x].parent {
        DownFromParent(m, x, k, n, i);
      } else {
        DownFromOther(m, x, k, n, id, i);
      }
    }
  }

  // ----- a split leaves every sequence where it was -----

  lemma {:induction false} SubsSame<V>(m: Tree<V>, t: Tree<V>, ids: seq<Id>)
    requires forall i :: 0 <= i < |ids| ==> Sub(t, ids[i]) == Sub(m, ids[i])
    ensures Subs(t, ids) == Subs(m, ids)
  {
  }

  ghost predicate SubSplits<V>(m: Tree<V>, x: Id, k: nat, n: Id, id: Id)
    requires CanSplit(m, x, k, n)
  {
    if id == x then Sub(m, x) == Sub(SplitAt(m, x, k, n), x) + ([m.nodes[x].vals[k]] + Sub(SplitAt(m, x, k, n), n))
    else Sub(SplitAt(m, x, k, n), id) == Sub(m, id)
  }

  lemma {:induction false} SplitOtherSub<V>(m: Tree<V>, x: Id, k: nat, n: Id, id: Id)
    requires CanSplit(m, x, k, n) && id in m.nodes && id != x && id != m.nodes[x].parent
    requires forall i :: 0 <= i < |m.nodes[id].kids| ==> SubSplits(m, x, k, n, m.nodes[id].kids[i])
    ensures SubSplits(m, x, k, n, id)
  {
    var t := SplitAt(m, x, k, n);
    SplitWellFormed(m, x, k, n);
    assert t.nodes[id].vals == m.nodes[id].vals && t.nodes[id].kids == m.nodes[id].kids
        && t.nodes[id].leaf == m.nodes[id].leaf;
    if m.nodes[id].leaf {
      SubOfLeaf(m, id);
      SubOfLeaf(t, id);
    } else {
      forall i | 0 <= i < |m.nodes[id].kids| ensures Sub(t, m.nodes[id].kids[i]) == Sub(m, m.nodes[id].kids[i]) {
        assert Down(m, id, i);
        assert SubSplits(m, x, k, n, m.nodes[id].kids[i]);
      }
      SubsSame(m, t, m.nodes[id].kids);
      SubOfInternal(m, id);
      SubOfInternal(t, id);
    }
  }

  lemma {:induction false} SplitOwnSub<V>(m: Tree<V>, x: Id, k: nat, n: Id)
    requires CanSplit(m, x, k, n)
    requires forall i :: 0 <= i < |m.nodes[x].kids| ==> SubSplits(m, x, k, n, m.nodes[x].kids[i])
    ensures SubSplits(m, x, k, n, x)
  {
    var X, t := m.nodes[x], SplitAt(m, x, k, n);
    SplitWellFormed(m, x, k, n);
    SplitFacts(m, x, k, n);
    assert X.vals == X.vals[..k] + ([X.vals[k]] + X.vals[k + 1..]);
    if X.leaf {
      SubOfLeaf(m, x);
      SubOfLeaf(t, x);
      SubOfLeaf(t, n);
    } else {
      SplitOwnKids(m, x, k, n);
      SubOfInternal(m, x);
      SubOfInternal(t, x);
      SubOfInternal(t, n);
      WeaveSplit(Subs(t, t.nodes[x].kids), t.nodes[x].vals, X.vals[k], Subs(t, t.nodes[n].kids), t.nodes[n].vals);
    }
  }

  lemma {:induction false} SplitOwnKids<V>(m: Tree<V>, x: Id, k: nat, n: Id)
    requires CanSplit(m, x, k, n) && !m.nodes[x].leaf
    requires forall i :: 0 <= i < |m.nodes[x].kids| ==> SubSplits(m, x, k, n, m.nodes[x].kids[i])
    ensures k < |m.nodes[x].kids|
    ensures SplitAt(m, x, k, n).nodes[x].kids == m.nodes[x].kids[..k + 1]
    ensures SplitAt(m, x, k, n).nodes[n].kids == m.nodes[x].kids[k + 1..]
    ensures Subs(m, m.nodes[x].kids)
         == Subs(SplitAt(m, x, k, n), SplitAt(m, x, k, n).nodes[x].kids)
            + Subs(SplitAt(m, x, k, n), SplitAt(m, x, k, n).nodes[n].kids)
  {
    SplitFacts(m, x, k, n);
    var X, t := m.nodes[x], SplitAt(m, x, k, n);
    forall i | 0 <= i < |X.kids| ensures Sub(t, X.kids[i]) == Sub(m, X.kids[i]) {
      assert SubSplits(m, x, k, n, X.kids[i]) && Down(m, x, i);
    }
    SubsSame(m, t, X.kids);
    assert X.kids == X.kids[..k + 1] + X.kids[k + 1..];
    SubsSum(t, X.kids[..k + 1], X.kids[k + 1..]);
  }

  lemma {:induction false} SubsSum<V>(t: Tree<V>, a: seq<Id>, b: seq<Id>)
    ensures Subs(t, a + b) == Subs(t, a) + Subs(t, b)
  {
  }

  /** The other children of the parent keep their sequences. */
  lemma {:induction false} SplitSiblingSub<V>(m: Tree<V>, x: Id, k: nat, n: Id, i: nat)
    requires CanSplit(m, x, k, n)
    requires i < |m.nodes[m.nodes[x].parent].kids| && i != m.nodes[x].position
    requires SubSplits(m, x, k, n, m.nodes[m.nodes[x].parent].kids[i])
    ensures var was, t := m.nodes[m.nodes[x].parent].kids, SplitAt(m, x, k, n); Sub(t, was[i]) == Sub(m, was[i])
  {
    SplitFacts(m, x, k, n);
    assert Down(m, m.nodes[x].parent, i);
  }

  lemma {:induction false} TwoForOne<T>(fs: seq<T>, gs: seq<T>, j: nat, a: T, b: T)
    requires j < |fs| && |gs| == |fs| + 1 && gs[j] == a && gs[j + 1] == b
    requires forall i :: 0 <= i < j ==> gs[i] == fs[i]
    requires forall i :: j < i < |fs| ==> gs[i + 1] == fs[i]
    ensures gs == fs[..j] + [a, b] + fs[j + 1..]
  {
    forall i | 0 <= i < |gs| ensures gs[i] == (fs[..j] + [a, b] + fs[j + 1..])[i] {
      if i > j + 1 {
        assert gs[i - 1 + 1] == fs[i - 1];
      }
    }
  }

  /** The sequences of the parent's children, before and after. */
  lemma {:induction false} SplitParentSubs<V>(m: Tree<V>, x: Id, k: nat, n: Id)
    requires CanSplit(m, x, k, n)
    requires forall i :: 0 <= i < |m.nodes[m.nodes[x].parent].kids| ==>
      SubSplits(m, x, k, n, m.nodes[m.nodes[x].parent].kids[i])
    ensures var X, t := m.nodes[x], SplitAt(m, x, k, n); var fs := Subs(m, m.nodes[X.parent].kids);
      && X.position < |fs| && fs[X.position] == Sub(m, x) && SubSplits(m, x, k, n, x)
      && Subs(t, t.nodes[X.parent].kids) == fs[..X.position] + [Sub(t, x), Sub(t, n)] + fs[X.position + 1..]
  {
    SplitFacts(m, x, k, n);
    SplitKids(m, x, k, n);
    var X, t := m.nodes[x], SplitAt(m, x, k, n);
    var j, was, now := X.position, m.nodes[X.parent].kids, t.nodes[X.parent].kids;
    assert SubSplits(m, x, k, n, was[j]);
    forall i | 0 <= i < |was| && i != j ensures Sub(t, was[i]) == Sub(m, was[i]) {
      assert SubSplits(m, x, k, n, was[i]);
      SplitSiblingSub(m, x, k, n, i);
    }
    TwoForOne(Subs(m, was), Subs(t, now), j, Sub(t, x), Sub(t, n));
  }

  lemma {:induction false} SplitParentSub<V>(m: Tree<V>, x: Id, k: nat, n: Id)
    requires CanSplit(m, x, k, n)
    requires forall i :: 0 <= i < |m.nodes[m.nodes[x].parent].kids| ==>
      SubSplits(m, x, k, n, m.nodes[m.nodes[x].parent].kids[i])
    ensures SubSplits(m, x, k, n, m.nodes[x].parent)
  {
    SplitWellFormed(m, x, k, n);
    SplitFacts(m, x, k, n);
    SplitParentSubs(m, x, k, n);
    var X, t := m.nodes[x], SplitAt(m, x, k, n);
    var p, j := X.parent, X.position;
    SubOfInternal(m, p);
    SubOfInternal(t, p);
    WeaveJoin(Subs(m, m.nodes[p].kids), m.nodes[p].vals, j, Sub(t, x), X.vals[k], Sub(t, n));
  }

  /** The sequence of the split node is that of its two halves around the value between them; every other
      sequence is unchanged. */
  lemma {:induction false} SplitSub<V>(m: Tree<V>, x: Id, k: nat, n: Id, id: Id)
    requires CanSplit(m, x, k, n) && id in m.nodes
    ensures SubSplits(m, x, k, n, id)
    decreases m.level[id]
  {
    forall i | 0 <= i < |m.nodes[id].kids| ensures SubSplits(m, x, k, n, m.nodes[id].kids[i]) {
      assert Down(m, id, i);
      SplitSub(m, x, k, n, m.nodes[id].kids[i]);
    }
    if id == x {
      SplitOwnSub(m, x, k, n);
    } else if id == m.nodes[x].parent {
      SplitParentSub(m, x, k, n);
    } else {
      SplitOtherSub(m, x, k, n, id);
    }
  }

  lemma {:induction false} SplitAllSubs<V>(m: Tree<V>, x: Id, k: nat, n: Id, id: Id)
    requires CanSplit(m, x, k, n) && id in m.nodes
    ensures forall i :: 0 <= i < |m.nodes[id].kids| ==> SubSplits(m, x, k, n, m.nodes[id].kids[i])
  {
    forall i | 0 <= i < |m.nodes[id].kids| ensures SubSplits(m, x, k, n, m.nodes[id].kids[i]) {
      assert Down(m, id, i);
      SplitSub(m, x, k, n, m.nodes[id].kids[i]);
    }
  }

  /** The children of the split node's parent begin where they did, and the new node after the old one and
      the value between them. */
  lemma {:induction false} SplitSiblingStart<V>(m: Tree<V>, x: Id, k: nat, n: Id, id: Id)
    requires CanSplit(m, x, k, n) && StartOf(SplitAt(m, x, k, n), m.nodes[x].parent) == StartOf(m, m.nodes[x].parent)
    requires id == n || (id in m.nodes && id != m.root && m.nodes[id].parent == m.nodes[x].parent)
    ensures StartOf(SplitAt(m, x, k, n), id)
         == if id == n then StartOf(m, x) + |Sub(SplitAt(m, x, k, n), x)| + 1 else StartOf(m, id)
  {
    SplitWellFormed(m, x, k, n);
    SplitFacts(m, x, k, n);
    var X, t := m.nodes[x], SplitAt(m, x, k, n);
    var p, j, z := X.parent, X.position, if id == n then x else id;
    var i := m.nodes[z].position;
    StartOfChild(m, p, i, z);
    SplitAllSubs(m, x, k, n, p);
    SplitParentSubs(m, x, k, n);
    OffJoin(Subs(m, m.nodes[p].kids), j, Sub(t, x), Sub(t, n), i);
    SplitSiblingRecord(m, x, k, n, id);
    StartOfChild(t, p, t.nodes[id].position, id);
  }

  lemma {:induction false} SplitSiblingRecord<V>(m: Tree<V>, x: Id, k: nat, n: Id, id: Id)
    requires CanSplit(m, x, k, n)
    requires id == n || (id in m.nodes && id != m.root && m.nodes[id].parent == m.nodes[x].parent)
    ensures var r, j := SplitAt(m, x, k, n).nodes[id], m.nodes[x].position;
      && r.parent == m.nodes[x].parent
      && r.position == if id == n then j + 1
                       else if m.nodes[id].position > j then m.nodes[id].position + 1 else m.nodes[id].position
  {
    SplitFacts(m, x, k, n);
    if id != n {
      ParentLinks(m, id);
    }
  }

  lemma {:induction false} SplitKidStart<V>(m: Tree<V>, x: Id, k: nat, n: Id, id: Id)
    requires CanSplit(m, x, k, n) && id in m.nodes && id != m.root && m.nodes[id].parent == x
    requires StartOf(SplitAt(m, x, k, n), x) == StartOf(m, x)
    requires StartOf(SplitAt(m, x, k, n), n) == StartOf(m, x) + |Sub(SplitAt(m, x, k, n), x)| + 1
    ensures StartOf(SplitAt(m, x, k, n), id) == StartOf(m, id)
  {
    var X, t, i := m.nodes[x], SplitAt(m, x, k, n), m.nodes[id].position;
    StartOfChild(m, x, i, id);
    assert Shape(m, x);
    SplitWellFormed(m, x, k, n);
    SplitFacts(m, x, k, n);
    SplitAllSubs(m, x, k, n, x);
    SplitOwnKids(m, x, k, n);
    var f1, f2 := Subs(t, t.nodes[x].kids), Subs(t, t.nodes[n].kids);
    SubOfInternal(t, x);
    OffHalves(f1, f2, t.nodes[x].vals, i);
    SplitKidRecord(m, x, k, n, id);
    if i <= k {
      StartOfChild(t, x, i, id);
    } else {
      StartOfChild(t, n, i - (k + 1), id);
    }
  }

  lemma {:induction false} SplitKidRecord<V>(m: Tree<V>, x: Id, k: nat, n: Id, id: Id)
    requires CanSplit(m, x, k, n) && id in m.nodes && id != m.root && m.nodes[id].parent == x
    ensures SplitAt(m, x, k, n).nodes[id]
         == if m.nodes[id].position <= k then m.nodes[id]
            else m.nodes[id].(parent := n, position := m.nodes[id].position - (k + 1))
  {
    SplitFacts(m, x, k, n);
    ParentLinks(m, id);
  }

  lemma {:induction false} SplitOtherStart<V>(m: Tree<V>, x: Id, k: nat, n: Id, id: Id)
    requires CanSplit(m, x, k, n) && id in m.nodes && id != m.root
    requires m.nodes[id].parent in m.nodes && m.nodes[id].parent != x && m.nodes[id].parent != m.nodes[x].parent
    requires StartOf(SplitAt(m, x, k, n), m.nodes[id].parent) == StartOf(m, m.nodes[id].parent)
    ensures StartOf(SplitAt(m, x, k, n), id) == StartOf(m, id)
  {
    SplitWellFormed(m, x, k, n);
    SplitFacts(m, x, k, n);
    var t, q := SplitAt(m, x, k, n), m.nodes[id].parent;
    assert t.nodes[id].parent == q && t.nodes[id].position == m.nodes[id].position
        && t.nodes[q].kids == m.nodes[q].kids by {
      ParentLinks(m, id);
    }
    StartOfChild(m, q, m.nodes[id].position, id);
    StartOfChild(t, q, m.nodes[id].position, id);
    SplitAllSubs(m, x, k, n, q);
    forall i | 0 <= i < |m.nodes[q].kids| ensures Sub(t, m.nodes[q].kids[i]) == Sub(m, m.nodes[q].kids[i]) {
      assert SubSplits(m, x, k, n, m.nodes[q].kids[i]) && Down(m, q, i);
    }
    SubsSame(m, t, m.nodes[q].kids);
  }

  /** Every subtree begins where it did. */
  lemma {:induction false} SplitStart<V>(m: Tree<V>, x: Id, k: nat, n: Id, id: Id)
    requires CanSplit(m, x, k, n) && id in m.nodes
    ensures StartOf(SplitAt(m, x, k, n), id) == StartOf(m, id)
    decreases Depth(m, id)
  {
    if id == m.root {
      SplitWellFormed(m, x, k, n);
      StartOfRoot(m);
      StartOfRoot(SplitAt(m, x, k, n));
    } else {
      ParentLinks(m, id);
      var q := m.nodes[id].parent;
      SplitStart(m, x, k, n, q);
      if q == m.nodes[x].parent {
        SplitSiblingStart(m, x, k, n, id);
      } else if q == x {
        ParentLinks(m, x);
        SplitStart(m, x, k, n, m.nodes[x].parent);
        SplitSiblingStart(m, x, k, n, n);
        SplitKidStart(m, x, k, n, id);
      } else {
        SplitOtherStart(m, x, k, n, id);
      }
    }
  }

  lemma {:induction false} SplitNewStart<V>(m: Tree<V>, x: Id, k: nat, n: Id)
    requires CanSplit(m, x, k, n)
    ensures StartOf(SplitAt(m, x, k, n), n) == StartOf(m, x) + |Sub(SplitAt(m, x, k, n), x)| + 1
  {
    SplitStart(m, x, k, n, m.nodes[x].parent);
    SplitSiblingStart(m, x, k, n, n);
  }

  // ----- merging -----

  /** Node `y` is the right neighbour of `x` under the same parent. */
  ghost predicate CanMerge<V>(t: Tree<V>, x: Id, y: Id) {
    && WellFormed(t) && x in t.nodes && y in t.nodes && x != t.root && y != t.root && t.nodes[x].parent in t.nodes
    && t.nodes[y].parent == t.nodes[x].parent && t.nodes[y].position == t.nodes[x].position + 1
  }

  ghost function Without<T>(s: seq<T>, i: nat): seq<T> {
    Take(s, i) + Drop(s, i + 1)
  }

  /** The value between the two. */
  ghost function Delimiter<V>(t: Tree<V>, x: Id): seq<V>
    requires x in t.nodes && t.nodes[x].parent in t.nodes
  {
    Take(Drop(t.nodes[t.nodes[x].parent].vals, t.nodes[x].position), 1)
  }

  ghost function MergeNode<V>(t: Tree<V>, x: Id, y: Id, id: Id): Node<V>
    requires CanMerge(t, x, y) && id in t.nodes
  {
    var X, Y, r := t.nodes[x], t.nodes[y], t.nodes[id];
    var p, j := X.parent, X.position;
    if id == x then r.(vals := X.vals + Delimiter(t, x) + Y.vals, kids := X.kids + Y.kids)
    else if id == p then r.(vals := Without(r.vals, j), kids := Without(r.kids, j + 1))
    else if id != t.root && r.parent == p && r.position > j
      then r.(position := if r.position == 0 then 0 else r.position - 1)
    else if id != t.root && r.parent == y then r.(parent := x, position := r.position + |X.vals| + 1)
    else r
  }

  ghost function MergeAt<V>(t: Tree<V>, x: Id, y: Id): Tree<V>
    requires CanMerge(t, x, y)
  {
    Tree(map id | id in t.nodes.Keys - {y} :: MergeNode(t, x, y, id), t.level - {y}, t.root)
  }

  lemma {:induction false} MergeFacts<V>(t: Tree<V>, x: Id, y: Id)
    requires CanMerge(t, x, y)
    ensures var X, Y := t.nodes[x], t.nodes[y]; var P := t.nodes[X.parent];
      && !P.leaf && X.position + 1 < |P.kids| && P.kids[X.position] == x && P.kids[X.position + 1] == y
      && |P.kids| == |P.vals| + 1 && X.parent != x && X.parent != y && x != y
      && |X.kids| == (if X.leaf then 0 else |X.vals| + 1) && |Y.kids| == (if X.leaf then 0 else |Y.vals| + 1)
      && X.leaf == Y.leaf
      && t.level[X.parent] == t.level[x] + 1 && t.level[y] == t.level[x] && (X.leaf <==> t.level[x] == 0)
      && Delimiter(t, x) == [P.vals[X.position]]
  {
    ParentLinks(t, x);
    ParentLinks(t, y);
    assert Shape(t, x) && Shape(t, y) && Shape(t, t.nodes[x].parent);
  }

  lemma {:induction false} MergeShape<V>(t: Tree<V>, x: Id, y: Id, id: Id)
    requires CanMerge(t, x, y)
    ensures Shape(MergeAt(t, x, y), id)
  {
    MergeFacts(t, x, y);
    assert Shape(t, id);
  }

  lemma {:induction false} MergeKids<V>(t: Tree<V>, x: Id, y: Id)
    requires CanMerge(t, x, y)
    ensures t.nodes[x].parent in MergeAt(t, x, y).nodes && x in MergeAt(t, x, y).nodes
    ensures var X := t.nodes[x]; var was, now := t.nodes[X.parent].kids, MergeAt(t, x, y).nodes[X.parent].kids;
      && X.position + 1 < |was| && |was| == |now| + 1
      && (forall i :: 0 <= i <= X.position ==> now[i] == was[i])
      && (forall i :: X.position < i < |now| ==> now[i] == was[i + 1])
  {
    MergeFacts(t, x, y);
  }

  /** What becomes of a child of each node. */
  lemma {:induction false} MergeRecord<V>(t: Tree<V>, x: Id, y: Id, id: Id)
    requires CanMerge(t, x, y) && id in t.nodes && id != t.root && id != y
    ensures id in MergeAt(t, x, y).nodes
    ensures var r, s, X := t.nodes[id], MergeAt(t, x, y).nodes[id], t.nodes[x];
      && s.parent == (if r.parent == y then x else r.parent)
      && s.position == if r.parent == y then r.position + |X.vals| + 1
                       else if r.parent == X.parent && r.position > X.position then r.position - 1 else r.position
    ensures id != x && id != t.nodes[x].parent ==>
        MergeAt(t, x, y).nodes[id] == t.nodes[id].(parent := MergeAt(t, x, y).nodes[id].parent,
                                       position := MergeAt(t, x, y).nodes[id].position)
  {
    MergeFacts(t, x, y);
    ParentLinks(t, id);
  }

  lemma {:induction false} MergeUpSibling<V>(t: Tree<V>, x: Id, y: Id, id: Id)
    requires CanMerge(t, x, y) && id in t.nodes && id != t.root && id != y && t.nodes[id].parent == t.nodes[x].parent
    ensures Up(MergeAt(t, x, y), id)
  {
    MergeFacts(t, x, y);
    MergeRecord(t, x, y, id);
    ParentLinks(t, id);
    MergeKids(t, x, y);
    var q, i := t.nodes[x].parent, t.nodes[id].position;
    if i > t.nodes[x].position {
      assert MergeAt(t, x, y).nodes[q].kids[i - 1] == t.nodes[q].kids[i - 1 + 1];
    }
  }

  lemma {:induction false} MergeUpKid<V>(t: Tree<V>, x: Id, y: Id, id: Id)
    requires CanMerge(t, x, y) && id in t.nodes && id != t.root && id != y
    requires t.nodes[id].parent == x || t.nodes[id].parent == y
    ensures Up(MergeAt(t, x, y), id)
  {
    MergeFacts(t, x, y);
    MergeRecord(t, x, y, id);
    ParentLinks(t, id);
    assert MergeAt(t, x, y).nodes[x].kids == t.nodes[x].kids + t.nodes[y].kids;
  }

  lemma {:induction false} MergeUpOther<V>(t: Tree<V>, x: Id, y: Id, id: Id)
    requires CanMerge(t, x, y) && id in t.nodes && id != t.root && id != y
    requires t.nodes[id].parent !in {x, y, t.nodes[x].parent}
    ensures Up(MergeAt(t, x, y), id)
  {
    MergeFacts(t, x, y);
    MergeRecord(t, x, y, id);
    ParentLinks(t, id);
    assert MergeAt(t, x, y).nodes[t.nodes[id].parent].kids == t.nodes[t.nodes[id].parent].kids;
  }

  lemma {:induction false} MergeUp<V>(t: Tree<V>, x: Id, y: Id, id: Id)
    requires CanMerge(t, x, y)
    ensures Up(MergeAt(t, x, y), id)
  {
    if id in t.nodes && id != t.root && id != y {
      if t.nodes[id].parent == t.nodes[x].parent {
        MergeUpSibling(t, x, y, id);
      } else if t.nodes[id].parent == x || t.nodes[id].parent == y {
        MergeUpKid(t, x, y, id);
      } else {
        MergeUpOther(t, x, y, id);
      }
    }
  }

  lemma {:induction false} MergeDown<V>(t: Tree<V>, x: Id, y: Id, id: Id, i: int)
    requires CanMerge(t, x, y)
    ensures Down(MergeAt(t, x, y), id, i)
  {
    MergeFacts(t, x, y);
    var X, Y, m := t.nodes[x], t.nodes[y], MergeAt(t, x, y);
    if id in m.nodes && 0 <= i < |m.nodes[id].kids| {
      var q, k := id, i;
      if id == X.parent {
        MergeKids(t, x, y);
        k := if i > X.position then i + 1 else i;
      } else if id == x {
        assert m.nodes[x].kids == X.kids + Y.kids;
        if i >= |X.kids| {
          q, k := y, i - |X.kids|;
        }
      } else {
        assert m.nodes[id].kids == t.nodes[id].kids;
      }
      assert Down(t, q, k);
      assert t.nodes[q].kids[k] == m.nodes[id].kids[i];
      MergeRecord(t, x, y, t.nodes[q].kids[k]);
    }
  }

  lemma {:induction false} MergeWellFormed<V>(t: Tree<V>, x: Id, y: Id)
    requires CanMerge(t, x, y)
    ensures WellFormed(MergeAt(t, x, y))
  {
    var m := MergeAt(t, x, y);
    assert m.level.Keys == m.nodes.Keys;
    forall id ensures Shape(m, id) {
      MergeShape(t, x, y, id);
    }
    forall id ensures Up(m, id) {
      MergeUp(t, x, y, id);
    }
    forall id, i ensures Down(m, id, i) {
      MergeDown(t, x, y, id, i);
    }
  }

  lemma {:induction false} WithoutInverse<T>(s: seq<T>, i: nat)
    requires i < |s|
    ensures Take(Without(s, i), i) + [s[i]] + Drop(Without(s, i), i) == s
  {
  }

  lemma {:induction false} MergeUndoesParent<V>(t: Tree<V>, x: Id, y: Id)
    requires CanMerge(t, x, y) && CanSplit(MergeAt(t, x, y), x, |t.nodes[x].vals|, y)
    ensures SplitNode(MergeAt(t, x, y), x, |t.nodes[x].vals|, y, t.nodes[x].parent) == t.nodes[t.nodes[x].parent]
  {
    MergeFacts(t, x, y);
    var X, P := t.nodes[x], t.nodes[t.nodes[x].parent];
    WithoutInverse(P.vals, X.position);
    WithoutInverse(P.kids, X.position + 1);
  }

  lemma {:induction false} MergeUndoesOther<V>(t: Tree<V>, x: Id, y: Id, id: Id)
    requires CanMerge(t, x, y) && CanSplit(MergeAt(t, x, y), x, |t.nodes[x].vals|, y)
    requires id in t.nodes && id != x && id != y && id != t.nodes[x].parent
    ensures SplitNode(MergeAt(t, x, y), x, |t.nodes[x].vals|, y, id) == t.nodes[id]
  {
    var X, r, m := t.nodes[x], t.nodes[id], MergeAt(t, x, y);
    MergeFacts(t, x, y);
    if id != t.root {
      ParentLinks(t, id);
      MergeRecord(t, x, y, id);
      assert r.parent == X.parent ==> r.position != X.position && r.position != X.position + 1;
    }
  }

  lemma {:induction false} MergeUndoes<V>(t: Tree<V>, x: Id, y: Id, id: Id)
    requires CanMerge(t, x, y) && t.nodes[x].maxCount == t.nodes[y].maxCount && id in t.nodes
    requires CanSplit(MergeAt(t, x, y), x, |t.nodes[x].vals|, y)
    ensures SplitNode(MergeAt(t, x, y), x, |t.nodes[x].vals|, y, id) == t.nodes[id]
  {
    if id == x || id == y {
      MergeFacts(t, x, y);
    } else if id == t.nodes[x].parent {
      MergeUndoesParent(t, x, y);
    } else {
      MergeUndoesOther(t, x, y, id);
    }
  }

  /** Splitting where the two were merged gives the tree back. */
  lemma {:induction false} MergeInverse<V>(t: Tree<V>, x: Id, y: Id)
    requires CanMerge(t, x, y) && t.nodes[x].maxCount == t.nodes[y].maxCount
    ensures CanSplit(MergeAt(t, x, y), x, |t.nodes[x].vals|, y)
    ensures SplitAt(MergeAt(t, x, y), x, |t.nodes[x].vals|, y) == t
  {
    MergeCanSplit(t, x, y);
    SplitMerged(t, x, y, MergeAt(t, x, y), SplitAt(MergeAt(t, x, y), x, |t.nodes[x].vals|, y));
  }

  lemma {:induction false} MergeCanSplit<V>(t: Tree<V>, x: Id, y: Id)
    requires CanMerge(t, x, y) && t.nodes[x].maxCount == t.nodes[y].maxCount
    ensures CanSplit(MergeAt(t, x, y), x, |t.nodes[x].vals|, y)
  {
    MergeFacts(t, x, y);
    MergeWellFormed(t, x, y);
    assert MergeAt(t, x, y).nodes[x].parent == t.nodes[x].parent;
  }

  lemma {:induction false} SplitMergedKeys<V>(t: Tree<V>, x: Id, y: Id)
    requires CanMerge(t, x, y) && CanSplit(MergeAt(t, x, y), x, |t.nodes[x].vals|, y)
    ensures var u := SplitAt(MergeAt(t, x, y), x, |t.nodes[x].vals|, y);
      u.root == t.root && u.nodes.Keys == t.nodes.Keys && u.level.Keys == t.level.Keys
  {
    MergeFacts(t, x, y);
    var m := MergeAt(t, x, y);
    assert m.nodes.Keys + {y} == t.nodes.Keys && m.level.Keys + {y} == t.level.Keys;
  }

  lemma {:induction false} SplitMergedLevel<V>(t: Tree<V>, x: Id, y: Id, id: Id)
    requires CanMerge(t, x, y) && CanSplit(MergeAt(t, x, y), x, |t.nodes[x].vals|, y) && id in t.level
    ensures var u := SplitAt(MergeAt(t, x, y), x, |t.nodes[x].vals|, y); id in u.level && u.level[id] == t.level[id]
  {
    MergeFacts(t, x, y);
  }

  lemma {:induction false} SplitMerged<V>(t: Tree<V>, x: Id, y: Id, m: Tree<V>, u: Tree<V>)
    requires CanMerge(t, x, y) && t.nodes[x].maxCount == t.nodes[y].maxCount && m == MergeAt(t, x, y)
    requires CanSplit(m, x, |t.nodes[x].vals|, y) && u == SplitAt(m, x, |t.nodes[x].vals|, y)
    ensures u == t
  {
    SplitMergedKeys(t, x, y);
    forall id | id in t.level ensures id in u.level && u.level[id] == t.level[id] {
      SplitMergedLevel(t, x, y, id);
    }
    forall id | id in t.nodes ensures id in u.nodes && u.nodes[id] == t.nodes[id] {
      MergeUndoes(t, x, y, id);
    }
    SameTree(u, t);
  }

  lemma {:induction false} SameTree<V>(u: Tree<V>, t: Tree<V>)
    requires u.root == t.root && u.nodes.Keys == t.nodes.Keys && u.level.Keys == t.level.Keys
    requires forall id :: id in t.nodes ==> id in u.nodes && u.nodes[id] == t.nodes[id]
    requires forall id :: id in t.level ==> id in u.level && u.level[id] == t.level[id]
    ensures u == t
  {
    assert u.nodes == t.nodes && u.level == t.level;
  }

  /** Merging keeps every sequence and every start; the merged node's sequence is that of the two around
      the value between them. */
  lemma {:induction false} MergeKeeps<V>(t: Tree<V>, x: Id, y: Id, id: Id)
    requires CanMerge(t, x, y) && t.nodes[x].maxCount == t.nodes[y].maxCount && id in t.nodes && id != y
    ensures StartOf(MergeAt(t, x, y), id) == StartOf(t, id)
    ensures id != x ==> Sub(MergeAt(t, x, y), id) == Sub(t, id)
    ensures Sub(MergeAt(t, x, y), x) == Sub(t, x) + (Delimiter(t, x) + Sub(t, y))
    ensures StartOf(t, y) == StartOf(t, x) + |Sub(t, x)| + 1
  {
    MergeInverse(t, x, y);
    MergeFacts(t, x, y);
    var m, k := MergeAt(t, x, y), |t.nodes[x].vals|;
    assert m.nodes[x].vals[k] == Delimiter(t, x)[0];
    SplitStart(m, x, k, y, id);
    SplitSub(m, x, k, y, id);
    SplitSub(m, x, k, y, x);
    SplitStart(m, x, k, y, x);
    SplitNewStart(m, x, k, y);
  }

  // ----- moving values between neighbours -----

  /** The two neighbours share their values and the one between them anew: `x` keeps the first `k`. */
  ghost predicate CanShare<V>(t: Tree<V>, x: Id, y: Id, k: nat) {
    CanMerge(t, x, y) && t.nodes[x].maxCount == t.nodes[y].maxCount && k <= |t.nodes[x].vals| + |t.nodes[y].vals|
  }

  ghost function Share<V>(t: Tree<V>, x: Id, y: Id, k: nat): Tree<V>
    requires CanShare(t, x, y, k)
  {
    MergeFacts(t, x, y);
    MergeWellFormed(t, x, y);
    SplitAt(MergeAt(t, x, y), x, k, y)
  }

  lemma {:induction false} ShareKeeps<V>(t: Tree<V>, x: Id, y: Id, k: nat, id: Id)
    requires CanShare(t, x, y, k) && id in t.nodes && id != y
    ensures WellFormed(Share(t, x, y, k))
    ensures StartOf(Share(t, x, y, k), id) == StartOf(t, id)
    ensures id != x ==> Sub(Share(t, x, y, k), id) == Sub(t, id)
    ensures StartOf(Share(t, x, y, k), y) == StartOf(t, x) + |Sub(Share(t, x, y, k), x)| + 1
  {
    MergeFacts(t, x, y);
    MergeWellFormed(t, x, y);
    MergeKeeps(t, x, y, id);
    MergeKeeps(t, x, y, x);
    var m := MergeAt(t, x, y);
    SplitWellFormed(m, x, k, y);
    SplitStart(m, x, k, y, id);
    SplitSub(m, x, k, y, id);
    SplitNewStart(m, x, k, y);
  }
}
